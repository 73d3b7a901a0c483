/**
 Division of exact multiples by multiplication with a precomputed constant, and the region index it
 recovers from an address in a slab.
 */
module ExactDivision {
  import opened Common

  const TWO32: nat := 0x1_0000_0000
  const TWO64: nat := 0x1_0000_0000_0000_0000

  function CeilDiv(a: nat, d: nat): nat
    requires d > 0
  {
    (a + d - 1) / d
  }

  /** The constant for d: 2^32 / d rounded up; for one it does not fit 32 bits and comes out as 0. */
  function Magic(d: nat): nat
    requires d > 0
  {
    if d == 1 then 0 else CeilDiv(TWO32, d)
  }

  /** div_compute: multiply in 64 bits and keep the high word. */
  function Compute(magic: nat, n: nat): nat { n * magic % TWO64 / TWO32 }

  class DivInfo {
    var magic: nat
    var d: nat          // kept by debug builds

    ghost predicate Valid()
      reads this
    {
      d > 0 && magic == Magic(d) < TWO32
    }

    /** div_init for any divisor but 0; the quotient and the increment are kept in 32 bits. */
    constructor (d: nat)
      requires d > 0
      ensures Valid() && this.d == d
    {
      var m := TWO32 / d % TWO32;
      Quotient(d);
      if TWO32 % d != 0 {
        m := (m + 1) % TWO32;
      }
      magic := m;
      this.d := d;
    }

    /** div_compute: a multiple of d is divided by it, except that a division by one gives 0. */
    method Divide(n: nat) returns (q: nat)
      requires Valid() && n < TWO32
      ensures n % d == 0 && d > 1 ==> q == n / d && q * d == n
      ensures d == 1 ==> q == 0
    {
      q := n * magic % TWO64 / TWO32;
      if n % d == 0 && d > 1 {
        assert n == n / d * d;
        ExactQuotient(d, n / d);
      }
    }
  }

  lemma Quotient(d: nat)
    requires d > 0
    ensures d == 1 ==> TWO32 / d == TWO32 && TWO32 % d == 0
    ensures d > 1 ==> TWO32 / d < TWO32 - 1
    ensures CeilDiv(TWO32, d) == TWO32 / d + (if TWO32 % d == 0 then 0 else 1)
  {
    var q, r := TWO32 / d, TWO32 % d;
    assert TWO32 == d * q + r;
    if r == 0 {
      DivUnique(TWO32 + d - 1, d, q, d - 1);
    } else {
      assert d * (q + 1) == d * q + d;
      DivUnique(TWO32 + d - 1, d, q + 1, r - 1);
    }
    if d > 1 {
      MulLe(2, d, q);
    }
  }

  /** magic * d overshoots 2^32 by less than d. */
  lemma MagicTimes(d: nat)
    requires d > 1
    ensures TWO32 <= CeilDiv(TWO32, d) * d < TWO32 + d
    ensures CeilDiv(TWO32, d) < TWO32
  {
    Quotient(d);
    var q, r := TWO32 / d, TWO32 % d;
    assert TWO32 == d * q + r;
    assert (q + 1) * d == q * d + d;
  }

  /** The product is q * 2^32 and less than 2^32 more, and fits 64 bits. */
  lemma Product(d: nat, q: nat)
    requires d > 1 && q * d < TWO32
    ensures var p := q * d * CeilDiv(TWO32, d);
      q * TWO32 <= p < q * TWO32 + TWO32 && p < TWO64
  {
    var m := CeilDiv(TWO32, d);
    MagicTimes(d);
    var r := m * d - TWO32;
    var p := q * d * m;
    assert p == q * (m * d);
    assert p == q * (TWO32 + r);
    assert p == q * TWO32 + q * r;
    MulLe(0, r, q);
    MulLe(r, d, q);
    assert q * r == r * q && d * q == q * d;
    MulLe(q * d, TWO32 - 1, m);
  }

  /** For every multiple of d below 2^32 the shifted product is the quotient. */
  lemma ExactQuotient(d: nat, q: nat)
    requires d > 1 && q * d < TWO32
    ensures Compute(CeilDiv(TWO32, d), q * d) == q
  {
    Product(d, q);
    var p := q * d * CeilDiv(TWO32, d);
    assert p % TWO64 == p;
    DivUnique(p, TWO32, q, p - q * TWO32);
  }

  predicate Exact(d: nat, q: nat)
    requires d > 0
  {
    Compute(Magic(d), q * d) == q
  }

  /** The division is exact on all multiples exactly when the divisor is not one, the value whose
      constant would need 33 bits. */
  lemma ExactUnlessOne(d: nat)
    requires d > 0
    ensures (forall q: nat :: q * d < TWO32 ==> Exact(d, q)) <==> d != 1
  {
    if d == 1 {
      assert 1 * d < TWO32 && !Exact(d, 1);
    } else {
      forall q: nat | q * d < TWO32 ensures Exact(d, q) {
        ExactQuotient(d, q);
      }
    }
  }

  // ------------------------------------------------------------------ regions of a slab

  /** arena_slab_reg_alloc's address of region i. */
  function RegAddr(slab: nat, regSize: nat, i: nat): nat { slab + regSize * i }

  /** arena_slab_regind */
  function Regind(slab: nat, regSize: nat, ptr: nat): nat
    requires regSize > 0 && slab <= ptr
  {
    Compute(Magic(regSize), ptr - slab)
  }

  /** Freeing finds the region that allocation handed out. */
  lemma RegindInvertsRegAddr(slab: nat, regSize: nat, nregs: nat, i: nat)
    requires regSize > 1 && i < nregs && regSize * nregs <= TWO32
    ensures Regind(slab, regSize, RegAddr(slab, regSize, i)) == i
  {
    MulLe(i + 1, nregs, regSize);
    assert (i + 1) * regSize == i * regSize + regSize;
    assert nregs * regSize == regSize * nregs && i * regSize == regSize * i;
    ExactQuotient(regSize, i);
  }
}
