/**
 What several modules share: an optional value, the range of 64-bit numbers, powers of two and the
 arithmetic of products and remainders.
 */
module Common {

  datatype Option<T> = None | Some(value: T)

  const RANGE: nat := 0x1_0000_0000_0000_0000

  function Pow2(n: nat): (p: nat)
    ensures p > 0
  {
    if n == 0 then 1 else 2 * Pow2(n - 1)
  }

  lemma MulLe(a: int, b: int, c: int)
    requires a <= b && c >= 0
    ensures a * c <= b * c
  {
  }

  lemma MulBound(m: int, d: int)
    requires m >= 0
    ensures d >= 1 ==> m * d >= m
    ensures d <= -1 ==> m * d <= -m
  {
  }

  /** a = d*q + r determines q. */
  lemma DivUnique(a: int, d: int, q: int, r: int)
    requires d > 0 && a == d * q + r && 0 <= r < d
    ensures a / d == q && a % d == r
  {
    var k := a / d - q;
    assert d * k == r - a % d;
    MulBound(d, k);
  }

  lemma MultipleMod(k: nat, d: nat)
    requires d > 0
    ensures (k * d) % d == 0
  {
    DivUnique(k * d, d, k, 0);
  }

  lemma ModStep(x: int, y: int)
    ensures (x % RANGE + y) % RANGE == (x + y) % RANGE
  {
  }

  /** A set of numbers below n has at most n members, and all of them are present when it has n. */
  lemma {:induction false} FullHouse(ids: set<nat>, n: nat)
    requires forall i :: i in ids ==> i < n
    ensures |ids| <= n
    ensures |ids| == n <==> forall i: nat :: i < n ==> i in ids
  {
    if n > 0 {
      var rest := ids - {n - 1};
      FullHouse(rest, n - 1);
      if n - 1 in ids {
        assert ids == rest + {n - 1};
      } else {
        assert rest == ids;
      }
    }
  }
}
