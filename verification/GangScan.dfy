/**
 The parallel reduction and scan over blocks, against their serial forms.  `f` is the combining
 function, `zero` the start value the caller passes, and `u0` the (U)0 from which the scan starts
 the sum of each block.  The tasks of one submission touch disjoint cells, so they are run whole,
 in an arbitrary order.  A block has 2048 elements (BLOCK_SIZE).
 */
module GangScan {
  import opened Common

  // ------------------------------------------------------------------ serial meaning

  /** f(..f(f(r, s[0]), s[1]).., s[n-1]) */
  function Fold<V>(f: (V, V) -> V, r: V, s: seq<V>): V {
    if s == [] then r else f(Fold(f, r, s[..|s| - 1]), s[|s| - 1])
  }

  /** The same from the other end: the last element is combined first. */
  function FoldBack<V>(f: (V, V) -> V, r: V, s: seq<V>): V {
    if s == [] then r else f(FoldBack(f, r, s[1..]), s[0])
  }

  function Total<V>(f: (V, V) -> V, zero: V, s: seq<V>, back: bool): V {
    if back then FoldBack(f, zero, s) else Fold(f, zero, s)
  }

  /** What a scan leaves at index k: everything before k (after k, backward) and, when inclusive,
      the element itself. */
  function ScanAt<V>(f: (V, V) -> V, zero: V, s: seq<V>, k: nat, inclusive: bool, back: bool): V
    requires k < |s|
  {
    if back then FoldBack(f, zero, if inclusive then s[k..] else s[k + 1..])
    else Fold(f, zero, if inclusive then s[..k + 1] else s[..k])
  }

  // ------------------------------------------------------------------ blocks

  function Blocks(n: nat): nat { (n + 2048 - 1) / 2048 }

  function BlockEnd(n: nat, j: nat): nat
    requires j < Blocks(n)
  {
    if j == Blocks(n) - 1 then n else (j + 1) * 2048
  }

  function Block<V>(s: seq<V>, j: nat): (b: seq<V>)
    requires j < Blocks(|s|)
    ensures 0 < |b| <= 2048 && (j + 1 < Blocks(|s|) ==> |b| == 2048)
  {
    s[j * 2048..BlockEnd(|s|, j)]
  }

  function Sums<V>(f: (V, V) -> V, r: V, s: seq<V>): (t: seq<V>)
    ensures |t| == Blocks(|s|)
  {
    seq(Blocks(|s|), j requires 0 <= j < Blocks(|s|) => Fold(f, r, Block(s, j)))
  }

  /** reduce, as the source splits it */
  function Reduced<V>(f: (V, V) -> V, zero: V, s: seq<V>): V
    decreases |s|
  {
    if Blocks(|s|) <= 1 then Fold(f, zero, s) else Reduced(f, zero, Sums(f, zero, s))
  }

  /** scan, as the source splits it: what it leaves in out, and what it returns. */
  function Scanned<V>(f: (V, V) -> V, zero: V, u0: V, s: seq<V>, inclusive: bool, back: bool)
      : (r: (seq<V>, V))
    ensures |r.0| == |s|
    decreases |s|
  {
    if Blocks(|s|) <= 1 then
      (seq(|s|, k requires 0 <= k < |s| => ScanAt(f, zero, s, k, inclusive, back)),
       Total(f, zero, s, back))
    else
      var offs := Scanned(f, zero, u0, Sums(f, u0, s), false, back);
      (seq(|s|, k requires 0 <= k < |s| =>
             ScanAt(f, offs.0[k / 2048], Block(s, k / 2048), k % 2048, inclusive, back)),
       offs.1)
  }

  /** The same when the sums of the input's blocks are computed by fu, which is f in the type of the
      input; from the block sums on everything is in the type of the output. */
  function ScannedBy<V>(f: (V, V) -> V, fu: (V, V) -> V, zero: V, u0: V, s: seq<V>,
                        inclusive: bool, back: bool) : (r: (seq<V>, V))
    ensures |r.0| == |s|
    ensures fu == f ==> r == Scanned(f, zero, u0, s, inclusive, back)
  {
    if Blocks(|s|) <= 1 then Scanned(f, zero, u0, s, inclusive, back)
    else
      var offs := Scanned(f, zero, u0, Sums(fu, u0, s), false, back);
      (seq(|s|, k requires 0 <= k < |s| =>
             ScanAt(f, offs.0[k / 2048], Block(s, k / 2048), k % 2048, inclusive, back)),
       offs.1)
  }

  // ------------------------------------------------------------------ laws

  ghost predicate Assoc<V(!new)>(f: (V, V) -> V) {
    forall x, y, z :: f(f(x, y), z) == f(x, f(y, z))
  }

  ghost predicate Commutes<V(!new)>(f: (V, V) -> V) {
    forall x, y :: f(x, y) == f(y, x)
  }

  ghost predicate LeftUnit<V(!new)>(f: (V, V) -> V, e: V) {
    forall x :: f(e, x) == x
  }

  ghost predicate Unit<V(!new)>(f: (V, V) -> V, e: V) {
    LeftUnit(f, e) && forall x :: f(x, e) == x
  }

  lemma {:induction false} FoldConcat<V>(f: (V, V) -> V, r: V, s: seq<V>, t: seq<V>)
    ensures Fold(f, Fold(f, r, s), t) == Fold(f, r, s + t)
  {
    if t == [] {
      assert s + t == s;
    } else {
      FoldConcat(f, r, s, t[..|t| - 1]);
      assert (s + t)[..|s + t| - 1] == s + t[..|t| - 1];
    }
  }

  lemma {:induction false} FoldBackConcat<V>(f: (V, V) -> V, r: V, s: seq<V>, t: seq<V>)
    ensures FoldBack(f, FoldBack(f, r, t), s) == FoldBack(f, r, s + t)
  {
    if s == [] {
      assert s + t == t;
    } else {
      FoldBackConcat(f, r, s[1..], t);
      assert (s + t)[1..] == s[1..] + t;
    }
  }

  /** The sum of a block started from a left unit may be added to what came before it. */
  lemma {:induction false} AddBlock<V(!new)>(f: (V, V) -> V, u0: V, a: V, t: seq<V>)
    requires Assoc(f) && LeftUnit(f, u0) && t != []
    ensures f(a, Fold(f, u0, t)) == Fold(f, a, t)
  {
    var t', x := t[..|t| - 1], t[|t| - 1];
    if t' == [] {
      assert Fold(f, u0, t') == u0 && Fold(f, a, t') == a;
    } else {
      AddBlock(f, u0, a, t');
    }
  }

  lemma {:induction false} FoldFront<V(!new)>(f: (V, V) -> V, r: V, x: V, t: seq<V>)
    requires Assoc(f) && Commutes(f)
    ensures Fold(f, f(r, x), t) == f(Fold(f, r, t), x)
  {
    if t != [] {
      var t', y := t[..|t| - 1], t[|t| - 1];
      FoldFront(f, r, x, t');
      var a := Fold(f, r, t');
      assert f(f(a, x), y) == f(a, f(x, y)) == f(a, f(y, x)) == f(f(a, y), x);
    }
  }

  /** For a commutative function the direction does not matter. */
  lemma {:induction false} Directions<V(!new)>(f: (V, V) -> V, r: V, s: seq<V>)
    requires Assoc(f) && Commutes(f)
    ensures FoldBack(f, r, s) == Fold(f, r, s)
  {
    if s != [] {
      Directions(f, r, s[1..]);
      FoldFront(f, r, s[0], s[1..]);
      FoldConcat(f, r, [s[0]], s[1..]);
      assert Fold(f, r, [s[0]]) == f(Fold(f, r, []), s[0]);
      assert [s[0]] + s[1..] == s;
    }
  }

  /** The elements before block j. */
  function Upto<V>(s: seq<V>, j: nat): seq<V> {
    if j < Blocks(|s|) then s[..j * 2048] else s
  }

  lemma AddBlockForward<V(!new)>(f: (V, V) -> V, zero: V, u0: V, s: seq<V>, j: nat)
    requires Assoc(f) && LeftUnit(f, u0) && j < Blocks(|s|)
    ensures f(Fold(f, zero, Upto(s, j)), Fold(f, u0, Block(s, j))) == Fold(f, zero, Upto(s, j + 1))
  {
    AddBlock(f, u0, Fold(f, zero, Upto(s, j)), Block(s, j));
    FoldConcat(f, zero, Upto(s, j), Block(s, j));
    assert Upto(s, j) + Block(s, j) == Upto(s, j + 1);
  }

  /** The block sums before block j add up to the elements before it. */
  lemma {:induction false} Before<V(!new)>(f: (V, V) -> V, zero: V, u0: V, s: seq<V>, j: nat)
    requires Assoc(f) && LeftUnit(f, u0) && j <= Blocks(|s|)
    ensures Fold(f, zero, Sums(f, u0, s)[..j]) == Fold(f, zero, Upto(s, j))
  {
    var t := Sums(f, u0, s);
    if j == 0 {
      assert Upto(s, j) == [];
    } else {
      Before(f, zero, u0, s, j - 1);
      assert t[..j][..j - 1] == t[..j - 1] && t[j - 1] == Fold(f, u0, Block(s, j - 1));
      AddBlockForward(f, zero, u0, s, j - 1);
    }
  }

  /** The elements from block j on. */
  function From<V>(s: seq<V>, j: nat): seq<V> {
    if j < Blocks(|s|) then s[j * 2048..] else []
  }

  lemma BlockThenRest<V>(s: seq<V>, j: nat, i: nat)
    requires j < Blocks(|s|) && i <= |Block(s, j)|
    ensures Block(s, j)[i..] + From(s, j + 1) == s[j * 2048 + i..]
  {
    if j + 1 < Blocks(|s|) {
      assert Block(s, j) == s[j * 2048..(j + 1) * 2048];
    } else {
      assert Block(s, j) == s[j * 2048..];
    }
  }

  lemma AddBlockBackward<V(!new)>(f: (V, V) -> V, zero: V, u0: V, s: seq<V>, j: nat)
    requires Assoc(f) && Commutes(f) && LeftUnit(f, u0) && j < Blocks(|s|)
    ensures f(FoldBack(f, zero, From(s, j + 1)), Fold(f, u0, Block(s, j)))
            == FoldBack(f, zero, From(s, j))
  {
    var a := FoldBack(f, zero, From(s, j + 1));
    AddBlock(f, u0, a, Block(s, j));
    Directions(f, a, Block(s, j));
    FoldBackConcat(f, zero, Block(s, j), From(s, j + 1));
    BlockThenRest(s, j, 0);
    assert Block(s, j)[0..] == Block(s, j);
  }

  /** The block sums from block j on, backward, add up to the elements from its start on. */
  lemma {:induction false} After<V(!new)>(f: (V, V) -> V, zero: V, u0: V, s: seq<V>, j: nat)
    requires Assoc(f) && Commutes(f) && LeftUnit(f, u0) && j <= Blocks(|s|)
    ensures FoldBack(f, zero, Sums(f, u0, s)[j..]) == FoldBack(f, zero, From(s, j))
    decreases Blocks(|s|) - j
  {
    var t := Sums(f, u0, s);
    if j < Blocks(|s|) {
      After(f, zero, u0, s, j + 1);
      assert t[j..][1..] == t[j + 1..] && t[j] == Fold(f, u0, Block(s, j));
      AddBlockBackward(f, zero, u0, s, j);
    }
  }

  lemma Inside<V>(s: seq<V>, k: nat)
    requires k < |s|
    ensures k / 2048 < Blocks(|s|) && k % 2048 < |Block(s, k / 2048)|
  {
  }

  lemma Slices<V>(s: seq<V>, base: nat, n: nat, i: nat)
    requires base + n <= |s| && i <= n
    ensures s[base..base + n][..i] == s[base..base + i]
    ensures s[base..base + n][i..] == s[base + i..base + n]
  {
  }

  /** Scanning a stretch from the fold of what is before it gives the same as scanning everything. */
  lemma StretchForward<V>(f: (V, V) -> V, zero: V, s: seq<V>, base: nat, b: seq<V>, i: nat, incl: bool)
    requires base + |b| <= |s| && b == s[base..base + |b|] && i < |b|
    ensures ScanAt(f, Fold(f, zero, s[..base]), b, i, incl, false) == ScanAt(f, zero, s, base + i, incl, false)
  {
    var to := if incl then i + 1 else i;
    FoldConcat(f, zero, s[..base], b[..to]);
    Slices(s, base, |b|, to);
    assert s[..base] + s[base..base + to] == s[..base + to];
  }

  lemma StretchBackward<V>(f: (V, V) -> V, zero: V, s: seq<V>, base: nat, b: seq<V>, i: nat, incl: bool)
    requires base + |b| <= |s| && b == s[base..base + |b|] && i < |b|
    ensures ScanAt(f, FoldBack(f, zero, s[base + |b|..]), b, i, incl, true)
            == ScanAt(f, zero, s, base + i, incl, true)
  {
    var from := if incl then i else i + 1;
    FoldBackConcat(f, zero, b[from..], s[base + |b|..]);
    Slices(s, base, |b|, from);
    assert s[base + from..base + |b|] + s[base + |b|..] == s[base + from..];
  }

  /** Scanning a block from its offset gives the same as scanning everything. */
  lemma InBlockForward<V(!new)>(f: (V, V) -> V, zero: V, u0: V, s: seq<V>, j: nat, i: nat, incl: bool)
    requires Assoc(f) && LeftUnit(f, u0) && j < Blocks(|s|) && i < |Block(s, j)|
    ensures ScanAt(f, ScanAt(f, zero, Sums(f, u0, s), j, false, false), Block(s, j), i, incl, false)
            == ScanAt(f, zero, s, j * 2048 + i, incl, false)
  {
    Before(f, zero, u0, s, j);
    StretchForward(f, zero, s, j * 2048, Block(s, j), i, incl);
  }

  lemma InBlockBackward<V(!new)>(f: (V, V) -> V, zero: V, u0: V, s: seq<V>, j: nat, i: nat, incl: bool)
    requires Assoc(f) && Commutes(f) && LeftUnit(f, u0) && j < Blocks(|s|) && i < |Block(s, j)|
    ensures ScanAt(f, ScanAt(f, zero, Sums(f, u0, s), j, false, true), Block(s, j), i, incl, true)
            == ScanAt(f, zero, s, j * 2048 + i, incl, true)
  {
    BlockEnds(s, j);
    After(f, zero, u0, s, j + 1);
    assert ScanAt(f, zero, Sums(f, u0, s), j, false, true)
           == FoldBack(f, zero, s[j * 2048 + |Block(s, j)|..]);
    StretchBackward(f, zero, s, j * 2048, Block(s, j), i, incl);
  }

  lemma BlockEnds<V>(s: seq<V>, j: nat)
    requires j < Blocks(|s|)
    ensures j * 2048 + |Block(s, j)| <= |s| && Block(s, j) == s[j * 2048..j * 2048 + |Block(s, j)|]
    ensures From(s, j + 1) == s[j * 2048 + |Block(s, j)|..]
  {
  }

  lemma InBlock<V(!new)>(f: (V, V) -> V, zero: V, u0: V, s: seq<V>, k: nat, incl: bool, back: bool)
    requires Assoc(f) && LeftUnit(f, u0) && (back ==> Commutes(f)) && k < |s|
    ensures k / 2048 < Blocks(|s|) && k % 2048 < |Block(s, k / 2048)|
    ensures ScanAt(f, ScanAt(f, zero, Sums(f, u0, s), k / 2048, false, back), Block(s, k / 2048),
                   k % 2048, incl, back)
            == ScanAt(f, zero, s, k, incl, back)
  {
    Inside(s, k);
    if back {
      InBlockBackward(f, zero, u0, s, k / 2048, k % 2048, incl);
    } else {
      InBlockForward(f, zero, u0, s, k / 2048, k % 2048, incl);
    }
  }

  /** The block scan is the serial scan: for associative f with left unit (U)0, and commutative f
      when scanning backward. */
  lemma {:induction false} ScanIsSerial<V(!new)>(f: (V, V) -> V, zero: V, u0: V, s: seq<V>,
                                                 inclusive: bool, back: bool)
    requires Assoc(f) && LeftUnit(f, u0) && (back ==> Commutes(f))
    ensures Scanned(f, zero, u0, s, inclusive, back).1 == Total(f, zero, s, back)
    ensures forall k :: 0 <= k < |s| ==>
              Scanned(f, zero, u0, s, inclusive, back).0[k] == ScanAt(f, zero, s, k, inclusive, back)
    decreases |s|
  {
    if Blocks(|s|) > 1 {
      var t := Sums(f, u0, s);
      ScanIsSerial(f, zero, u0, t, false, back);
      if back {
        After(f, zero, u0, s, 0);
        assert t[0..] == t && s[0..] == s;
      } else {
        Before(f, zero, u0, s, |t|);
        assert t[..|t|] == t;
      }
      forall k | 0 <= k < |s|
        ensures Scanned(f, zero, u0, s, inclusive, back).0[k] == ScanAt(f, zero, s, k, inclusive, back)
      {
        InBlock(f, zero, u0, s, k, inclusive, back);
      }
    }
  }

  /** The block reduction is the serial one for associative f with left unit `zero`. */
  lemma {:induction false} ReduceIsSerial<V(!new)>(f: (V, V) -> V, zero: V, s: seq<V>)
    requires Assoc(f) && LeftUnit(f, zero)
    ensures Reduced(f, zero, s) == Fold(f, zero, s)
    decreases |s|
  {
    if Blocks(|s|) > 1 {
      var t := Sums(f, zero, s);
      ReduceIsSerial(f, zero, t);
      Before(f, zero, zero, s, |t|);
      assert t[..|t|] == t;
    }
  }

  // ------------------------------------------------------------------ when the laws are needed

  /** The exclusive block scan is right on every input. */
  ghost predicate AlwaysSerial<V(!new)>(f: (V, V) -> V, zero: V, u0: V, back: bool) {
    forall s: seq<V>, k: nat :: k < |s| ==>
      Scanned(f, zero, u0, s, false, back).0[k] == ScanAt(f, zero, s, k, false, back)
  }

  lemma {:induction false} FoldUnits<V(!new)>(f: (V, V) -> V, e: V, r: V, s: seq<V>)
    requires (forall x :: f(x, e) == x) && forall k :: 0 <= k < |s| ==> s[k] == e
    ensures Fold(f, r, s) == r
  {
    if s != [] {
      FoldUnits(f, e, r, s[..|s| - 1]);
    }
  }

  /** With the identity of f as start value, the scan is right on every input exactly when (U)0 is
      that identity: min from the largest value, or a product from 1, goes wrong on two blocks. */
  lemma ZeroMustBeUnit<V(!new)>(f: (V, V) -> V, zero: V, u0: V)
    requires Assoc(f) && Unit(f, zero)
    ensures AlwaysSerial(f, zero, u0, false) <==> u0 == zero
  {
    if u0 == zero {
      forall s: seq<V>, k: nat | k < |s|
        ensures Scanned(f, zero, u0, s, false, false).0[k] == ScanAt(f, zero, s, k, false, false)
      {
        ScanIsSerial(f, zero, u0, s, false, false);
      }
    }
    if AlwaysSerial(f, zero, u0, false) {
      UnitsOnly(f, zero, u0);
    }
  }

  /** On one block and one element, all of them the identity, the scan ends with (U)0. */
  lemma UnitsOnly<V(!new)>(f: (V, V) -> V, zero: V, u0: V)
    requires Unit(f, zero) && AlwaysSerial(f, zero, u0, false)
    ensures u0 == zero
  {
    var s := seq(2049, _ => zero);
    FoldUnits(f, zero, u0, Block(s, 0));
    FoldUnits(f, zero, zero, s[..2048]);
    SecondOffset(f, zero, u0, s);
    assert Scanned(f, zero, u0, s, false, false).0[2048] == ScanAt(f, zero, s, 2048, false, false);
  }

  /** In an input of two blocks, the second starts from the start value and the first sum. */
  lemma SecondOffset<V(!new)>(f: (V, V) -> V, zero: V, u0: V, s: seq<V>)
    requires Blocks(|s|) == 2
    ensures Scanned(f, zero, u0, s, false, false).0[2048] == f(zero, Fold(f, u0, Block(s, 0)))
  {
    var t := Sums(f, u0, s);
    assert |t| == 2 && Blocks(2) == 1 && t[..1] == [t[0]];
    assert Fold(f, zero, t[..1]) == f(Fold(f, zero, []), t[0]);
    assert Block(s, 1)[..0] == [];
  }

  lemma FirstOffsetBackward<V(!new)>(f: (V, V) -> V, zero: V, u0: V, s: seq<V>)
    requires Blocks(|s|) == 2
    ensures Scanned(f, zero, u0, s, false, true).0[2048 - 1] == f(zero, Fold(f, u0, Block(s, 1)))
  {
    var t := Sums(f, u0, s);
    assert |t| == 2 && Blocks(2) == 1 && t[1..] == [t[1]];
    assert FoldBack(f, zero, t[1..]) == f(FoldBack(f, zero, []), t[1]);
    assert Block(s, 0)[2048..] == [];
  }

  /** Backward, with the identity everywhere, it is right on every input exactly when f commutes:
      the sum of a block is taken forward. */
  lemma BackwardMustCommute<V(!new)>(f: (V, V) -> V, zero: V)
    requires Assoc(f) && Unit(f, zero)
    ensures AlwaysSerial(f, zero, zero, true) <==> Commutes(f)
  {
    if Commutes(f) {
      forall s: seq<V>, k: nat | k < |s|
        ensures Scanned(f, zero, zero, s, false, true).0[k] == ScanAt(f, zero, s, k, false, true)
      {
        ScanIsSerial(f, zero, zero, s, false, true);
      }
    }
    if AlwaysSerial(f, zero, zero, true) {
      forall a, b ensures f(a, b) == f(b, a) {
        SwapTwo(f, zero, a, b);
      }
    }
  }

  lemma SwapTwo<V(!new)>(f: (V, V) -> V, zero: V, a: V, b: V)
    requires Unit(f, zero) && AlwaysSerial(f, zero, zero, true)
    ensures f(a, b) == f(b, a)
  {
    var s := seq(2048, _ => zero) + [a, b];
    FirstOffsetBackward(f, zero, zero, s);
    assert Block(s, 1) == [a, b] && s[2048..] == [a, b];
    TwoElements(f, zero, a, b);
    assert Scanned(f, zero, zero, s, false, true).0[2048 - 1]
           == ScanAt(f, zero, s, 2048 - 1, false, true);
  }

  lemma TwoElements<V>(f: (V, V) -> V, zero: V, a: V, b: V)
    ensures Fold(f, zero, [a, b]) == f(f(zero, a), b)
    ensures FoldBack(f, zero, [a, b]) == f(f(zero, b), a)
  {
    assert [a, b][..1] == [a] && [a][..0] == [];
    assert Fold(f, zero, [a]) == f(Fold(f, zero, []), a);
    assert [a, b][1..] == [b] && [b][1..] == [];
    assert FoldBack(f, zero, [b]) == f(FoldBack(f, zero, []), b);
  }

  // ------------------------------------------------------------------ narrower inputs

  /** The value of x in a type that holds the m values from lo on. */
  function Wrap(lo: int, m: int, x: int): (y: int)
    requires m > 0
    ensures lo <= y < lo + m
  {
    lo + (x - lo) % m
  }

  /** Addition in that type. */
  function WrapPlus(lo: int, m: int): (int, int) -> int
    requires m > 0
  {
    (a: int, b: int) => Wrap(lo, m, a + b)
  }

  function Plus(): (int, int) -> int { (a: int, b: int) => a + b }

  lemma ModAdd(x: int, y: int, m: int)
    requires m > 0
    ensures (x % m + y) % m == (x + y) % m
  {
    var d := (x % m + y) / m + x / m - (x + y) / m;
    assert m * d == (x + y) % m - (x % m + y) % m;
    MulBound(m, d);
  }

  lemma WrapIs(lo: int, m: int, x: int)
    requires m > 0
    ensures Wrap(lo, m, x) == x <==> lo <= x < lo + m
  {
    ModIs(x - lo, m);
  }

  lemma ModIs(x: int, m: int)
    requires m > 0
    ensures x % m == x <==> 0 <= x < m
  {
  }

  /** A sum in a narrow type is the true sum wrapped. */
  lemma {:induction false} NarrowSum(lo: int, m: int, s: seq<int>)
    requires m > 0 && lo <= 0 < lo + m
    ensures Fold(WrapPlus(lo, m), 0, s) == Wrap(lo, m, Fold(Plus(), 0, s))
  {
    if s == [] {
      WrapIs(lo, m, 0);
    } else {
      var t, x := s[..|s| - 1], s[|s| - 1];
      NarrowSum(lo, m, t);
      ModAdd(Fold(Plus(), 0, t) - lo, x, m);
    }
  }

  lemma PlusLaws()
    ensures Assoc(Plus()) && Commutes(Plus()) && LeftUnit(Plus(), 0)
  {
  }

  function BlockTotal(s: seq<int>, j: nat): int
    requires j < Blocks(|s|)
  {
    Fold(Plus(), 0, Block(s, j))
  }

  lemma WrapAdd(lo: int, m: int, x: int, y: int)
    requires m > 0
    ensures Wrap(lo, m, Wrap(lo, m, x) + y) == Wrap(lo, m, x + y)
  {
    ModAdd(x - lo, y, m);
  }

  /** The same values in the type of the m values from lo on. */
  ghost predicate Alike(lo: int, m: int, s: seq<int>, t: seq<int>)
    requires m > 0
  {
    |s| == |t| && forall k :: 0 <= k < |s| ==> Wrap(lo, m, s[k]) == Wrap(lo, m, t[k])
  }

  lemma AddAlike(lo: int, m: int, p: int, x: int, y: int)
    requires m > 0 && Wrap(lo, m, x) == Wrap(lo, m, y)
    ensures Wrap(lo, m, Wrap(lo, m, p) + x) == Wrap(lo, m, p + y)
  {
    WrapAdd(lo, m, p, x);
    WrapAdd(lo, m, x, p);
    WrapAdd(lo, m, y, p);
  }

  lemma {:induction false} FoldWraps(lo: int, m: int, r: int, s: seq<int>, t: seq<int>)
    requires m > 0 && Alike(lo, m, s, t)
    ensures Fold(WrapPlus(lo, m), Wrap(lo, m, r), s) == Wrap(lo, m, Fold(Plus(), r, t))
  {
    if s != [] {
      var n := |s| - 1;
      FoldWraps(lo, m, r, s[..n], t[..n]);
      AddAlike(lo, m, Fold(Plus(), r, t[..n]), s[n], t[n]);
    }
  }

  lemma {:induction false} FoldBackWraps(lo: int, m: int, r: int, s: seq<int>, t: seq<int>)
    requires m > 0 && Alike(lo, m, s, t)
    ensures FoldBack(WrapPlus(lo, m), Wrap(lo, m, r), s) == Wrap(lo, m, FoldBack(Plus(), r, t))
  {
    if s != [] {
      FoldBackWraps(lo, m, r, s[1..], t[1..]);
      AddAlike(lo, m, FoldBack(Plus(), r, t[1..]), s[0], t[0]);
    }
  }

  lemma TotalWraps(lo: int, m: int, r: int, s: seq<int>, t: seq<int>, back: bool)
    requires m > 0 && Alike(lo, m, s, t)
    ensures Total(WrapPlus(lo, m), Wrap(lo, m, r), s, back) == Wrap(lo, m, Total(Plus(), r, t, back))
  {
    FoldWraps(lo, m, r, s, t);
    FoldBackWraps(lo, m, r, s, t);
  }

  lemma ScanAtWraps(lo: int, m: int, r: int, s: seq<int>, t: seq<int>, k: nat, inclusive: bool, back: bool)
    requires m > 0 && Alike(lo, m, s, t) && k < |s|
    ensures ScanAt(WrapPlus(lo, m), Wrap(lo, m, r), s, k, inclusive, back)
            == Wrap(lo, m, ScanAt(Plus(), r, t, k, inclusive, back))
  {
    var i := if inclusive == back then k else k + 1;
    if back {
      FoldBackWraps(lo, m, r, s[i..], t[i..]);
    } else {
      FoldWraps(lo, m, r, s[..i], t[..i]);
    }
  }

  lemma SumsAlike(lo: int, m: int, s: seq<int>, t: seq<int>)
    requires m > 0 && lo <= 0 < lo + m && Alike(lo, m, s, t)
    ensures Alike(lo, m, Sums(WrapPlus(lo, m), 0, s), Sums(Plus(), 0, t))
  {
    WrapIs(lo, m, 0);
    forall j | 0 <= j < Blocks(|s|)
      ensures Wrap(lo, m, Sums(WrapPlus(lo, m), 0, s)[j]) == Wrap(lo, m, Sums(Plus(), 0, t)[j])
    {
      FoldWraps(lo, m, 0, Block(s, j), Block(t, j));
      WrapIs(lo, m, Wrap(lo, m, Sums(Plus(), 0, t)[j]));
    }
  }

  /** A scan in a type of m values is the scan of the integers, wrapped: its cells and its total. */
  lemma {:induction false} ScannedWraps(lo: int, m: int, r: int, s: seq<int>, t: seq<int>,
                                        inclusive: bool, back: bool)
    requires m > 0 && lo <= 0 < lo + m && Alike(lo, m, s, t)
    ensures var p, q := Scanned(WrapPlus(lo, m), Wrap(lo, m, r), 0, s, inclusive, back),
                        Scanned(Plus(), r, 0, t, inclusive, back);
      && p.1 == Wrap(lo, m, q.1)
      && forall k :: 0 <= k < |s| ==> p.0[k] == Wrap(lo, m, q.0[k])
    decreases |s|
  {
    var f := WrapPlus(lo, m);
    if Blocks(|s|) <= 1 {
      TotalWraps(lo, m, r, s, t, back);
      forall k | 0 <= k < |s|
        ensures Scanned(f, Wrap(lo, m, r), 0, s, inclusive, back).0[k]
                == Wrap(lo, m, Scanned(Plus(), r, 0, t, inclusive, back).0[k])
      {
        ScanAtWraps(lo, m, r, s, t, k, inclusive, back);
      }
    } else {
      SumsAlike(lo, m, s, t);
      ScannedWraps(lo, m, r, Sums(f, 0, s), Sums(Plus(), 0, t), false, back);
      forall k | 0 <= k < |s|
        ensures Scanned(f, Wrap(lo, m, r), 0, s, inclusive, back).0[k]
                == Wrap(lo, m, Scanned(Plus(), r, 0, t, inclusive, back).0[k])
      {
        Inside(s, k);
        ScanAtWraps(lo, m, Scanned(Plus(), r, 0, Sums(Plus(), 0, t), false, back).0[k / 2048],
                    Block(s, k / 2048), Block(t, k / 2048), k % 2048, inclusive, back);
      }
    }
  }

  lemma {:induction false} FoldShift(a: int, b: int, s: seq<int>)
    ensures Fold(Plus(), a, s) - a == Fold(Plus(), b, s) - b
  {
    if s != [] {
      FoldShift(a, b, s[..|s| - 1]);
    }
  }

  lemma {:induction false} FoldBackShift(a: int, b: int, s: seq<int>)
    ensures FoldBack(Plus(), a, s) - a == FoldBack(Plus(), b, s) - b
  {
    if s != [] {
      FoldBackShift(a, b, s[1..]);
    }
  }

  lemma ScanAtShift(a: int, b: int, s: seq<int>, k: nat, inclusive: bool, back: bool)
    requires k < |s|
    ensures ScanAt(Plus(), a, s, k, inclusive, back) - a == ScanAt(Plus(), b, s, k, inclusive, back) - b
  {
    var i := if inclusive == back then k else k + 1;
    if back {
      FoldBackShift(a, b, s[i..]);
    } else {
      FoldShift(a, b, s[..i]);
    }
  }

  lemma ShiftAlike(lo: int, m: int, a: int, b: int, d: int)
    requires m > 0 && Wrap(lo, m, a) == Wrap(lo, m, b)
    ensures Wrap(lo, m, a + d) == Wrap(lo, m, b + d)
  {
    WrapAdd(lo, m, a, d);
    WrapAdd(lo, m, b, d);
  }

  /** The j-th entry in the direction of the scan. */
  function Entry(t: seq<int>, j: nat, back: bool): int
    requires j < |t|
  {
    t[if back then |t| - 1 - j else j]
  }

  /** What is added up before that entry, and after the last one the total. */
  function PartialSum(zero: int, t: seq<int>, j: nat, back: bool): int
    requires j <= |t|
  {
    Total(Plus(), zero, if back then t[|t| - j..] else t[..j], back)
  }

  lemma PartialNext(zero: int, t: seq<int>, j: nat, back: bool)
    requires j < |t|
    ensures PartialSum(zero, t, j + 1, back) == PartialSum(zero, t, j, back) + Entry(t, j, back)
    ensures PartialSum(zero, t, j, back) == ScanAt(Plus(), zero, t, if back then |t| - 1 - j else j, false, back)
  {
    assert t[|t| - (j + 1)..][1..] == t[|t| - j..] && t[..j + 1][..j] == t[..j];
  }

  lemma PartialEnds(zero: int, t: seq<int>, back: bool)
    ensures PartialSum(zero, t, 0, back) == zero && PartialSum(zero, t, |t|, back) == Total(Plus(), zero, t, back)
  {
    assert t[0..] == t && t[..|t|] == t && t[|t| - 0..] == [] && t[..0] == [];
  }

  ghost predicate OffsetAlike(lo: int, m: int, zero: int, t: seq<int>, u: seq<int>, j: nat, back: bool)
    requires m > 0 && |t| == |u| && j <= |t|
  {
    Wrap(lo, m, PartialSum(zero, t, j, back)) == Wrap(lo, m, PartialSum(zero, u, j, back))
  }

  lemma OffsetsThenEntry(lo: int, m: int, zero: int, t: seq<int>, u: seq<int>, j: nat, back: bool)
    requires m > 0 && |t| == |u| && j < |t|
    requires OffsetAlike(lo, m, zero, t, u, j, back)
    ensures OffsetAlike(lo, m, zero, t, u, j + 1, back)
            <==> Wrap(lo, m, Entry(t, j, back)) == Wrap(lo, m, Entry(u, j, back))
  {
    PartialNext(zero, t, j, back);
    PartialNext(zero, u, j, back);
    var a, b := PartialSum(zero, t, j, back), PartialSum(zero, u, j, back);
    var x, y := Entry(t, j, back), Entry(u, j, back);
    if Wrap(lo, m, x) == Wrap(lo, m, y) {
      ShiftAlike(lo, m, a, b, x);
      ShiftAlike(lo, m, x, y, b);
    }
    if Wrap(lo, m, a + x) == Wrap(lo, m, b + y) {
      ShiftAlike(lo, m, a, b, x);
      ShiftAlike(lo, m, b + x, b + y, -b);
    }
  }

  /** Offsets and total are alike exactly if all entries are. */
  lemma {:induction false} OffsetsAlike(lo: int, m: int, zero: int, t: seq<int>, u: seq<int>, n: nat, back: bool)
    requires m > 0 && |t| == |u| && n <= |t|
    ensures (forall j :: 0 <= j <= n ==> OffsetAlike(lo, m, zero, t, u, j, back))
            <==> forall j :: 0 <= j < n ==> Wrap(lo, m, Entry(t, j, back)) == Wrap(lo, m, Entry(u, j, back))
  {
    if n == 0 {
      PartialEnds(zero, t, back);
      PartialEnds(zero, u, back);
    } else {
      OffsetsAlike(lo, m, zero, t, u, n - 1, back);
      if OffsetAlike(lo, m, zero, t, u, n - 1, back) {
        OffsetsThenEntry(lo, m, zero, t, u, n - 1, back);
      }
    }
  }

  lemma EntriesAlike(lo: int, m: int, t: seq<int>, u: seq<int>, back: bool)
    requires m > 0 && |t| == |u|
    ensures Alike(lo, m, t, u)
            <==> forall j :: 0 <= j < |t| ==> Wrap(lo, m, Entry(t, j, back)) == Wrap(lo, m, Entry(u, j, back))
  {
    if forall j :: 0 <= j < |t| ==> Wrap(lo, m, Entry(t, j, back)) == Wrap(lo, m, Entry(u, j, back)) {
      forall k | 0 <= k < |t| ensures Wrap(lo, m, t[k]) == Wrap(lo, m, u[k]) {
        var j := if back then |t| - 1 - k else k;
        assert Wrap(lo, m, Entry(t, j, back)) == Wrap(lo, m, Entry(u, j, back));
      }
    }
  }

  /** Every cell and the total are those of the serial scan. */
  ghost predicate Serial(f: (int, int) -> int, r: (seq<int>, int), zero: int, s: seq<int>,
                         inclusive: bool, back: bool) {
    && |r.0| == |s| && r.1 == Total(f, zero, s, back)
    && forall k :: 0 <= k < |s| ==> r.0[k] == ScanAt(f, zero, s, k, inclusive, back)
  }

  /** The cells of block j are right exactly if its offset is, in the type of the output. */
  ghost predicate BlockRight(tlo: int, tm: int, zero: int, u: seq<int>, t: seq<int>, j: nat, back: bool)
    requires tm > 0 && |u| == |t| && j < |t|
  {
    Wrap(tlo, tm, ScanAt(Plus(), zero, u, j, false, back)) == Wrap(tlo, tm, ScanAt(Plus(), zero, t, j, false, back))
  }

  /** Two scans of a block from different offsets. */
  lemma FromOffsets(lo: int, m: int, a: int, b: int, s: seq<int>, i: nat, inclusive: bool, back: bool)
    requires m > 0 && i < |s|
    ensures Wrap(lo, m, ScanAt(Plus(), a, s, i, inclusive, back))
            == Wrap(lo, m, ScanAt(Plus(), b, s, i, inclusive, back))
            <==> Wrap(lo, m, a) == Wrap(lo, m, b)
  {
    ScanAtShift(a, b, s, i, inclusive, back);
    var d := ScanAt(Plus(), a, s, i, inclusive, back) - a;
    if Wrap(lo, m, a) == Wrap(lo, m, b) {
      ShiftAlike(lo, m, a, b, d);
    }
    if Wrap(lo, m, a + d) == Wrap(lo, m, b + d) {
      ShiftAlike(lo, m, a + d, b + d, -d);
    }
  }

  /** A cell of the scan from the offset of its block. */
  lemma CellFrom(tlo: int, tm: int, zero: int, u: seq<int>, s: seq<int>, k: nat, inclusive: bool, back: bool)
    requires tm > 0 && tlo <= 0 < tlo + tm && tlo <= zero < tlo + tm && |u| == Blocks(|s|) && k < |s|
    ensures k / 2048 < |u| && k % 2048 < |Block(s, k / 2048)|
    ensures var f, j := WrapPlus(tlo, tm), k / 2048;
      ScanAt(f, Scanned(f, zero, 0, u, false, back).0[j], Block(s, j), k % 2048, inclusive, back)
      == Wrap(tlo, tm, ScanAt(Plus(), ScanAt(Plus(), zero, u, j, false, back), Block(s, j), k % 2048, inclusive, back))
  {
    PlusLaws();
    Inside(s, k);
    WrapIs(tlo, tm, zero);
    var j := k / 2048;
    ScannedWraps(tlo, tm, zero, u, u, false, back);
    ScanIsSerial(Plus(), zero, 0, u, false, back);
    ScanAtWraps(tlo, tm, ScanAt(Plus(), zero, u, j, false, back), Block(s, j), Block(s, j), k % 2048, inclusive, back);
  }

  /** A cell of the scan is right exactly if the offset of its block is. */
  lemma CellOf(ulo: int, um: int, tlo: int, tm: int, zero: int, s: seq<int>, k: nat, inclusive: bool, back: bool)
    requires um > 0 && tm > 0 && tlo <= 0 < tlo + tm && tlo <= zero < tlo + tm
    requires Blocks(|s|) > 1 && k < |s|
    ensures k / 2048 < Blocks(|s|)
    ensures var f := WrapPlus(tlo, tm);
      var u, t := Sums(WrapPlus(ulo, um), 0, s), Sums(Plus(), 0, s);
      ScannedBy(f, WrapPlus(ulo, um), zero, 0, s, inclusive, back).0[k] == ScanAt(f, zero, s, k, inclusive, back)
      <==> BlockRight(tlo, tm, zero, u, t, k / 2048, back)
  {
    PlusLaws();
    WrapIs(tlo, tm, zero);
    var j := k / 2048;
    var u, t := Sums(WrapPlus(ulo, um), 0, s), Sums(Plus(), 0, s);
    CellFrom(tlo, tm, zero, u, s, k, inclusive, back);
    ScanAtWraps(tlo, tm, zero, s, s, k, inclusive, back);
    InBlock(Plus(), zero, 0, s, k, inclusive, back);
    ScanIsSerial(Plus(), zero, 0, t, false, back);
    FromOffsets(tlo, tm, ScanAt(Plus(), zero, u, j, false, back), ScanAt(Plus(), zero, t, j, false, back),
                Block(s, j), k % 2048, inclusive, back);
  }

  lemma CellsOf(ulo: int, um: int, tlo: int, tm: int, zero: int, s: seq<int>, inclusive: bool, back: bool)
    requires um > 0 && tm > 0 && ulo <= 0 < ulo + um && tlo <= 0 < tlo + tm && tlo <= zero < tlo + tm
    requires Blocks(|s|) > 1
    ensures var f := WrapPlus(tlo, tm);
      var r := ScannedBy(f, WrapPlus(ulo, um), zero, 0, s, inclusive, back);
      var u, t := Sums(WrapPlus(ulo, um), 0, s), Sums(Plus(), 0, s);
      (forall k :: 0 <= k < |s| ==> r.0[k] == ScanAt(f, zero, s, k, inclusive, back))
      <==> forall j :: 0 <= j < |t| ==> BlockRight(tlo, tm, zero, u, t, j, back)
  {
    var f := WrapPlus(tlo, tm);
    var r := ScannedBy(f, WrapPlus(ulo, um), zero, 0, s, inclusive, back);
    var u, t := Sums(WrapPlus(ulo, um), 0, s), Sums(Plus(), 0, s);
    forall k | 0 <= k < |s|
      ensures k / 2048 < |t|
      ensures r.0[k] == ScanAt(f, zero, s, k, inclusive, back) <==> BlockRight(tlo, tm, zero, u, t, k / 2048, back)
    {
      CellOf(ulo, um, tlo, tm, zero, s, k, inclusive, back);
    }
    if forall k :: 0 <= k < |s| ==> r.0[k] == ScanAt(f, zero, s, k, inclusive, back) {
      forall j | 0 <= j < |t| ensures BlockRight(tlo, tm, zero, u, t, j, back) {
        Slot(j * 2048, j);
        assert r.0[j * 2048] == ScanAt(f, zero, s, j * 2048, inclusive, back);
      }
    }
  }

  /** Where block j comes in the direction of the scan. */
  function Place(n: nat, j: nat, back: bool): (i: nat)
    requires j < n
    ensures i < n && (if back then n - 1 - i else i) == j
  {
    if back then n - 1 - j else j
  }

  lemma RightOffset(tlo: int, tm: int, zero: int, u: seq<int>, t: seq<int>, j: nat, back: bool)
    requires tm > 0 && |u| == |t| && j < |t|
    ensures BlockRight(tlo, tm, zero, u, t, j, back)
            <==> OffsetAlike(tlo, tm, zero, u, t, Place(|t|, j, back), back)
  {
    PartialNext(zero, u, Place(|t|, j, back), back);
    PartialNext(zero, t, Place(|t|, j, back), back);
  }

  lemma OffsetsRight(tlo: int, tm: int, zero: int, u: seq<int>, t: seq<int>, back: bool)
    requires tm > 0 && |u| == |t|
    ensures (forall j :: 0 <= j < |t| ==> BlockRight(tlo, tm, zero, u, t, j, back))
            && Wrap(tlo, tm, Total(Plus(), zero, u, back)) == Wrap(tlo, tm, Total(Plus(), zero, t, back))
            <==> Alike(tlo, tm, u, t)
  {
    OffsetsAlike(tlo, tm, zero, u, t, |t|, back);
    EntriesAlike(tlo, tm, u, t, back);
    TotalRight(tlo, tm, zero, u, t, back);
    BlocksRight(tlo, tm, zero, u, t, back);
  }

  lemma TotalRight(tlo: int, tm: int, zero: int, u: seq<int>, t: seq<int>, back: bool)
    requires tm > 0 && |u| == |t|
    ensures Wrap(tlo, tm, Total(Plus(), zero, u, back)) == Wrap(tlo, tm, Total(Plus(), zero, t, back))
            <==> OffsetAlike(tlo, tm, zero, u, t, |t|, back)
  {
    PartialEnds(zero, u, back);
    PartialEnds(zero, t, back);
  }

  lemma BlocksRight(tlo: int, tm: int, zero: int, u: seq<int>, t: seq<int>, back: bool)
    requires tm > 0 && |u| == |t|
    ensures (forall j :: 0 <= j < |t| ==> BlockRight(tlo, tm, zero, u, t, j, back))
            <==> forall j :: 0 <= j < |t| ==> OffsetAlike(tlo, tm, zero, u, t, j, back)
  {
    if forall j :: 0 <= j < |t| ==> BlockRight(tlo, tm, zero, u, t, j, back) {
      forall j | 0 <= j < |t| ensures OffsetAlike(tlo, tm, zero, u, t, j, back) {
        RightOffset(tlo, tm, zero, u, t, Place(|t|, j, back), back);
      }
    }
    if forall j :: 0 <= j < |t| ==> OffsetAlike(tlo, tm, zero, u, t, j, back) {
      forall j | 0 <= j < |t| ensures BlockRight(tlo, tm, zero, u, t, j, back) {
        RightOffset(tlo, tm, zero, u, t, j, back);
      }
    }
  }

  /** A block sum kept in the type of the input and then converted to the type of the output is the
      block sum of the output type. */
  ghost predicate SumFits(ulo: int, um: int, tlo: int, tm: int, total: int)
    requires um > 0 && tm > 0
  {
    Wrap(tlo, tm, Wrap(ulo, um, total)) == Wrap(tlo, tm, total)
  }

  /** The scan from a type of the um values from ulo on into one of the tm values from tlo on leaves
      what the serial scan leaves, in every cell and as total, exactly if no block sum is used, there
      being one block only, or every block sum fits. */
  lemma NarrowScanExact(ulo: int, um: int, tlo: int, tm: int, zero: int, s: seq<int>, inclusive: bool, back: bool)
    requires um > 0 && tm > 0 && ulo <= 0 < ulo + um && tlo <= 0 < tlo + tm && tlo <= zero < tlo + tm
    ensures Serial(WrapPlus(tlo, tm), ScannedBy(WrapPlus(tlo, tm), WrapPlus(ulo, um), zero, 0, s, inclusive, back),
                   zero, s, inclusive, back)
            <==> Blocks(|s|) <= 1
                 || forall j :: 0 <= j < Blocks(|s|) ==> SumFits(ulo, um, tlo, tm, BlockTotal(s, j))
  {
    if Blocks(|s|) > 1 {
      var f := WrapPlus(tlo, tm);
      var u, t := Sums(WrapPlus(ulo, um), 0, s), Sums(Plus(), 0, s);
      CellsOf(ulo, um, tlo, tm, zero, s, inclusive, back);
      OffsetsRight(tlo, tm, zero, u, t, back);
      TotalsOf(ulo, um, tlo, tm, zero, s, back);
      forall j | 0 <= j < |t| ensures u[j] == Wrap(ulo, um, t[j]) && t[j] == BlockTotal(s, j) {
        NarrowSum(ulo, um, Block(s, j));
      }
    }
  }

  lemma TotalsOf(ulo: int, um: int, tlo: int, tm: int, zero: int, s: seq<int>, back: bool)
    requires um > 0 && tm > 0 && tlo <= 0 < tlo + tm && tlo <= zero < tlo + tm && Blocks(|s|) > 1
    ensures var f := WrapPlus(tlo, tm);
      var u, t := Sums(WrapPlus(ulo, um), 0, s), Sums(Plus(), 0, s);
      && Scanned(f, zero, 0, u, false, back).1 == Wrap(tlo, tm, Total(Plus(), zero, u, back))
      && Total(f, zero, s, back) == Wrap(tlo, tm, Total(Plus(), zero, t, back))
  {
    PlusLaws();
    WrapIs(tlo, tm, zero);
    var u, t := Sums(WrapPlus(ulo, um), 0, s), Sums(Plus(), 0, s);
    ScannedWraps(tlo, tm, zero, u, u, false, back);
    ScanIsSerial(Plus(), zero, 0, u, false, back);
    TotalWraps(tlo, tm, zero, s, s, back);
    ScanIsSerial(Plus(), zero, 0, t, false, back);
    ScanIsSerial(Plus(), zero, 0, s, false, back);
  }

  lemma Distribute(a: int, n: int)
    ensures a * (n + 1) == a * n + a
  {
  }

  lemma {:induction false} TotalInRange(lo: int, m: int, s: seq<int>)
    requires lo <= 0 < lo + m && forall k :: 0 <= k < |s| ==> lo <= s[k] < lo + m
    ensures lo * |s| <= Fold(Plus(), 0, s) <= (lo + m - 1) * |s|
  {
    if s != [] {
      var n := |s| - 1;
      TotalInRange(lo, m, s[..n]);
      Distribute(lo, n);
      Distribute(lo + m - 1, n);
    }
  }

  /** When the output type is 2048 times as large, the scan is right exactly if every block sum is a
      value of the type of the input. */
  lemma NarrowScanFits(ulo: int, um: int, tlo: int, tm: int, zero: int, s: seq<int>, inclusive: bool, back: bool)
    requires um > 0 && ulo <= 0 < ulo + um && tlo <= 0 < tlo + tm && tlo <= zero < tlo + tm
    requires 2048 * um <= tm && forall k :: 0 <= k < |s| ==> ulo <= s[k] < ulo + um
    ensures Serial(WrapPlus(tlo, tm), ScannedBy(WrapPlus(tlo, tm), WrapPlus(ulo, um), zero, 0, s, inclusive, back),
                   zero, s, inclusive, back)
            <==> Blocks(|s|) <= 1
                 || forall j :: 0 <= j < Blocks(|s|) ==> ulo <= BlockTotal(s, j) < ulo + um
  {
    NarrowScanExact(ulo, um, tlo, tm, zero, s, inclusive, back);
    forall j | 0 <= j < Blocks(|s|)
      ensures SumFits(ulo, um, tlo, tm, BlockTotal(s, j)) <==> ulo <= BlockTotal(s, j) < ulo + um
    {
      BlockTotalBound(ulo, um, s, j);
      FewFit(ulo, um, tlo, tm, BlockTotal(s, j));
    }
  }

  lemma BlockTotalBound(lo: int, m: int, s: seq<int>, j: nat)
    requires lo <= 0 < lo + m && j < Blocks(|s|) && forall k :: 0 <= k < |s| ==> lo <= s[k] < lo + m
    ensures lo * 2048 <= BlockTotal(s, j) <= (lo + m - 1) * 2048
  {
    TotalInRange(lo, m, Block(s, j));
    MulLe(|Block(s, j)|, 2048, lo + m - 1);
    MulLe(|Block(s, j)|, 2048, -lo);
  }

  lemma FewFit(ulo: int, um: int, tlo: int, tm: int, total: int)
    requires um > 0 && ulo <= 0 < ulo + um && 2048 * um <= tm
    requires ulo * 2048 <= total <= (ulo + um - 1) * 2048
    ensures SumFits(ulo, um, tlo, tm, total) <==> ulo <= total < ulo + um
  {
    WrapIs(ulo, um, total);
    if SumFits(ulo, um, tlo, tm, total) {
      AlikeNear(tlo, tm, Wrap(ulo, um, total), total);
    }
  }

  /** Different numbers that are alike are at least m apart. */
  lemma AlikeNear(lo: int, m: int, a: int, b: int)
    requires m > 0 && Wrap(lo, m, a) == Wrap(lo, m, b) && -m < a - b < m
    ensures a == b
  {
    var d := (a - lo) / m - (b - lo) / m;
    assert a - b == m * d;
    MulBound(m, d);
  }

  lemma {:induction false} ConstantSum(c: int, s: seq<int>)
    requires forall k :: 0 <= k < |s| ==> s[k] == c
    ensures Fold(Plus(), 0, s) == c * |s|
  {
    if s != [] {
      ConstantSum(c, s[..|s| - 1]);
    }
  }

  /** From a smaller into a larger unsigned type a scan may be right although no block sum fits: every
      sum is 0 in both types. */
  lemma SumsVanish(um: int, tm: int, s: seq<int>, inclusive: bool, back: bool)
    requires um > 0 && tm > 0
    requires forall j :: 0 <= j < Blocks(|s|) ==> BlockTotal(s, j) % um == BlockTotal(s, j) % tm == 0
    ensures Serial(WrapPlus(0, tm), ScannedBy(WrapPlus(0, tm), WrapPlus(0, um), 0, 0, s, inclusive, back),
                   0, s, inclusive, back)
  {
    NarrowScanExact(0, um, 0, tm, 0, s, inclusive, back);
    forall j | 0 <= j < Blocks(|s|) ensures SumFits(0, um, 0, tm, BlockTotal(s, j)) {
      ModIs(0, tm);
    }
  }

  /** Such a scan from 8 into 16 bits: two blocks of 32s. */
  lemma EightIntoSixteen(um: int, tm: int, inclusive: bool, back: bool) returns (s: seq<int>)
    requires um == 0x100 && tm == 0x1_0000
    ensures Blocks(|s|) == 2 && forall j :: 0 <= j < 2 ==> BlockTotal(s, j) >= um
    ensures Serial(WrapPlus(0, tm), ScannedBy(WrapPlus(0, tm), WrapPlus(0, um), 0, 0, s, inclusive, back),
                   0, s, inclusive, back)
  {
    s := seq(4096, _ => 32);
    forall j | 0 <= j < Blocks(|s|) ensures BlockTotal(s, j) == 0x1_0000 {
      ConstantSum(32, Block(s, j));
    }
    SumsVanish(um, tm, s, inclusive, back);
  }

  // ------------------------------------------------------------------ the loops

  /** The tasks of one submission that have not run yet, in no particular order. */
  function Tasks(n: nat): (t: set<nat>)
    ensures forall j: nat :: j in t <==> j < n
  {
    if n == 0 then {} else Tasks(n - 1) + {n - 1}
  }

  lemma SameSlice<V>(arr: array<V>, s: seq<V>, i: nat, e: nat)
    requires i <= e <= arr.Length && e <= |s| && forall k :: i <= k < e ==> arr[k] == s[k]
    ensures arr[i..e] == s[i..e]
  {
  }

  class GangUtil<V(0)> {
    /** reduceSerial on arr[b..b+n] */
    static method ReduceSerial(arr: array<V>, b: nat, n: nat, zero: V, f: (V, V) -> V) returns (r: V)
      requires b + n <= arr.Length
      ensures r == Fold(f, zero, arr[b..b + n])
    {
      r := zero;
      var i := 0;
      assert arr[b..b + 0] == [];
      while i < n
        invariant 0 <= i <= n && r == Fold(f, zero, arr[b..b + i])
      {
        assert arr[b..b + i + 1][..i] == arr[b..b + i];
        r := f(r, arr[b + i]);
        i := i + 1;
      }
    }

    /** reduce, whatever the order in which the blocks are summed */
    static method Reduce(arr: array<V>, n: nat, zero: V, f: (V, V) -> V) returns (r: V)
      requires n <= arr.Length
      ensures r == Reduced(f, zero, arr[..n])
      decreases n
    {
      var nb := (n + 2048 - 1) / 2048;
      if nb <= 1 {
        r := ReduceSerial(arr, 0, n, zero, f);
        assert arr[0..0 + n] == arr[..n];
        return;
      }
      var sums := BlockSums(arr, n, zero, f);
      r := Reduce(sums, nb, zero, f);
      assert sums[..nb] == Sums(f, zero, arr[..n]);
    }

    /** The first submission of reduce and scan: each task sums one block. */
    static method BlockSums(arr: array<V>, n: nat, zero: V, f: (V, V) -> V) returns (sums: array<V>)
      requires n <= arr.Length
      ensures fresh(sums) && sums[..] == Sums(f, zero, arr[..n])
    {
      var nb := (n + 2048 - 1) / 2048;
      sums := new V[nb];
      ghost var s := arr[..n];
      var todo := Tasks(nb);
      while todo != {}
        invariant todo <= Tasks(nb) && arr[..n] == s
        invariant forall j :: 0 <= j < nb && j !in todo ==> sums[j] == Fold(f, zero, Block(s, j))
        decreases todo
      {
        var j: nat :| j in todo;
        var i := j * 2048;
        var len := if j == nb - 1 then n - i else 2048;
        SameSlice(arr, s, i, i + len);
        assert i + len == BlockEnd(n, j);
        sums[j] := ReduceSerial(arr, i, len, zero, f);
        todo := todo - {j};
      }
    }

    /** scanSerial, forward, on the cells b to b+n-1; out and inp may be one array. */
    static method ScanForward(out: array<V>, inp: array<V>, b: nat, n: nat, zero: V, f: (V, V) -> V,
                              inclusive: bool) returns (r: V)
      requires b + n <= out.Length && b + n <= inp.Length
      modifies out
      ensures r == Total(f, zero, old(inp[b..b + n]), false)
      ensures forall k :: b <= k < b + n ==>
                out[k] == ScanAt(f, zero, old(inp[b..b + n]), k - b, inclusive, false)
      ensures forall k :: 0 <= k < out.Length && !(b <= k < b + n) ==> out[k] == old(out[k])
    {
      ghost var s := inp[b..b + n];
      r := zero;
      var i := 0;
      while i < n
        invariant 0 <= i <= n && r == Fold(f, zero, s[..i])
        invariant forall k :: b + i <= k < b + n ==> inp[k] == s[k - b]
        invariant forall k :: b <= k < b + i ==> out[k] == ScanAt(f, zero, s, k - b, inclusive, false)
        invariant forall k :: 0 <= k < out.Length && !(b <= k < b + n) ==> out[k] == old(out[k])
      {
        assert s[..i + 1][..i] == s[..i];
        var x := inp[b + i];
        if inclusive {
          r := f(r, x);
          out[b + i] := r;
        } else {
          out[b + i] := r;
          r := f(r, x);
        }
        i := i + 1;
      }
      assert s[..n] == s;
    }

    /** scanSerial, backward. */
    static method ScanBackward(out: array<V>, inp: array<V>, b: nat, n: nat, zero: V,
                               f: (V, V) -> V, inclusive: bool) returns (r: V)
      requires b + n <= out.Length && b + n <= inp.Length
      modifies out
      ensures r == Total(f, zero, old(inp[b..b + n]), true)
      ensures forall k :: b <= k < b + n ==>
                out[k] == ScanAt(f, zero, old(inp[b..b + n]), k - b, inclusive, true)
      ensures forall k :: 0 <= k < out.Length && !(b <= k < b + n) ==> out[k] == old(out[k])
    {
      ghost var s := inp[b..b + n];
      r := zero;
      var i := n;
      assert s[n..] == [];
      while i > 0
        invariant 0 <= i <= n && r == FoldBack(f, zero, s[i..])
        invariant forall k :: b <= k < b + i ==> inp[k] == s[k - b]
        invariant forall k :: b + i <= k < b + n ==> out[k] == ScanAt(f, zero, s, k - b, inclusive, true)
        invariant forall k :: 0 <= k < out.Length && !(b <= k < b + n) ==> out[k] == old(out[k])
      {
        i := i - 1;
        assert s[i..][1..] == s[i + 1..];
        var x := inp[b + i];
        if inclusive {
          r := f(r, x);
          out[b + i] := r;
        } else {
          out[b + i] := r;
          r := f(r, x);
        }
      }
      assert s[0..] == s;
    }

    static method ScanSerial(out: array<V>, inp: array<V>, b: nat, n: nat, zero: V, f: (V, V) -> V,
                             inclusive: bool, back: bool) returns (r: V)
      requires b + n <= out.Length && b + n <= inp.Length
      modifies out
      ensures r == Total(f, zero, old(inp[b..b + n]), back)
      ensures forall k :: b <= k < b + n ==>
                out[k] == ScanAt(f, zero, old(inp[b..b + n]), k - b, inclusive, back)
      ensures forall k :: 0 <= k < out.Length && !(b <= k < b + n) ==> out[k] == old(out[k])
    {
      if back {
        r := ScanBackward(out, inp, b, n, zero, f, inclusive);
      } else {
        r := ScanForward(out, inp, b, n, zero, f, inclusive);
      }
    }

    /** scan, in place or not, whatever the order in which the tasks run; fu is f in the type of
        the input. */
    static method Run(out: array<V>, inp: array<V>, n: nat, zero: V, u0: V, f: (V, V) -> V,
                      fu: (V, V) -> V, inclusive: bool, back: bool) returns (total: V)
      requires n <= out.Length && n <= inp.Length
      modifies out
      ensures out[..n] == ScannedBy(f, fu, zero, u0, old(inp[..n]), inclusive, back).0
      ensures total == ScannedBy(f, fu, zero, u0, old(inp[..n]), inclusive, back).1
      ensures forall k :: n <= k < out.Length ==> out[k] == old(out[k])
      decreases n
    {
      var nb := (n + 2048 - 1) / 2048;
      if nb <= 1 {
        assert inp[0..0 + n] == inp[..n];
        total := ScanSerial(out, inp, 0, n, zero, f, inclusive, back);
        return;
      }
      ghost var s := inp[..n];
      var sums := BlockSums(inp, n, u0, fu);
      assert sums[..nb] == Sums(fu, u0, s);
      total := Run(sums, sums, nb, zero, u0, f, f, false, back);
      ghost var offs := Scanned(f, zero, u0, Sums(fu, u0, s), false, back).0;
      assert sums[..nb] == offs;
      SecondPass(out, inp, n, sums, f, inclusive, back);
    }

    /** One task of the second submission. */
    static method ScanBlock(out: array<V>, inp: array<V>, n: nat, j: nat, off: V, f: (V, V) -> V,
                            inclusive: bool, back: bool, ghost s: seq<V>)
      requires n <= out.Length && n <= inp.Length && |s| == n && j < Blocks(n)
      requires forall k :: 0 <= k < n && k / 2048 == j ==> inp[k] == s[k]
      modifies out
      ensures forall k :: 0 <= k < n && k / 2048 == j ==> Filled(out[k], s, k, off, f, inclusive, back)
      ensures forall k :: 0 <= k < out.Length && !(k < n && k / 2048 == j) ==> out[k] == old(out[k])
    {
      var i := j * 2048;
      var len := if j == (n + 2047) / 2048 - 1 then n - i else 2048;
      forall k | 0 <= k < out.Length || i <= k < i + len
        ensures k < n && k / 2048 == j <==> i <= k < i + len
        ensures i <= k < i + len ==> k % 2048 == k - i
      {
        Slot(k, j);
      }
      SameSlice(inp, s, i, i + len);
      assert i + len == BlockEnd(n, j);
      var r := ScanSerial(out, inp, i, len, off, f, inclusive, back);
    }

    /** The second submission of scan: each task scans one block from its offset. */
    static method SecondPass(out: array<V>, inp: array<V>, n: nat, sums: array<V>, f: (V, V) -> V,
                             inclusive: bool, back: bool)
      requires n <= out.Length && n <= inp.Length && sums.Length == Blocks(n) && sums != out
      modifies out
      ensures forall k :: 0 <= k < n ==>
                Filled(out[k], old(inp[..n]), k, sums[k / 2048], f, inclusive, back)
      ensures forall k :: n <= k < out.Length ==> out[k] == old(out[k])
    {
      var nb := (n + 2048 - 1) / 2048;
      ghost var s := inp[..n];
      var todo := Tasks(nb);
      while todo != {}
        invariant todo <= Tasks(nb)
        invariant forall k :: 0 <= k < n && k / 2048 in todo ==> inp[k] == s[k]
        invariant forall k :: 0 <= k < n && k / 2048 !in todo ==>
                    Filled(out[k], s, k, sums[k / 2048], f, inclusive, back)
        invariant forall k :: n <= k < out.Length ==> out[k] == old(out[k])
        decreases todo
      {
        var j: nat :| j in todo;
        ScanBlock(out, inp, n, j, sums[j], f, inclusive, back, s);
        todo := todo - {j};
      }
    }
  }

  /** What the second pass leaves at index k. */
  ghost predicate Filled<V>(v: V, s: seq<V>, k: nat, off: V, f: (V, V) -> V, inclusive: bool, back: bool)
    requires k < |s|
  {
    v == ScanAt(f, off, Block(s, k / 2048), k % 2048, inclusive, back)
  }

  lemma Slot(k: nat, j: nat)
    ensures j * 2048 <= k < (j + 1) * 2048 <==> k / 2048 == j
    ensures k / 2048 == j ==> k % 2048 == k - j * 2048
  {
  }
}
