/**
 Counting and packing: the packed-word count of bools, and the parallel pack whose block counts are
 turned into output windows by an exclusive scan.  `keep` is the test on an input element, `g` the
 value written for a kept index.
 */
module GangPack {
  import opened GangScan

  // ------------------------------------------------------------------ serial meaning

  /** The kept indexes of b to e-1, in order, each mapped by g. */
  function Filter<U, T>(s: seq<U>, keep: U -> bool, g: nat -> T, b: nat, e: nat): seq<T>
    requires e <= |s|
    decreases e
  {
    if e <= b then []
    else Filter(s, keep, g, b, e - 1) + (if keep(s[e - 1]) then [g(e - 1)] else [])
  }

  function Count<U>(s: seq<U>, keep: U -> bool, b: nat, e: nat): (n: nat)
    requires e <= |s|
    ensures n <= if e <= b then 0 else e - b
    decreases e
  {
    if e <= b then 0 else Count(s, keep, b, e - 1) + (if keep(s[e - 1]) then 1 else 0)
  }

  lemma {:induction false} FilterLength<U, T>(s: seq<U>, keep: U -> bool, g: nat -> T, b: nat, e: nat)
    requires e <= |s|
    ensures |Filter(s, keep, g, b, e)| == Count(s, keep, b, e)
    decreases e
  {
    if e > b {
      FilterLength(s, keep, g, b, e - 1);
    }
  }

  lemma {:induction false} FilterConcat<U, T>(s: seq<U>, keep: U -> bool, g: nat -> T,
                                              a: nat, b: nat, e: nat)
    requires a <= b <= e <= |s|
    ensures Filter(s, keep, g, a, e) == Filter(s, keep, g, a, b) + Filter(s, keep, g, b, e)
    ensures Count(s, keep, a, e) == Count(s, keep, a, b) + Count(s, keep, b, e)
    decreases e
  {
    if e > b {
      FilterConcat(s, keep, g, a, b, e - 1);
    }
  }

  /** A kept index stands where the number of kept ones before it says, and nothing else is there. */
  lemma {:induction false} FilterAt<U, T>(s: seq<U>, keep: U -> bool, g: nat -> T, b: nat, e: nat, i: nat)
    requires b <= i < e <= |s| && keep(s[i])
    ensures Count(s, keep, b, i) < |Filter(s, keep, g, b, e)|
    ensures Filter(s, keep, g, b, e)[Count(s, keep, b, i)] == g(i)
    decreases e
  {
    FilterLength(s, keep, g, b, e - 1);
    if i < e - 1 {
      FilterAt(s, keep, g, b, e - 1, i);
    }
  }

  /** Each place of the filter is that of one kept index. */
  lemma {:induction false} FilterFrom<U, T>(s: seq<U>, keep: U -> bool, g: nat -> T, b: nat, e: nat, p: nat)
    returns (i: nat)
    requires e <= |s| && p < |Filter(s, keep, g, b, e)|
    ensures b <= i < e && keep(s[i]) && Count(s, keep, b, i) == p && Filter(s, keep, g, b, e)[p] == g(i)
    decreases e
  {
    FilterLength(s, keep, g, b, e - 1);
    if p < |Filter(s, keep, g, b, e - 1)| {
      i := FilterFrom(s, keep, g, b, e - 1, p);
    } else {
      i := e - 1;
    }
  }

  // ------------------------------------------------------------------ packed words

  function Pow256(w: nat): (p: nat)
    ensures p > 0
  {
    if w == 0 then 1 else 256 * Pow256(w - 1)
  }

  /** The number with these base-256 digits, lowest first: a word loaded from memory. */
  function Word(c: seq<nat>): nat {
    if c == [] then 0 else c[0] + 256 * Word(c[1..])
  }

  /** (x & 255) + (x >> 8 & 255) + .. over w bytes */
  function LaneSum(x: nat, w: nat): nat {
    if w == 0 then 0 else x % 256 + LaneSum(x / 256, w - 1)
  }

  function Sum(c: seq<nat>): nat { if c == [] then 0 else c[0] + Sum(c[1..]) }

  function Bytes(s: seq<bool>): (c: seq<nat>)
    ensures |c| == |s|
  {
    seq(|s|, i requires 0 <= i < |s| => if s[i] then 1 else 0)
  }

  function AddLanes(a: seq<nat>, b: seq<nat>): (c: seq<nat>)
    requires |a| == |b|
    ensures |c| == |a|
  {
    seq(|a|, i requires 0 <= i < |a| => a[i] + b[i])
  }

  lemma {:induction false} WordAdd(a: seq<nat>, b: seq<nat>)
    requires |a| == |b|
    ensures Word(AddLanes(a, b)) == Word(a) + Word(b)
    ensures Sum(AddLanes(a, b)) == Sum(a) + Sum(b)
  {
    if a != [] {
      WordAdd(a[1..], b[1..]);
      assert AddLanes(a, b)[1..] == AddLanes(a[1..], b[1..]);
    }
  }

  /** Digits below 256 do not carry: the word stays in its width and its lanes add up to the digits. */
  lemma {:induction false} NoCarry(c: seq<nat>)
    requires forall i :: 0 <= i < |c| ==> c[i] < 256
    ensures Word(c) < Pow256(|c|) && LaneSum(Word(c), |c|) == Sum(c)
  {
    if c != [] {
      NoCarry(c[1..]);
      assert Word(c) % 256 == c[0] && Word(c) / 256 == Word(c[1..]);
    }
  }

  predicate IsTrue(b: bool) { b }

  lemma {:induction false} BytesCount(s: seq<bool>, b: nat, e: nat)
    requires b <= e <= |s|
    ensures Sum(Bytes(s[b..e])) == Count(s, IsTrue, b, e)
    decreases e
  {
    if b < e {
      BytesCount(s, b, e - 1);
      var c := Bytes(s[b..e]);
      assert c[..|c| - 1] == Bytes(s[b..e - 1]);
      SumLast(c);
    } else {
      assert Bytes(s[b..e]) == [];
    }
  }

  lemma {:induction false} SumLast(c: seq<nat>)
    requires c != []
    ensures Sum(c) == Sum(c[..|c| - 1]) + c[|c| - 1]
  {
    if |c| > 1 {
      SumLast(c[1..]);
      assert c[1..][..|c[1..]| - 1] == c[..|c| - 1][1..];
    }
  }

  /** Where word k starts. */
  function At(base: nat, w: nat, k: nat): (p: nat)
    ensures base <= p
  {
    if k == 0 then base else At(base, w, k - 1) + w
  }

  lemma {:induction false} AtGrows(base: nat, w: nat, j: nat, k: nat)
    requires j <= k
    ensures At(base, w, j) <= At(base, w, k)
  {
    if j < k {
      AtGrows(base, w, j, k - 1);
    }
  }

  lemma {:induction false} AtIs(base: nat, w: nat, k: nat)
    ensures At(base, w, k) == base + k * w
  {
    if k > 0 {
      AtIs(base, w, k - 1);
      assert k * w == (k - 1) * w + w;
    }
  }

  /** The lane totals of the first k words of w bytes from base on. */
  function Lanes(s: seq<bool>, base: nat, w: nat, k: nat): (c: seq<nat>)
    requires At(base, w, k) <= |s|
    ensures |c| == w
  {
    if k == 0 then seq(w, _ => 0)
    else AddLanes(Lanes(s, base, w, k - 1), Bytes(s[At(base, w, k - 1)..At(base, w, k)]))
  }

  lemma {:induction false} LanesCount(s: seq<bool>, base: nat, w: nat, k: nat)
    requires At(base, w, k) <= |s|
    ensures Sum(Lanes(s, base, w, k)) == Count(s, IsTrue, base, At(base, w, k))
    ensures forall i :: 0 <= i < w ==> Lanes(s, base, w, k)[i] <= k
  {
    if k == 0 {
      ZeroSum(w);
    } else {
      LanesCount(s, base, w, k - 1);
      WordAdd(Lanes(s, base, w, k - 1), Bytes(s[At(base, w, k - 1)..At(base, w, k)]));
      BytesCount(s, At(base, w, k - 1), At(base, w, k));
      FilterConcat(s, IsTrue, (i: nat) => i, base, At(base, w, k - 1), At(base, w, k));
    }
  }

  lemma {:induction false} ZeroSum(w: nat)
    ensures Sum(seq(w, _ => 0)) == 0
    ensures Word(seq(w, _ => 0)) == 0
  {
    if w > 0 {
      ZeroSum(w - 1);
      assert seq(w, _ => 0)[1..] == seq(w - 1, _ => 0);
    }
  }

  /** Adding one more word, modulo the word width, never carries between bytes. */
  lemma AddWord(s: seq<bool>, base: nat, w: nat, j: nat, rr: nat, word: nat)
    requires j < 128 && At(base, w, j + 1) <= |s|
    requires rr == Word(Lanes(s, base, w, j)) && word == Word(Bytes(s[At(base, w, j)..At(base, w, j + 1)]))
    ensures (rr + word) % Pow256(w) == Word(Lanes(s, base, w, j + 1))
  {
    WordAdd(Lanes(s, base, w, j), Bytes(s[At(base, w, j)..At(base, w, j + 1)]));
    LanesCount(s, base, w, j + 1);
    NoCarry(Lanes(s, base, w, j + 1));
    SmallMod(rr + word, Pow256(w));
  }

  lemma SmallMod(x: nat, m: nat)
    requires x < m
    ensures x % m == x
  {
  }

  /** One group of 128 words of w bytes. */
  method CountGroup(inp: array<bool>, base: nat, w: nat) returns (r: nat)
    requires At(base, w, 128) <= inp.Length
    ensures r == Count(inp[..], IsTrue, base, At(base, w, 128))
  {
    ghost var s := inp[..];
    var rr := 0;
    var j := 0;
    var at := base;
    ZeroSum(w);
    while j < 128
      invariant 0 <= j <= 128 && at == At(base, w, j) <= |s|
      invariant rr == Word(Lanes(s, base, w, j))
    {
      AtGrows(base, w, j + 1, 128);
      var word := LoadWord(inp, at, w);
      AddWord(s, base, w, j, rr, word);
      rr := (rr + word) % Pow256(w);
      at := at + w;
      j := j + 1;
    }
    LanesCount(s, base, w, 128);
    NoCarry(Lanes(s, base, w, 128));
    r := LaneSum(rr, w);
  }

  /** A load of w bytes, each holding one bool. */
  method LoadWord(inp: array<bool>, at: nat, w: nat) returns (word: nat)
    requires at + w <= inp.Length
    ensures word == Word(Bytes(inp[..][at..at + w]))
  {
    ghost var c := Bytes(inp[..][at..at + w]);
    word := 0;
    var i := w;
    assert c[w..] == [];
    while i > 0
      invariant 0 <= i <= w && word == Word(c[i..])
    {
      i := i - 1;
      assert c[i..][1..] == c[i + 1..];
      word := (if inp[at + i] then 1 else 0) + 256 * word;
    }
    assert c[0..] == c;
  }

  /** The groups of n bools from b on. */
  method CountGroups(inp: array<bool>, b: nat, n: nat, w: nat) returns (r: nat)
    requires b + n <= inp.Length && w > 0 && n % (128 * w) == 0
    ensures r == Count(inp[..], IsTrue, b, b + n)
  {
    var group := 128 * w;
    AtIs(b, group, n / group);
    Divides(n, group);
    r := 0;
    var k, at := 0, b;
    while k < n / group
      invariant 0 <= k <= n / group && at == At(b, group, k) <= b + n
      invariant r == Count(inp[..], IsTrue, b, at)
    {
      AtGrows(b, group, k + 1, n / group);
      AtIs(at, w, 128);
      var c := CountGroup(inp, at, w);
      FilterConcat(inp[..], IsTrue, (i: nat) => i, b, at, at + group);
      r := r + c;
      at := at + group;
      k := k + 1;
    }
  }

  lemma Divides(n: nat, d: nat)
    requires d > 0 && n % d == 0
    ensures n / d * d == n
  {
  }

  /** countSerial on bools: by words of 8, 4 or 2 bytes when length and address allow, else one by
      one.  `addr` is the address of the first bool. */
  method CountBools(inp: array<bool>, b: nat, n: nat, addr: nat) returns (r: nat)
    requires b + n <= inp.Length
    ensures r == Count(inp[..], IsTrue, b, b + n)
  {
    if n % 1024 == 0 && addr % 8 == 0 {
      r := CountGroups(inp, b, n, 8);
    } else if n % 512 == 0 && addr % 4 == 0 {
      r := CountGroups(inp, b, n, 4);
    } else if n % 256 == 0 && addr % 2 == 0 {
      r := CountGroups(inp, b, n, 2);
    } else {
      r := 0;
      var j := 0;
      while j < n
        invariant 0 <= j <= n && r == Count(inp[..], IsTrue, b, b + j)
      {
        r := r + (if inp[b + j] then 1 else 0);
        j := j + 1;
      }
    }
  }

  // ------------------------------------------------------------------ windows

  function Start(n: nat, j: nat): nat
    requires j <= Blocks(n)
  {
    if j < Blocks(n) then j * 2048 else n
  }

  /** Where the output of block j belongs: after everything kept before it. */
  function Window<U>(s: seq<U>, keep: U -> bool, j: nat): nat
    requires j <= Blocks(|s|)
  {
    Count(s, keep, 0, Start(|s|, j))
  }

  function BlockCount<U>(s: seq<U>, keep: U -> bool, j: nat): nat
    requires j < Blocks(|s|)
  {
    Count(s, keep, Start(|s|, j), Start(|s|, j + 1))
  }

  lemma WindowStep<U>(s: seq<U>, keep: U -> bool, j: nat)
    requires j < Blocks(|s|)
    ensures Window(s, keep, j + 1) == Window(s, keep, j) + BlockCount(s, keep, j)
    ensures BlockCount(s, keep, j) <= 2048
  {
    FilterConcat(s, keep, (i: nat) => i, 0, Start(|s|, j), Start(|s|, j + 1));
  }

  lemma {:induction false} WindowsApart<U>(s: seq<U>, keep: U -> bool, j: nat, k: nat)
    requires j <= k <= Blocks(|s|)
    ensures Window(s, keep, j) <= Window(s, keep, k)
  {
    if j < k {
      WindowStep(s, keep, k - 1);
      WindowsApart(s, keep, j, k - 1);
    }
  }

  /** An integer type by its least and largest values. */
  datatype IntType = IntType(lo: int, max: int)

  predicate TypeOk(ty: IntType) { ty.lo <= 0 <= ty.max }

  /** The value that x becomes in the type. */
  function Held(ty: IntType, x: int): (y: int)
    requires TypeOk(ty)
    ensures ty.lo <= y <= ty.max
  {
    Wrap(ty.lo, ty.max - ty.lo + 1, x)
  }

  lemma HeldIs(ty: IntType, x: nat)
    requires TypeOk(ty)
    ensures Held(ty, x) <= x && (Held(ty, x) == x <==> x <= ty.max)
  {
    WrapIs(ty.lo, ty.max - ty.lo + 1, x);
    ModLe(x - ty.lo, ty.max - ty.lo + 1);
  }

  lemma HeldAdd(ty: IntType, x: int, y: int)
    requires TypeOk(ty)
    ensures Held(ty, Held(ty, x) + y) == Held(ty, x + y)
  {
    ModAdd(x - ty.lo, y, ty.max - ty.lo + 1);
  }

  /** The block counts as the source holds them: in the type of the elements. */
  function Counts<U>(s: seq<U>, keep: U -> bool, ty: IntType): (c: seq<int>)
    requires TypeOk(ty)
    ensures |c| == Blocks(|s|)
  {
    seq(Blocks(|s|), j requires 0 <= j < Blocks(|s|) => Held(ty, BlockCount(s, keep, j)))
  }

  /** No block keeps more elements than the largest value of the type. */
  ghost predicate CountsFit<U>(s: seq<U>, keep: U -> bool, ty: IntType) {
    forall j :: 0 <= j < Blocks(|s|) ==> BlockCount(s, keep, j) <= ty.max
  }

  /** Offset of block j: the exclusive scan of the counts. */
  function Offset<U>(s: seq<U>, keep: U -> bool, ty: IntType, j: nat): int
    requires TypeOk(ty) && j <= Blocks(|s|)
  {
    Fold(Plus(), 0, Counts(s, keep, ty)[..j])
  }

  lemma OffsetStep<U>(s: seq<U>, keep: U -> bool, ty: IntType, j: nat)
    requires TypeOk(ty) && j < Blocks(|s|)
    ensures Offset(s, keep, ty, j + 1) == Offset(s, keep, ty, j) + Held(ty, BlockCount(s, keep, j))
  {
    var c := Counts(s, keep, ty);
    assert c[..j + 1][..j] == c[..j];
  }

  /** The offsets never run ahead of the windows, and meet them all exactly when no block count
      exceeds the largest value of its type: a block of 256 kept unsigned bytes, or of 128 signed
      ones, sends the next block to a wrong place. */
  lemma {:induction false} OffsetsAreWindows<U>(s: seq<U>, keep: U -> bool, ty: IntType, n: nat)
    requires TypeOk(ty) && n <= Blocks(|s|)
    ensures Offset(s, keep, ty, n) <= Window(s, keep, n)
    ensures Offset(s, keep, ty, n) == Window(s, keep, n)
            <==> forall j :: 0 <= j < n ==> BlockCount(s, keep, j) <= ty.max
  {
    if n > 0 {
      OffsetsAreWindows(s, keep, ty, n - 1);
      OffsetStep(s, keep, ty, n - 1);
      WindowStep(s, keep, n - 1);
      HeldIs(ty, BlockCount(s, keep, n - 1));
    }
  }

  lemma ModLe(x: nat, m: nat)
    requires m > 0
    ensures 0 <= x % m <= x
  {
  }

  // ------------------------------------------------------------------ the loops

  class GangPacker<U, T(0)> {
    /** countSerial on integers: the count is accumulated in the type of the elements. */
    static method CountSerial(inp: array<U>, b: nat, n: nat, keep: U -> bool, ty: IntType) returns (r: int)
      requires b + n <= inp.Length && TypeOk(ty)
      ensures r == Held(ty, Count(inp[..], keep, b, b + n))
    {
      r := 0;
      HeldIs(ty, 0);
      var i := 0;
      while i < n
        invariant 0 <= i <= n && r == Held(ty, Count(inp[..], keep, b, b + i))
      {
        var one := if keep(inp[b + i]) then 1 else 0;
        HeldAdd(ty, Count(inp[..], keep, b, b + i), one);
        r := Held(ty, r + one);
        i := i + 1;
      }
    }

    static method PutNext(out: array<T>, o: int, k: nat, x: T)
      requires 0 <= o + k < out.Length
      modifies out
      ensures 0 <= o ==> out[o..o + k + 1] == old(out[o..o + k]) + [x]
      ensures forall q :: 0 <= q < out.Length && q != o + k ==> out[q] == old(out[q])
    {
      out[o + k] := x;
    }

    /** packSerial of b to e-1 to the output from o on; `outside` when it would write a cell that the
        output does not have. */
    static method PackSerial(out: array<T>, o: int, inp: array<U>, b: nat, e: nat, keep: U -> bool,
                             g: nat -> T) returns (k: nat, outside: bool)
      requires b <= e <= inp.Length && inp as object != out as object
      modifies out
      ensures var c := Count(inp[..], keep, b, e);
        && (outside <==> c > 0 && (o < 0 || o + c > out.Length))
        && (!outside ==> k == c)
        && (0 <= o && o + c <= out.Length ==>
              && out[o..o + k] == Filter(inp[..], keep, g, b, e)
              && out[..o] == old(out[..o]) && out[o + k..] == old(out[o + k..]))
    {
      ghost var s := inp[..];
      ghost var c := Count(s, keep, b, e);
      k := 0;
      var i := b;
      FilterLength(s, keep, g, b, b);
      while i < e
        invariant b <= i <= e && k == Count(s, keep, b, i) && inp[..] == s
        invariant k > 0 ==> 0 <= o && o + k <= out.Length
        invariant k <= c
        invariant 0 <= o && o + c <= out.Length ==> out[o..o + k] == Filter(s, keep, g, b, i)
        invariant forall q :: 0 <= q < out.Length && !(o <= q < o + k) ==> out[q] == old(out[q])
      {
        FilterConcat(s, keep, g, b, i + 1, e);
        if keep(inp[i]) {
          if o + k < 0 || o + k >= out.Length {
            return k, true;
          }
          PutNext(out, o, k, g(i));
          k := k + 1;
        }
        i := i + 1;
      }
      outside := false;
    }

    /** The first submission: each task counts one block. */
    static method BlockCounts(inp: array<U>, n: nat, keep: U -> bool, ty: IntType) returns (sums: array<int>)
      requires n <= inp.Length && TypeOk(ty)
      ensures fresh(sums) && sums[..] == Counts(inp[..n], keep, ty)
    {
      var nb := (n + 2047) / 2048;
      sums := new int[nb];
      ghost var s := inp[..n];
      var todo := Tasks(nb);
      while todo != {}
        invariant todo <= Tasks(nb)
        invariant forall j :: 0 <= j < nb && j !in todo ==> sums[j] == Held(ty, BlockCount(s, keep, j))
        decreases todo
      {
        var j: nat :| j in todo;
        var i := j * 2048;
        var len := if j == nb - 1 then n - i else 2048;
        CountPrefix(inp[..], n, keep, i, i + len);
        sums[j] := CountSerial(inp, i, len, keep, ty);
        todo := todo - {j};
      }
    }

    /** pack.  The output is the ordered filter of the input, whatever the order of the tasks,
        provided no block count exceeds its type. */
    static method Pack(out: array<T>, inp: array<U>, n: nat, keep: U -> bool, g: nat -> T, ty: IntType)
      returns (r: int, outside: bool)
      requires n <= inp.Length && TypeOk(ty) && Count(inp[..n], keep, 0, n) <= out.Length
      requires inp as object != out as object
      modifies out
      ensures Blocks(n) <= 1 || CountsFit(inp[..n], keep, ty) ==>
                Packed(out[..], old(out[..]), inp[..n], keep, g) && !outside
                && r == Count(inp[..n], keep, 0, n)
      ensures Blocks(n) > 1 ==> r == Offset(inp[..n], keep, ty, Blocks(n))
    {
      var nb := (n + 2047) / 2048;
      if nb <= 1 {
        CountPrefix(inp[..], n, keep, 0, n);
        FilterPrefix(inp[..], n, keep, g, 0, n);
        r, outside := PackSerial(out, 0, inp, 0, n, keep, g);
        assert out[0..0 + r] == out[..r] && out[0 + r..] == out[r..];
        return;
      }
      var sums;
      sums, r := Offsets(inp, n, keep, ty);
      outside := SecondPass(out, inp, n, keep, g, ty, sums);
      OffsetsAreWindows(inp[..n], keep, ty, nb);
    }

    /** The block counts and their exclusive scan. */
    static method Offsets(inp: array<U>, n: nat, keep: U -> bool, ty: IntType)
      returns (sums: array<int>, r: int)
      requires n <= inp.Length && TypeOk(ty)
      ensures fresh(sums) && sums.Length == Blocks(n)
      ensures forall j :: 0 <= j < Blocks(n) ==> sums[j] == Offset(inp[..n], keep, ty, j)
      ensures r == Offset(inp[..n], keep, ty, Blocks(n))
    {
      var nb := (n + 2047) / 2048;
      sums := BlockCounts(inp, n, keep, ty);
      assert sums[..nb] == sums[..];
      r := GangUtil<int>.Run(sums, sums, nb, 0, 0, Plus(), Plus(), false, false);
      ScannedOffsets(inp[..n], keep, ty);
      assert sums[..nb] == sums[..];
    }

    /** pack without an output: it is allocated, with as many cells as were counted.  A negative
        count is an impossible size, and the source aborts. */
    static method PackNew(inp: array<U>, n: nat, keep: U -> bool, g: nat -> T, ty: IntType)
      returns (out: array?<T>, r: int, outside: bool)
      requires n <= inp.Length && TypeOk(ty)
      ensures CountsFit(inp[..n], keep, ty) ==>
                && !outside && out != null && fresh(out)
                && r == out.Length == Count(inp[..n], keep, 0, n)
                && out[..] == Filter(inp[..n], keep, g, 0, n)
      ensures Blocks(n) <= 1 ==> (outside <==> !CountsFit(inp[..n], keep, ty))
    {
      var nb := (n + 2047) / 2048;
      if nb <= 1 {
        out, r, outside := PackNewBlock(inp, n, keep, g, ty);
        return;
      }
      OffsetsAreWindows(inp[..n], keep, ty, nb);
      var sums;
      sums, r := Offsets(inp, n, keep, ty);
      if r < 0 {
        return null, r, true;
      }
      var cells := new T[r];
      outside := SecondPass(cells, inp, n, keep, g, ty, sums);
      out := cells;
    }

    static method PackNewBlock(inp: array<U>, n: nat, keep: U -> bool, g: nat -> T, ty: IntType)
      returns (out: array?<T>, r: int, outside: bool)
      requires n <= inp.Length && TypeOk(ty) && Blocks(n) <= 1
      ensures outside <==> !CountsFit(inp[..n], keep, ty)
      ensures !outside ==>
                && out != null && fresh(out) && r == out.Length == Count(inp[..n], keep, 0, n)
                && out[..] == Filter(inp[..n], keep, g, 0, n)
    {
      ghost var s := inp[..n];
      CountPrefix(inp[..], n, keep, 0, n);
      FilterPrefix(inp[..], n, keep, g, 0, n);
      HeldIs(ty, Count(s, keep, 0, n));
      OneBlock(s, keep);
      var len := CountSerial(inp, 0, n, keep, ty);
      if len < 0 {
        return null, len, true;
      }
      var cells := new T[len];
      r, outside := PackSerial(cells, 0, inp, 0, n, keep, g);
      out := cells;
      assert !outside ==> cells[0..0 + r] == cells[..];
    }

    /** The second submission: each task packs one block into its window. */
    static method SecondPass(out: array<T>, inp: array<U>, n: nat, keep: U -> bool, g: nat -> T,
                             ty: IntType, sums: array<int>) returns (outside: bool)
      requires n <= inp.Length && TypeOk(ty)
      requires inp as object != out as object && sums as object != out as object
      requires sums.Length == Blocks(n)
      requires forall j :: 0 <= j < Blocks(n) ==> sums[j] == Offset(inp[..n], keep, ty, j)
      modifies out
      ensures CountsFit(inp[..n], keep, ty) && Count(inp[..n], keep, 0, n) <= out.Length ==>
                Packed(out[..], old(out[..]), inp[..n], keep, g) && !outside
    {
      var nb := (n + 2047) / 2048;
      ghost var s := inp[..n];
      ghost var c := Count(s, keep, 0, n);
      ghost var fit := CountsFit(s, keep, ty) && c <= out.Length;
      outside := false;
      var todo := Tasks(nb);
      while todo != {}
        invariant todo <= Tasks(nb)
        invariant fit ==> !outside && out[c..] == old(out[..])[c..]
        invariant fit ==> forall j :: 0 <= j < nb && j !in todo ==> InWindow(out[..], s, keep, g, j)
        decreases todo
      {
        var j: nat :| j in todo;
        var wrong := PackBlock(out, inp, n, keep, g, ty, j, sums[j], nb);
        outside := outside || wrong;
        todo := todo - {j};
      }
      if fit {
        Assemble(out[..], s, keep, g, nb);
      }
    }

    static method PackBlock(out: array<T>, inp: array<U>, n: nat, keep: U -> bool, g: nat -> T, ty: IntType,
                            j: nat, off: int, nb: nat) returns (outside: bool)
      requires n <= inp.Length && TypeOk(ty)
      requires inp as object != out as object && nb == Blocks(n) && j < nb
      requires off == Offset(inp[..n], keep, ty, j)
      modifies out
      ensures var s, c := inp[..n], Count(inp[..n], keep, 0, n);
        CountsFit(s, keep, ty) && c <= out.Length ==>
          && !outside && InWindow(out[..], s, keep, g, j) && out[c..] == old(out[c..])
          && (forall k :: 0 <= k < nb && k != j && InWindow(old(out[..]), s, keep, g, k) ==>
                          InWindow(out[..], s, keep, g, k))
    {
      ghost var s := inp[..n];
      ghost var before := out[..];
      BlockSlice(inp[..], n, keep, g, j);
      BlockWindow(s, keep, ty, j);
      var i := j * 2048;
      var len := if j == nb - 1 then n - i else 2048;
      var k;
      k, outside := PackSerial(out, off, inp, i, i + len, keep, g);
      if CountsFit(s, keep, ty) && Count(s, keep, 0, n) <= out.Length {
        Written(before, out[..], s, keep, g, j);
      }
    }
  }

  /** The output starts with the ordered filter of the input, and its rest is as before. */
  ghost predicate Packed<U, T>(out: seq<T>, before: seq<T>, s: seq<U>, keep: U -> bool, g: nat -> T) {
    var r := Count(s, keep, 0, |s|);
    r <= |out| == |before| && out[..r] == Filter(s, keep, g, 0, |s|) && out[r..] == before[r..]
  }

  /** Block j of the input. */
  lemma BlockSlice<U, T>(a: seq<U>, n: nat, keep: U -> bool, g: nat -> T, j: nat)
    requires n <= |a| && j < Blocks(n)
    ensures var i, s := j * 2048, a[..n];
      var e := i + if j == Blocks(n) - 1 then n - i else 2048;
      && i <= e <= n && Count(a, keep, i, e) == BlockCount(s, keep, j)
      && Filter(a, keep, g, i, e) == Filter(s, keep, g, Start(n, j), Start(n, j + 1))
  {
    var i := j * 2048;
    var e := i + if j == Blocks(n) - 1 then n - i else 2048;
    assert i == Start(n, j) && e == Start(n, j + 1);
    CountPrefix(a, n, keep, i, e);
    FilterPrefix(a, n, keep, g, i, e);
  }

  /** Where its elements go. */
  lemma BlockWindow<U>(s: seq<U>, keep: U -> bool, ty: IntType, j: nat)
    requires TypeOk(ty) && j < Blocks(|s|)
    ensures Window(s, keep, j) + BlockCount(s, keep, j) == Window(s, keep, j + 1) <= Count(s, keep, 0, |s|)
    ensures CountsFit(s, keep, ty) ==> Offset(s, keep, ty, j) == Window(s, keep, j)
  {
    OffsetsAreWindows(s, keep, ty, j);
    WindowStep(s, keep, j);
    WindowsApart(s, keep, j + 1, Blocks(|s|));
  }

  lemma OneBlock<U>(s: seq<U>, keep: U -> bool)
    requires Blocks(|s|) <= 1
    ensures Blocks(|s|) == 1 ==> BlockCount(s, keep, 0) == Count(s, keep, 0, |s|)
    ensures Blocks(|s|) == 0 ==> Count(s, keep, 0, |s|) == 0
  {
  }

  lemma {:induction false} CountPrefix<U>(s: seq<U>, n: nat, keep: U -> bool, b: nat, e: nat)
    requires b <= e <= n <= |s|
    ensures Count(s[..n], keep, b, e) == Count(s, keep, b, e)
    decreases e
  {
    if b < e {
      CountPrefix(s, n, keep, b, e - 1);
    }
  }

  lemma {:induction false} FilterPrefix<U, T>(s: seq<U>, n: nat, keep: U -> bool, g: nat -> T, b: nat,
                                              e: nat)
    requires b <= e <= n <= |s|
    ensures Filter(s[..n], keep, g, b, e) == Filter(s, keep, g, b, e)
    decreases e
  {
    if b < e {
      FilterPrefix(s, n, keep, g, b, e - 1);
    }
  }

  /** What the scan of the counts leaves is the offsets. */
  lemma ScannedOffsets<U>(s: seq<U>, keep: U -> bool, ty: IntType)
    requires TypeOk(ty)
    ensures var c := Counts(s, keep, ty);
      && (forall j :: 0 <= j < |c| ==>
            Scanned(Plus(), 0, 0, c, false, false).0[j] == Offset(s, keep, ty, j))
      && Scanned(Plus(), 0, 0, c, false, false).1 == Offset(s, keep, ty, |c|)
  {
    var c := Counts(s, keep, ty);
    PlusLaws();
    ScanIsSerial(Plus(), 0, 0, c, false, false);
    assert c[..|c|] == c;
  }

  /** Block j of the input is packed where it belongs. */
  predicate InWindow<U, T(==)>(out: seq<T>, s: seq<U>, keep: U -> bool, g: nat -> T, j: nat)
    requires j < Blocks(|s|)
  {
    var a, b := Window(s, keep, j), Window(s, keep, j + 1);
    a <= b <= |out| && out[a..b] == Filter(s, keep, g, Start(|s|, j), Start(|s|, j + 1))
  }

  /** Writing one window leaves the others alone. */
  lemma Written<U, T>(out: seq<T>, out': seq<T>, s: seq<U>, keep: U -> bool, g: nat -> T, j: nat)
    requires j < Blocks(|s|) && |out'| == |out| && Window(s, keep, Blocks(|s|)) <= |out|
    requires InWindow(out', s, keep, g, j)
    requires out'[..Window(s, keep, j)] == out[..Window(s, keep, j)]
    requires out'[Window(s, keep, j + 1)..] == out[Window(s, keep, j + 1)..]
    ensures forall k :: 0 <= k < Blocks(|s|) && k != j && InWindow(out, s, keep, g, k) ==>
                        InWindow(out', s, keep, g, k)
    ensures out'[Window(s, keep, Blocks(|s|))..] == out[Window(s, keep, Blocks(|s|))..]
  {
    var x, y := Window(s, keep, j), Window(s, keep, j + 1);
    forall k | 0 <= k < Blocks(|s|) && k != j && InWindow(out, s, keep, g, k)
      ensures InWindow(out', s, keep, g, k)
    {
      var a, b := Window(s, keep, k), Window(s, keep, k + 1);
      if k < j {
        WindowsApart(s, keep, k + 1, j);
        assert out'[a..b] == out'[..x][a..b] == out[..x][a..b] == out[a..b];
      } else {
        WindowsApart(s, keep, j + 1, k);
        assert out'[a..b] == out'[y..][a - y..b - y] == out[y..][a - y..b - y] == out[a..b];
      }
    }
    WindowsApart(s, keep, j + 1, Blocks(|s|));
    var z := Window(s, keep, Blocks(|s|));
    assert out'[z..] == out'[y..][z - y..] == out[y..][z - y..] == out[z..];
  }

  /** All windows filled make the whole filter. */
  lemma {:induction false} Assemble<U, T>(out: seq<T>, s: seq<U>, keep: U -> bool, g: nat -> T, j: nat)
    requires j <= Blocks(|s|) && Window(s, keep, j) <= |out|
    requires forall k :: 0 <= k < j ==> InWindow(out, s, keep, g, k)
    ensures out[..Window(s, keep, j)] == Filter(s, keep, g, 0, Start(|s|, j))
  {
    if j > 0 {
      WindowsApart(s, keep, j - 1, j);
      Assemble(out, s, keep, g, j - 1);
      FilterConcat(s, keep, g, 0, Start(|s|, j - 1), Start(|s|, j));
      assert InWindow(out, s, keep, g, j - 1);
      assert out[..Window(s, keep, j)]
             == out[..Window(s, keep, j - 1)] + out[Window(s, keep, j - 1)..Window(s, keep, j)];
    }
  }
}
