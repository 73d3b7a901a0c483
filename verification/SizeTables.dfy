/**
 The lookup tables that the size classes are boiled down to at start-up.
 */
module SizeTables {
  import opened Common
  import opened SizeClasses

  // ------------------------------------------------------------------ size to index

  /** The table slot of a size: tiny-sized steps, rounded up. */
  function Slot(cfg: Config, size: nat): nat {
    (size + Pow2(cfg.lgTinyMin) - 1) / Pow2(cfg.lgTinyMin)
  }

  lemma SlotLe(cfg: Config, size: nat, m: nat)
    ensures Slot(cfg, size) <= m <==> size <= m * Pow2(cfg.lgTinyMin)
  {
    var t := Pow2(cfg.lgTinyMin);
    var q := Slot(cfg, size);
    assert size + t - 1 == t * q + (size + t - 1) % t;
    if q <= m {
      MulLe(q, m, t);
    } else {
      MulLe(m + 1, q, t);
      Distribute(m, 1, t);
    }
  }

  /** Every class is a multiple of the smallest. */
  lemma {:induction false} TinyMultiple(cfg: Config, s: seq<Class>, k: nat) returns (m: nat)
    requires Chain(cfg, s) && k < |s|
    ensures Size(s[k]) == m * Pow2(cfg.lgTinyMin)
  {
    if k == 0 {
      m := 1;
    } else {
      var n := TinyMultiple(cfg, s, k - 1);
      assert ClassOk(cfg, s[k], k) && Step(s, k);
      var x := Pow2(s[k].lgDelta - cfg.lgTinyMin);
      Pow2Add(s[k].lgDelta - cfg.lgTinyMin, cfg.lgTinyMin);
      Distribute(n, x, Pow2(cfg.lgTinyMin));
      m := n + x;
    }
  }

  /** Comparing slots is comparing sizes with a class. */
  lemma SlotOfClass(cfg: Config, s: seq<Class>, k: nat, size: nat)
    requires Chain(cfg, s) && k < |s|
    ensures Slot(cfg, size) <= Slot(cfg, Size(s[k])) <==> size <= Size(s[k])
  {
    var m := TinyMultiple(cfg, s, k);
    SlotLe(cfg, Size(s[k]), m);
    SlotLe(cfg, size, m);
    if m > 0 {
      SlotLe(cfg, Size(s[k]), m - 1);
      Distribute(m - 1, 1, Pow2(cfg.lgTinyMin));
    }
  }

  lemma SlotsIncrease(cfg: Config, s: seq<Class>, j: nat, k: nat)
    requires Chain(cfg, s) && j < k < |s|
    ensures Slot(cfg, Size(s[j])) < Slot(cfg, Size(s[k]))
  {
    Increasing(cfg, s, j, k);
    SlotOfClass(cfg, s, j, Size(s[k]));
  }

  /** k is the least class at or above the size. */
  predicate LeastClass(s: seq<Class>, size: nat, k: nat) {
    k < |s| && size <= Size(s[k]) && forall j :: 0 <= j < k ==> Size(s[j]) < size
  }

  /** k is the first class whose slot is at or above d. */
  ghost predicate FirstSlot(cfg: Config, s: seq<Class>, d: nat, k: nat) {
    && k < |s| && d <= Slot(cfg, Size(s[k]))
    && forall j :: 0 <= j < k ==> Slot(cfg, Size(s[j])) < d
  }

  lemma FirstIsLeast(cfg: Config, s: seq<Class>, size: nat, k: nat)
    requires Chain(cfg, s) && FirstSlot(cfg, s, Slot(cfg, size), k)
    ensures LeastClass(s, size, k)
  {
    SlotOfClass(cfg, s, k, size);
    forall j | 0 <= j < k ensures Size(s[j]) < size {
      SlotOfClass(cfg, s, j, size);
    }
  }

  /** sz_boot_size2index_tab: entries of eight bits, which suffice while class 255 is beyond the
      table's range. */
  method BootSize2Index(cfg: Config, sc: array<Class>, lookupMax: nat, tab: array<nat>)
    requires Chain(cfg, sc[..]) && sc.Length > 0 && lookupMax <= Size(sc[sc.Length - 1])
    requires tab.Length == Slot(cfg, lookupMax) + 1
    requires sc.Length > 255 ==> lookupMax <= Size(sc[255])
    modifies tab
    ensures forall size :: 0 <= size <= lookupMax ==>
              Slot(cfg, size) < tab.Length && LeastClass(sc[..], size, tab[Slot(cfg, size)])
  {
    ghost var s := sc[..];
    var dstMax := tab.Length;
    var dstInd := 0;
    var scInd := 0;
    while scInd < sc.Length && dstInd < dstMax
      invariant 0 <= scInd <= sc.Length && 0 <= dstInd <= dstMax
      invariant dstInd < dstMax ==>
                  dstInd == if scInd == 0 then 0 else Slot(cfg, Size(s[scInd - 1])) + 1
      invariant forall d :: 0 <= d < dstInd ==> FirstSlot(cfg, s, d, tab[d])
    {
      var maxInd := Slot(cfg, Size(sc[scInd]));
      NextSlots(cfg, s, scInd, dstInd);
      FitsByte(cfg, s, scInd, dstInd, lookupMax);
      dstInd := FillEntries(cfg, s, tab, dstInd, scInd, maxInd);
      scInd := scInd + 1;
    }
    SlotOfClass(cfg, s, |s| - 1, lookupMax);
    assert dstInd == dstMax;
    forall size | 0 <= size <= lookupMax
      ensures Slot(cfg, size) < tab.Length && LeastClass(s, size, tab[Slot(cfg, size)])
    {
      SlotGrows(cfg, size, lookupMax);
      FirstIsLeast(cfg, s, size, tab[Slot(cfg, size)]);
    }
  }

  /** The inner loop: the entries of one class. */
  method FillEntries(cfg: Config, ghost s: seq<Class>, tab: array<nat>, dst0: nat, scInd: nat, maxInd: nat)
    returns (dstInd: nat)
    requires scInd < 256 && dst0 <= maxInd && dst0 < tab.Length
    requires forall d :: dst0 <= d <= maxInd ==> FirstSlot(cfg, s, d, scInd)
    requires forall d :: 0 <= d < dst0 ==> FirstSlot(cfg, s, d, tab[d])
    modifies tab
    ensures dstInd == if maxInd < tab.Length then maxInd + 1 else tab.Length
    ensures forall d :: 0 <= d < dstInd ==> FirstSlot(cfg, s, d, tab[d])
  {
    dstInd := dst0;
    while dstInd <= maxInd && dstInd < tab.Length
      invariant dst0 <= dstInd <= tab.Length && dstInd <= maxInd + 1
      invariant forall d :: 0 <= d < dstInd ==> FirstSlot(cfg, s, d, tab[d])
    {
      tab[dstInd] := scInd % 256;
      dstInd := dstInd + 1;
    }
  }

  /** The slots after those of the class before belong to the next class. */
  lemma NextSlots(cfg: Config, s: seq<Class>, k: nat, d0: nat)
    requires Chain(cfg, s) && k < |s|
    requires d0 == if k == 0 then 0 else Slot(cfg, Size(s[k - 1])) + 1
    ensures d0 <= Slot(cfg, Size(s[k]))
    ensures forall d :: d0 <= d <= Slot(cfg, Size(s[k])) ==> FirstSlot(cfg, s, d, k)
  {
    if k > 0 {
      SlotsIncrease(cfg, s, k - 1, k);
    }
    forall j | 0 <= j < k ensures Slot(cfg, Size(s[j])) < d0 {
      if j < k - 1 {
        SlotsIncrease(cfg, s, j, k - 1);
      }
    }
  }

  lemma SlotGrows(cfg: Config, a: nat, b: nat)
    requires a <= b
    ensures Slot(cfg, a) <= Slot(cfg, b)
  {
    SlotLe(cfg, b, Slot(cfg, b));
    SlotLe(cfg, a, Slot(cfg, b));
  }

  /** While the table is not full, the class about to be written has an index of eight bits. */
  lemma FitsByte(cfg: Config, s: seq<Class>, k: nat, d: nat, lookupMax: nat)
    requires Chain(cfg, s) && k < |s| && d <= Slot(cfg, lookupMax)
    requires d == if k == 0 then 0 else Slot(cfg, Size(s[k - 1])) + 1
    requires |s| > 255 ==> lookupMax <= Size(s[255])
    ensures k < 256
  {
    if k >= 256 {
      if k - 1 > 255 {
        SlotsIncrease(cfg, s, 255, k - 1);
      }
      SlotGrows(cfg, lookupMax, Size(s[255]));
    }
  }

  // ------------------------------------------------------------------ page size classes

  /** The sizes of the page-multiple classes, in order. */
  function PszSizes(s: seq<Class>): seq<nat> {
    if s == [] then []
    else if s[|s| - 1].psz then PszSizes(s[..|s| - 1]) + [Size(s[|s| - 1])]
    else PszSizes(s[..|s| - 1])
  }

  /** sz_boot_pind2sz_tab: the entry past the last class is one page more than the largest. */
  method BootPind2Sz(sc: array<Class>, npsizes: nat, largeMaxclass: nat, page: nat, tab: array<nat>)
    requires npsizes == |PszSizes(sc[..])| && tab.Length == npsizes + 1
    modifies tab
    ensures tab[..] == PszSizes(sc[..]) + [largeMaxclass + page]
  {
    ghost var s := sc[..];
    var pind := 0;
    var i := 0;
    while i < sc.Length
      invariant 0 <= i <= sc.Length && pind == |PszSizes(s[..i])| <= npsizes
      invariant tab[..pind] == PszSizes(s[..i])
    {
      assert s[..i + 1][..i] == s[..i];
      PszPrefix(s, i + 1);
      if sc[i].psz {
        tab[pind] := Size(sc[i]);
        pind := pind + 1;
      }
      i := i + 1;
    }
    assert s[..sc.Length] == s;
    var j := pind;
    while j <= npsizes
      invariant pind <= j <= npsizes + 1
      invariant tab[..pind] == PszSizes(s)
      invariant j > pind ==> tab[pind] == largeMaxclass + page
    {
      tab[pind] := largeMaxclass + page;
      j := j + 1;
    }
  }

  lemma {:induction false} PszPrefix(s: seq<Class>, i: nat)
    requires i <= |s|
    ensures |PszSizes(s[..i])| <= |PszSizes(s)|
  {
    if i < |s| {
      PszPrefix(s[..|s| - 1], i);
      assert s[..|s| - 1][..i] == s[..i];
    } else {
      assert s[..i] == s;
    }
  }

  /** The table lists exactly the classes that are page multiples, in increasing order. */
  lemma {:induction false} PszTable(cfg: Config, s: seq<Class>, n: nat)
    requires Chain(cfg, s) && n <= |s|
    ensures var t := PszSizes(s[..n]);
      && |t| == CountPsz(s[..n])
      && (forall x :: x in t <==> exists k :: 0 <= k < n && Size(s[k]) == x && x % Pow2(cfg.lgPage) == 0)
      && (forall i, j :: 0 <= i < j < |t| ==> t[i] < t[j])
  {
    if n > 0 {
      PszTable(cfg, s, n - 1);
      assert s[..n][..n - 1] == s[..n - 1];
      assert ClassOk(cfg, s[n - 1], n - 1);
      var t', t := PszSizes(s[..n - 1]), PszSizes(s[..n]);
      forall i | 0 <= i < |t'| ensures t'[i] < Size(s[n - 1]) {
        assert t'[i] in t';
        var k :| 0 <= k < n - 1 && Size(s[k]) == t'[i];
        Increasing(cfg, s, k, n - 1);
      }
      forall x ensures x in t <==> exists k :: 0 <= k < n && Size(s[k]) == x && x % Pow2(cfg.lgPage) == 0 {
        if x in t && x !in t' {
          assert x == Size(s[n - 1]);
        }
      }
    }
  }
}
