/**
 The generation of size classes, the number of pages of a slab, and the table that maps a small
 request size to its class.
 */
module SizeClasses {
  import opened Common

  lemma {:induction false} Pow2Add(a: nat, b: nat)
    ensures Pow2(a + b) == Pow2(a) * Pow2(b)
  {
    if b > 0 {
      Pow2Add(a, b - 1);
      assert Pow2(a) * Pow2(b) == 2 * (Pow2(a) * Pow2(b - 1));
    }
  }

  lemma {:induction false} Pow2Grows(a: nat, b: nat)
    requires a <= b
    ensures Pow2(a) <= Pow2(b) && (a < b ==> 2 * Pow2(a) <= Pow2(b))
  {
    if a < b {
      Pow2Grows(a, b - 1);
    }
  }

  lemma Pow2Less(a: nat, b: nat)
    requires Pow2(a) < Pow2(b)
    ensures a < b
  {
    if a >= b {
      Pow2Grows(b, a);
    }
  }

  lemma Distribute(a: int, b: int, c: int)
    ensures (a + b) * c == a * c + b * c
  {
  }

  lemma MulAssoc(a: int, b: int, c: int)
    ensures a * (b * c) == a * b * c
  {
  }

  // ------------------------------------------------------------------ the slab of a class

  /** x << n */
  function Shl(x: nat, n: nat): nat {
    if n == 0 then x else 2 * Shl(x, n - 1)
  }

  lemma {:induction false} ShlIs(x: nat, n: nat)
    ensures Shl(x, n) == x * Pow2(n)
  {
    if n > 0 {
      ShlIs(x, n - 1);
      assert x * Pow2(n) == 2 * (x * Pow2(n - 1));
    }
  }

  lemma {:induction false} ShlNext(x: nat, n: nat)
    ensures Shl(x + 1, n) == Shl(x, n) + Pow2(n) && Shl(0, n) == 0
  {
    if n > 0 {
      ShlNext(x, n - 1);
    }
  }

  /** reg_size_compute */
  function RegSize(lgBase: nat, lgDelta: nat, ndelta: nat): (r: nat)
    ensures r >= Pow2(lgBase)
  {
    Pow2(lgBase) + Shl(ndelta, lgDelta)
  }

  /** The size of k pages. */
  function Pages(k: nat, page: nat): nat {
    if k == 0 then 0 else Pages(k - 1, page) + page
  }

  lemma {:induction false} PagesIs(k: nat, page: nat)
    ensures Pages(k, page) == k * page
  {
    if k > 0 {
      PagesIs(k - 1, page);
      assert k * page == (k - 1) * page + page;
    }
  }

  /** k pages hold a whole number of regions. */
  predicate Fills(k: nat, page: nat, reg: nat)
    requires reg > 0
  {
    Pages(k, page) % reg == 0
  }

  /** slab_size: the least number of pages that regions fill, that is, the least common multiple of
      the two sizes in pages.  `bound` is any number of pages that they fill. */
  method SlabSize(lgPage: nat, reg: nat, ghost bound: nat) returns (k: nat)
    requires reg > 0 && bound > 0 && Fills(bound, Pow2(lgPage), reg)
    ensures 0 < k <= bound && Fills(k, Pow2(lgPage), reg)
    ensures forall j :: 0 < j < k ==> !Fills(j, Pow2(lgPage), reg)
  {
    var page := Pow2(lgPage);
    var trySize := page;
    var tryNregs := trySize / reg;
    var perfectSize := 0;
    var perfect := false;
    ghost var n := 0;
    while !perfect
      invariant trySize == Pages(n + 1, page) && tryNregs == trySize / reg
      invariant perfectSize == Pages(n, page) && n <= bound
      invariant forall j :: 0 < j < n ==> !Fills(j, page, reg)
      invariant if perfect then n > 0 && Fills(n, page, reg) else n > 0 ==> !Fills(n, page, reg)
      decreases bound - n, if perfect then 0 else 1
    {
      perfectSize := trySize;
      var perfectNregs := tryNregs;
      trySize := trySize + page;
      tryNregs := trySize / reg;
      n := n + 1;
      WholeRegions(perfectSize, reg);
      if perfectSize == perfectNregs * reg {
        perfect := true;
      }
    }
    PagesIs(n, page);
    DivUnique(perfectSize, page, n, 0);
    k := perfectSize / page;
  }

  lemma WholeRegions(size: nat, reg: nat)
    requires reg > 0
    ensures size == size / reg * reg <==> size % reg == 0
  {
    assert size == reg * (size / reg) + size % reg;
  }

  // ------------------------------------------------------------------ classes

  /** What the system and the configuration decide. */
  datatype Config = Config(lgTinyMin: nat, lgQuantum: nat, lgPage: nat, lgNgroup: nat,
                           lgMaxLookup: nat, ptrBits: nat)

  ghost predicate Sane(cfg: Config) {
    && cfg.lgTinyMin <= cfg.lgQuantum <= cfg.lgPage && cfg.lgTinyMin < cfg.lgPage
    && cfg.lgNgroup > 0 && cfg.lgQuantum + cfg.lgNgroup <= cfg.ptrBits - 2
  }

  datatype Class = Class(index: nat, lgBase: nat, lgDelta: nat, ndelta: nat, psz: bool, bin: bool,
                         pgs: nat, lgDeltaLookup: nat)

  function Size(c: Class): (r: nat)
    ensures r > 0
  {
    RegSize(c.lgBase, c.lgDelta, c.ndelta)
  }

  function Groups(cfg: Config): (n: nat)
    ensures n > 0
  {
    Pow2(cfg.lgNgroup)
  }

  /** The slab is the least common multiple of page and region, at most 2 * ngroup - 1 pages. */
  ghost predicate SlabOk(cfg: Config, reg: nat, pgs: nat)
    requires reg > 0
  {
    && 0 < pgs <= 2 * Groups(cfg) - 1 && Fills(pgs, Pow2(cfg.lgPage), reg)
    && forall j :: 0 < j < pgs ==> !Fills(j, Pow2(cfg.lgPage), reg)
  }

  function Tiny(cfg: Config): int { cfg.lgQuantum - cfg.lgTinyMin }

  /** The first group ends at its last power of two.  From then on deltas are a fixed fraction of the base. */
  ghost predicate Spaced(cfg: Config, index: nat, lgBase: nat, lgDelta: nat, ndelta: nat) {
    var first := Tiny(cfg) + Groups(cfg);
    && (index == first - 1 ==> RegSize(lgBase, lgDelta, ndelta) == Pow2(cfg.lgQuantum + cfg.lgNgroup))
    && (index >= first ==> lgBase == lgDelta + cfg.lgNgroup && 1 <= ndelta <= Groups(cfg))
  }

  ghost predicate ClassOk(cfg: Config, c: Class, index: nat) {
    match c
    case Class(i, lgBase, lgDelta, ndelta, psz, bin, pgs, lookup) =>
      && i == index && cfg.lgTinyMin <= lgDelta && Spaced(cfg, index, lgBase, lgDelta, ndelta)
      && (psz <==> Size(c) % Pow2(cfg.lgPage) == 0)
      && (bin <==> Size(c) < Pow2(cfg.lgPage + cfg.lgNgroup))
      && (if bin then SlabOk(cfg, Size(c), pgs) else pgs == 0)
      && lookup == if Size(c) <= Pow2(cfg.lgMaxLookup) then lgDelta else 0
  }

  /** Some slab of at most 2 * ngroup - 1 pages has no waste. */
  ghost predicate Slabbable(cfg: Config, reg: nat)
    requires reg > 0
  {
    exists w :: 0 < w <= 2 * Groups(cfg) - 1 && Fills(w, Pow2(cfg.lgPage), reg)
  }

  /** m units of 2^d fill m pages when the unit is at most a page. */
  lemma UnitsFill(m: nat, d: nat, lgPage: nat)
    requires m > 0 && d <= lgPage
    ensures m * Pow2(d) > 0 && Fills(m, Pow2(lgPage), m * Pow2(d))
  {
    MulLe(1, m, Pow2(d));
    Pow2Add(d, lgPage - d);
    PagesIs(m, Pow2(lgPage));
    MulAssoc(m, Pow2(d), Pow2(lgPage - d));
    DivUnique(m * Pow2(lgPage), m * Pow2(d), Pow2(lgPage - d), 0);
  }

  /** 2^e bytes fill 2^(e-p) pages. */
  lemma PowerFills(e: nat, lgPage: nat)
    requires lgPage <= e
    ensures Fills(Pow2(e - lgPage), Pow2(lgPage), Pow2(e))
  {
    Pow2Add(e - lgPage, lgPage);
    PagesIs(Pow2(e - lgPage), Pow2(lgPage));
    DivUnique(Pow2(e), Pow2(e), 1, 0);
  }

  lemma PowerSlab(cfg: Config, e: nat)
    requires e < cfg.lgPage + cfg.lgNgroup || e <= cfg.lgPage
    ensures Slabbable(cfg, Pow2(e))
  {
    if e <= cfg.lgPage {
      UnitsFill(1, e, cfg.lgPage);
      assert Fills(1, Pow2(cfg.lgPage), Pow2(e));
    } else {
      PowerFills(e, cfg.lgPage);
      Pow2Grows(e - cfg.lgPage, cfg.lgNgroup);
      assert Fills(Pow2(e - cfg.lgPage), Pow2(cfg.lgPage), Pow2(e));
    }
  }

  /** The first class after the tiny ones and the classes of the first group. */
  lemma PseudoSlab(cfg: Config, ndelta: nat)
    requires Sane(cfg) && ndelta < Groups(cfg)
    ensures Slabbable(cfg, RegSize(cfg.lgQuantum, cfg.lgQuantum, ndelta))
  {
    UnitsFill(1 + ndelta, cfg.lgQuantum, cfg.lgPage);
    ShlIs(1 + ndelta, cfg.lgQuantum);
    ShlNext(ndelta, cfg.lgQuantum);
  }

  /** A class of a full group that is small enough for a bin. */
  lemma RegularSlab(cfg: Config, lgDelta: nat, ndelta: nat)
    requires 1 <= ndelta <= Groups(cfg)
    requires RegSize(lgDelta + cfg.lgNgroup, lgDelta, ndelta) < Pow2(cfg.lgPage + cfg.lgNgroup)
    ensures Slabbable(cfg, RegSize(lgDelta + cfg.lgNgroup, lgDelta, ndelta))
  {
    var lgBase := lgDelta + cfg.lgNgroup;
    Pow2Less(lgBase, cfg.lgPage + cfg.lgNgroup);
    if ndelta == Groups(cfg) {
      GroupEnd(cfg, lgBase, lgDelta);
      Pow2Less(lgBase + 1, cfg.lgPage + cfg.lgNgroup);
      PowerSlab(cfg, lgBase + 1);
    } else {
      UnitsFill(Groups(cfg) + ndelta, lgDelta, cfg.lgPage);
      RegIsUnits(cfg, lgDelta, ndelta);
    }
  }

  /** A class of a full group is a multiple of its delta. */
  lemma RegIsUnits(cfg: Config, lgDelta: nat, ndelta: nat)
    ensures RegSize(lgDelta + cfg.lgNgroup, lgDelta, ndelta) == (Groups(cfg) + ndelta) * Pow2(lgDelta)
  {
    Pow2Add(lgDelta, cfg.lgNgroup);
    ShlIs(ndelta, lgDelta);
    Distribute(Groups(cfg), ndelta, Pow2(lgDelta));
  }

  /** A full group ends where the next one starts. */
  lemma GroupEnd(cfg: Config, lgBase: nat, lgDelta: nat)
    requires lgBase == lgDelta + cfg.lgNgroup
    ensures RegSize(lgBase, lgDelta, Groups(cfg)) == Pow2(lgBase + 1)
  {
    Pow2Add(lgDelta, cfg.lgNgroup);
    ShlIs(Groups(cfg), lgDelta);
  }

  /** size_class */
  method MakeClass(cfg: Config, index: nat, lgBase: nat, lgDelta: nat, ndelta: nat) returns (c: Class)
    requires cfg.lgTinyMin <= lgDelta && Spaced(cfg, index, lgBase, lgDelta, ndelta)
    requires RegSize(lgBase, lgDelta, ndelta) < Pow2(cfg.lgPage + cfg.lgNgroup) ==>
               Slabbable(cfg, RegSize(lgBase, lgDelta, ndelta))
    ensures ClassOk(cfg, c, index)
    ensures c.lgBase == lgBase && c.lgDelta == lgDelta && c.ndelta == ndelta
  {
    var size := RegSize(lgBase, lgDelta, ndelta);
    var psz := size % Pow2(cfg.lgPage) == 0;
    var bin, pgs := false, 0;
    if size < Pow2(cfg.lgPage + cfg.lgNgroup) {
      bin := true;
      ghost var w :| 0 < w <= 2 * Groups(cfg) - 1 && Fills(w, Pow2(cfg.lgPage), size);
      pgs := SlabSize(cfg.lgPage, size, w);
    }
    var lookup := if size <= Pow2(cfg.lgMaxLookup) then lgDelta else 0;
    c := Class(index, lgBase, lgDelta, ndelta, psz, bin, pgs, lookup);
  }

  // ------------------------------------------------------------------ all classes

  /** Each class exceeds the one before it by its own delta. */
  ghost predicate Chain(cfg: Config, s: seq<Class>) {
    && (s != [] ==> Size(s[0]) == Pow2(cfg.lgTinyMin))
    && (forall k :: 0 <= k < |s| ==> ClassOk(cfg, s[k], k))
    && (forall k :: 1 <= k < |s| ==> Step(s, k))
  }

  predicate Step(s: seq<Class>, k: nat)
    requires 1 <= k < |s|
  {
    Size(s[k]) == Size(s[k - 1]) + Pow2(s[k].lgDelta)
  }

  lemma {:induction false} Increasing(cfg: Config, s: seq<Class>, j: nat, k: nat)
    requires Chain(cfg, s) && j < k < |s|
    ensures Size(s[j]) < Size(s[k])
  {
    assert Step(s, k);
    if j < k - 1 {
      Increasing(cfg, s, j, k - 1);
    }
  }

  function CountPsz(s: seq<Class>): nat {
    if s == [] then 0 else CountPsz(s[..|s| - 1]) + (if s[|s| - 1].psz then 1 else 0)
  }

  /** How many classes come before the group of base 2^lgBase. */
  function Before(cfg: Config, lgBase: nat): int
  {
    if lgBase <= cfg.lgQuantum + cfg.lgNgroup then Tiny(cfg) + Groups(cfg)
    else Before(cfg, lgBase - 1) + Groups(cfg)
  }

  /** SC_NSIZES: the last group is one class short. */
  function NumClasses(cfg: Config): int
    requires Sane(cfg)
  {
    Before(cfg, cfg.ptrBits - 1) - 1
  }

  function LargestClass(cfg: Config): int
    requires Sane(cfg)
  {
    RegSize(cfg.ptrBits - 2, cfg.ptrBits - 2 - cfg.lgNgroup, Groups(cfg) - 1)
  }

  lemma {:induction false} BeforeIs(cfg: Config, lgBase: nat)
    requires lgBase >= cfg.lgQuantum + cfg.lgNgroup
    ensures Before(cfg, lgBase)
            == Tiny(cfg) + Groups(cfg) + Groups(cfg) * (lgBase - cfg.lgQuantum - cfg.lgNgroup)
  {
    if lgBase > cfg.lgQuantum + cfg.lgNgroup {
      BeforeIs(cfg, lgBase - 1);
      var x := lgBase - cfg.lgQuantum - cfg.lgNgroup;
      assert Groups(cfg) * x == Groups(cfg) * (x - 1) + Groups(cfg);
    }
  }

  lemma {:induction false} BeforeGrows(cfg: Config, a: nat, b: nat)
    requires a <= b
    ensures Before(cfg, a) <= Before(cfg, b)
    ensures cfg.lgQuantum + cfg.lgNgroup <= a < b ==> Before(cfg, a) + Groups(cfg) <= Before(cfg, b)
  {
    if a < b {
      BeforeGrows(cfg, a, b - 1);
    }
  }

  lemma NextDelta(lgBase: nat, lgDelta: nat, ndelta: nat)
    ensures RegSize(lgBase, lgDelta, ndelta + 1) == RegSize(lgBase, lgDelta, ndelta) + Pow2(lgDelta)
    ensures RegSize(lgBase, lgDelta, 0) == Pow2(lgBase)
  {
    ShlNext(ndelta, lgDelta);
    ShlNext(0, lgDelta);
  }

  /** How many classes a group adds: all of it, or one less for the last. */
  function Limit(cfg: Config, lgBase: nat): nat {
    if lgBase == cfg.ptrBits - 2 then Groups(cfg) - 1 else Groups(cfg)
  }

  /** How many classes there are when the group of base 2^lgBase is next. */
  function CountAt(cfg: Config, lgBase: nat): int
    requires Sane(cfg)
  {
    if lgBase == cfg.ptrBits - 1 then NumClasses(cfg) else Before(cfg, lgBase)
  }

  /** The size that the next group starts from, or the largest class. */
  function NextAt(cfg: Config, lgBase: nat): nat
    requires Sane(cfg)
  {
    if lgBase == cfg.ptrBits - 1 then LargestClass(cfg) else Pow2(lgBase)
  }

  lemma GroupRoom(cfg: Config, lgBase: nat, lgDelta: nat)
    requires Sane(cfg) && lgBase == lgDelta + cfg.lgNgroup
    requires cfg.lgQuantum + cfg.lgNgroup <= lgBase <= cfg.ptrBits - 2
    ensures 0 < Tiny(cfg) + Groups(cfg) <= Before(cfg, lgBase)
    ensures Before(cfg, lgBase) + Limit(cfg, lgBase) <= NumClasses(cfg)
    ensures Limit(cfg, lgBase) > 0
    ensures if lgBase == cfg.ptrBits - 2 then
              Before(cfg, lgBase) + Limit(cfg, lgBase) == NumClasses(cfg)
              && RegSize(lgBase, lgDelta, Limit(cfg, lgBase)) == LargestClass(cfg)
            else
              Before(cfg, lgBase) + Limit(cfg, lgBase) == Before(cfg, lgBase + 1)
              && RegSize(lgBase, lgDelta, Limit(cfg, lgBase)) == Pow2(lgBase + 1)
  {
    BeforeGrows(cfg, lgBase, cfg.ptrBits - 2);
    BeforeGrows(cfg, cfg.lgQuantum + cfg.lgNgroup, lgBase);
    GroupEnd(cfg, lgBase, lgDelta);
    Pow2Grows(1, cfg.lgNgroup);
  }

  ghost predicate Bins(s: seq<Class>, nbins: nat) {
    nbins <= |s| && forall k :: 0 <= k < |s| ==> (s[k].bin <==> k < nbins)
  }

  /** What has been generated when the next size must be `next`. */
  ghost predicate Upto(cfg: Config, s: seq<Class>, next: nat, nbins: nat, npsizes: nat) {
    && Chain(cfg, s) && Bins(s, nbins) && npsizes == CountPsz(s)
    && next == if s == [] then Pow2(cfg.lgTinyMin) else Size(s[|s| - 1])
  }

  lemma UptoOneMore(cfg: Config, s: seq<Class>, next: nat, nbins: nat, npsizes: nat, c: Class)
    requires Upto(cfg, s, next, nbins, npsizes) && ClassOk(cfg, c, |s|)
    requires Size(c) == if s == [] then next else next + Pow2(c.lgDelta)
    ensures Upto(cfg, s + [c], Size(c), if c.bin then nbins + 1 else nbins,
                 if c.psz then npsizes + 1 else npsizes)
  {
    ChainOneMore(cfg, s, c);
    BinsOneMore(cfg, s, nbins, c);
    assert (s + [c])[..|s|] == s;
  }

  lemma BinsOneMore(cfg: Config, s: seq<Class>, nbins: nat, c: Class)
    requires Chain(cfg, s + [c]) && Bins(s, nbins)
    ensures Bins(s + [c], if c.bin then nbins + 1 else nbins)
  {
    var t := s + [c];
    if nbins < |s| {
      LaterBin(cfg, t, nbins, |s|);
      assert t[nbins] == s[nbins] && t[|s|] == c;
    }
    forall k | 0 <= k < |t| ensures t[k].bin <==> k < (if c.bin then nbins + 1 else nbins) {
      assert k < |s| ==> t[k] == s[k];
    }
  }

  lemma ChainOneMore(cfg: Config, s: seq<Class>, c: Class)
    requires Chain(cfg, s) && ClassOk(cfg, c, |s|)
    requires Size(c) == if s == [] then Pow2(cfg.lgTinyMin) else Size(s[|s| - 1]) + Pow2(c.lgDelta)
    ensures Chain(cfg, s + [c])
  {
    var t := s + [c];
    forall k | 0 <= k < |t| ensures ClassOk(cfg, t[k], k) {
      assert k < |s| ==> t[k] == s[k];
    }
    forall k | 1 <= k < |t| ensures Step(t, k) {
      assert k < |s| ==> Step(s, k);
      assert t[k - 1] == s[k - 1] && (k < |s| ==> t[k] == s[k]);
    }
  }

  /** A class below a bin class is a bin class. */
  lemma LaterBin(cfg: Config, s: seq<Class>, j: nat, k: nat)
    requires Chain(cfg, s) && j < k < |s|
    ensures s[k].bin ==> s[j].bin
  {
    Increasing(cfg, s, j, k);
    assert ClassOk(cfg, s[j], j) && ClassOk(cfg, s[k], k);
  }

  /** The ndelta-th multiple of the quantum, or the quantum itself before there is any. */
  function Multiple(q: nat, ndelta: nat): nat {
    if ndelta == 0 then Pow2(q) else RegSize(q, q, ndelta - 1)
  }

  lemma MultipleNext(q: nat, ndelta: nat)
    ensures RegSize(q, q, ndelta) == Multiple(q, ndelta) + (if ndelta == 0 then 0 else Pow2(q))
    ensures Multiple(q, 1) == Pow2(q)
  {
    NextDelta(q, q, if ndelta > 0 then ndelta - 1 else 0);
  }

  lemma PseudoSpaced(cfg: Config, ndelta: nat)
    requires ndelta < Groups(cfg) && cfg.lgTinyMin <= cfg.lgQuantum
    ensures Spaced(cfg, Tiny(cfg) + ndelta, cfg.lgQuantum, cfg.lgQuantum, ndelta)
  {
    FirstGroupEnd(cfg);
  }

  lemma FirstGroupEnd(cfg: Config)
    ensures Multiple(cfg.lgQuantum, Groups(cfg)) == Pow2(cfg.lgQuantum + cfg.lgNgroup)
  {
    Pow2Add(cfg.lgQuantum, cfg.lgNgroup);
    ShlIs(Groups(cfg) - 1, cfg.lgQuantum);
    Distribute(Groups(cfg) - 1, 1, Pow2(cfg.lgQuantum));
  }

  /** Bins are the classes below 2^BinEnd. */
  function BinEnd(cfg: Config): nat { cfg.lgPage + cfg.lgNgroup }

  /** Class ndelta of a full group is a bin. */
  predicate IsBin(cfg: Config, lgBase: nat, ndelta: nat) {
    lgBase + 1 < BinEnd(cfg) || (lgBase + 1 == BinEnd(cfg) && ndelta < Groups(cfg))
  }

  /** The last bin among the first n classes of a group. */
  function LastBin(cfg: Config, lgBase: nat, n: nat): nat {
    if lgBase + 1 == BinEnd(cfg) && n == Groups(cfg) then Groups(cfg) - 1 else n
  }

  lemma {:induction false} RegGrows(lgBase: nat, lgDelta: nat, a: nat, b: nat)
    requires a <= b
    ensures RegSize(lgBase, lgDelta, a) + (if a < b then Pow2(lgDelta) else 0) <= RegSize(lgBase, lgDelta, b)
  {
    if a < b {
      NextDelta(lgBase, lgDelta, b - 1);
      RegGrows(lgBase, lgDelta, a, b - 1);
    }
  }

  /** Which classes of a full group are bins, and which are covered by the lookup table. */
  lemma BinIff(cfg: Config, lgBase: nat, lgDelta: nat, ndelta: nat)
    requires lgBase == lgDelta + cfg.lgNgroup && 1 <= ndelta <= Groups(cfg)
    ensures RegSize(lgBase, lgDelta, ndelta) < Pow2(BinEnd(cfg)) <==> IsBin(cfg, lgBase, ndelta)
    ensures RegSize(lgBase, lgDelta, ndelta) <= Pow2(cfg.lgMaxLookup) <==> lgBase < cfg.lgMaxLookup
  {
    GroupEnd(cfg, lgBase, lgDelta);
    RegGrows(lgBase, lgDelta, ndelta, Groups(cfg));
    RegGrows(lgBase, lgDelta, 0, ndelta);
    NextDelta(lgBase, lgDelta, 0);
    PowerSides(lgBase, BinEnd(cfg));
    PowerSides(lgBase, cfg.lgMaxLookup);
  }

  lemma PowerSides(a: nat, b: nat)
    ensures if a < b then Pow2(a + 1) <= Pow2(b) && (a + 1 < b ==> Pow2(a + 1) < Pow2(b))
            else Pow2(b) <= Pow2(a)
  {
    if a < b {
      Pow2Grows(a + 1, b);
    } else {
      Pow2Grows(b, a);
    }
  }

  /** A step over 2^end inside a full group ends at 2^end, the last class of its group. */
  lemma StepOver(cfg: Config, lgBase: nat, lgDelta: nat, ndelta: nat, end: nat)
    requires lgBase == lgDelta + cfg.lgNgroup && 1 <= ndelta <= Groups(cfg)
    requires RegSize(lgBase, lgDelta, ndelta - 1) < Pow2(end) <= RegSize(lgBase, lgDelta, ndelta)
    ensures lgBase + 1 == end && ndelta == Groups(cfg) && RegSize(lgBase, lgDelta, ndelta) == Pow2(end)
  {
    GroupEnd(cfg, lgBase, lgDelta);
    RegGrows(lgBase, lgDelta, ndelta, Groups(cfg));
    RegGrows(lgBase, lgDelta, 0, ndelta - 1);
    NextDelta(lgBase, lgDelta, 0);
    PowerSides(lgBase, end);
  }

  /** The classes of the first group are bins, the last class is not. */
  lemma SomeLarge(cfg: Config, s: seq<Class>, nbins: nat)
    requires Chain(cfg, s) && Bins(s, nbins) && 0 < Tiny(cfg) + Groups(cfg) <= |s|
    requires cfg.lgQuantum + cfg.lgNgroup < BinEnd(cfg) && Pow2(BinEnd(cfg)) <= Size(s[|s| - 1])
    ensures Tiny(cfg) + Groups(cfg) <= nbins < |s|
  {
    var last := Tiny(cfg) + Groups(cfg) - 1;
    Pow2Grows(cfg.lgQuantum + cfg.lgNgroup, BinEnd(cfg));
    assert ClassOk(cfg, s[last], last) && ClassOk(cfg, s[|s| - 1], |s| - 1);
  }

  /** The first class that is not a bin has the size 2^BinEnd. */
  lemma FirstLarge(cfg: Config, s: seq<Class>, nbins: nat)
    requires Chain(cfg, s) && Bins(s, nbins) && 0 < Tiny(cfg) + Groups(cfg) <= |s|
    requires cfg.lgQuantum + cfg.lgNgroup < BinEnd(cfg) && Pow2(BinEnd(cfg)) <= Size(s[|s| - 1])
    ensures 0 < nbins < |s| && Size(s[nbins]) == Pow2(BinEnd(cfg))
    ensures Size(s[nbins - 1]) == RegSize(BinEnd(cfg) - 1, cfg.lgPage - 1, Groups(cfg) - 1)
  {
    SomeLarge(cfg, s, nbins);
    var c := s[nbins];
    assert Step(s, nbins);
    assert ClassOk(cfg, c, nbins) && ClassOk(cfg, s[nbins - 1], nbins - 1);
    NextDelta(c.lgBase, c.lgDelta, c.ndelta - 1);
    StepOver(cfg, c.lgBase, c.lgDelta, c.ndelta, BinEnd(cfg));
  }

  /** small_maxclass, lg_large_minclass and lookup_maxclass. */
  datatype Bounds = Bounds(small: nat, lgLarge: nat, lookup: nat)

  /** The bounds after n classes of a group, from those before it. */
  function BoundsIn(cfg: Config, lgBase: nat, n: nat, was: Bounds): Bounds {
    var bins := if lgBase < BinEnd(cfg) then LastBin(cfg, lgBase, n) else 0;
    Bounds(if bins > 0 then RegSize(lgBase, Delta(cfg, lgBase), bins) else was.small,
           if bins > 0 then lgBase + (if cfg.lgNgroup > 0 then 1 else 2) else was.lgLarge,
           if lgBase < cfg.lgMaxLookup && Delta(cfg, lgBase) != 0 && n > 0
           then RegSize(lgBase, Delta(cfg, lgBase), n) else was.lookup)
  }

  /** lg_delta of a full group */
  function Delta(cfg: Config, lgBase: nat): nat {
    if lgBase < cfg.lgNgroup then 0 else lgBase - cfg.lgNgroup
  }

  /** The bounds when the group of base 2^lgBase is next. */
  function BoundsAt(cfg: Config, lgBase: nat): Bounds {
    if lgBase <= cfg.lgQuantum + cfg.lgNgroup then Bounds(0, 0, 0)
    else BoundsIn(cfg, lgBase - 1, Limit(cfg, lgBase - 1), BoundsAt(cfg, lgBase - 1))
  }

  /** The last bin class ends just below 2^BinEnd. */
  lemma {:induction false} BinBounds(cfg: Config, lgBase: nat)
    requires Sane(cfg) && cfg.lgQuantum + cfg.lgNgroup < BinEnd(cfg) <= cfg.ptrBits - 2
    requires cfg.lgQuantum + cfg.lgNgroup < lgBase <= cfg.ptrBits - 1
    ensures BoundsAt(cfg, lgBase).lgLarge == if lgBase < BinEnd(cfg) then lgBase else BinEnd(cfg)
    ensures BoundsAt(cfg, lgBase).small
            == if lgBase < BinEnd(cfg) then Pow2(lgBase)
               else RegSize(BinEnd(cfg) - 1, cfg.lgPage - 1, Groups(cfg) - 1)
  {
    Pow2Grows(1, cfg.lgNgroup);
    GroupEnd(cfg, lgBase - 1, Delta(cfg, lgBase - 1));
    if lgBase > cfg.lgQuantum + cfg.lgNgroup + 1 {
      BinBounds(cfg, lgBase - 1);
    }
  }

  /** The lookup table ends at its configured maximum. */
  lemma {:induction false} LookupBound(cfg: Config, lgBase: nat)
    requires Sane(cfg) && 0 < cfg.lgQuantum && cfg.lgQuantum + cfg.lgNgroup < cfg.lgMaxLookup <= cfg.ptrBits - 2
    requires cfg.lgQuantum + cfg.lgNgroup < lgBase <= cfg.ptrBits - 1
    ensures BoundsAt(cfg, lgBase).lookup == Pow2(if lgBase <= cfg.lgMaxLookup then lgBase else cfg.lgMaxLookup)
  {
    GroupEnd(cfg, lgBase - 1, Delta(cfg, lgBase - 1));
    if lgBase > cfg.lgQuantum + cfg.lgNgroup + 1 {
      LookupBound(cfg, lgBase - 1);
    }
  }

  /** The bounds are those of the classes: the last bin, the first class after it, the end of the lookup table. */
  ghost predicate BoundsOk(cfg: Config, s: seq<Class>, nbins: nat, b: Bounds) {
    match b
    case Bounds(small, lgLarge, lookup) =>
      && (cfg.lgQuantum < cfg.lgPage && BinEnd(cfg) <= cfg.ptrBits - 2 ==>
            && 0 < nbins < |s| && small == Size(s[nbins - 1])
            && lgLarge == BinEnd(cfg) && Pow2(lgLarge) == Size(s[nbins]))
      && (0 < cfg.lgQuantum && cfg.lgQuantum + cfg.lgNgroup < cfg.lgMaxLookup <= cfg.ptrBits - 2 ==>
            lookup == Pow2(cfg.lgMaxLookup))
  }

  lemma BoundsFound(cfg: Config, s: seq<Class>, nbins: nat, b: Bounds)
    requires Sane(cfg) && Chain(cfg, s) && Bins(s, nbins) && 0 < Tiny(cfg) + Groups(cfg) <= |s|
    requires Size(s[|s| - 1]) == LargestClass(cfg) && b == BoundsAt(cfg, cfg.ptrBits - 1)
    ensures BoundsOk(cfg, s, nbins, b)
  {
    if cfg.lgQuantum < cfg.lgPage && BinEnd(cfg) <= cfg.ptrBits - 2 {
      Pow2Grows(BinEnd(cfg), cfg.ptrBits - 2);
      FirstLarge(cfg, s, nbins);
      BinBounds(cfg, cfg.ptrBits - 1);
    }
    if 0 < cfg.lgQuantum && cfg.lgQuantum + cfg.lgNgroup < cfg.lgMaxLookup <= cfg.ptrBits - 2 {
      LookupBound(cfg, cfg.ptrBits - 1);
    }
  }

  class ScData {
    const cfg: Config
    const sc: array<Class>
    var nsizes: nat
    var nbins: nat
    var npsizes: nat
    var ntiny: nat
    var largeMaxclass: nat
    var smallMaxclass: nat
    var lgLargeMinclass: nat
    var lookupMaxclass: nat

    constructor (cfg: Config)
      requires Sane(cfg) && NumClasses(cfg) >= 0
      ensures this.cfg == cfg && sc.Length == NumClasses(cfg) && fresh(sc)
    {
      this.cfg := cfg;
      sc := new Class[NumClasses(cfg)];
    }

    ghost predicate Made(next: nat)
      reads this`nsizes, this`nbins, this`npsizes, sc
    {
      nsizes <= sc.Length && Upto(cfg, sc[..nsizes], next, nbins, npsizes)
    }

    /** Fill the next entry and the counters. */
    method Add(lgBase: nat, lgDelta: nat, ndelta: nat, ghost next: nat)
      requires Made(next) && nsizes < sc.Length && cfg.lgTinyMin <= lgDelta
      requires Spaced(cfg, nsizes, lgBase, lgDelta, ndelta)
      requires RegSize(lgBase, lgDelta, ndelta) == if nsizes == 0 then next else next + Pow2(lgDelta)
      requires RegSize(lgBase, lgDelta, ndelta) < Pow2(cfg.lgPage + cfg.lgNgroup) ==>
                 Slabbable(cfg, RegSize(lgBase, lgDelta, ndelta))
      modifies this`nsizes, this`nbins, this`npsizes, sc
      ensures Made(RegSize(lgBase, lgDelta, ndelta)) && nsizes == old(nsizes) + 1
      ensures sc[nsizes - 1].lgDelta == lgDelta
    {
      ghost var s := sc[..nsizes];
      var c := MakeClass(cfg, nsizes, lgBase, lgDelta, ndelta);
      UptoOneMore(cfg, s, next, nbins, npsizes, c);
      sc[nsizes] := c;
      nsizes := nsizes + 1;
      Count(c);
      assert sc[..nsizes] == s + [c];
    }

    method Count(c: Class)
      modifies this`nbins, this`npsizes
      ensures npsizes == (if c.psz then old(npsizes) + 1 else old(npsizes))
      ensures nbins == if c.bin then old(nbins) + 1 else old(nbins)
    {
      if c.psz {
        npsizes := npsizes + 1;
      }
      if c.bin {
        nbins := nbins + 1;
      }
    }

    /** size_classes */
    method Generate()
      requires Sane(cfg) && sc.Length == NumClasses(cfg)
      modifies this, sc
      ensures nsizes == NumClasses(cfg) && ntiny == Tiny(cfg)
      ensures Chain(cfg, sc[..]) && 0 < nsizes <= sc.Length
      ensures largeMaxclass == LargestClass(cfg) == Size(sc[nsizes - 1])
      ensures Bins(sc[..], nbins) && npsizes == CountPsz(sc[..])
      ensures BoundsOk(cfg, sc[..], nbins, Noted())
    {
      nsizes, nbins, npsizes := 0, 0, 0;
      smallMaxclass, lgLargeMinclass, lookupMaxclass := 0, 0, 0;
      BeforeGrows(cfg, cfg.lgQuantum + cfg.lgNgroup, cfg.ptrBits - 1);
      FirstGroups();
      NoGroup(cfg.lgQuantum + cfg.lgNgroup);
      FullGroups();
      assert sc[..nsizes] == sc[..];
      BoundsFound(cfg, sc[..], nbins, Noted());
    }

    /** The tiny classes and the first group. */
    method FirstGroups()
      requires Sane(cfg) && Tiny(cfg) + Groups(cfg) <= sc.Length && nsizes == nbins == npsizes == 0
      modifies this`nsizes, this`nbins, this`npsizes, this`ntiny, sc
      ensures nsizes == Tiny(cfg) + Groups(cfg) && ntiny == Tiny(cfg)
      ensures Made(Pow2(cfg.lgQuantum + cfg.lgNgroup))
    {
      Pow2Grows(1, cfg.lgNgroup);
      var lgBase, lgDelta := TinyClasses();
      var ndelta := 0;
      if ntiny != 0 {
        lgBase := lgBase - 1;
        ndelta := 1;
        PowerSlab(cfg, cfg.lgQuantum);
        NextDelta(lgBase, lgDelta, 0);
        Add(lgBase, lgDelta, ndelta, Pow2(lgDelta));
        lgBase := lgBase + 1;
        lgDelta := lgDelta + 1;
      }
      FirstGroup(ndelta, lgBase, lgDelta);
    }

    method TinyClasses() returns (lgBase: nat, lgDelta: nat)
      requires Sane(cfg) && Tiny(cfg) <= sc.Length && nsizes == nbins == npsizes == 0
      modifies this`nsizes, this`nbins, this`npsizes, this`ntiny, sc
      ensures nsizes == ntiny == Tiny(cfg) && lgBase == cfg.lgQuantum
      ensures lgDelta == (if ntiny == 0 then lgBase else lgBase - 1) && Made(Pow2(lgDelta))
    {
      lgBase := cfg.lgTinyMin;
      lgDelta := lgBase;
      ntiny := 0;
      assert sc[..nsizes] == [];
      while lgBase < cfg.lgQuantum
        invariant cfg.lgTinyMin <= lgBase <= cfg.lgQuantum
        invariant nsizes == ntiny == lgBase - cfg.lgTinyMin
        invariant lgDelta == if nsizes == 0 then lgBase else lgBase - 1
        invariant Made(Pow2(lgDelta))
      {
        PowerSlab(cfg, lgBase);
        NextDelta(lgBase, lgDelta, 0);
        Add(lgBase, lgDelta, 0, Pow2(lgDelta));
        ntiny := ntiny + 1;
        lgDelta := lgBase;
        lgBase := lgBase + 1;
      }
    }

    /** The classes at multiples of the quantum, up to where the full groups start. */
    method FirstGroup(ndelta0: nat, lgBase: nat, lgDelta: nat)
      requires Sane(cfg) && Tiny(cfg) + Groups(cfg) <= sc.Length && lgBase == lgDelta == cfg.lgQuantum
      requires nsizes == Tiny(cfg) + ndelta0 && ndelta0 == if Tiny(cfg) == 0 then 0 else 1
      requires Made(Pow2(cfg.lgQuantum))
      modifies this`nsizes, this`nbins, this`npsizes, sc
      ensures nsizes == Tiny(cfg) + Groups(cfg) && Made(Pow2(cfg.lgQuantum + cfg.lgNgroup))
    {
      var ndelta := ndelta0;
      MultipleNext(lgBase, 0);
      while ndelta < Groups(cfg)
        invariant ndelta0 <= ndelta <= Groups(cfg) && nsizes == Tiny(cfg) + ndelta
        invariant Made(Multiple(cfg.lgQuantum, ndelta))
      {
        AddPseudo(lgBase, lgDelta, ndelta);
        ndelta := ndelta + 1;
      }
      FirstGroupEnd(cfg);
    }

    method AddPseudo(lgBase: nat, lgDelta: nat, ndelta: nat)
      requires Sane(cfg) && ndelta < Groups(cfg) && lgBase == lgDelta == cfg.lgQuantum
      requires nsizes == 0 <==> ndelta == 0
      requires nsizes == Tiny(cfg) + ndelta < sc.Length && Made(Multiple(cfg.lgQuantum, ndelta))
      modifies this`nsizes, this`nbins, this`npsizes, sc
      ensures nsizes == old(nsizes) + 1 && Made(Multiple(cfg.lgQuantum, ndelta + 1))
    {
      PseudoSlab(cfg, ndelta);
      PseudoSpaced(cfg, ndelta);
      MultipleNext(lgBase, ndelta);
      Add(lgBase, lgDelta, ndelta, Multiple(cfg.lgQuantum, ndelta));
    }

    /** Where the generation stands when the group of base 2^lgBase is next. */
    ghost predicate AtGroup(lgBase: nat)
      reads this`nsizes, this`nbins, this`npsizes, this`largeMaxclass, sc
      reads this`smallMaxclass, this`lgLargeMinclass, this`lookupMaxclass
      requires Sane(cfg)
    {
      && Noted() == BoundsAt(cfg, lgBase)
      && nsizes == CountAt(cfg, lgBase) && Made(NextAt(cfg, lgBase))
      && (lgBase == cfg.ptrBits - 1 ==> largeMaxclass == NextAt(cfg, lgBase))
    }

    function Noted(): Bounds
      reads this`smallMaxclass, this`lgLargeMinclass, this`lookupMaxclass
    {
      Bounds(smallMaxclass, lgLargeMinclass, lookupMaxclass)
    }

    /** All remaining groups. */
    method FullGroups()
      requires Sane(cfg) && sc.Length == NumClasses(cfg) && AtGroup(cfg.lgQuantum + cfg.lgNgroup)
      modifies this`nsizes, this`nbins, this`npsizes, this`largeMaxclass, sc
      modifies this`smallMaxclass, this`lgLargeMinclass, this`lookupMaxclass
      ensures AtGroup(cfg.ptrBits - 1)
    {
      var lgBase := cfg.lgQuantum + cfg.lgNgroup;
      var lgDelta := cfg.lgQuantum;
      while lgBase < cfg.ptrBits - 1
        invariant cfg.lgQuantum + cfg.lgNgroup <= lgBase == lgDelta + cfg.lgNgroup <= cfg.ptrBits - 1
        invariant AtGroup(lgBase)
      {
        NextGroup(lgBase, lgDelta);
        lgBase, lgDelta := lgBase + 1, lgDelta + 1;
      }
      assert lgBase == cfg.ptrBits - 1;
    }

    /** Before the first full group. */
    lemma NoGroup(lgBase: nat)
      requires Sane(cfg) && lgBase == cfg.lgQuantum + cfg.lgNgroup && nsizes == Tiny(cfg) + Groups(cfg)
      requires Made(Pow2(lgBase)) && smallMaxclass == lgLargeMinclass == lookupMaxclass == 0
      ensures AtGroup(lgBase)
    {
    }

    method NextGroup(lgBase: nat, lgDelta: nat)
      requires Sane(cfg) && sc.Length == NumClasses(cfg) && lgBase == lgDelta + cfg.lgNgroup
      requires cfg.lgQuantum + cfg.lgNgroup <= lgBase <= cfg.ptrBits - 2
      requires AtGroup(lgBase)
      modifies this`nsizes, this`nbins, this`npsizes, this`largeMaxclass, sc
      modifies this`smallMaxclass, this`lgLargeMinclass, this`lookupMaxclass
      ensures AtGroup(lgBase + 1)
    {
      GroupRoom(cfg, lgBase, lgDelta);
      Group(lgBase, lgDelta);
    }

    method AddSpaced(lgBase: nat, lgDelta: nat, ndelta: nat)
      requires lgBase == lgDelta + cfg.lgNgroup && 1 <= ndelta <= Groups(cfg) && cfg.lgTinyMin <= lgDelta
      requires 0 < Tiny(cfg) + Groups(cfg) <= nsizes < sc.Length && Made(RegSize(lgBase, lgDelta, ndelta - 1))
      modifies this`nsizes, this`nbins, this`npsizes, sc
      ensures Made(RegSize(lgBase, lgDelta, ndelta)) && nsizes == old(nsizes) + 1
      ensures sc[nsizes - 1].lgDelta == lgDelta
    {
      NextDelta(lgBase, lgDelta, ndelta - 1);
      if RegSize(lgBase, lgDelta, ndelta) < Pow2(cfg.lgPage + cfg.lgNgroup) {
        RegularSlab(cfg, lgDelta, ndelta);
      }
      Add(lgBase, lgDelta, ndelta, RegSize(lgBase, lgDelta, ndelta - 1));
    }

    /** What a class means for the three bounds. */
    method Note(lgBase: nat, lgDelta: nat, ndelta: nat, ghost was: Bounds)
      requires lgBase == lgDelta + cfg.lgNgroup && 1 <= ndelta <= Groups(cfg)
      requires 0 < nsizes <= sc.Length && ClassOk(cfg, sc[nsizes - 1], nsizes - 1)
      requires Size(sc[nsizes - 1]) == RegSize(lgBase, lgDelta, ndelta) && sc[nsizes - 1].lgDelta == lgDelta
      requires Noted() == BoundsIn(cfg, lgBase, ndelta - 1, was)
      modifies this`smallMaxclass, this`lgLargeMinclass, this`lookupMaxclass
      ensures Noted() == BoundsIn(cfg, lgBase, ndelta, was)
    {
      BinIff(cfg, lgBase, lgDelta, ndelta);
      var size := RegSize(lgBase, lgDelta, ndelta);
      if sc[nsizes - 1].lgDeltaLookup != 0 {
        lookupMaxclass := size;
      }
      if sc[nsizes - 1].bin {
        smallMaxclass := size;
        lgLargeMinclass := if cfg.lgNgroup > 0 then lgBase + 1 else lgBase + 2;
      }
    }

    /** One class of a group, with everything it updates. */
    method GroupClass(lgBase: nat, lgDelta: nat, ndelta: nat, ghost was: Bounds)
      requires lgBase == lgDelta + cfg.lgNgroup && 1 <= ndelta <= Groups(cfg) && cfg.lgTinyMin <= lgDelta
      requires 0 < Tiny(cfg) + Groups(cfg) <= nsizes < sc.Length && Made(RegSize(lgBase, lgDelta, ndelta - 1))
      requires Noted() == BoundsIn(cfg, lgBase, ndelta - 1, was)
      modifies this`nsizes, this`nbins, this`npsizes, this`largeMaxclass, sc
      modifies this`smallMaxclass, this`lgLargeMinclass, this`lookupMaxclass
      ensures nsizes == old(nsizes) + 1
      ensures largeMaxclass == RegSize(lgBase, lgDelta, ndelta) && Made(largeMaxclass)
      ensures Noted() == BoundsIn(cfg, lgBase, ndelta, was)
    {
      AddSpaced(lgBase, lgDelta, ndelta);
      LastMade(sc[..nsizes], RegSize(lgBase, lgDelta, ndelta));
      Note(lgBase, lgDelta, ndelta, was);
      largeMaxclass := RegSize(lgBase, lgDelta, ndelta);
    }

    /** One group, without its last class if it is the last group. */
    method Group(lgBase: nat, lgDelta: nat)
      requires lgBase == lgDelta + cfg.lgNgroup && cfg.lgTinyMin <= lgDelta
      requires 0 < Tiny(cfg) + Groups(cfg) <= nsizes
      requires 0 < Limit(cfg, lgBase) <= sc.Length - nsizes
      requires Made(Pow2(lgBase))
      modifies this`nsizes, this`nbins, this`npsizes, this`largeMaxclass, sc
      modifies this`smallMaxclass, this`lgLargeMinclass, this`lookupMaxclass
      ensures nsizes == old(nsizes) + Limit(cfg, lgBase)
      ensures largeMaxclass == RegSize(lgBase, lgDelta, Limit(cfg, lgBase)) && Made(largeMaxclass)
      ensures Noted() == BoundsIn(cfg, lgBase, Limit(cfg, lgBase), old(Noted()))
    {
      var ndelta := 1;
      NextDelta(lgBase, lgDelta, 0);
      var ndeltaLimit := if lgBase == cfg.ptrBits - 2 then Groups(cfg) - 1 else Groups(cfg);
      while ndelta <= ndeltaLimit
        invariant 1 <= ndelta <= ndeltaLimit + 1 && nsizes == old(nsizes) + ndelta - 1
        invariant Made(RegSize(lgBase, lgDelta, ndelta - 1))
        invariant ndelta > 1 ==> largeMaxclass == RegSize(lgBase, lgDelta, ndelta - 1)
        invariant Noted() == BoundsIn(cfg, lgBase, ndelta - 1, old(Noted()))
      {
        GroupClass(lgBase, lgDelta, ndelta, old(Noted()));
        ndelta := ndelta + 1;
      }
    }

    lemma LastMade(s: seq<Class>, next: nat)
      requires s != [] && Upto(cfg, s, next, nbins, npsizes)
      ensures Size(s[|s| - 1]) == next && ClassOk(cfg, s[|s| - 1], |s| - 1)
    {
    }
  }
}
