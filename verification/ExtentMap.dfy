/**
 The address map of extents: splitting, merging, recycling, coalescing and recording page ranges,
 with the radix tree as a map from page number to leaf element.  Addresses and sizes are in pages.
 `Book.ext` holds every extent that is registered, keyed by the identity of its structure.
 */
module ExtentMap {
  import opened Common

  /** SC_NSIZES: the size index of an extent that serves no allocation. */
  const NSIZES: nat := 232

  type Id = int
  datatype State = Active | Dirty | Muzzy | Retained
  datatype Extent = Extent(base: nat, npages: nat, arena: nat, state: State, committed: bool,
                           zeroed: bool, sn: nat, szind: nat, slab: bool)
  datatype Leaf = Leaf(id: Id, szind: nat, slab: bool)

  type Extents = map<Id, Extent>
  type Tree = map<int, Leaf>

  // ------------------------------------------------------------------ the invariant

  function Past(e: Extent): nat { e.base + e.npages }

  function Last(e: Extent): int { e.base + e.npages - 1 }

  predicate In(e: Extent, p: int) { e.base <= p < Past(e) }

  predicate Apart(e: Extent, f: Extent) { Past(e) <= f.base || Past(f) <= e.base }

  predicate Holds(tree: Tree, p: int, i: Id) { p in tree && tree[p].id == i }

  /** The first and the last page of the extent lead to it. */
  ghost predicate Edged(tree: Tree, i: Id, e: Extent) {
    e.base > 0 && e.npages > 0 && Holds(tree, e.base, i) && Holds(tree, Last(e), i)
  }

  /** A lookup by the address of an extent in use yields its size index and whether it is a slab.  The
      entry of its last page may be out of date unless it is a slab. */
  ghost predicate Tagged(tree: Tree, e: Extent) {
    e.szind != NSIZES ==>
      e.state.Active? && (e.base in tree ==> tree[e.base].szind == e.szind && tree[e.base].slab == e.slab)
  }

  /** Every page of an active slab leads to the slab. */
  ghost predicate Filled(tree: Tree, i: Id, e: Extent) {
    e.slab ==> e.state.Active? && forall p :: In(e, p) ==>
                                     Holds(tree, p, i) && tree[p].slab && tree[p].szind == e.szind
  }

  /** No stale entry: a page leads only to an extent around it, at its edges or inside a slab. */
  predicate Owned(ext: Extents, tree: Tree, p: int, busy: set<Id>)
    requires p in tree
  {
    var i := tree[p].id;
    && i in ext && In(ext[i], p)
    && (p == ext[i].base || p == Last(ext[i]) || (ext[i].slab && i !in busy))
  }

  ghost predicate AllEdged(ext: Extents, tree: Tree) {
    forall i :: i in ext ==> Edged(tree, i, ext[i])
  }

  ghost predicate AllApart(ext: Extents) {
    forall i, j :: i in ext && j in ext && i != j ==> Apart(ext[i], ext[j])
  }

  ghost predicate AllPublished(ext: Extents, tree: Tree, busy: set<Id>) {
    forall i :: i in ext && i !in busy ==> Tagged(tree, ext[i]) && Filled(tree, i, ext[i])
  }

  ghost predicate AllOwned(ext: Extents, tree: Tree, busy: set<Id>) {
    forall p :: p in tree ==> Owned(ext, tree, p, busy)
  }

  /** The registered extents are disjoint and the tree describes exactly them.  Extents in `busy`
      are in the middle of an operation: their size index and slab flag are not yet published. */
  ghost predicate Tiled(ext: Extents, tree: Tree, busy: set<Id>) {
    AllEdged(ext, tree) && AllApart(ext) && AllPublished(ext, tree, busy) && AllOwned(ext, tree, busy)
  }

  ghost predicate Covered(ext: Extents, p: int) { exists i :: i in ext && In(ext[i], p) }

  /** Both maps cover the same pages. */
  ghost predicate SamePages(ext: Extents, ext': Extents) {
    forall p: int :: Covered(ext, p) <==> Covered(ext', p)
  }

  lemma SameRanges(ext: Extents, ext': Extents)
    requires ext.Keys == ext'.Keys
    requires forall i :: i in ext ==> ext'[i].base == ext[i].base && ext'[i].npages == ext[i].npages
    ensures SamePages(ext, ext')
  {
    forall p: int ensures Covered(ext, p) <==> Covered(ext', p) {
      if Covered(ext, p) {
        var j :| j in ext && In(ext[j], p);
        assert In(ext'[j], p);
      }
      if Covered(ext', p) {
        var j :| j in ext' && In(ext'[j], p);
        assert In(ext[j], p);
      }
    }
  }

  lemma SamePagesTwice(ext: Extents, mid: Extents, ext': Extents)
    requires SamePages(ext, mid) && SamePages(mid, ext')
    ensures SamePages(ext, ext')
  {
  }

  predicate Touch(e: Extent, f: Extent) { Past(e) == f.base || Past(f) == e.base }

  /** Two free extents that coalescing would join. */
  predicate Joinable(e: Extent, f: Extent) {
    Touch(e, f) && e.arena == f.arena && e.committed == f.committed
  }

  /** No two adjacent extents of the state agree in arena and committed flag. */
  ghost predicate Coalesced(ext: Extents, state: State) {
    forall i, j :: i in ext && j in ext && i != j && ext[i].state == state && ext[j].state == state ==>
                   !Joinable(ext[i], ext[j])
  }

  // ------------------------------------------------------------------ splitting

  /** extent_rtree_write_acquired */
  function WriteEdges(tree: Tree, e: Extent, leaf: Leaf): Tree
    requires e.npages > 0
  {
    tree[e.base := leaf][Last(e) := leaf]
  }

  function LeadOf(e: Extent, na: nat, szind: nat): Extent { e.(npages := na, szind := szind) }

  function TrailOf(e: Extent, na: nat, szind: nat, slab: bool): Extent
    requires na <= e.npages
  {
    e.(base := e.base + na, npages := e.npages - na, szind := szind, slab := slab)
  }

  function SplitExt(ext: Extents, x: Id, na: nat, szindA: nat, y: Id, szindB: nat, slabB: bool): Extents
    requires x in ext && 0 < na < ext[x].npages && x != y
  {
    ext[x := LeadOf(ext[x], na, szindA)][y := TrailOf(ext[x], na, szindB, slabB)]
  }

  function SplitTree(ext: Extents, tree: Tree, x: Id, na: nat, szindA: nat, slabA: bool,
                     y: Id, szindB: nat, slabB: bool): Tree
    requires x in ext && 0 < na < ext[x].npages && x != y
  {
    WriteEdges(WriteEdges(tree, LeadOf(ext[x], na, szindA), Leaf(x, szindA, slabA)),
               TrailOf(ext[x], na, szindB, slabB), Leaf(y, szindB, slabB))
  }

  lemma SplitEdges(ext: Extents, tree: Tree, x: Id, na: nat, szindA: nat, slabA: bool,
                   y: Id, szindB: nat, slabB: bool)
    requires x in ext && 0 < na < ext[x].npages && y !in ext
    requires AllEdged(ext, tree) && AllApart(ext)
    ensures AllEdged(SplitExt(ext, x, na, szindA, y, szindB, slabB),
                     SplitTree(ext, tree, x, na, szindA, slabA, y, szindB, slabB))
    ensures AllApart(SplitExt(ext, x, na, szindA, y, szindB, slabB))
  {
    var ext' := SplitExt(ext, x, na, szindA, y, szindB, slabB);
    var tree' := SplitTree(ext, tree, x, na, szindA, slabA, y, szindB, slabB);
    forall i | i in ext' ensures Edged(tree', i, ext'[i]) {
      if i != x && i != y {
        assert Edged(tree, i, ext[i]) && Apart(ext[i], ext[x]);
      }
    }
  }

  lemma SplitPublished(ext: Extents, tree: Tree, x: Id, na: nat, szindA: nat, slabA: bool,
                   y: Id, szindB: nat, slabB: bool, busy: set<Id>)
    requires x in ext && 0 < na < ext[x].npages && y !in ext
    requires AllEdged(ext, tree) && AllApart(ext) && AllPublished(ext, tree, busy) && x in busy
    ensures AllPublished(SplitExt(ext, x, na, szindA, y, szindB, slabB),
                         SplitTree(ext, tree, x, na, szindA, slabA, y, szindB, slabB), busy + {y})
  {
    var ext' := SplitExt(ext, x, na, szindA, y, szindB, slabB);
    var tree' := SplitTree(ext, tree, x, na, szindA, slabA, y, szindB, slabB);
    forall i | i in ext' && i !in busy + {y}
      ensures Tagged(tree', ext'[i]) && Filled(tree', i, ext'[i])
    {
      assert Tagged(tree, ext[i]) && Filled(tree, i, ext[i]) && Apart(ext[i], ext[x]);
      assert Edged(tree, i, ext[i]);
    }
  }

  lemma SplitOwned(ext: Extents, tree: Tree, x: Id, na: nat, szindA: nat, slabA: bool,
                   y: Id, szindB: nat, slabB: bool, busy: set<Id>)
    requires x in ext && 0 < na < ext[x].npages && y !in ext
    requires AllOwned(ext, tree, busy) && AllEdged(ext, tree) && x in busy
    ensures AllOwned(SplitExt(ext, x, na, szindA, y, szindB, slabB),
                     SplitTree(ext, tree, x, na, szindA, slabA, y, szindB, slabB), busy + {y})
  {
    var ext' := SplitExt(ext, x, na, szindA, y, szindB, slabB);
    var tree' := SplitTree(ext, tree, x, na, szindA, slabA, y, szindB, slabB);
    forall p | p in tree' ensures Owned(ext', tree', p, busy + {y}) {
      if p in tree {
        assert Owned(ext, tree, p, busy);
      }
    }
  }

  lemma SplitKeeps(ext: Extents, tree: Tree, x: Id, na: nat, szindA: nat, slabA: bool,
                   y: Id, szindB: nat, slabB: bool, busy: set<Id>)
    requires x in ext && 0 < na < ext[x].npages && y !in ext
    requires Tiled(ext, tree, busy) && x in busy
    ensures Tiled(SplitExt(ext, x, na, szindA, y, szindB, slabB),
                  SplitTree(ext, tree, x, na, szindA, slabA, y, szindB, slabB), busy + {y})
  {
    SplitEdges(ext, tree, x, na, szindA, slabA, y, szindB, slabB);
    SplitPublished(ext, tree, x, na, szindA, slabA, y, szindB, slabB, busy);
    SplitOwned(ext, tree, x, na, szindA, slabA, y, szindB, slabB, busy);
  }

  lemma SplitPages(ext: Extents, x: Id, na: nat, szindA: nat, y: Id, szindB: nat, slabB: bool)
    requires x in ext && 0 < na < ext[x].npages && y !in ext
    ensures SamePages(ext, SplitExt(ext, x, na, szindA, y, szindB, slabB))
  {
    var ext' := SplitExt(ext, x, na, szindA, y, szindB, slabB);
    forall p: int ensures Covered(ext, p) <==> Covered(ext', p) {
      if Covered(ext, p) {
        var i :| i in ext && In(ext[i], p);
        assert In(ext'[if i == x && p >= ext[x].base + na then y else i], p);
      }
      if Covered(ext', p) {
        var i :| i in ext' && In(ext'[i], p);
        assert In(ext[if i == y then x else i], p);
      }
    }
  }

  // ------------------------------------------------------------------ merging

  function Merged(a: Extent, b: Extent): Extent {
    a.(npages := a.npages + b.npages, szind := NSIZES, sn := if a.sn < b.sn then a.sn else b.sn,
       zeroed := a.zeroed && b.zeroed)
  }

  function MergeExt(ext: Extents, a: Id, b: Id): Extents
    requires a in ext && b in ext
  {
    (ext - {b})[a := Merged(ext[a], ext[b])]
  }

  /** The two inner boundary entries go first, then the outer ones are written: an extent of one
      page has a single entry that is cleared and then written again. */
  function MergeTree(ext: Extents, tree: Tree, a: Id, b: Id): Tree
    requires a in ext && b in ext
  {
    (tree - {Last(ext[a]), ext[b].base})
      [ext[a].base := Leaf(a, NSIZES, false)][Last(ext[b]) := Leaf(a, NSIZES, false)]
  }

  lemma MergeEdges(ext: Extents, tree: Tree, a: Id, b: Id)
    requires AllEdged(ext, tree) && AllApart(ext)
    requires a in ext && b in ext && a != b && Past(ext[a]) == ext[b].base
    ensures AllEdged(MergeExt(ext, a, b), MergeTree(ext, tree, a, b))
  {
    var ext' := MergeExt(ext, a, b);
    var tree' := MergeTree(ext, tree, a, b);
    assert Edged(tree, a, ext[a]) && Edged(tree, b, ext[b]);
    forall i | i in ext' ensures Edged(tree', i, ext'[i]) {
      if i != a {
        assert Edged(tree, i, ext[i]) && Apart(ext[i], ext[a]) && Apart(ext[i], ext[b]);
      }
    }
  }

  lemma MergeApart(ext: Extents, tree: Tree, a: Id, b: Id)
    requires AllEdged(ext, tree) && AllApart(ext)
    requires a in ext && b in ext && a != b && Past(ext[a]) == ext[b].base
    ensures AllApart(MergeExt(ext, a, b))
  {
    var ext' := MergeExt(ext, a, b);
    forall i, j | i in ext' && j in ext' && i != j ensures Apart(ext'[i], ext'[j]) {
      assert Apart(ext[i], ext[j]);
      assert Edged(tree, i, ext[i]) && Edged(tree, j, ext[j]);
      if i == a { assert Apart(ext[j], ext[b]); }
      if j == a { assert Apart(ext[i], ext[b]); }
    }
  }

  lemma MergePublished(ext: Extents, tree: Tree, a: Id, b: Id)
    requires AllEdged(ext, tree) && AllApart(ext) && AllPublished(ext, tree, {})
    requires a in ext && b in ext && a != b && Past(ext[a]) == ext[b].base && !ext[a].slab
    ensures AllPublished(MergeExt(ext, a, b), MergeTree(ext, tree, a, b), {})
  {
    var ext' := MergeExt(ext, a, b);
    var tree' := MergeTree(ext, tree, a, b);
    forall i | i in ext' ensures Tagged(tree', ext'[i]) && Filled(tree', i, ext'[i]) {
      if i != a {
        assert Tagged(tree, ext[i]) && Filled(tree, i, ext[i]);
        assert Apart(ext[i], ext[a]) && Apart(ext[i], ext[b]) && Edged(tree, i, ext[i]);
      }
    }
  }

  lemma MergeOwned(ext: Extents, tree: Tree, a: Id, b: Id)
    requires AllOwned(ext, tree, {}) && AllEdged(ext, tree)
    requires a in ext && b in ext && a != b && Past(ext[a]) == ext[b].base
    requires !ext[a].slab && !ext[b].slab
    ensures AllOwned(MergeExt(ext, a, b), MergeTree(ext, tree, a, b), {})
  {
    var ext' := MergeExt(ext, a, b);
    var tree' := MergeTree(ext, tree, a, b);
    assert Edged(tree, a, ext[a]) && Edged(tree, b, ext[b]);
    forall p | p in tree' ensures Owned(ext', tree', p, {}) {
      if p in tree {
        assert Owned(ext, tree, p, {});
      }
    }
  }

  lemma MergeKeeps(ext: Extents, tree: Tree, a: Id, b: Id)
    requires Tiled(ext, tree, {}) && a in ext && b in ext && a != b
    requires Past(ext[a]) == ext[b].base && !ext[a].slab && !ext[b].slab
    ensures Tiled(MergeExt(ext, a, b), MergeTree(ext, tree, a, b), {})
  {
    MergeEdges(ext, tree, a, b);
    MergeApart(ext, tree, a, b);
    MergePublished(ext, tree, a, b);
    MergeOwned(ext, tree, a, b);
  }

  lemma MergePages(ext: Extents, a: Id, b: Id)
    requires a in ext && b in ext && a != b && Past(ext[a]) == ext[b].base
    ensures SamePages(ext, MergeExt(ext, a, b))
  {
    var ext' := MergeExt(ext, a, b);
    forall p: int ensures Covered(ext, p) <==> Covered(ext', p) {
      if Covered(ext, p) {
        var i :| i in ext && In(ext[i], p);
        assert In(ext'[if i == b then a else i], p);
      }
      if Covered(ext', p) {
        var i :| i in ext' && In(ext'[i], p);
        assert In(ext[if i == a && p >= ext[b].base then b else i], p);
      }
    }
  }

  // ------------------------------------------------------------------ coalescing

  /** One extents_t of one arena. */
  datatype Pool = Pool(arena: nat, state: State, delay: bool)

  /** Whether the split, merge and commit hooks of the arena may report failure. */
  datatype Hooks = AlwaysSucceed | MayFail

  /** extent_can_coalesce */
  predicate CanCoalesce(pool: Pool, inner: Extent, outer: Extent) {
    outer.arena == pool.arena && outer.state == pool.state && inner.committed == outer.committed
  }

  /** An extent on its way into the pool: active, in nobody's use. */
  predicate Idle(e: Extent, pool: Pool) {
    e.state.Active? && e.arena == pool.arena && e.szind == NSIZES && !e.slab
  }

  /** Extent i of ext is x or was taken in by it. */
  predicate Part(ext: Extents, x: Id, ext': Extents, r: Id, i: Id) {
    i in ext && (i == x || i == r || i !in ext')
  }

  /** What r has from its parts: it is zeroed exactly if all of them were, and as old as the oldest. */
  ghost predicate Blend(ext: Extents, x: Id, ext': Extents, r: Id)
    requires x in ext && r in ext'
  {
    match ext'[r]
    case Extent(_, _, _, _, committed, zeroed, sn, _, _) =>
      && committed == ext[x].committed
      && (zeroed <==> forall i :: Part(ext, x, ext', r, i) ==> ext[i].zeroed)
      && (forall i :: Part(ext, x, ext', r, i) ==> sn <= ext[i].sn)
      && (exists i :: Part(ext, x, ext', r, i) && sn == ext[i].sn)
  }

  /** From ext to ext', extent x took in free neighbours of the pool and is now called r. */
  ghost predicate Absorbed(ext: Extents, x: Id, ext': Extents, r: Id, pool: Pool) {
    && x in ext && r in ext' && Idle(ext'[r], pool) && Blend(ext, x, ext', r)
    && ext'[r].base <= ext[x].base && Past(ext[x]) <= Past(ext'[r])
    && (r == x || x !in ext')
    && (forall i :: i in ext' && i != r ==> i in ext && ext'[i] == ext[i])
    && (forall i :: i in ext && i !in ext' && i != x ==> CanCoalesce(pool, ext[x], ext[i]))
    && (r != x ==> r in ext && CanCoalesce(pool, ext[x], ext[r]))
    && SamePages(ext, ext')
  }

  /** Extent x, on its way into the pool, took in members of the pool and is now member r. */
  ghost predicate TookIn(ext: Extents, x: Id, ext': Extents, r: Id, pool: Pool) {
    && x in ext && Member(ext', r, pool) && Blend(ext, x, ext', r)
    && ext'[r].szind == NSIZES && !ext'[r].slab
    && (r != x ==> x !in ext' && r in ext && CanCoalesce(pool, ext[x], ext[r]))
    && (forall i :: i in ext' && i != r ==> i in ext && ext'[i] == ext[i])
    && (forall i :: i in ext && i !in ext' && i != x ==> CanCoalesce(pool, ext[x], ext[i]))
  }

  /** Setting a state and setting it back. */
  lemma ThereAndBack(ext: Extents, i: Id, s: State)
    requires i in ext
    ensures var mid := ext[i := ext[i].(state := s)];
      mid[i := mid[i].(state := ext[i].state)] == ext
  {
  }

  lemma AbsorbedTookIn(ext: Extents, x: Id, mid: Extents, last: Extents, r: Id, pool: Pool)
    requires x in ext && x in mid && mid == ext[x := mid[x]] && mid[x].committed == ext[x].committed
    requires mid[x].zeroed == ext[x].zeroed && mid[x].sn == ext[x].sn
    requires Absorbed(mid, x, last, r, pool)
    ensures TookIn(ext, x, last[r := last[r].(state := pool.state)], r, pool)
  {
  }

  lemma UnusedTookIn(ext: Extents, x: Id, ext': Extents, r: Id, pool: Pool)
    requires x in ext && TookIn(Unused(ext, x), x, ext', r, pool)
    ensures TookIn(ext, x, ext', r, pool)
  {
  }

  /** Either extents have gone, or nothing has happened yet. */
  ghost predicate Shrunk(ext0: Extents, tree0: Tree, x0: Id, ext: Extents, tree: Tree, x: Id) {
    && ext.Keys <= ext0.Keys
    && (ext.Keys == ext0.Keys ==> ext == ext0 && tree == tree0 && x == x0)
  }

  lemma AbsorbedTwice(ext: Extents, x: Id, ext': Extents, r: Id, ext'': Extents, t: Id, pool: Pool)
    requires Absorbed(ext, x, ext', r, pool) && Absorbed(ext', r, ext'', t, pool)
    requires !pool.state.Active?
    ensures Absorbed(ext, x, ext'', t, pool)
  {
    if r != x {
      assert x !in ext'';
    }
  }

  /** e follows (forward) or precedes r. */
  predicate Beside(r: Extent, e: Extent, forward: bool) {
    if forward then Past(r) == e.base else Past(e) == r.base
  }

  /** No neighbour on that side could be taken in. */
  ghost predicate Blocked(ext: Extents, r: Id, pool: Pool, forward: bool)
    requires r in ext
  {
    forall j :: j in ext && Beside(ext[r], ext[j], forward) ==> !CanCoalesce(pool, ext[r], ext[j])
  }

  ghost predicate Isolated(ext: Extents, r: Id, pool: Pool)
    requires r in ext
  {
    Blocked(ext, r, pool, true) && Blocked(ext, r, pool, false)
  }

  lemma FlagsKeep(ext: Extents, tree: Tree, i: Id, e: Extent, busy: set<Id>)
    requires Tiled(ext, tree, busy) && i in ext && !ext[i].slab && ext[i].szind == NSIZES
    requires e == ext[i].(state := e.state, committed := e.committed, zeroed := e.zeroed)
    ensures Tiled(ext[i := e], tree, busy) && SamePages(ext, ext[i := e])
  {
    var ext' := ext[i := e];
    forall j | j in ext' ensures Edged(tree, j, ext'[j]) {
      assert Edged(tree, j, ext[j]);
    }
    forall j | j in ext' && j !in busy ensures Tagged(tree, ext'[j]) && Filled(tree, j, ext'[j]) {
      assert Tagged(tree, ext[j]) && Filled(tree, j, ext[j]);
    }
    forall j, k | j in ext' && k in ext' && j != k ensures Apart(ext'[j], ext'[k]) {
      assert Apart(ext[j], ext[k]);
    }
    forall p | p in tree ensures Owned(ext', tree, p, busy) {
      assert Owned(ext, tree, p, busy);
    }
    SameRanges(ext, ext');
  }

  /** extent_lock_from_addr with inactive_only */
  function Lookup(tree: Tree, p: int, inactiveOnly: bool): Option<Id> {
    if p in tree && !(inactiveOnly && tree[p].slab) then Some(tree[p].id) else None
  }

  /** The tree finds the neighbours of an extent, and nothing else. */
  lemma Neighbours(ext: Extents, tree: Tree, x: Id)
    requires Tiled(ext, tree, {}) && x in ext
    ensures var n := Lookup(tree, Past(ext[x]), false);
      && (n.Some? ==> n.value in ext && n.value != x && Past(ext[x]) == ext[n.value].base)
      && (forall j :: j in ext && Past(ext[x]) == ext[j].base ==> n == Some(j))
    ensures var n := Lookup(tree, ext[x].base - 1, false);
      && (n.Some? ==> n.value in ext && n.value != x && Past(ext[n.value]) == ext[x].base)
      && (forall j :: j in ext && Past(ext[j]) == ext[x].base ==> n == Some(j))
  {
    var after, before := Past(ext[x]), ext[x].base - 1;
    assert Edged(tree, x, ext[x]);
    if after in tree {
      assert Owned(ext, tree, after, {});
      assert Apart(ext[x], ext[tree[after].id]);
    }
    if before in tree {
      assert Owned(ext, tree, before, {});
      assert Apart(ext[x], ext[tree[before].id]);
    }
    forall j | j in ext && Past(ext[x]) == ext[j].base
      ensures Lookup(tree, after, false) == Some(j)
    {
      assert Edged(tree, j, ext[j]);
    }
    forall j | j in ext && Past(ext[j]) == ext[x].base
      ensures Lookup(tree, before, false) == Some(j)
    {
      assert Edged(tree, j, ext[j]);
    }
  }

  lemma MergeAbsorbs(ext: Extents, a: Id, b: Id, inner: Id, pool: Pool)
    requires a in ext && b in ext && a != b && inner in {a, b} && Past(ext[a]) == ext[b].base
    requires Idle(ext[inner], pool) && !pool.state.Active?
    requires var outer := if inner == a then b else a;
      CanCoalesce(pool, ext[inner], ext[outer]) && !ext[outer].slab
    ensures var outer := if inner == a then b else a;
      Absorbed(ext, inner, MergeExt(ext[outer := ext[outer].(state := Active)], a, b), a, pool)
  {
    var outer := if inner == a then b else a;
    var mid := ext[outer := ext[outer].(state := Active)];
    MergePages(mid, a, b);
    SameRanges(ext, mid);
  }

  // ------------------------------------------------------------------ joins that skip slabs

  /** The entry of e that an extent on the other side of it looks up carries the slab flag. */
  predicate Marked(tree: Tree, e: Extent, forward: bool) {
    var p := if forward then e.base else Last(e);
    p in tree && tree[p].slab
  }

  /** On that side, the lookup that skips slabs finds no neighbour to take in. */
  ghost predicate Stuck(ext: Extents, tree: Tree, r: Id, pool: Pool, forward: bool)
    requires r in ext
  {
    forall j :: j in ext && Beside(ext[r], ext[j], forward) && CanCoalesce(pool, ext[r], ext[j]) ==>
                Marked(tree, ext[j], forward)
  }

  predicate Ahead(r: Extent, e: Extent, forward: bool) {
    if forward then Past(r) <= e.base else Past(e) <= r.base
  }

  predicate Gap(r: Extent, e: Extent, forward: bool, p: int) {
    if forward then Past(r) <= p < e.base else Past(e) <= p < r.base
  }

  /** Page p belongs to a free extent of the pool that r could take in. */
  ghost predicate FreeAt(ext: Extents, r: Id, pool: Pool, p: int)
    requires r in ext
  {
    exists k :: k in ext && CanCoalesce(pool, ext[r], ext[k]) && In(ext[k], p)
  }

  /** j is a free extent of the pool whose edge entry towards r still carries the slab flag, and
      nothing but free extents of the pool lies between the two. */
  ghost predicate Barrier(ext: Extents, tree: Tree, r: Id, j: Id, pool: Pool, forward: bool)
    requires r in ext
  {
    && j in ext && CanCoalesce(pool, ext[r], ext[j]) && Ahead(ext[r], ext[j], forward)
    && Marked(tree, ext[j], forward)
    && forall p: int :: Gap(ext[r], ext[j], forward, p) ==> FreeAt(ext, r, pool, p)
  }

  ghost predicate Barred(ext: Extents, tree: Tree, r: Id, pool: Pool)
    requires r in ext
  {
    exists j, forward :: Barrier(ext, tree, r, j, pool, forward)
  }

  /** When neither side can be joined any more, something joinable is left exactly if there is a
      barrier. */
  lemma StuckAtBarriers(ext: Extents, tree: Tree, r: Id, pool: Pool)
    requires Tiled(ext, tree, {}) && r in ext && Idle(ext[r], pool) && !pool.state.Active?
    requires Stuck(ext, tree, r, pool, true) && Stuck(ext, tree, r, pool, false)
    ensures Isolated(ext, r, pool) <==> !Barred(ext, tree, r, pool)
  {
    if j, forward :| Barrier(ext, tree, r, j, pool, forward) {
      BarrierTouches(ext, tree, r, j, pool, forward);
    }
    forall j, forward | j in ext && Beside(ext[r], ext[j], forward) && CanCoalesce(pool, ext[r], ext[j])
      ensures Barrier(ext, tree, r, j, pool, forward)
    {
    }
  }

  /** In front of a barrier there is something to join. */
  lemma BarrierTouches(ext: Extents, tree: Tree, r: Id, j: Id, pool: Pool, forward: bool)
    requires Tiled(ext, tree, {}) && r in ext && Idle(ext[r], pool) && !pool.state.Active?
    requires Barrier(ext, tree, r, j, pool, forward)
    ensures !Blocked(ext, r, pool, forward)
  {
    assert Edged(tree, j, ext[j]) && Edged(tree, r, ext[r]);
    if !Beside(ext[r], ext[j], forward) {
      var p := if forward then Past(ext[r]) else ext[r].base - 1;
      assert Gap(ext[r], ext[j], forward, p) && FreeAt(ext, r, pool, p);
      var k :| k in ext && CanCoalesce(pool, ext[r], ext[k]) && In(ext[k], p);
      assert Apart(ext[r], ext[k]);
      assert Beside(ext[r], ext[k], forward);
    }
  }

  /** What x, having taken in its neighbour n, is in the two maps. */
  function JoinedExt(ext: Extents, x: Id, n: Id, forward: bool): Extents
    requires x in ext && n in ext
  {
    MergeExt(ext[n := ext[n].(state := Active)], if forward then x else n, if forward then n else x)
  }

  function JoinedTree(ext: Extents, tree: Tree, x: Id, n: Id, forward: bool): Tree
    requires x in ext && n in ext
  {
    MergeTree(ext[n := ext[n].(state := Active)], tree, if forward then x else n, if forward then n else x)
  }

  /** Joining a neighbour that a lookup skipping slabs finds neither removes nor makes a barrier. */
  lemma JoinKeepsBarriers(ext: Extents, tree: Tree, x: Id, n: Id, forward: bool, pool: Pool)
    requires MayJoin(ext, tree, x, n, forward, pool)
    ensures var r := if forward then x else n;
      r in JoinedExt(ext, x, n, forward)
      && (Barred(ext, tree, x, pool)
          <==> Barred(JoinedExt(ext, x, n, forward), JoinedTree(ext, tree, x, n, forward), r, pool))
  {
    var ext', tree' := JoinedExt(ext, x, n, forward), JoinedTree(ext, tree, x, n, forward);
    var r := if forward then x else n;
    forall j, d | Barrier(ext, tree, x, j, pool, d) ensures Barrier(ext', tree', r, j, pool, d) {
      BarrierStays(ext, tree, x, n, forward, pool, j, d);
    }
    forall j, d | Barrier(ext', tree', r, j, pool, d) ensures Barrier(ext, tree, x, j, pool, d) {
      BarrierWas(ext, tree, x, n, forward, pool, j, d);
    }
  }

  /** x is about to take in its neighbour n, which a lookup skipping slabs finds. */
  ghost predicate MayJoin(ext: Extents, tree: Tree, x: Id, n: Id, forward: bool, pool: Pool) {
    && Tiled(ext, tree, {}) && x in ext && n in ext && x != n && !pool.state.Active?
    && Idle(ext[x], pool) && CanCoalesce(pool, ext[x], ext[n]) && Beside(ext[x], ext[n], forward)
    && !Marked(tree, ext[n], forward)
  }

  lemma BarrierStays(ext: Extents, tree: Tree, x: Id, n: Id, forward: bool, pool: Pool, j: Id, d: bool)
    requires MayJoin(ext, tree, x, n, forward, pool) && Barrier(ext, tree, x, j, pool, d)
    ensures Barrier(JoinedExt(ext, x, n, forward), JoinedTree(ext, tree, x, n, forward),
                    if forward then x else n, j, pool, d)
  {
    var ext' := JoinedExt(ext, x, n, forward);
    var r := if forward then x else n;
    BarrierStaysAhead(ext, tree, x, n, forward, pool, j, d);
    assert Edged(tree, n, ext[n]) && Edged(tree, x, ext[x]);
    forall p: int | Gap(ext'[r], ext'[j], d, p) ensures FreeAt(ext', r, pool, p) {
      assert Gap(ext[x], ext[j], d, p) && FreeAt(ext, x, pool, p);
      var k :| k in ext && CanCoalesce(pool, ext[x], ext[k]) && In(ext[k], p);
      assert k != n && k != x;
      assert k in ext' && ext'[k] == ext[k];
    }
  }

  lemma BarrierStaysAhead(ext: Extents, tree: Tree, x: Id, n: Id, forward: bool, pool: Pool, j: Id, d: bool)
    requires MayJoin(ext, tree, x, n, forward, pool) && Barrier(ext, tree, x, j, pool, d)
    ensures var ext', tree' := JoinedExt(ext, x, n, forward), JoinedTree(ext, tree, x, n, forward);
      var r := if forward then x else n;
      && r in ext' && j in ext' && ext'[j] == ext[j] && CanCoalesce(pool, ext'[r], ext'[j])
      && Ahead(ext'[r], ext'[j], d) && Marked(tree', ext'[j], d)
  {
    assert Edged(tree, n, ext[n]) && Edged(tree, x, ext[x]) && Edged(tree, j, ext[j]);
    assert j != n && j != x;
    assert Apart(ext[j], ext[n]) && Apart(ext[j], ext[x]);
  }

  lemma BarrierWas(ext: Extents, tree: Tree, x: Id, n: Id, forward: bool, pool: Pool, j: Id, d: bool)
    requires MayJoin(ext, tree, x, n, forward, pool)
    requires (if forward then x else n) in JoinedExt(ext, x, n, forward)
    requires Barrier(JoinedExt(ext, x, n, forward), JoinedTree(ext, tree, x, n, forward),
                     if forward then x else n, j, pool, d)
    ensures Barrier(ext, tree, x, j, pool, d)
  {
    var ext', tree' := JoinedExt(ext, x, n, forward), JoinedTree(ext, tree, x, n, forward);
    var r := if forward then x else n;
    assert j != n && j != x && j in ext && ext'[j] == ext[j];
    assert Edged(tree, n, ext[n]) && Edged(tree, x, ext[x]) && Edged(tree, j, ext[j]);
    assert Apart(ext[j], ext[n]) && Apart(ext[j], ext[x]);
    forall p: int | Gap(ext[x], ext[j], d, p) ensures FreeAt(ext, x, pool, p) {
      if In(ext[n], p) {
        assert CanCoalesce(pool, ext[x], ext[n]);
      } else {
        assert Gap(ext'[r], ext'[j], d, p) && FreeAt(ext', r, pool, p);
        var k :| k in ext' && CanCoalesce(pool, ext'[r], ext'[k]) && In(ext'[k], p);
        assert k in ext && ext[k] == ext'[k];
      }
    }
  }

  /** Barriers do not depend on the extent's own entries, size index, flags or state. */
  lemma OwnEntriesDoNotBar(ext: Extents, tree: Tree, ext': Extents, tree': Tree, x: Id, pool: Pool)
    requires x in ext && ext[x].state.Active? && !pool.state.Active?
    requires AllApart(ext) && AllEdged(ext, tree)
    requires x in ext' && ext' == ext[x := ext'[x]] && ext'[x].state.Active?
    requires ext'[x].base == ext[x].base && ext'[x].npages == ext[x].npages
    requires ext'[x].committed == ext[x].committed
    requires forall p :: !In(ext[x], p) ==> (p in tree <==> p in tree') && (p in tree ==> tree[p] == tree'[p])
    ensures Barred(ext, tree, x, pool) <==> Barred(ext', tree', x, pool)
  {
    forall j, d | j in ext && j != x && Ahead(ext[x], ext[j], d)
      ensures Barrier(ext, tree, x, j, pool, d) <==> Barrier(ext', tree', x, j, pool, d)
    {
      assert Apart(ext[x], ext[j]) && Edged(tree, j, ext[j]);
      forall p: int ensures FreeAt(ext, x, pool, p) <==> FreeAt(ext', x, pool, p) {
        if FreeAt(ext, x, pool, p) {
          var k :| k in ext && CanCoalesce(pool, ext[x], ext[k]) && In(ext[k], p);
          assert ext'[k] == ext[k];
        }
        if FreeAt(ext', x, pool, p) {
          var k :| k in ext' && CanCoalesce(pool, ext'[x], ext'[k]) && In(ext'[k], p);
          assert ext'[k] == ext[k];
        }
      }
    }
  }

  lemma StateKeepsIsolated(ext: Extents, x: Id, pool: Pool)
    requires x in ext && ext[x].npages > 0
    ensures Isolated(ext, x, pool) <==> Isolated(ext[x := ext[x].(state := pool.state)], x, pool)
  {
    var ext' := ext[x := ext[x].(state := pool.state)];
    assert forall j :: j in ext && j != x ==> ext'[j] == ext[j];
  }

  // ------------------------------------------------------------------ slab interiors, removal

  predicate Inner(e: Extent, p: int) { e.base < p < Last(e) }

  function Interior(e: Extent): set<int> { set p | e.base < p < Last(e) && Inner(e, p) }

  /** extent_interior_register */
  function FillTree(tree: Tree, e: Extent, leaf: Leaf): Tree {
    tree + map p | e.base < p < Last(e) && Inner(e, p) :: leaf
  }

  /** The first page carries the leaf, and for a slab the last page too. */
  predicate EdgeLeaves(tree: Tree, e: Extent, leaf: Leaf) {
    && e.base in tree && tree[e.base] == leaf
    && (leaf.slab ==> Last(e) in tree && tree[Last(e)] == leaf)
  }

  /** What extent_split_interior writes when nothing was split off. */
  function TagTree(tree: Tree, x: Id, e: Extent, szind: nat, slab: bool): Tree {
    var leaf := Leaf(x, szind, slab);
    if szind == NSIZES then tree
    else if slab && e.npages > 1 then tree[e.base := leaf][Last(e) := leaf]
    else tree[e.base := leaf]
  }

  /** An extent whose edges carry its size index may be published, as a slab once it is filled. */
  lemma PublishKeeps(ext: Extents, tree: Tree, x: Id, slab: bool)
    requires Tiled(ext, tree, {x}) && x in ext && ext[x].state.Active?
    requires ext[x].szind != NSIZES ==> EdgeLeaves(tree, ext[x], Leaf(x, ext[x].szind, slab))
    requires slab ==> ext[x].szind != NSIZES
    ensures var e := ext[x].(slab := slab);
      Tiled(ext[x := e], if slab then FillTree(tree, e, Leaf(x, e.szind, true)) else tree, {})
  {
    var e := ext[x].(slab := slab);
    var tree' := if slab then FillTree(tree, e, Leaf(x, e.szind, true)) else tree;
    assert Edged(tree, x, ext[x]);
    forall i | i in ext && i != x ensures Stable(tree, tree', ext[i]) {
      assert Apart(ext[i], ext[x]);
    }
    FillFits(tree, x, e);
    Replace(ext, tree, tree', x, e, {x});
    forall p | p in tree' ensures Owned(ext[x := e], tree', p, {}) {
      if p in tree {
        assert Owned(ext, tree, p, {x});
      }
    }
  }

  lemma FillFits(tree: Tree, x: Id, e: Extent)
    requires Edged(tree, x, e) && e.state.Active?
    requires e.szind != NSIZES ==> EdgeLeaves(tree, e, Leaf(x, e.szind, e.slab))
    requires e.slab ==> e.szind != NSIZES
    ensures var tree' := if e.slab then FillTree(tree, e, Leaf(x, e.szind, true)) else tree;
      Edged(tree', x, e) && Tagged(tree', e) && Filled(tree', x, e)
  {
  }

  /** The two trees agree on the pages of the extent. */
  ghost predicate Stable(tree: Tree, tree': Tree, e: Extent) {
    forall p :: In(e, p) ==> (p in tree <==> p in tree') && (p in tree ==> tree[p] == tree'[p])
  }

  /** Changing extent x in place and the tree on its pages alone leaves the others published. */
  lemma Replace(ext: Extents, tree: Tree, tree': Tree, x: Id, e: Extent, busy: set<Id>)
    requires Tiled(ext, tree, busy) && x in ext && e.base == ext[x].base && e.npages == ext[x].npages
    requires busy <= {x}
    requires forall i :: i in ext && i != x ==> Stable(tree, tree', ext[i])
    requires Edged(tree', x, e) && Tagged(tree', e) && Filled(tree', x, e)
    ensures AllEdged(ext[x := e], tree') && AllApart(ext[x := e]) && AllPublished(ext[x := e], tree', {})
  {
    var ext' := ext[x := e];
    forall i | i in ext'
      ensures Edged(tree', i, ext'[i]) && Tagged(tree', ext'[i]) && Filled(tree', i, ext'[i])
    {
      if i != x {
        assert Edged(tree, i, ext[i]) && Tagged(tree, ext[i]) && Filled(tree, i, ext[i]);
        assert In(ext[i], ext[i].base) && In(ext[i], Last(ext[i]));
      }
    }
    forall j, k | j in ext' && k in ext' && j != k ensures Apart(ext'[j], ext'[k]) {
      assert Apart(ext[j], ext[k]);
    }
  }

  function Unused(ext: Extents, x: Id): Extents
    requires x in ext
  {
    ext[x := ext[x].(szind := NSIZES, slab := false)]
  }

  function Emptied(ext: Extents, tree: Tree, x: Id): Tree
    requires x in ext
  {
    if ext[x].slab then tree - Interior(ext[x]) else tree
  }

  /** An extent that leaves use gives up its interior entries. */
  lemma WithdrawKeeps(ext: Extents, tree: Tree, x: Id, busy: set<Id>)
    requires Tiled(ext, tree, busy) && busy <= {x} && x in ext
    ensures var e := ext[x].(szind := NSIZES, slab := false);
      Tiled(ext[x := e], if ext[x].slab then tree - Interior(ext[x]) else tree, {})
  {
    var e := ext[x].(szind := NSIZES, slab := false);
    var tree' := if ext[x].slab then tree - Interior(ext[x]) else tree;
    assert Edged(tree, x, ext[x]);
    forall i | i in ext && i != x ensures Stable(tree, tree', ext[i]) {
      assert Apart(ext[i], ext[x]);
    }
    Replace(ext, tree, tree', x, e, busy);
    forall p | p in tree' ensures Owned(ext[x := e], tree', p, {}) {
      assert Owned(ext, tree, p, busy);
    }
  }

  lemma DeregisterKeeps(ext: Extents, tree: Tree, x: Id, busy: set<Id>)
    requires Tiled(ext, tree, busy) && x in ext
    ensures var out := {ext[x].base, Last(ext[x])} + (if ext[x].slab then Interior(ext[x]) else {});
      Tiled(ext - {x}, tree - out, busy - {x})
  {
    var out := {ext[x].base, Last(ext[x])} + (if ext[x].slab then Interior(ext[x]) else {});
    var ext' := ext - {x};
    var tree' := tree - out;
    assert Edged(tree, x, ext[x]);
    forall i | i in ext' ensures Edged(tree', i, ext'[i]) {
      assert Edged(tree, i, ext[i]) && Apart(ext[i], ext[x]);
    }
    forall i | i in ext' && i !in busy - {x}
      ensures Tagged(tree', ext'[i]) && Filled(tree', i, ext'[i])
    {
      assert Tagged(tree, ext[i]) && Filled(tree, i, ext[i]) && Apart(ext[i], ext[x]);
      assert Edged(tree, i, ext[i]);
    }
    forall p | p in tree' ensures Owned(ext', tree', p, busy - {x}) {
      assert Owned(ext, tree, p, busy);
    }
  }

  lemma RegisterKeeps(ext: Extents, tree: Tree, x: Id, e: Extent)
    requires Tiled(ext, tree, {}) && x !in ext && e.base > 0 && e.npages > 0
    requires forall i :: i in ext ==> Apart(ext[i], e)
    ensures Tiled(ext[x := e], WriteEdges(tree, e, Leaf(x, e.szind, e.slab)), {x})
  {
    var ext' := ext[x := e];
    var tree' := WriteEdges(tree, e, Leaf(x, e.szind, e.slab));
    forall i | i in ext' ensures Edged(tree', i, ext'[i]) {
      if i != x {
        assert Edged(tree, i, ext[i]) && Apart(ext[i], e);
      }
    }
    forall i | i in ext' && i != x ensures Tagged(tree', ext'[i]) && Filled(tree', i, ext'[i]) {
      assert Tagged(tree, ext[i]) && Filled(tree, i, ext[i]) && Apart(ext[i], e);
      assert Edged(tree, i, ext[i]);
    }
    forall p | p in tree' ensures Owned(ext', tree', p, {x}) {
      if p in tree {
        assert Owned(ext, tree, p, {});
      }
    }
  }

  // ------------------------------------------------------------------ cutting out a request

  /** extent_split_interior_result_t and the out-parameters that go with it. */
  datatype Cut =
    | Done(lead: Option<Id>, extent: Id, trail: Option<Id>)
    | CantAlloc
    | Broken(toLeak: Id, toSalvage: Option<Id>)

  /** Extent m holds n pages from `lead` pages into what x was; what is left of x before and after
      it are free extents with x's attributes, and nothing else changed. */
  ghost predicate CutInto(ext: Extents, x: Id, ext': Extents, lead: nat, n: nat,
                          l: Option<Id>, m: Id, t: Option<Id>)
  {
    && x in ext && m in ext' && lead + n <= ext[x].npages
    && (l == if lead > 0 then Some(x) else None) && (lead == 0 ==> m == x) && (lead > 0 ==> m !in ext)
    && (t.Some? <==> lead + n < ext[x].npages)
    && ext'[m] == ext[x].(base := ext[x].base + lead, npages := n, szind := ext'[m].szind,
                          slab := ext'[m].slab)
    && (lead > 0 ==> x in ext' && ext'[x] == ext[x].(npages := lead, szind := NSIZES))
    && (t.Some? ==> t.value in ext' && t.value !in ext && t.value != m
                    && ext'[t.value] == ext[x].(base := ext[x].base + lead + n, szind := NSIZES,
                                                npages := ext[x].npages - lead - n, slab := false))
    && (forall i :: i in ext && i != x ==> i in ext' && ext'[i] == ext[i])
    && (forall i :: i in ext' ==> i in ext || i == m || t == Some(i))
  }

  /** The two splits of extent_split_interior, where they are needed. */
  function CutExt(ext: Extents, x: Id, lead: nat, n: nat, szind: nat, slab: bool, y: Id, z: Id): Extents
    requires x in ext && n > 0 && lead + n <= ext[x].npages && x != y && z != x && z != y
  {
    var m := if lead > 0 then y else x;
    var mid := if lead > 0 then SplitExt(ext, x, lead, NSIZES, y, szind, slab) else ext;
    if lead + n < ext[x].npages then SplitExt(mid, m, n, szind, z, NSIZES, false)
    else if lead > 0 then mid
    else ext[x := ext[x].(szind := szind)]
  }

  lemma CutMade(ext: Extents, x: Id, lead: nat, n: nat, szind: nat, slab: bool, y: Id, z: Id)
    requires x in ext && n > 0 && lead + n <= ext[x].npages && y !in ext && z !in ext && y != z && !ext[x].slab
    ensures CutInto(ext, x, CutExt(ext, x, lead, n, szind, slab, y, z), lead, n,
                    if lead > 0 then Some(x) else None, if lead > 0 then y else x,
                    if lead + n < ext[x].npages then Some(z) else None)
  {
  }

  /** Extent x was cut up: what was x is now under x and the structures y and z, and nothing else
      changed. */
  ghost predicate Pieces(ext: Extents, x: Id, ext': Extents, y: Id, z: Id) {
    && x in ext && x in ext'
    && (forall i :: i in ext && i != x ==> i in ext' && ext'[i] == ext[i])
    && (forall i :: i in ext' && i !in ext ==> i == y || i == z)
    && (forall i :: i in ext' && (i == x || i !in ext) ==>
          ext[x].base <= ext'[i].base && Past(ext'[i]) <= Past(ext[x]))
  }

  /** A free extent with the attributes of the one it was cut from. */
  predicate CutOff(whole: Extent, e: Extent, pool: Pool) {
    && e == whole.(base := e.base, npages := e.npages, state := pool.state, szind := NSIZES, slab := false)
    && whole.base <= e.base && Past(e) <= Past(whole)
  }

  /** r was cut out of x: it is committed if x was or the caller asked for it, and zeroed exactly if x
      was or its pages have just been committed; the rest of x is free, and nothing else changed. */
  ghost predicate ServedFrom(ext: Extents, x: Id, ext': Extents, r: Id, pool: Pool, commit: bool) {
    && x in ext && r in ext' && ext[x].base <= ext'[r].base && Past(ext'[r]) <= Past(ext[x])
    && (ext'[r].committed <==> ext[x].committed || commit)
    && (ext'[r].zeroed <==> ext[x].zeroed || (commit && !ext[x].committed))
    && ext'[r].sn == ext[x].sn
    && (forall i :: i in ext && i != x ==> i in ext' && i != r && ext'[i] == ext[i])
    && (forall i :: i in ext' && i != r && (i == x || i !in ext) ==> CutOff(ext[x], ext'[i], pool))
  }

  lemma CutServes(ext: Extents, x: Id, mid: Extents, end: Extents, lead: nat, n: nat,
                  l: Option<Id>, m: Id, t: Option<Id>, pool: Pool)
    requires CutInto(ext, x, mid, lead, n, l, m, t) && end == Returned(mid, l, t, pool)
    requires !ext[x].slab
    ensures ServedFrom(ext, x, end, m, pool, false)
  {
  }

  lemma SplitLeaves(ext: Extents, tree: Tree, x: Id, na: nat, szindA: nat, slabA: bool,
                    y: Id, szindB: nat, slabB: bool)
    requires x in ext && 0 < na < ext[x].npages && y !in ext
    ensures var ext' := SplitExt(ext, x, na, szindA, y, szindB, slabB);
      var tree' := SplitTree(ext, tree, x, na, szindA, slabA, y, szindB, slabB);
      EdgeLeaves(tree', ext'[x], Leaf(x, szindA, slabA)) && EdgeLeaves(tree', ext'[y], Leaf(y, szindB, slabB))
  {
  }

  /** ALIGNMENT_CEILING of an address, in pages. */
  function AlignUp(p: nat, al: nat): (r: nat)
    requires al > 0
    ensures p <= r < p + al && r % al == 0
  {
    var k := (p + al - 1) / al;
    MultipleMod(k, al);
    assert p + al - 1 == al * k + (p + al - 1) % al;
    k * al
  }

  /** The request takes the whole extent. */
  predicate Whole(e: Extent, n: nat, al: nat)
    requires al > 0
  {
    e.npages == n && AlignUp(e.base, al) == e.base
  }

  /** An extent back in its pool. */
  function Freed(ext: Extents, i: Id, pool: Pool): Extents
    requires i in ext
  {
    ext[i := ext[i].(state := pool.state)]
  }

  /** The cut-off pieces go back to the pool the extent came from; m stays out. */
  function Returned(ext: Extents, l: Option<Id>, t: Option<Id>, pool: Pool): Extents
    requires (l.Some? ==> l.value in ext) && (t.Some? ==> t.value in ext)
  {
    var ext1 := if l.Some? then Freed(ext, l.value, pool) else ext;
    if t.Some? then Freed(ext1, t.value, pool) else ext1
  }

  /** Returning the pieces creates no joinable pair: each piece touches only m and what the whole
      extent touched. */
  lemma CutCoalesces(ext: Extents, x: Id, ext': Extents, lead: nat, n: nat, l: Option<Id>, m: Id,
                     t: Option<Id>, pool: Pool, s: State)
    requires CutInto(ext, x, ext', lead, n, l, m, t) && ext[x].state.Active? && n > 0
    requires AllApart(ext') && (forall i :: i in ext' ==> ext'[i].npages > 0)
    requires !s.Active? && Coalesced(Freed(ext, x, pool), s)
    ensures Coalesced(Returned(ext', l, t, pool), s)
  {
    var whole, end := Freed(ext, x, pool), Returned(ext', l, t, pool);
    AllApartAgain(ext', end);
    forall i | i in end && i != m ensures Origin(whole, x, end, m, i) {
    }
    OriginsCoalesced(whole, x, end, m, s);
  }

  /** An extent of `end` is one that was there before, or a piece of x beside m. */
  predicate Origin(whole: Extents, x: Id, end: Extents, m: Id, i: Id)
    requires x in whole && m in end && i in end
  {
    PieceOf(end[i], whole[x], end[m]) || (i in whole && i != x && end[i] == whole[i])
  }

  lemma AllApartAgain(ext: Extents, ext': Extents)
    requires AllApart(ext) && ext.Keys == ext'.Keys && forall i :: i in ext ==> ext[i].npages > 0
    requires forall i :: i in ext ==> ext'[i].base == ext[i].base && ext'[i].npages == ext[i].npages
    ensures AllApart(ext') && forall i :: i in ext' ==> ext'[i].npages > 0
  {
    forall i, j | i in ext' && j in ext' && i != j ensures Apart(ext'[i], ext'[j]) {
      assert Apart(ext[i], ext[j]);
    }
  }

  lemma OriginsCoalesced(whole: Extents, x: Id, end: Extents, m: Id, s: State)
    requires x in whole && m in end && end[m].state.Active? && !s.Active? && Coalesced(whole, s)
    requires AllApart(end) && (forall i :: i in end ==> end[i].npages > 0)
    requires forall i :: i in end && i != m ==> Origin(whole, x, end, m, i)
    ensures Coalesced(end, s)
  {
    forall i, j | i in end && j in end && i != j && end[i].state == s && end[j].state == s
      ensures !Joinable(end[i], end[j])
    {
      assert Origin(whole, x, end, m, i) && Origin(whole, x, end, m, j);
      assert Apart(end[i], end[j]) && Apart(end[i], end[m]) && Apart(end[j], end[m]);
      if i in whole && i != x && end[i] == whole[i] {
        var k := if j in whole && j != x && end[j] == whole[j] then j else x;
        assert !Joinable(whole[i], whole[k]);
      } else if j in whole && j != x && end[j] == whole[j] {
        assert !Joinable(whole[x], whole[j]);
      }
    }
  }

  /** What lies before or after m in the whole extent. */
  predicate PieceOf(e: Extent, whole: Extent, m: Extent) {
    && e.arena == whole.arena && e.committed == whole.committed && e.state == whole.state
    && ((e.base == whole.base && Past(e) == m.base) || (e.base == Past(m) && Past(e) == Past(whole)))
  }

  /** A piece without size index or slab flag needs no publishing. */
  lemma FreeIsPublished(ext: Extents, tree: Tree, x: Id, busy: set<Id>)
    requires Tiled(ext, tree, busy + {x}) && x in ext && ext[x].szind == NSIZES && !ext[x].slab
    ensures Tiled(ext, tree, busy)
  {
    forall i | i in ext && i !in busy ensures Tagged(tree, ext[i]) && Filled(tree, i, ext[i]) {
      if i != x {
        assert i !in busy + {x};
      }
    }
    forall p | p in tree ensures Owned(ext, tree, p, busy) {
      assert Owned(ext, tree, p, busy + {x});
    }
  }

  /** Setting the size index where nothing was split. */
  lemma TagKeeps(ext: Extents, tree: Tree, x: Id, szind: nat, slab: bool)
    requires Tiled(ext, tree, {x}) && x in ext && !ext[x].slab
    ensures var ext' := ext[x := ext[x].(szind := szind)];
      && Tiled(ext', TagTree(tree, x, ext[x], szind, slab), {x})
      && SamePages(ext, ext')
  {
    var ext' := ext[x := ext[x].(szind := szind)];
    var tree' := TagTree(tree, x, ext[x], szind, slab);
    assert Edged(tree, x, ext[x]);
    forall i | i in ext' ensures Edged(tree', i, ext'[i]) {
      assert Edged(tree, i, ext[i]);
      if i != x {
        assert Apart(ext[i], ext[x]);
      }
    }
    forall i | i in ext' && i != x ensures Tagged(tree', ext'[i]) && Filled(tree', i, ext'[i]) {
      assert Tagged(tree, ext[i]) && Filled(tree, i, ext[i]) && Apart(ext[i], ext[x]);
      assert Edged(tree, i, ext[i]);
    }
    forall j, k | j in ext' && k in ext' && j != k ensures Apart(ext'[j], ext'[k]) {
      assert Apart(ext[j], ext[k]);
    }
    forall p | p in tree' ensures Owned(ext', tree', p, {x}) {
      if p in tree {
        assert Owned(ext, tree, p, {x});
      }
    }
    SameRanges(ext, ext');
  }

  class Book {
    var ext: Extents
    var tree: Tree

    constructor ()
      ensures ext == map[] && tree == map[] && Tiled(ext, tree, {})
    {
      ext, tree := map[], map[];
    }

    /** extent_state_set on an extent that serves no allocation. */
    method SetState(i: Id, state: State)
      requires Tiled(ext, tree, {}) && i in ext && !ext[i].slab && ext[i].szind == NSIZES
      modifies this`ext
      ensures Tiled(ext, tree, {}) && SamePages(old(ext), ext)
      ensures ext == old(ext)[i := old(ext)[i].(state := state)]
    {
      FlagsKeep(ext, tree, i, ext[i].(state := state), {});
      ext := ext[i := ext[i].(state := state)];
    }

    /** extent_merge_impl, given whether the hook succeeds. */
    method Merge(a: Id, b: Id, ok: bool) returns (err: bool)
      requires Tiled(ext, tree, {}) && a in ext && b in ext && a != b
      requires Past(ext[a]) == ext[b].base && !ext[a].slab && !ext[b].slab
      modifies this
      ensures err == !ok && Tiled(ext, tree, {})
      ensures err ==> ext == old(ext) && tree == old(tree)
      ensures !err ==> ext == MergeExt(old(ext), a, b) && tree == MergeTree(old(ext), old(tree), a, b)
    {
      if !ok {
        return true;
      }
      MergeKeeps(ext, tree, a, b);
      var ea, eb := ext[a], ext[b];
      tree := tree - {Last(ea)};
      tree := tree - {eb.base};
      var e := ea.(npages := ea.npages + eb.npages, szind := NSIZES);
      e := e.(sn := if ea.sn < eb.sn then ea.sn else eb.sn);
      e := e.(zeroed := ea.zeroed && eb.zeroed);
      ext := ext[a := e];
      tree := tree[ea.base := Leaf(a, NSIZES, false)][Last(eb) := Leaf(a, NSIZES, false)];
      ext := ext - {b};
      assert ext == MergeExt(old(ext), a, b);
      assert tree == MergeTree(old(ext), old(tree), a, b);
      return false;
    }

    /** extent_coalesce: join inner with its neighbour outer, which leaves the pool for it. */
    method Coalesce(pool: Pool, inner: Id, outer: Id, forward: bool, hooks: Hooks) returns (err: bool)
      requires Tiled(ext, tree, {}) && inner in ext && outer in ext && inner != outer
      requires Idle(ext[inner], pool) && CanCoalesce(pool, ext[inner], ext[outer])
      requires !pool.state.Active?
      requires if forward then Past(ext[inner]) == ext[outer].base
               else Past(ext[outer]) == ext[inner].base
      modifies this
      ensures Tiled(ext, tree, {})
      ensures err ==> hooks.MayFail? && ext == old(ext) && tree == old(tree)
      ensures var r := if forward then inner else outer;
        !err ==> Absorbed(old(ext), inner, ext, r, pool) && ext.Keys < old(ext).Keys
      ensures !err ==> ext == JoinedExt(old(ext), inner, outer, forward)
                       && tree == JoinedTree(old(ext), old(tree), inner, outer, forward)
    {
      var ok := *;
      if hooks.AlwaysSucceed? {
        ok := true;
      }
      assert Tagged(tree, ext[outer]) && Filled(tree, outer, ext[outer]);
      SetState(outer, Active);
      var a, b := if forward then inner else outer, if forward then outer else inner;
      MergeAbsorbs(old(ext), a, b, inner, pool);
      err := Merge(a, b, ok);
      if err {
        ThereAndBack(old(ext), outer, Active);
        ext := ext[outer := ext[outer].(state := pool.state)];
      } else {
        assert b in old(ext) && b !in ext;
      }
    }

    /** One half of a round: look for the neighbour on one side and join with it if possible. */
    method CoalesceSide(x: Id, pool: Pool, forward: bool, inactiveOnly: bool, hooks: Hooks)
      returns (r: Id, joined: bool)
      requires Tiled(ext, tree, {}) && x in ext && Idle(ext[x], pool) && !pool.state.Active?
      modifies this
      ensures Tiled(ext, tree, {})
      ensures joined ==> Absorbed(old(ext), x, ext, r, pool) && ext.Keys < old(ext).Keys
      ensures !joined ==> ext == old(ext) && tree == old(tree) && r == x
      ensures !joined && hooks.AlwaysSucceed? && !inactiveOnly ==> Blocked(ext, x, pool, forward)
      ensures !joined && hooks.AlwaysSucceed? ==> Stuck(ext, tree, x, pool, forward)
      ensures joined && inactiveOnly ==>
                (Barred(old(ext), old(tree), x, pool) <==> Barred(ext, tree, r, pool))
    {
      Neighbours(ext, tree, x);
      var found := Lookup(tree, if forward then Past(ext[x]) else ext[x].base - 1, inactiveOnly);
      if found.Some? {
        if CanCoalesce(pool, ext[x], ext[found.value]) {
          if inactiveOnly {
            JoinKeepsBarriers(ext, tree, x, found.value, forward, pool);
          }
          var err := Coalesce(pool, x, found.value, forward, hooks);
          if !err {
            return if forward then x else found.value, true;
          }
        }
      }
      return x, false;
    }

    /** extent_try_coalesce_impl: join x with its free neighbours until neither side can be joined;
        a pool with delayed coalescing stops after the first join and reports it.  The loop ends
        because every round but the last removes an extent. */
    method TryCoalesce(x0: Id, pool: Pool, inactiveOnly: bool, hooks: Hooks)
      returns (x: Id, coalesced: bool)
      requires Tiled(ext, tree, {}) && x0 in ext && Idle(ext[x0], pool) && !pool.state.Active?
      modifies this
      ensures Tiled(ext, tree, {}) && Absorbed(old(ext), x0, ext, x, pool)
      ensures !pool.delay ==> !coalesced
      ensures coalesced ==> ext.Keys < old(ext).Keys
      ensures pool.delay && !coalesced ==> ext == old(ext) && tree == old(tree) && x == x0
      ensures hooks.AlwaysSucceed? && !inactiveOnly && !coalesced ==> Isolated(ext, x, pool)
      ensures hooks.AlwaysSucceed? && pool.delay && !coalesced ==>
                Stuck(ext, tree, x, pool, true) && Stuck(ext, tree, x, pool, false)
      ensures pool.delay && inactiveOnly ==>
                (Barred(old(ext), old(tree), x0, pool) <==> Barred(ext, tree, x, pool))
      ensures ext.Keys <= old(ext).Keys
      ensures ext.Keys == old(ext).Keys ==> ext == old(ext) && tree == old(tree) && x == x0
    {
      x, coalesced := x0, false;
      var again := true;
      while again
        invariant Tiled(ext, tree, {}) && Absorbed(old(ext), x0, ext, x, pool)
        invariant Shrunk(old(ext), old(tree), x0, ext, tree, x)
        invariant pool.delay ==> ext == old(ext) && tree == old(tree) && x == x0
        invariant pool.delay && !again && hooks.AlwaysSucceed? ==>
                    Stuck(ext, tree, x, pool, true) && Stuck(ext, tree, x, pool, false)
        invariant !again && hooks.AlwaysSucceed? && !inactiveOnly ==> Isolated(ext, x, pool)
        decreases ext.Keys, if again then 1 else 0
      {
        again := false;
        var joined;
        x, joined := JoinSide(old(ext), old(tree), x0, x, pool, true, inactiveOnly, hooks);
        if joined {
          if pool.delay {
            return x, true;
          }
          again := true;
        }
        x, joined := JoinSide(old(ext), old(tree), x0, x, pool, false, inactiveOnly, hooks);
        if joined {
          if pool.delay {
            return x, true;
          }
          again := true;
        }
      }
    }

    /** One half of a round, on top of what the rounds before it have taken in. */
    method JoinSide(ghost ext0: Extents, ghost tree0: Tree, ghost x0: Id, x: Id, pool: Pool, forward: bool,
                    inactiveOnly: bool, hooks: Hooks) returns (r: Id, joined: bool)
      requires Tiled(ext, tree, {}) && Absorbed(ext0, x0, ext, x, pool) && !pool.state.Active?
      requires Shrunk(ext0, tree0, x0, ext, tree, x)
      modifies this
      ensures Tiled(ext, tree, {}) && Absorbed(ext0, x0, ext, r, pool)
      ensures Shrunk(ext0, tree0, x0, ext, tree, r)
      ensures joined ==> ext.Keys < old(ext).Keys && ext.Keys < ext0.Keys
      ensures !joined ==> ext == old(ext) && tree == old(tree) && r == x
      ensures !joined && hooks.AlwaysSucceed? && !inactiveOnly ==> Blocked(ext, x, pool, forward)
      ensures !joined && hooks.AlwaysSucceed? ==> Stuck(ext, tree, x, pool, forward)
      ensures joined && inactiveOnly ==>
                (Barred(old(ext), old(tree), x, pool) <==> Barred(ext, tree, r, pool))
    {
      r, joined := CoalesceSide(x, pool, forward, inactiveOnly, hooks);
      if joined {
        AbsorbedTwice(ext0, x0, old(ext), x, ext, r, pool);
      }
    }

    // ---------------------------------------------------------------- interiors and removal

    /** extent_interior_register */
    method InteriorRegister(x: Id, szind: nat)
      requires x in ext
      modifies this`tree
      ensures tree == FillTree(old(tree), ext[x], Leaf(x, szind, true))
    {
      var e := ext[x];
      var i := 1;
      while i < e.npages - 1
        invariant 1 <= i && (i == 1 || i <= e.npages - 1)
        invariant tree == old(tree) + map p | e.base < p < e.base + i && Inner(e, p) :: Leaf(x, szind, true)
      {
        tree := tree[e.base + i := Leaf(x, szind, true)];
        i := i + 1;
      }
      assert forall p :: Inner(e, p) && e.base < p < e.base + i <==> Inner(e, p);
    }

    /** extent_interior_deregister */
    method InteriorDeregister(x: Id)
      requires x in ext
      modifies this`tree
      ensures tree == old(tree) - Interior(ext[x])
    {
      var e := ext[x];
      var i := 1;
      while i < e.npages - 1
        invariant 1 <= i && (i == 1 || i <= e.npages - 1)
        invariant tree == old(tree) - set p | e.base < p < e.base + i && Inner(e, p)
      {
        tree := tree - {e.base + i};
        i := i + 1;
      }
      assert forall p :: Inner(e, p) && e.base < p < e.base + i <==> Inner(e, p);
    }

    /** extent_register_impl of an extent on pages that no extent holds. */
    method Register(x: Id, e: Extent)
      requires Tiled(ext, tree, {}) && x !in ext && e.base > 0 && e.npages > 0 && e.state.Active?
      requires forall i :: i in ext ==> Apart(ext[i], e)
      requires e.slab ==> e.szind != NSIZES
      modifies this
      ensures Tiled(ext, tree, {}) && ext == old(ext)[x := e]
    {
      RegisterKeeps(ext, tree, x, e);
      ext := ext[x := e];
      tree := WriteEdges(tree, e, Leaf(x, e.szind, e.slab));
      PublishKeeps(ext, tree, x, e.slab);
      if e.slab {
        InteriorRegister(x, e.szind);
      }
      assert ext == ext[x := e];
    }

    /** extent_deregister_impl: the extent leaves the map. */
    method Deregister(x: Id, ghost busy: set<Id>)
      requires Tiled(ext, tree, busy) && x in ext
      modifies this
      ensures Tiled(ext, tree, busy - {x}) && ext == old(ext) - {x}
      ensures forall p :: p in tree ==> !In(old(ext)[x], p)
    {
      DeregisterKeeps(ext, tree, x, busy);
      var e := ext[x];
      tree := tree - {e.base} - {Last(e)};
      if e.slab {
        InteriorDeregister(x);
      }
      ext := ext - {x};
      assert tree == old(tree) - ({e.base, Last(e)} + (if e.slab then Interior(e) else {}));
      forall p | p in tree ensures !In(e, p) {
        assert Owned(ext, tree, p, busy - {x});
        assert Apart(e, ext[tree[p].id]) by {
          assert Apart(old(ext)[x], old(ext)[tree[p].id]);
        }
      }
    }

    // ---------------------------------------------------------------- recording a freed extent

    /** What extent_record does first: the extent loses its size index and slab interior. */
    method Withdraw(x: Id, ghost busy: set<Id>)
      requires Tiled(ext, tree, busy) && busy <= {x} && x in ext
      modifies this
      ensures Tiled(ext, tree, {}) && SamePages(old(ext), ext)
      ensures ext == Unused(old(ext), x) && tree == Emptied(old(ext), old(tree), x)
    {
      WithdrawKeeps(ext, tree, x, busy);
      WithdrawnPages(ext, x);
      var e := ext[x];
      if e.slab {
        InteriorDeregister(x);
      }
      ext := ext[x := e.(szind := NSIZES, slab := false)];
    }

    /** Coalescing as the pool prescribes: fully, or only for large extents and in single steps. */
    method Join(x0: Id, pool: Pool, hooks: Hooks) returns (x: Id)
      requires Tiled(ext, tree, {}) && x0 in ext && Idle(ext[x0], pool) && !pool.state.Active?
      modifies this
      ensures Tiled(ext, tree, {}) && Absorbed(old(ext), x0, ext, x, pool)
      ensures !pool.delay && hooks.AlwaysSucceed? ==> Isolated(ext, x, pool)
      ensures pool.delay && old(ext)[x0].npages < LARGE_MIN ==>
                x == x0 && ext == old(ext) && tree == old(tree)
      ensures pool.delay && old(ext)[x0].npages >= LARGE_MIN && hooks.AlwaysSucceed? ==>
                (Isolated(ext, x, pool) <==> !Barred(old(ext), old(tree), x0, pool))
      ensures ext.Keys <= old(ext).Keys
      ensures ext.Keys == old(ext).Keys ==> ext == old(ext) && tree == old(tree) && x == x0
    {
      x := x0;
      StartAbsorbing(ext, x, pool);
      var coalesced;
      if !pool.delay {
        x, coalesced := TryCoalesce(x, pool, false, hooks);
      } else if ext[x].npages >= LARGE_MIN {
        coalesced := true;
        while coalesced
          invariant Tiled(ext, tree, {}) && Absorbed(old(ext), x0, ext, x, pool)
          invariant ext.Keys <= old(ext).Keys
          invariant ext.Keys == old(ext).Keys ==> ext == old(ext) && tree == old(tree) && x == x0
          invariant Barred(old(ext), old(tree), x0, pool) <==> Barred(ext, tree, x, pool)
          invariant !coalesced && hooks.AlwaysSucceed? ==>
                      Stuck(ext, tree, x, pool, true) && Stuck(ext, tree, x, pool, false)
          decreases ext.Keys, if coalesced then 1 else 0
        {
          ghost var ext1, x1 := ext, x;
          x, coalesced := TryCoalesce(x, pool, true, hooks);
          AbsorbedTwice(old(ext), x0, ext1, x1, ext, x, pool);
        }
        if hooks.AlwaysSucceed? {
          StuckAtBarriers(ext, tree, x, pool);
        }
      }
    }

    /** extent_record: the extent stops serving an allocation, is joined with its free neighbours
        as the pool prescribes, and enters the pool. */
    method Record(x0: Id, pool: Pool, hooks: Hooks, ghost busy: set<Id>) returns (x: Id)
      requires Tiled(ext, tree, busy) && busy <= {x0} && x0 in ext
      requires ext[x0].state.Active? && ext[x0].arena == pool.arena && !pool.state.Active?
      modifies this
      ensures Tiled(ext, tree, {}) && SamePages(old(ext), ext)
      ensures TookIn(old(ext), x0, ext, x, pool)
      ensures ext[x].base <= old(ext)[x0].base && Past(old(ext)[x0]) <= Past(ext[x])
      ensures ext.Keys == old(ext).Keys || (pool.delay && old(ext)[x0].npages < LARGE_MIN) ==>
                && x == x0 && tree == Emptied(old(ext), old(tree), x0)
                && ext == Freed(Unused(old(ext), x0), x0, pool)
      ensures !pool.delay && hooks.AlwaysSucceed? ==> Isolated(ext, x, pool)
      ensures pool.delay && old(ext)[x0].npages >= LARGE_MIN && hooks.AlwaysSucceed? ==>
                (Isolated(ext, x, pool) <==> !Barred(old(ext), old(tree), x0, pool))
      ensures forall s: State ::
                (!s.Active? && Coalesced(old(ext), s)
                 && (s == pool.state ==> !pool.delay && hooks.AlwaysSucceed?)) ==> Coalesced(ext, s)
    {
      OwnEntriesDoNotBar(ext, tree, Unused(ext, x0), Emptied(ext, tree, x0), x0, pool);
      Withdraw(x0, busy);
      ghost var mid := ext;
      x := Enter(x0, pool, hooks);
      UnusedTookIn(old(ext), x0, ext, x, pool);
      forall s: State | !s.Active? && Coalesced(old(ext), s) ensures Coalesced(mid, s) {
        OneActive(old(ext), mid, x0, s);
      }
    }

    /** The rest of extent_record: joining, and entering the pool. */
    method Enter(x0: Id, pool: Pool, hooks: Hooks) returns (x: Id)
      requires Tiled(ext, tree, {}) && x0 in ext && Idle(ext[x0], pool) && !pool.state.Active?
      modifies this
      ensures Tiled(ext, tree, {}) && SamePages(old(ext), ext)
      ensures TookIn(old(ext), x0, ext, x, pool)
      ensures ext[x].base <= old(ext)[x0].base && Past(old(ext)[x0]) <= Past(ext[x])
      ensures ext.Keys == old(ext).Keys || (pool.delay && old(ext)[x0].npages < LARGE_MIN) ==>
                && x == x0 && tree == old(tree) && ext == Freed(old(ext), x0, pool)
      ensures !pool.delay && hooks.AlwaysSucceed? ==> Isolated(ext, x, pool)
      ensures pool.delay && old(ext)[x0].npages >= LARGE_MIN && hooks.AlwaysSucceed? ==>
                (Isolated(ext, x, pool) <==> !Barred(old(ext), old(tree), x0, pool))
      ensures forall s: State ::
                (!s.Active? && Coalesced(old(ext), s)
                 && (s == pool.state ==> !pool.delay && hooks.AlwaysSucceed?)) ==> Coalesced(ext, s)
    {
      x := Join(x0, pool, hooks);
      Entered(old(ext), x0, ext, x, pool);
      AbsorbedTookIn(old(ext), x0, old(ext), ext, x, pool);
      forall s: State | !s.Active? && Coalesced(old(ext), s)
                        && (s == pool.state ==> !pool.delay && hooks.AlwaysSucceed?)
        ensures Coalesced(ext[x := ext[x].(state := pool.state)], s)
      {
        RecordCoalesces(old(ext), x0, ext, x, pool, s);
      }
      StateKeepsIsolated(ext, x, pool);
      SetState(x, pool.state);
    }

    /** Sets the flags for committed and zeroed pages of an extent in use. */
    method SetFlags(x: Id, committed: bool, zeroed: bool)
      requires Tiled(ext, tree, {}) && x in ext
      modifies this`ext
      ensures Tiled(ext, tree, {}) && SamePages(old(ext), ext)
      ensures ext == Reflagged(old(ext), x, committed, zeroed)
    {
      FlagsFree(ext, tree, x, ext[x].(committed := committed, zeroed := zeroed), {});
      ext := ext[x := ext[x].(committed := committed, zeroed := zeroed)];
    }

    /** extents_dalloc: pages that were in use are no longer known to be zero. */
    method Dalloc(x0: Id, pool: Pool, hooks: Hooks) returns (x: Id)
      requires Tiled(ext, tree, {}) && x0 in ext
      requires ext[x0].state.Active? && ext[x0].arena == pool.arena && !pool.state.Active?
      modifies this
      ensures Tiled(ext, tree, {}) && SamePages(old(ext), ext)
      ensures TookIn(Reflagged(old(ext), x0, old(ext)[x0].committed, false), x0, ext, x, pool)
      ensures pool.delay && old(ext)[x0].npages < LARGE_MIN ==> x == x0 && ext.Keys == old(ext).Keys
      ensures !pool.delay && hooks.AlwaysSucceed? ==> Isolated(ext, x, pool)
      ensures pool.delay && old(ext)[x0].npages >= LARGE_MIN && hooks.AlwaysSucceed? ==>
                (Isolated(ext, x, pool) <==> !Barred(old(ext), old(tree), x0, pool))
      ensures forall s: State ::
                (!s.Active? && Coalesced(old(ext), s)
                 && (s == pool.state ==> !pool.delay && hooks.AlwaysSucceed?)) ==> Coalesced(ext, s)
    {
      SetFlags(x0, ext[x0].committed, false);
      OwnEntriesDoNotBar(old(ext), tree, ext, tree, x0, pool);
      ReflaggedCoalesced(old(ext), x0, old(ext)[x0].committed, false);
      FreedKeys(old(ext), x0, old(ext)[x0].committed, false, pool);
      x := Record(x0, pool, hooks, {});
    }

    /** The end of extent_dalloc_wrapper, for pages that were not unmapped: they enter the retained
        pool, decommitted if the hook did that, else purged if that hook succeeded. */
    method Retain(x0: Id, pool: Pool, decommitted: bool, purged: bool, hooks: Hooks) returns (x: Id)
      requires Tiled(ext, tree, {}) && x0 in ext
      requires ext[x0].state.Active? && ext[x0].arena == pool.arena && pool.state.Retained?
      modifies this
      ensures Tiled(ext, tree, {}) && SamePages(old(ext), ext)
      ensures TookIn(KeptAs(old(ext), x0, decommitted, purged), x0, ext, x, pool)
      ensures !pool.delay && hooks.AlwaysSucceed? ==> Isolated(ext, x, pool)
      ensures forall s: State ::
                (!s.Active? && Coalesced(old(ext), s)
                 && (s == pool.state ==> !pool.delay && hooks.AlwaysSucceed?)) ==> Coalesced(ext, s)
    {
      var committed, zeroed := ext[x0].committed, false;
      if !committed {
        zeroed := true;
      } else if decommitted {
        committed, zeroed := false, true;
      } else if purged {
        zeroed := true;
      }
      SetFlags(x0, committed, zeroed);
      ReflaggedCoalesced(old(ext), x0, committed, zeroed);
      x := Record(x0, pool, hooks, {});
    }

    // ---------------------------------------------------------------- splitting and recycling

    /** extent_split_impl into na pages under x and the rest under the new structure y; `ok` is
        false when the hook, the structure or the tree could not be had. */
    method Split(x: Id, na: nat, szindA: nat, slabA: bool, y: Id, szindB: nat, slabB: bool, ok: bool,
                 ghost busy: set<Id>) returns (trail: Option<Id>)
      requires Tiled(ext, tree, busy) && x in ext && 0 < na < ext[x].npages && y !in ext && x in busy
      modifies this
      ensures trail == if ok then Some(y) else None
      ensures !ok ==> ext == old(ext) && tree == old(tree)
      ensures ok ==> Tiled(ext, tree, busy + {y})
      ensures ok ==> ext == SplitExt(old(ext), x, na, szindA, y, szindB, slabB)
      ensures ok ==> EdgeLeaves(tree, ext[x], Leaf(x, szindA, slabA))
                     && EdgeLeaves(tree, ext[y], Leaf(y, szindB, slabB))
      ensures ok ==> SamePages(old(ext), ext)
    {
      if !ok {
        return None;
      }
      SplitKeeps(ext, tree, x, na, szindA, slabA, y, szindB, slabB, busy);
      SplitPages(ext, x, na, szindA, y, szindB, slabB);
      SplitLeaves(ext, tree, x, na, szindA, slabA, y, szindB, slabB);
      var e := ext[x];
      var t := TrailOf(e, na, szindB, slabB);
      e := e.(npages := na);
      e := e.(szind := szindA);
      tree := WriteEdges(tree, e, Leaf(x, szindA, slabA));
      tree := WriteEdges(tree, t, Leaf(y, szindB, slabB));
      ext := ext[x := e][y := t];
      return Some(y);
    }

    /** extent_szind_set where nothing was split off. */
    method Tag(x: Id, szind: nat, slab: bool)
      requires Tiled(ext, tree, {x}) && x in ext && !ext[x].slab
      modifies this
      ensures Tiled(ext, tree, {x}) && SamePages(old(ext), ext)
      ensures ext == old(ext)[x := old(ext)[x].(szind := szind)]
      ensures szind != NSIZES ==> EdgeLeaves(tree, ext[x], Leaf(x, szind, slab))
      ensures tree == TagTree(old(tree), x, old(ext)[x], szind, slab)
    {
      assert Edged(tree, x, ext[x]);
      TagKeeps(ext, tree, x, szind, slab);
      if szind != NSIZES {
        var e := ext[x];
        tree := tree[e.base := Leaf(x, szind, slab)];
        if slab && e.npages > 1 {
          tree := tree[Last(e) := Leaf(x, szind, slab)];
        }
      }
      ext := ext[x := ext[x].(szind := szind)];
    }

    /** extent_split_interior: cut `lead` pages off the front and what exceeds n pages off the
        back.  x is the extent, y and z are new structures. */
    method SplitInterior(x: Id, lead: nat, n: nat, szind: nat, slab: bool, y: Id, z: Id,
                         okLead: bool, okTrail: bool) returns (r: Cut)
      requires Tiled(ext, tree, {x}) && x in ext && n > 0 && ext[x].szind == NSIZES && !ext[x].slab
      requires y !in ext && z !in ext && y != z && (slab ==> szind != NSIZES)
      modifies this
      ensures r.CantAlloc? <==> old(ext)[x].npages < lead + n
      ensures r.CantAlloc? ==> ext == old(ext) && tree == old(tree)
      ensures r.Done? ==> CutInto(old(ext), x, ext, lead, n, r.lead, r.extent, r.trail)
      ensures r.Done? ==> Tiled(ext, tree, {r.extent}) && ext[r.extent].szind == szind
                          && (ext[r.extent].slab ==> slab)
                          && (szind != NSIZES ==>
                                EdgeLeaves(tree, ext[r.extent], Leaf(r.extent, szind, slab)))
      ensures r.Done? ==> SamePages(old(ext), ext)
      ensures r.Done? && lead == 0 && old(ext)[x].npages == n ==>
                r.extent == x && tree == TagTree(old(tree), x, old(ext)[x], szind, slab)
      ensures r.Done? ==> (r.lead.Some? ==> r.extent == y) && (r.trail.Some? ==> r.trail == Some(z))
      ensures r.Broken? ==> !(okLead && okTrail) && Tiled(ext, tree, {r.toLeak})
                            && r.toLeak in ext && (r.toSalvage.Some? ==> r.toSalvage.value in ext)
                            && r.toSalvage != Some(r.toLeak)
                            && ext - {r.toLeak} - (if r.toSalvage.Some? then {r.toSalvage.value} else {})
                               == old(ext) - {x}
    {
      if ext[x].npages < lead + n {
        return CantAlloc;
      }
      var trailsize := ext[x].npages - lead - n;
      var leadId, m := None, x;
      if lead != 0 {
        leadId := Some(x);
        var t := Split(x, lead, NSIZES, false, y, szind, slab, okLead, {x});
        if t.None? {
          return Broken(x, None);
        }
        m := t.value;
        FreeIsPublished(ext, tree, x, {y});
      }
      ghost var mid := ext;
      var trailId := None;
      if trailsize != 0 {
        trailId := Split(m, n, szind, slab, z, NSIZES, false, okTrail, {m});
        if trailId.None? {
          return Broken(m, leadId);
        }
        FreeIsPublished(ext, tree, z, {m});
      }
      if lead == 0 && trailsize == 0 {
        Tag(x, szind, slab);
      }
      CutMade(old(ext), x, lead, n, szind, slab, y, z);
      assert ext == CutExt(old(ext), x, lead, n, szind, slab, y, z);
      return Done(leadId, m, trailId);
    }

    /** extent_recycle_extract: take an extent out of the pool, either the one at newAddr or the one
        that the search of the pool returned in `fit`. */
    method RecycleExtract(pool: Pool, newAddr: Option<nat>, n: nat, fit: Option<Id>)
      returns (r: Option<Id>)
      requires Tiled(ext, tree, {}) && !pool.state.Active?
      requires newAddr.Some? && newAddr.value in tree ==> ext[tree[newAddr.value].id].base == newAddr.value
      requires fit.Some? ==> fit.value in ext && ext[fit.value].state == pool.state
                             && ext[fit.value].arena == pool.arena
      modifies this
      ensures Tiled(ext, tree, {}) && tree == old(tree)
      ensures newAddr.None? ==> r == fit
      ensures newAddr.Some? ==>
                (r.None? <==> forall i :: i in old(ext) && old(ext)[i].base == newAddr.value ==>
                                !(old(ext)[i].arena == pool.arena && n <= old(ext)[i].npages
                                  && old(ext)[i].state == pool.state))
      ensures newAddr.Some? && r.Some? ==> r.value in ext && ext[r.value].base == newAddr.value
                                           && n <= ext[r.value].npages
      ensures r.None? ==> ext == old(ext)
      ensures r.Some? ==> r.value in old(ext) && old(ext)[r.value].state == pool.state
                          && ext == old(ext)[r.value := old(ext)[r.value].(state := Active)]
                          && Idle(ext[r.value], pool)
    {
      if newAddr.Some? {
        ghost var p := newAddr.value;
        forall i | i in ext && ext[i].base == p ensures Lookup(tree, p, false) == Some(i) {
          assert Edged(tree, i, ext[i]);
        }
        r := Lookup(tree, newAddr.value, false);
        if r.Some? {
          assert Owned(ext, tree, p, {});
          if ext[r.value].arena != pool.arena || ext[r.value].npages < n
             || ext[r.value].state != pool.state {
            r := None;
          }
        }
      } else {
        r := fit;
      }
      if r.None? {
        return;
      }
      assert Tagged(tree, ext[r.value]) && Filled(tree, r.value, ext[r.value]);
      SetState(r.value, Active);
    }

    /** extent_recycle_split: cut the request out of x, return what is left over to the pool, and
        drop the whole extent from the map when a split fails. */
    method RecycleSplit(pool: Pool, x: Id, n: nat, al: nat, szind: nat, slab: bool, y: Id, z: Id,
                        hooks: Hooks) returns (r: Option<Id>)
      requires Tiled(ext, tree, {}) && x in ext && Idle(ext[x], pool) && n > 0 && al > 0
      requires AlignUp(ext[x].base, al) + n <= Past(ext[x])
      requires y !in ext && z !in ext && y != z && (slab ==> szind != NSIZES) && !pool.state.Active?
      modifies this
      ensures r.None? ==> hooks.MayFail? && Tiled(ext, tree, {}) && ext == old(ext) - {x}
      ensures r.Some? ==> Tiled(ext, tree, {r.value}) && SamePages(old(ext), ext) && r.value in ext
      ensures r.Some? ==> ext[r.value].state.Active? && ext[r.value].npages == n
                          && ext[r.value].base == AlignUp(old(ext)[x].base, al)
                          && ext[r.value].arena == pool.arena && ext[r.value].szind == szind
      ensures r.Some? ==> ServedFrom(old(ext), x, ext, r.value, pool, false)
      ensures r.Some? && ext[r.value].slab ==> slab
      ensures r.Some? && szind != NSIZES ==>
                EdgeLeaves(tree, ext[r.value], Leaf(r.value, szind, slab))
      ensures r.Some? && Whole(old(ext)[x], n, al) ==>
                r.value == x && tree == TagTree(old(tree), x, old(ext)[x], szind, slab)
      ensures r.Some? ==> Pieces(old(ext), x, ext, y, z)
      ensures r.Some? ==> forall s: State :: !s.Active? && Coalesced(Freed(old(ext), x, pool), s) ==>
                                             Coalesced(ext, s)
    {
      var okLead, okTrail := *, *;
      if hooks.AlwaysSucceed? {
        okLead, okTrail := true, true;
      }
      BusyIsWeaker(ext, tree, x);
      var lead := AlignUp(ext[x].base, al) - ext[x].base;
      var cut := SplitInterior(x, lead, n, szind, slab, y, z, okLead, okTrail);
      match cut
      case Done(l, m, t) =>
        ghost var mid := ext;
        ReturnPieces(l, m, t, pool);
        CutReturned(old(ext), x, mid, ext, tree, lead, n, l, m, t, pool);
        CutPieces(old(ext), x, mid, ext, lead, n, l, m, t, pool, y, z);
        CutServes(old(ext), x, mid, ext, lead, n, l, m, t, pool);
        return Some(m);
      case Broken(leak, salvage) =>
        Drop(leak, salvage);
        return None;
    }

    /** extent_deactivate of the cut-off pieces. */
    method ReturnPieces(l: Option<Id>, m: Id, t: Option<Id>, pool: Pool)
      requires Tiled(ext, tree, {m})
      requires l.Some? ==> l.value in ext && !ext[l.value].slab && ext[l.value].szind == NSIZES
      requires t.Some? ==> t.value in ext && !ext[t.value].slab && ext[t.value].szind == NSIZES
      modifies this`ext
      ensures Tiled(ext, tree, {m}) && ext == Returned(old(ext), l, t, pool)
    {
      if l.Some? {
        FlagsKeep(ext, tree, l.value, ext[l.value].(state := pool.state), {m});
        ext := ext[l.value := ext[l.value].(state := pool.state)];
      }
      if t.Some? {
        FlagsKeep(ext, tree, t.value, ext[t.value].(state := pool.state), {m});
        ext := ext[t.value := ext[t.value].(state := pool.state)];
      }
    }

    /** What extent_recycle_split does after a failed split: nothing of the extent stays mapped. */
    method Drop(leak: Id, salvage: Option<Id>)
      requires Tiled(ext, tree, {leak}) && leak in ext && salvage != Some(leak)
      requires salvage.Some? ==> salvage.value in ext
      modifies this
      ensures Tiled(ext, tree, {})
      ensures ext == old(ext) - {leak} - (if salvage.Some? then {salvage.value} else {})
    {
      if salvage.Some? {
        Deregister(salvage.value, {leak});
        assert {leak} - {salvage.value} == {leak};
      }
      Deregister(leak, {leak});
      assert {leak} - {leak} == {};
    }

    /** Cut n pages at an aligned address out of x, taken from the pool, and finish them. */
    method Serve(pool: Pool, x: Id, n: nat, al: nat, szind: nat, slab: bool, commit: bool, y: Id, z: Id,
                 hooks: Hooks) returns (r: Option<Id>)
      requires Tiled(ext, tree, {}) && x in ext && Idle(ext[x], pool) && n > 0 && al > 0
      requires AlignUp(ext[x].base, al) + n <= Past(ext[x])
      requires y !in ext && z !in ext && y != z && (slab ==> szind != NSIZES) && !pool.state.Active?
      modifies this
      ensures Tiled(ext, tree, {})
      ensures r.Some? ==> r.value in ext && SamePages(old(ext), ext)
                          && Serves(ext[r.value], pool, n, szind, slab, commit)
                          && ext[r.value].base == AlignUp(old(ext)[x].base, al)
      ensures r.Some? ==> ServedFrom(old(ext), x, ext, r.value, pool, commit)
      ensures r.None? ==> hooks.MayFail? && (SamePages(old(ext), ext) || ext == old(ext) - {x})
      ensures r.None? ==> FewerZeros(old(ext), ext)
      ensures r.Some? && !slab && Whole(old(ext)[x], n, al) ==>
                r.value == x && tree == TagTree(old(tree), x, old(ext)[x], szind, false)
      ensures r.Some? ==> Pieces(old(ext), x, ext, y, z)
      ensures r.Some? ==> forall s: State :: !s.Active? && Coalesced(Freed(old(ext), x, pool), s) ==>
                                             Coalesced(ext, s)
    {
      var m := RecycleSplit(pool, x, n, al, szind, slab, y, z, hooks);
      if m.None? {
        return None;
      }
      ghost var mid := ext;
      ServedZeros(old(ext), x, mid, m.value, pool, false);
      r := Finish(m.value, pool, slab, commit, hooks);
      if r.Some? {
        FinishedServes(old(ext), x, mid, m.value, ext, slab, commit, pool, y, z);
      }
    }

    /** extent_recycle: serve n pages at an al-aligned address out of the pool.  Either a published
        active extent comes back and the pages are as before; or nothing does, and then pages are
        lost only to a failed split. */
    method Recycle(pool: Pool, newAddr: Option<nat>, n: nat, al: nat, szind: nat, slab: bool,
                   commit: bool, fit: Option<Id>, y: Id, z: Id, hooks: Hooks) returns (r: Option<Id>)
      requires Tiled(ext, tree, {}) && !pool.state.Active? && n > 0 && al > 0
      requires newAddr.Some? ==> al == 1 && !slab
      requires newAddr.Some? && newAddr.value in tree ==> ext[tree[newAddr.value].id].base == newAddr.value
      requires fit.Some? ==> fit.value in ext && ext[fit.value].state == pool.state
                             && ext[fit.value].arena == pool.arena
                             && AlignUp(ext[fit.value].base, al) + n <= Past(ext[fit.value])
      requires y !in ext && z !in ext && y != z && (slab ==> szind != NSIZES)
      modifies this
      ensures Tiled(ext, tree, {})
      ensures r.Some? ==> r.value in ext && SamePages(old(ext), ext)
                          && Serves(ext[r.value], pool, n, szind, slab, commit)
                          && (if newAddr.Some? then ext[r.value].base == newAddr.value
                              else ext[r.value].base % al == 0)
      ensures r.Some? ==> exists x :: Requested(old(ext), x, newAddr, fit, pool)
                                      && ServedFrom(old(ext), x, ext, r.value, pool, commit)
      ensures r.None? ==> FewerZeros(old(ext), ext)
      ensures r.None? && hooks.AlwaysSucceed? ==> ext == old(ext) && tree == old(tree)
      ensures newAddr.None? && fit.Some? && hooks.AlwaysSucceed? ==> r.Some?
      ensures newAddr.Some? && hooks.AlwaysSucceed? && r.None? ==>
                forall i :: Member(old(ext), i, pool) && old(ext)[i].base == newAddr.value ==> old(ext)[i].npages < n
      ensures newAddr.None? && r.Some? ==> fit.Some? && Pieces(old(ext), fit.value, ext, y, z)
      ensures newAddr.None? && r.Some? && !slab && Whole(old(ext)[fit.value], n, al) ==>
                r == fit && tree == TagTree(old(tree), fit.value, old(ext)[fit.value], szind, false)
      ensures r.None? ==> SamePages(old(ext), ext)
                          || exists x :: x in old(ext) && old(ext)[x].state == pool.state
                                         && ext == old(ext) - {x}
      ensures hooks.AlwaysSucceed? ==>
                forall s: State :: !s.Active? && Coalesced(old(ext), s) ==> Coalesced(ext, s)
    {
      var found := RecycleExtract(pool, newAddr, n, fit);
      if found.None? {
        return None;
      }
      var x := found.value;
      ghost var mid := ext;
      assert mid - {x} == old(ext) - {x};
      ThereAndBack(old(ext), x, Active);
      SameRanges(old(ext), mid);
      r := Serve(pool, x, n, al, szind, slab, commit, y, z, hooks);
      if r.Some? {
        TakenServed(old(ext), x, mid, ext, r.value, pool, commit, y, z);
      }
    }

    /** The last steps of extent_recycle: commit the pages if the request asks for it, or take the
        extent back when that fails; then publish it. */
    method Finish(x: Id, pool: Pool, slab: bool, commit: bool, hooks: Hooks) returns (r: Option<Id>)
      requires Tiled(ext, tree, {x}) && x in ext && ext[x].state.Active? && ext[x].arena == pool.arena
      requires ext[x].szind != NSIZES ==> EdgeLeaves(tree, ext[x], Leaf(x, ext[x].szind, slab))
      requires (slab ==> ext[x].szind != NSIZES) && (ext[x].slab ==> slab) && !pool.state.Active?
      modifies this
      ensures Tiled(ext, tree, {}) && SamePages(old(ext), ext)
      ensures r.None? ==> hooks.MayFail?
      ensures r.Some? && !slab ==> tree == old(tree)
      ensures r.Some? ==> r.value == x && ext == old(ext)[x := Finished(old(ext)[x], slab, commit)]
      ensures r.None? ==> FewerZeros(old(ext), ext)
    {
      if commit && !ext[x].committed {
        var ok := *;
        if hooks.AlwaysSucceed? {
          ok := true;
        }
        if !ok {
          var gone := Record(x, pool, hooks, {x});
          TookInZeros(old(ext), x, ext, gone, pool);
          return None;
        }
        Commit(x);
      }
      Publish(x, slab);
      return Some(x);
    }

    /** The commit hook succeeded: the pages are committed and zeroed. */
    method Commit(x: Id)
      requires Tiled(ext, tree, {x}) && x in ext
      modifies this`ext
      ensures Tiled(ext, tree, {x}) && SamePages(old(ext), ext)
      ensures ext == old(ext)[x := old(ext)[x].(committed := true, zeroed := true)]
    {
      FlagsFree(ext, tree, x, ext[x].(committed := true, zeroed := true), {x});
      ext := ext[x := ext[x].(committed := true)];
      ext := ext[x := ext[x].(zeroed := true)];
    }

    /** The last step of extent_recycle: a slab gets its flag and its interior entries. */
    method Publish(x: Id, slab: bool)
      requires Tiled(ext, tree, {x}) && x in ext && ext[x].state.Active?
      requires ext[x].szind != NSIZES ==> EdgeLeaves(tree, ext[x], Leaf(x, ext[x].szind, slab))
      requires (slab ==> ext[x].szind != NSIZES) && (ext[x].slab ==> slab)
      modifies this
      ensures Tiled(ext, tree, {}) && SamePages(old(ext), ext)
      ensures ext == old(ext)[x := old(ext)[x].(slab := slab)]
      ensures !slab ==> tree == old(tree)
    {
      PublishKeeps(ext, tree, x, slab);
      SlabPages(ext, x, slab);
      assert !slab ==> ext == ext[x := ext[x].(slab := slab)];
      if slab {
        ext := ext[x := ext[x].(slab := slab)];
        InteriorRegister(x, ext[x].szind);
      }
    }

    /** extent_try_delayed_coalesce: one join attempt for an extent taken from the pool. */
    method TryDelayed(x: Id, pool: Pool, hooks: Hooks) returns (r: Id, coalesced: bool)
      requires Tiled(ext, tree, {}) && Member(ext, x, pool) && !pool.state.Active? && pool.delay
      modifies this
      ensures Tiled(ext, tree, {}) && SamePages(old(ext), ext) && Member(ext, r, pool)
      ensures coalesced ==> ext.Keys < old(ext).Keys
      ensures !coalesced ==> r == x && ext == old(ext)
      ensures TookIn(old(ext), x, ext, r, pool)
      ensures !coalesced && hooks.AlwaysSucceed? ==> Isolated(ext, r, pool)
      ensures forall s: State :: s != pool.state && !s.Active? && Coalesced(old(ext), s) ==>
                                 Coalesced(ext, s)
    {
      assert Tagged(tree, ext[x]) && Filled(tree, x, ext[x]);
      SetState(x, Active);
      ghost var mid := ext;
      r, coalesced := TryCoalesce(x, pool, false, hooks);
      ghost var last := ext;
      AbsorbedTookIn(old(ext), x, mid, ext, r, pool);
      assert Edged(tree, r, last[r]);
      StateKeepsIsolated(last, r, pool);
      SetState(r, pool.state);
      SamePagesTwice(old(ext), mid, last);
      SamePagesTwice(old(ext), last, ext);
      ThereAndBack(old(ext), x, Active);
      Elsewhere(old(ext), mid, x, last, r, ext, pool);
    }

    /** extents_evict: hand out an extent of the pool, fully joined if the pool delays coalescing.
        Which one is oldest is the pool's business, so that choice is free here, and whether it is above
        its limit is given: joining does not change its pages.  The loop ends because every further round
        removes an extent. */
    method Evict(pool: Pool, overLimit: bool, hooks: Hooks) returns (r: Option<Id>, e: Option<Extent>)
      requires Tiled(ext, tree, {}) && !pool.state.Active?
      modifies this
      ensures Tiled(ext, tree, {})
      ensures r.None? <==> !overLimit || forall i :: !Member(old(ext), i, pool)
      ensures r.None? ==> SamePages(old(ext), ext) && FewerZeros(old(ext), ext)
      ensures r.Some? ==> e.Some? && e.value.arena == pool.arena
                          && SamePages(old(ext), ext[r.value := e.value])
                          && FewerZeros(old(ext), ext[r.value := e.value])
      ensures r.Some? && !pool.delay ==> Member(old(ext), r.value, pool) && ext - {r.value} == old(ext) - {r.value}
                                         && e.value == old(ext)[r.value].(state := e.value.state)
      ensures r.Some? && pool.state.Retained? ==>
                r.value !in ext && forall p :: p in tree ==> !In(e.value, p)
      ensures r.Some? && !pool.state.Retained? ==>
                r.value in ext && ext[r.value] == e.value && e.value.state.Active?
      ensures r.Some? && pool.delay && hooks.AlwaysSucceed? && !pool.state.Retained? ==>
                Isolated(ext, r.value, pool)
      ensures r.Some? && pool.state.Retained? ==> forall i :: i in ext ==> Apart(ext[i], e.value)
      ensures forall s: State ::
                !s.Active? && Coalesced(old(ext), s) && (s == pool.state ==> !pool.delay) ==> Coalesced(ext, s)
    {
      var x: Id;
      while true
        invariant Tiled(ext, tree, {}) && SamePages(old(ext), ext) && FewerZeros(old(ext), ext)
        invariant !pool.delay ==> ext == old(ext)
        invariant (exists i :: Member(ext, i, pool)) <==> exists i :: Member(old(ext), i, pool)
        invariant forall s: State ::
                    !s.Active? && Coalesced(old(ext), s) && (s == pool.state ==> !pool.delay) ==>
                      Coalesced(ext, s)
        decreases ext.Keys
      {
        if i :| i in ext && Member(ext, i, pool) {
          x := i;
        } else {
          return None, None;
        }
        if !overLimit {
          return None, None;
        }
        if !pool.delay {
          break;
        }
        var coalesced;
        ghost var last, y := ext, x;
        x, coalesced := TryDelayed(x, pool, hooks);
        TookInZeros(last, y, ext, x, pool);
        if !coalesced {
          break;
        }
      }
      ghost var last := ext;
      var out := HandOut(x, pool);
      OutZeros(last, ext, x, out);
      return Some(x), Some(out);
    }

    /** The end of extents_evict: a retained extent leaves the map, any other becomes active. */
    method HandOut(x: Id, pool: Pool) returns (e: Extent)
      requires Tiled(ext, tree, {}) && !pool.state.Active? && Member(ext, x, pool)
      modifies this
      ensures Tiled(ext, tree, {}) && e.arena == pool.arena
      ensures SamePages(old(ext), ext[x := e]) && ext - {x} == old(ext) - {x}
      ensures e == old(ext)[x].(state := e.state)
      ensures pool.state.Retained? ==>
                && x !in ext && (forall p :: p in tree ==> !In(e, p))
                && forall i :: i in ext ==> Apart(ext[i], e)
      ensures !pool.state.Retained? ==> x in ext && ext[x] == e && e.state.Active?
      ensures !pool.state.Retained? && Isolated(old(ext), x, pool) ==> Isolated(ext, x, pool)
      ensures forall s: State :: !s.Active? && Coalesced(old(ext), s) ==> Coalesced(ext, s)
    {
      e := ext[x];
      if pool.state.Retained? {
        assert ext == (ext - {x})[x := ext[x]];
        assert forall i :: i in ext && i != x ==> Apart(ext[i], e);
        Deregister(x, {});
      } else {
        assert Tagged(tree, ext[x]) && Filled(tree, x, ext[x]) && Edged(tree, x, ext[x]);
        SetState(x, Active);
        e := ext[x];
        assert ext == ext[x := e];
      }
    }

    /** Any sequence of allocations, at a free or at a given address, frees, evictions and
        registrations of new pages, each skipped where its caller may not make it.  When the hooks
        succeed, the map stays a tiling, its pages are those it had and those that came or went as
        recorded in `moves`, and the pools of every state that is never delayed hold no joinable
        pair. */
    method Run(ops: seq<Op>, hooks: Hooks, s: State) returns (ghost moves: seq<Move>, ghost trace: seq<Maps>)
      requires Tiled(ext, tree, {}) && hooks.AlwaysSucceed? && !s.Active? && Coalesced(ext, s)
      requires forall k :: 0 <= k < |ops| ==> NotDelayed(ops[k], s)
      modifies this
      ensures Tiled(ext, tree, {}) && Coalesced(ext, s) && Moved(old(ext), moves, ext)
      ensures Traced(ops, trace) && trace[0].ext == old(ext) && trace[|ops|].ext == ext
      ensures forall p: int :: ZeroedAt(ext, p) ==> CleanSince(ops, trace, |ops|, p)
    {
      moves, trace := [], [Maps(ext, tree)];
      for k := 0 to |ops|
        invariant Tiled(ext, tree, {}) && Coalesced(ext, s) && Moved(old(ext), moves, ext)
        invariant Traced(ops[..k], trace) && trace[0].ext == old(ext) && trace[k] == Maps(ext, tree)
      {
        if Allowed(ops[k], ext, tree) {
          ghost var mid := ext;
          ghost var more := Perform(ops[k], hooks, s);
          MovedOn(old(ext), moves, mid, more, ext);
          moves := moves + more;
        }
        TracedOn(ops, k, trace, Maps(ext, tree));
        trace := trace + [Maps(ext, tree)];
      }
      assert ops[..|ops|] == ops;
      forall p: int | ZeroedAt(ext, p) ensures CleanSince(ops, trace, |ops|, p) {
        ZeroHistory(ops, trace, |ops|, p);
      }
    }

    method Perform(op: Op, hooks: Hooks, s: State) returns (ghost moves: seq<Move>)
      requires Tiled(ext, tree, {}) && hooks.AlwaysSucceed? && !s.Active? && Coalesced(ext, s)
      requires NotDelayed(op, s) && Allowed(op, ext, tree)
      modifies this
      ensures Tiled(ext, tree, {}) && Coalesced(ext, s) && Moved(old(ext), moves, ext)
      ensures |moves| <= 1 && ZeroStep(op, old(ext), ext) && Did(op, old(ext), ext)
    {
      moves := [];
      match op
      case Alloc(_, _, _, _, _, _, _, _, _) =>
        PerformAlloc(op, hooks, s);
      case AllocAt(_, _, _, _, _, _, _) =>
        PerformAllocAt(op, hooks, s);
      case Free(_, _) =>
        PerformFree(op, hooks, s);
      case Keep(_, _, _, _) =>
        PerformFree(op, hooks, s);
      case Purge(_, _) =>
        moves := PerformPurge(op, hooks, s);
      case Fresh(x, e) =>
        moves := [Came(e)];
        PagesCame(ext, x, e);
        FreshZeros(ext, x, e);
        Register(x, e);
    }

    method PerformAlloc(op: Op, hooks: Hooks, s: State)
      requires Tiled(ext, tree, {}) && hooks.AlwaysSucceed? && !s.Active? && Coalesced(ext, s)
      requires op.Alloc? && Allowed(op, ext, tree)
      modifies this
      ensures Tiled(ext, tree, {}) && Coalesced(ext, s) && SamePages(old(ext), ext)
      ensures ZeroStep(op, old(ext), ext) && Did(op, old(ext), ext)
    {
      var r := Recycle(op.pool, None, op.n, op.al, op.szind, op.slab, op.commit, op.fit, op.y, op.z, hooks);
      if r.Some? {
        AllocZeros(old(ext), ext, r.value, None, op.fit, op.pool, op.commit);
      }
    }

    method PerformAllocAt(op: Op, hooks: Hooks, s: State)
      requires Tiled(ext, tree, {}) && hooks.AlwaysSucceed? && !s.Active? && Coalesced(ext, s)
      requires op.AllocAt? && Allowed(op, ext, tree)
      modifies this
      ensures Tiled(ext, tree, {}) && Coalesced(ext, s) && SamePages(old(ext), ext)
      ensures ZeroStep(op, old(ext), ext) && Did(op, old(ext), ext)
    {
      var r := Recycle(op.pool, Some(op.addr), op.n, 1, op.szind, false, op.commit, None, op.y, op.z, hooks);
      if r.Some? {
        AllocZeros(old(ext), ext, r.value, Some(op.addr), None, op.pool, op.commit);
        AllocAtDid(old(ext), tree, ext, r.value, op);
      }
    }

    /** A free, or the end of extent_dalloc_wrapper. */
    method PerformFree(op: Op, hooks: Hooks, s: State)
      requires Tiled(ext, tree, {}) && hooks.AlwaysSucceed? && !s.Active? && Coalesced(ext, s)
      requires (op.Free? || op.Keep?) && NotDelayed(op, s) && Allowed(op, ext, tree)
      modifies this
      ensures Tiled(ext, tree, {}) && Coalesced(ext, s) && SamePages(old(ext), ext)
      ensures ZeroStep(op, old(ext), ext) && Did(op, old(ext), ext)
    {
      if op.Free? {
        var r := Dalloc(op.x, op.pool, hooks);
        FreeZeros(old(ext), op.x, old(ext)[op.x].committed, false, ext, r, op.pool);
      } else {
        var r := Retain(op.x, op.pool, op.decommitted, op.purged, hooks);
        ghost var kept := KeptAs(old(ext), op.x, op.decommitted, op.purged)[op.x];
        FreeZeros(old(ext), op.x, kept.committed, kept.zeroed, ext, r, op.pool);
      }
    }

    method PerformPurge(op: Op, hooks: Hooks, s: State) returns (ghost moves: seq<Move>)
      requires Tiled(ext, tree, {}) && hooks.AlwaysSucceed? && !s.Active? && Coalesced(ext, s)
      requires op.Purge? && NotDelayed(op, s) && Allowed(op, ext, tree)
      modifies this
      ensures Tiled(ext, tree, {}) && Coalesced(ext, s) && Moved(old(ext), moves, ext)
      ensures |moves| <= 1 && ZeroStep(op, old(ext), ext) && Did(op, old(ext), ext)
    {
      moves := [];
      var r, e := Evict(op.pool, op.overLimit, hooks);
      if r.Some? {
        assert GaveUp(old(ext), ext, r.value, e.value, op.pool);
        if op.pool.state.Retained? {
          moves := [Went(e.value)];
          PagesWent(old(ext), ext, r.value, e.value);
          GoneZeros(ext, r.value, e.value);
        } else {
          assert ext == ext[r.value := e.value];
        }
      }
    }
  }

  /** A run that leaves free neighbours unjoined in a pool that joins large extents at once: a slab of
      one page goes into the pool, and then the large extent behind it. */
  method LeftBehind() returns (b: Book)
    ensures fresh(b) && Tiled(b.ext, b.tree, {}) && 1 in b.ext && 2 in b.ext
    ensures b.ext[1].state == b.ext[2].state == Dirty && Joinable(b.ext[1], b.ext[2])
  {
    b := SlabThenLarge();
    var pool := Pool(0, Dirty, true);
    assert Barrier(b.ext, b.tree, 2, 1, pool, false);
    ghost var before := b.ext;
    var x := b.Record(2, pool, AlwaysSucceed, {});
    NotJoined(before, b.ext, b.tree, x, pool);
  }

  method SlabThenLarge() returns (b: Book)
    ensures fresh(b) && Tiled(b.ext, b.tree, {}) && 10 in b.tree && b.tree[10].slab && b.ext.Keys == {1, 2}
    ensures b.ext[1] == Extent(10, 1, 0, Dirty, true, false, 0, NSIZES, false)
    ensures b.ext[2] == Extent(11, 4, 0, Active, true, false, 0, 40, false)
  {
    b := TwoActive(1);
    assert Filled(b.tree, 1, b.ext[1]) && In(b.ext[1], 10);
    var small := b.Record(1, Pool(0, Dirty, true), AlwaysSucceed, {});
  }

  /** A slab of n pages and a large extent behind it. */
  method TwoActive(n: nat) returns (b: Book)
    requires n > 0
    ensures fresh(b) && Tiled(b.ext, b.tree, {}) && b.ext.Keys == {1, 2}
    ensures b.ext[1] == Extent(10, n, 0, Active, true, false, 0, 5, true)
    ensures b.ext[2] == Extent(10 + n, 4, 0, Active, true, false, 0, 40, false)
  {
    b := new Book();
    b.Register(1, Extent(10, n, 0, Active, true, false, 0, 5, true));
    b.Register(2, Extent(10 + n, 4, 0, Active, true, false, 0, 40, false));
  }

  /** A run in which the barrier is a large extent: a slab of four pages goes into the pool and is
      then used whole for a large allocation, which leaves its last page marked; so when that goes
      into the pool too, the large extent behind it is not joined with it. */
  method LeftBehindLarge() returns (b: Book)
    ensures fresh(b) && Tiled(b.ext, b.tree, {}) && 1 in b.ext && 2 in b.ext
    ensures b.ext[1].state == b.ext[2].state == Dirty && b.ext[1].npages >= LARGE_MIN
    ensures Joinable(b.ext[1], b.ext[2])
  {
    b := LargeFreed();
    var pool := Pool(0, Dirty, true);
    assert Barrier(b.ext, b.tree, 2, 1, pool, false);
    ghost var before := b.ext;
    var x := b.Record(2, pool, AlwaysSucceed, {});
    NotJoined(before, b.ext, b.tree, x, pool);
  }

  lemma NotJoined(before: Extents, ext: Extents, tree: Tree, x: Id, pool: Pool)
    requires before.Keys == {1, 2} && before[1].state.Dirty? && Tiled(ext, tree, {}) && pool == Pool(0, Dirty, true)
    requires x in ext && (x == 2 || x == 1) && !Isolated(ext, x, pool) && ext[x].state.Dirty? && ext[x].arena == 0
    requires ext[x].base <= before[2].base && Past(before[2]) <= Past(ext[x])
    requires forall i :: i in ext && i != x ==> i in before && ext[i] == before[i]
    ensures x == 2 && 1 in ext && ext[1] == before[1] && Joinable(ext[1], ext[2])
  {
    assert Edged(tree, x, ext[x]) && ext[x].npages > 0;
    var d := !Blocked(ext, x, pool, true);
    assert !Blocked(ext, x, pool, d);
    var j :| j in ext && Beside(ext[x], ext[j], d) && CanCoalesce(pool, ext[x], ext[j]);
    assert Past(ext[x]) == ext[x].base + ext[x].npages;
    if j == x {
      assert false;
    }
    assert Apart(ext[x], ext[j]) && j in before && before[j] == ext[j];
    if x == 1 {
      assert false;
    }
  }

  /** The large extent that was a slab is free; the one behind it is in use. */
  method LargeFreed() returns (b: Book)
    ensures fresh(b) && Tiled(b.ext, b.tree, {}) && 13 in b.tree && b.tree[13].slab
    ensures b.ext.Keys == {1, 2} && b.ext[2] == Extent(14, 4, 0, Active, true, false, 0, 40, false)
    ensures FourPages(b.ext[1]) && b.ext[1].state.Dirty?
  {
    b := SlabReused();
    ghost var before := b.ext;
    var x := b.Record(1, Pool(0, Dirty, true), AlwaysSucceed, {});
    OneFreed(before, b.ext, x);
  }

  predicate FourPages(e: Extent) { e.base == 10 && e.npages == 4 && e.arena == 0 && e.committed }

  lemma OneFreed(before: Extents, ext: Extents, x: Id)
    requires before.Keys == {1, 2} && before[2].state.Active? && x in ext
    requires var pool := Pool(0, Dirty, true);
      TookIn(before, 1, ext, x, pool)
    ensures x == 1 && ext.Keys == {1, 2}
  {
    assert 2 in ext;
    assert forall i :: i in ext ==> i == 1 || i in before.Keys;
  }

  method SlabReused() returns (b: Book)
    ensures fresh(b) && Tiled(b.ext, b.tree, {}) && 13 in b.tree && b.tree[13].slab
    ensures b.ext.Keys == {1, 2} && b.ext[2] == Extent(14, 4, 0, Active, true, false, 0, 40, false)
    ensures FourPages(b.ext[1]) && b.ext[1].state.Active? && !b.ext[1].slab
  {
    b := SlabFreed();
    ghost var before := b.ext;
    var r := b.Recycle(Pool(0, Dirty, true), None, 4, 1, 40, false, true, Some(1), 3, 4, AlwaysSucceed);
    NothingCut(before, b.ext, b.tree);
  }

  lemma NothingCut(before: Extents, ext: Extents, tree: Tree)
    requires before.Keys == {1, 2} && Tiled(ext, tree, {}) && Pieces(before, 1, ext, 3, 4)
    requires ext[1].base == before[1].base && ext[1].npages == before[1].npages
    ensures ext.Keys == {1, 2} && ext[2] == before[2]
  {
    forall i | i in ext ensures i in before {
      assert Edged(tree, i, ext[i]) && (i != 1 ==> Apart(ext[i], ext[1]));
    }
  }

  method SlabFreed() returns (b: Book)
    ensures fresh(b) && Tiled(b.ext, b.tree, {}) && 13 in b.tree && b.tree[13].slab
    ensures b.ext.Keys == {1, 2} && b.ext[2] == Extent(14, 4, 0, Active, true, false, 0, 40, false)
    ensures FourPages(b.ext[1]) && b.ext[1].state.Dirty?
  {
    b := TwoActive(4);
    assert Filled(b.tree, 1, b.ext[1]) && In(b.ext[1], 13) && 13 !in Interior(b.ext[1]);
    ghost var before := b.ext;
    var x := b.Record(1, Pool(0, Dirty, true), AlwaysSucceed, {});
    OneFreed(before, b.ext, x);
  }

  // ------------------------------------------------------------------ pages that are said to be zero

  /** The operation makes page p zero: the commit hook maps it anew, it is decommitted or purged on its
      way into the retained pool, or it comes fresh from the system. */
  ghost predicate Zeroes(op: Op, ext: Extents, p: int) {
    match op
    case Alloc(pool, n, al, szind, slab, commit, fit, y, z) => commit && BareAt(ext, p)
    case AllocAt(pool, addr, n, szind, commit, y, z) => commit && BareAt(ext, p)
    case Keep(pool, x, decommitted, purged) =>
      x in ext && In(ext[x], p) && (!ext[x].committed || decommitted || purged)
    case Fresh(x, e) => In(e, p) && e.zeroed
    case _ => false
  }

  /** Page p lies in an extent that is not committed. */
  ghost predicate BareAt(ext: Extents, p: int) { exists i :: i in ext && In(ext[i], p) && !ext[i].committed }

  /** Page p has been in use and is given back as it is. */
  predicate Soils(op: Op, ext: Extents, p: int) {
    match op
    case Free(pool, x) => x in ext && In(ext[x], p)
    case Keep(pool, x, decommitted, purged) =>
      x in ext && In(ext[x], p) && ext[x].committed && !decommitted && !purged
    case _ => false
  }

  /** A page said to be zero after the operation was made zero by it, or was zero before and not used. */
  ghost predicate ZeroStep(op: Op, ext: Extents, ext': Extents) {
    forall p: int :: ZeroedAt(ext', p) ==> (ZeroedAt(ext, p) && !Soils(op, ext, p)) || Zeroes(op, ext, p)
  }

  /** What an operation that its caller may make does when the hooks succeed: the request is served from
      the extent found for it, the freed extent takes in its neighbours, the pool gives an extent up. */
  ghost predicate Did(op: Op, ext: Extents, ext': Extents) {
    match op
    case Alloc(pool, n, al, szind, slab, commit, fit, y, z) =>
      if fit.None? then ext' == ext else Gave(ext, fit.value, ext', pool, n, al, szind, slab, commit)
    case AllocAt(pool, addr, n, szind, commit, y, z) =>
      if exists x :: StartsAt(ext, x, addr, n, pool)
      then exists x :: Member(ext, x, pool) && ext[x].base == addr
                       && Gave(ext, x, ext', pool, n, 1, szind, false, commit)
      else ext' == ext
    case Free(pool, x) =>
      x in ext && exists r :: TookIn(Reflagged(ext, x, ext[x].committed, false), x, ext', r, pool)
    case Keep(pool, x, decommitted, purged) =>
      x in ext && exists r :: TookIn(KeptAs(ext, x, decommitted, purged), x, ext', r, pool)
    case Purge(pool, overLimit) =>
      if overLimit && exists i :: Member(ext, i, pool)
      then exists r, e :: GaveUp(ext, ext', r, e, pool)
      else SamePages(ext, ext')
    case Fresh(x, e) => ext' == ext[x := e]
  }

  /** A published extent of n pages at an aligned address was cut out of x. */
  ghost predicate Gave(ext: Extents, x: Id, ext': Extents, pool: Pool, n: nat, al: nat, szind: nat, slab: bool,
                       commit: bool)
  {
    al > 0 && exists r :: ServedFrom(ext, x, ext', r, pool, commit)
                          && Serves(ext'[r], pool, n, szind, slab, commit) && ext'[r].base % al == 0
  }

  predicate StartsAt(ext: Extents, x: Id, addr: nat, n: nat, pool: Pool) {
    Member(ext, x, pool) && ext[x].base == addr && n <= ext[x].npages
  }

  /** The flags of an extent on its way into the retained pool. */
  function KeptAs(ext: Extents, x: Id, decommitted: bool, purged: bool): Extents
    requires x in ext
  {
    Reflagged(ext, x, ext[x].committed && !decommitted, !ext[x].committed || decommitted || purged)
  }

  /** Extent e left the map, or is active in it, and no page was lost otherwise. */
  ghost predicate GaveUp(ext: Extents, ext': Extents, r: Id, e: Extent, pool: Pool) {
    && SamePages(ext, ext'[r := e]) && e.arena == pool.arena
    && if pool.state.Retained? then r !in ext' else r in ext' && ext'[r] == e && e.state.Active?
  }

  /** The two maps between the operations of a run. */
  datatype Maps = Maps(ext: Extents, tree: Tree)

  ghost predicate StepTraced(op: Op, m: Maps, m': Maps) {
    if Allowed(op, m.ext, m.tree) then ZeroStep(op, m.ext, m'.ext) && Did(op, m.ext, m'.ext) else m' == m
  }

  ghost predicate Traced(ops: seq<Op>, trace: seq<Maps>) {
    |trace| == |ops| + 1 && forall k :: 0 <= k < |ops| ==> StepTraced(ops[k], trace[k], trace[k + 1])
  }

  ghost predicate ZeroesAt(ops: seq<Op>, trace: seq<Maps>, k: nat, p: int)
    requires k < |ops| < |trace|
  {
    Allowed(ops[k], trace[k].ext, trace[k].tree) && Zeroes(ops[k], trace[k].ext, p)
  }

  ghost predicate SoilsAt(ops: seq<Op>, trace: seq<Maps>, k: nat, p: int)
    requires k < |ops| < |trace|
  {
    Allowed(ops[k], trace[k].ext, trace[k].tree) && Soils(ops[k], trace[k].ext, p)
  }

  /** Operation j made page p zero and none of those after it, up to k, gave it back used. */
  ghost predicate ZeroSince(ops: seq<Op>, trace: seq<Maps>, j: nat, k: nat, p: int)
    requires k <= |ops| < |trace|
  {
    j < k && ZeroesAt(ops, trace, j, p) && forall i: nat :: j < i < k ==> !SoilsAt(ops, trace, i, p)
  }

  /** Page p has been made zero, or was so at the start, and has not been given back used since. */
  ghost predicate CleanSince(ops: seq<Op>, trace: seq<Maps>, k: nat, p: int)
    requires k <= |ops| < |trace|
  {
    || (exists j: nat :: ZeroSince(ops, trace, j, k, p))
    || (ZeroedAt(trace[0].ext, p) && forall i: nat :: i < k ==> !SoilsAt(ops, trace, i, p))
  }

  /** In every run the flag for zeroed pages tells the truth: a page that it calls zero was made so, and
      was not given back used after that. */
  lemma {:induction false} ZeroHistory(ops: seq<Op>, trace: seq<Maps>, k: nat, p: int)
    requires Traced(ops, trace) && k <= |ops| && ZeroedAt(trace[k].ext, p)
    ensures CleanSince(ops, trace, k, p)
  {
    if k > 0 {
      var m, m' := trace[k - 1], trace[k];
      assert StepTraced(ops[k - 1], m, m');
      if Allowed(ops[k - 1], m.ext, m.tree) && Zeroes(ops[k - 1], m.ext, p) {
        assert ZeroSince(ops, trace, k - 1, k, p);
      } else {
        var n := k - 1;
        ZeroHistory(ops, trace, n, p);
        if exists j: nat :: ZeroSince(ops, trace, j, n, p) {
          var j: nat :| ZeroSince(ops, trace, j, n, p);
          assert ZeroSince(ops, trace, j, k, p);
        }
      }
    }
  }

  lemma TracedOn(ops: seq<Op>, k: nat, trace: seq<Maps>, m: Maps)
    requires k < |ops| && Traced(ops[..k], trace) && StepTraced(ops[k], trace[k], m)
    ensures Traced(ops[..k + 1], trace + [m])
  {
    forall i | 0 <= i < k + 1 ensures StepTraced(ops[..k + 1][i], (trace + [m])[i], (trace + [m])[i + 1]) {
      assert i < k ==> StepTraced(ops[..k][i], trace[i], trace[i + 1]);
    }
  }

  lemma AllocAtDid(ext: Extents, tree': Tree, ext': Extents, r: Id, op: Op)
    requires op.AllocAt? && r in ext' && Serves(ext'[r], op.pool, op.n, op.szind, false, op.commit)
    requires exists x :: Requested(ext, x, Some(op.addr), None, op.pool)
                         && ServedFrom(ext, x, ext', r, op.pool, op.commit)
    requires ext'[r].base == op.addr && AllEdged(ext', tree')
    ensures Did(op, ext, ext')
  {
    var x :| Requested(ext, x, Some(op.addr), None, op.pool) && ServedFrom(ext, x, ext', r, op.pool, op.commit);
    assert Gave(ext, x, ext', op.pool, op.n, 1, op.szind, false, op.commit);
    assert StartsAt(ext, x, op.addr, op.n, op.pool);
  }

  lemma AllocZeros(ext: Extents, ext': Extents, r: Id, newAddr: Option<nat>, fit: Option<Id>, pool: Pool,
                   commit: bool)
    requires exists x :: Requested(ext, x, newAddr, fit, pool) && ServedFrom(ext, x, ext', r, pool, commit)
    ensures forall p: int :: ZeroedAt(ext', p) ==> ZeroedAt(ext, p) || (commit && BareAt(ext, p))
  {
    var x :| Requested(ext, x, newAddr, fit, pool) && ServedFrom(ext, x, ext', r, pool, commit);
    ServedZeros(ext, x, ext', r, pool, commit);
  }

  /** After a free with new flags, the freed pages are called zero only if the flag says so. */
  lemma FreeZeros(ext: Extents, x: Id, committed: bool, zeroed: bool, ext': Extents, r: Id, pool: Pool)
    requires x in ext && AllApart(ext) && AllApart(ext') && SamePages(ext, ext')
    requires TookIn(Reflagged(ext, x, committed, zeroed), x, ext', r, pool)
    ensures forall p: int :: ZeroedAt(ext', p) ==>
              if In(ext[x], p) then zeroed else ZeroedAt(ext, p)
  {
    var mid := Reflagged(ext, x, committed, zeroed);
    SameRanges(ext, mid);
    TookInZeros(mid, x, ext', r, pool);
    forall p: int | ZeroedAt(mid, p) ensures if In(ext[x], p) then zeroed else ZeroedAt(ext, p) {
      var i :| i in mid && In(mid[i], p) && mid[i].zeroed;
      assert i != x ==> Apart(ext[i], ext[x]) && mid[i] == ext[i];
    }
  }

  lemma FreshZeros(ext: Extents, x: Id, e: Extent)
    requires x !in ext
    ensures forall p: int :: ZeroedAt(ext[x := e], p) ==> ZeroedAt(ext, p) || (In(e, p) && e.zeroed)
  {
  }

  lemma GoneZeros(ext: Extents, x: Id, e: Extent)
    requires x !in ext
    ensures FewerZeros(ext[x := e], ext)
  {
    forall p: int | ZeroedAt(ext, p) ensures ZeroedAt(ext[x := e], p) {
      var i :| i in ext && In(ext[i], p) && ext[i].zeroed;
      assert i in ext[x := e] && ext[x := e][i] == ext[i];
    }
  }

  // ------------------------------------------------------------------ pages that come and go

  /** Pages that entered the map or left it. */
  datatype Move = Came(e: Extent) | Went(e: Extent)

  /** Whether page p is in the map after the moves. */
  predicate Ledger(moves: seq<Move>, p: int, before: bool) {
    if moves == [] then before
    else
      var last := moves[|moves| - 1];
      if In(last.e, p) then last.Came? else Ledger(moves[..|moves| - 1], p, before)
  }

  ghost predicate Moved(ext: Extents, moves: seq<Move>, ext': Extents) {
    forall p: int :: Covered(ext', p) <==> Ledger(moves, p, Covered(ext, p))
  }

  lemma MovedOn(ext: Extents, moves: seq<Move>, mid: Extents, more: seq<Move>, ext': Extents)
    requires Moved(ext, moves, mid) && Moved(mid, more, ext') && |more| <= 1
    ensures Moved(ext, moves + more, ext')
  {
    forall p: int ensures Covered(ext', p) <==> Ledger(moves + more, p, Covered(ext, p)) {
      assert Covered(mid, p) <==> Ledger(moves, p, Covered(ext, p));
      assert Covered(ext', p) <==> Ledger(more, p, Covered(mid, p));
      if |more| == 1 {
        OneMove(more[0], p, Covered(mid, p));
        assert (moves + more)[..|moves + more| - 1] == moves && more == [more[0]];
      } else {
        assert moves + more == moves;
      }
    }
  }

  lemma OneMove(m: Move, p: int, before: bool)
    ensures Ledger([m], p, before) == if In(m.e, p) then m.Came? else before
  {
    assert [m][..0] == [];
  }

  lemma PagesCame(ext: Extents, x: Id, e: Extent)
    requires x !in ext
    ensures Moved(ext, [Came(e)], ext[x := e])
  {
    var ext' := ext[x := e];
    forall p: int ensures Covered(ext', p) <==> Ledger([Came(e)], p, Covered(ext, p)) {
      OneMove(Came(e), p, Covered(ext, p));
      if Covered(ext, p) {
        var i :| i in ext && In(ext[i], p);
        assert In(ext'[i], p);
      }
      if In(e, p) {
        assert In(ext'[x], p);
      }
      if Covered(ext', p) {
        var i :| i in ext' && In(ext'[i], p);
        assert i != x ==> In(ext[i], p);
      }
    }
  }

  lemma PagesWent(ext: Extents, ext': Extents, x: Id, e: Extent)
    requires x !in ext' && SamePages(ext, ext'[x := e])
    requires forall i :: i in ext' ==> Apart(ext'[i], e)
    ensures Moved(ext, [Went(e)], ext')
  {
    PagesCame(ext', x, e);
    forall p: int ensures Covered(ext', p) <==> Ledger([Went(e)], p, Covered(ext, p)) {
      OneMove(Came(e), p, Covered(ext', p));
      OneMove(Went(e), p, Covered(ext, p));
      assert Covered(ext'[x := e], p) <==> Ledger([Came(e)], p, Covered(ext', p));
      if Covered(ext', p) {
        var i :| i in ext' && In(ext'[i], p);
        assert Apart(ext'[i], e);
      }
    }
  }

  lemma CutReturned(ext: Extents, x: Id, mid: Extents, end: Extents, tree: Tree, lead: nat, n: nat,
                    l: Option<Id>, m: Id, t: Option<Id>, pool: Pool)
    requires CutInto(ext, x, mid, lead, n, l, m, t) && ext[x].state.Active? && n > 0
    requires end == Returned(mid, l, t, pool) && AllEdged(end, tree) && AllApart(end)
    requires SamePages(ext, mid)
    ensures SamePages(ext, end) && end[m] == mid[m]
    ensures forall i :: i in ext && i != x ==> i in end && end[i] == ext[i]
    ensures forall s: State :: !s.Active? && Coalesced(Freed(ext, x, pool), s) ==> Coalesced(end, s)
  {
    SameRanges(mid, end);
    AllLong(mid, end, tree);
    forall s: State | !s.Active? && Coalesced(Freed(ext, x, pool), s) ensures Coalesced(end, s) {
      CutCoalesces(ext, x, mid, lead, n, l, m, t, pool, s);
    }
  }

  lemma CutPieces(ext: Extents, x: Id, mid: Extents, end: Extents, lead: nat, n: nat,
                  l: Option<Id>, m: Id, t: Option<Id>, pool: Pool, y: Id, z: Id)
    requires CutInto(ext, x, mid, lead, n, l, m, t) && end == Returned(mid, l, t, pool)
    requires (l.Some? ==> m == y) && (t.Some? ==> t == Some(z))
    ensures Pieces(ext, x, end, y, z)
  {
  }

  lemma BusyIsWeaker(ext: Extents, tree: Tree, x: Id)
    requires Tiled(ext, tree, {}) && x in ext && !ext[x].slab
    ensures Tiled(ext, tree, {x})
  {
    forall p | p in tree ensures Owned(ext, tree, p, {x}) {
      assert Owned(ext, tree, p, {});
    }
  }

  /** The flags for committed and zeroed pages play no part in the tree. */
  lemma FlagsFree(ext: Extents, tree: Tree, x: Id, e: Extent, busy: set<Id>)
    requires Tiled(ext, tree, busy) && x in ext
    requires e == ext[x].(committed := e.committed, zeroed := e.zeroed)
    ensures Tiled(ext[x := e], tree, busy) && SamePages(ext, ext[x := e])
  {
    var ext' := ext[x := e];
    forall j | j in ext' ensures Edged(tree, j, ext'[j]) {
      assert Edged(tree, j, ext[j]);
    }
    forall j | j in ext' && j !in busy ensures Tagged(tree, ext'[j]) && Filled(tree, j, ext'[j]) {
      assert Tagged(tree, ext[j]) && Filled(tree, j, ext[j]);
    }
    forall j, k | j in ext' && k in ext' && j != k ensures Apart(ext'[j], ext'[k]) {
      assert Apart(ext[j], ext[k]);
    }
    forall p | p in tree ensures Owned(ext', tree, p, busy) {
      assert Owned(ext, tree, p, busy);
    }
    SameRanges(ext, ext');
  }

  lemma AllLong(mid: Extents, ext: Extents, tree: Tree)
    requires AllEdged(ext, tree) && AllApart(ext) && ext.Keys == mid.Keys
    requires forall i :: i in ext ==> mid[i].base == ext[i].base && mid[i].npages == ext[i].npages
    ensures AllApart(mid) && forall i :: i in mid ==> mid[i].npages > 0
  {
    forall i | i in mid ensures mid[i].npages > 0 {
      assert Edged(tree, i, ext[i]);
    }
    forall i, j | i in mid && j in mid && i != j ensures Apart(mid[i], mid[j]) {
      assert Apart(ext[i], ext[j]);
    }
  }

  /** SC_LARGE_MINCLASS in pages. */
  const LARGE_MIN: nat := 4

  lemma WithdrawnPages(ext: Extents, x: Id)
    requires x in ext
    ensures SamePages(ext, ext[x := ext[x].(szind := NSIZES, slab := false)])
  {
    var ext' := ext[x := ext[x].(szind := NSIZES, slab := false)];
    SameRanges(ext, ext');
  }

  lemma SlabPages(ext: Extents, x: Id, slab: bool)
    requires x in ext
    ensures SamePages(ext, ext[x := ext[x].(slab := slab)])
  {
    SameRanges(ext, ext[x := ext[x].(slab := slab)]);
  }

  lemma StartAbsorbing(ext: Extents, x: Id, pool: Pool)
    requires x in ext && Idle(ext[x], pool)
    ensures Absorbed(ext, x, ext, x, pool)
  {
  }

  lemma Entered(ext: Extents, x0: Id, last: Extents, x: Id, pool: Pool)
    requires Absorbed(ext, x0, last, x, pool)
    ensures var end := last[x := last[x].(state := pool.state)];
      SamePages(ext, end) && end[x].base <= ext[x0].base && Past(ext[x0]) <= Past(end[x])
  {
    SameRanges(last, last[x := last[x].(state := pool.state)]);
  }

  /** What extent_recycle makes of the extent it has cut out. */
  function Finished(e: Extent, slab: bool, commit: bool): Extent {
    e.(slab := slab, zeroed := e.zeroed || (commit && !e.committed), committed := e.committed || commit)
  }

  /** Page p lies in an extent whose flag says that its pages are zero. */
  ghost predicate ZeroedAt(ext: Extents, p: int) { exists i :: i in ext && In(ext[i], p) && ext[i].zeroed }

  /** Every page that is said to be zero was so before. */
  ghost predicate FewerZeros(ext: Extents, ext': Extents) {
    forall p: int :: ZeroedAt(ext', p) ==> ZeroedAt(ext, p)
  }

  lemma FinishedServes(ext: Extents, x: Id, mid: Extents, m: Id, end: Extents, slab: bool, commit: bool,
                       pool: Pool, y: Id, z: Id)
    requires ServedFrom(ext, x, mid, m, pool, false) && Pieces(ext, x, mid, y, z) && mid[m].state.Active?
    requires end == mid[m := Finished(mid[m], slab, commit)]
    ensures ServedFrom(ext, x, end, m, pool, commit) && Pieces(ext, x, end, y, z)
    ensures forall s: State :: !s.Active? && Coalesced(mid, s) ==> Coalesced(end, s)
  {
    forall s: State | !s.Active? && Coalesced(mid, s) ensures Coalesced(end, s) {
      OneActive(mid, end, m, s);
    }
  }

  /** The extent of the pool that the caller named, or the one that starts at the address asked for. */
  predicate Requested(ext: Extents, x: Id, newAddr: Option<nat>, fit: Option<Id>, pool: Pool) {
    Member(ext, x, pool) && if newAddr.Some? then ext[x].base == newAddr.value else fit == Some(x)
  }

  lemma TakenServed(ext: Extents, x: Id, mid: Extents, ext': Extents, r: Id, pool: Pool, commit: bool, y: Id, z: Id)
    requires x in ext && mid == ext[x := ext[x].(state := Active)]
    requires ServedFrom(mid, x, ext', r, pool, commit) && Pieces(mid, x, ext', y, z)
    ensures ServedFrom(ext, x, ext', r, pool, commit) && Pieces(ext, x, ext', y, z)
  {
  }

  function Reflagged(ext: Extents, x: Id, committed: bool, zeroed: bool): Extents
    requires x in ext
  {
    ext[x := ext[x].(committed := committed, zeroed := zeroed)]
  }

  lemma FreedKeys(ext: Extents, x: Id, committed: bool, zeroed: bool, pool: Pool)
    requires x in ext
    ensures Freed(Unused(Reflagged(ext, x, committed, zeroed), x), x, pool).Keys == ext.Keys
  {
  }

  lemma ReflaggedCoalesced(ext: Extents, x: Id, committed: bool, zeroed: bool)
    requires x in ext && ext[x].state.Active?
    ensures forall s: State :: !s.Active? && Coalesced(ext, s) ==> Coalesced(Reflagged(ext, x, committed, zeroed), s)
  {
    forall s: State | !s.Active? && Coalesced(ext, s) ensures Coalesced(Reflagged(ext, x, committed, zeroed), s) {
      OneActive(ext, Reflagged(ext, x, committed, zeroed), x, s);
    }
  }

  lemma OutZeros(ext: Extents, ext': Extents, x: Id, e: Extent)
    requires x in ext && ext' - {x} == ext - {x} && e == ext[x].(state := e.state)
    ensures FewerZeros(ext, ext'[x := e])
  {
    forall p: int | ZeroedAt(ext'[x := e], p) ensures ZeroedAt(ext, p) {
      var i :| i in ext'[x := e] && In(ext'[x := e][i], p) && ext'[x := e][i].zeroed;
      if i != x {
        assert i in ext' - {x} && (ext' - {x})[i] == ext'[i] && (ext - {x})[i] == ext[i];
      }
      assert i in ext && In(ext[i], p) && ext[i].zeroed;
    }
  }

  lemma TookInZeros(ext: Extents, x: Id, ext': Extents, r: Id, pool: Pool)
    requires TookIn(ext, x, ext', r, pool) && SamePages(ext, ext') && AllApart(ext')
    ensures FewerZeros(ext, ext')
  {
    forall p: int | ZeroedAt(ext', p) ensures ZeroedAt(ext, p) {
      var i :| i in ext' && In(ext'[i], p) && ext'[i].zeroed;
      assert Covered(ext', p) && Covered(ext, p);
      var j :| j in ext && In(ext[j], p);
      if i == r {
        assert Part(ext, x, ext', r, j);
      }
    }
  }

  /** A page is newly said to be zero only by a commit. */
  lemma ServedZeros(ext: Extents, x: Id, ext': Extents, r: Id, pool: Pool, commit: bool)
    requires ServedFrom(ext, x, ext', r, pool, commit)
    ensures forall p: int :: ZeroedAt(ext', p) ==>
              ZeroedAt(ext, p) || (commit && !ext[x].committed && In(ext[x], p))
  {
    forall p: int | ZeroedAt(ext', p) && !(commit && !ext[x].committed && In(ext[x], p))
      ensures ZeroedAt(ext, p)
    {
      var i :| i in ext' && In(ext'[i], p) && ext'[i].zeroed;
      var j := if i == r || i == x || i !in ext then x else i;
      assert j in ext && In(ext[j], p) && ext[j].zeroed;
    }
  }

  /** The extent is what the caller of extent_recycle asked for. */
  predicate Serves(e: Extent, pool: Pool, n: nat, szind: nat, slab: bool, commit: bool) {
    && e.state.Active? && e.npages == n && e.arena == pool.arena && e.szind == szind
    && e.slab == slab && (commit ==> e.committed)
  }

  lemma OneActive(ext: Extents, ext': Extents, x: Id, s: State)
    requires x in ext && ext[x].state.Active? && Coalesced(ext, s) && !s.Active?
    requires x in ext' && ext'[x].state.Active? && ext' == ext[x := ext'[x]]
    ensures Coalesced(ext', s)
  {
  }

  predicate Member(ext: Extents, x: Id, pool: Pool) {
    x in ext && ext[x].state == pool.state && ext[x].arena == pool.arena
  }

  /** Coalescing within one pool leaves the pools of another state as joined as they were. */
  lemma Elsewhere(ext: Extents, mid: Extents, x: Id, last: Extents, r: Id, end: Extents, pool: Pool)
    requires Member(ext, x, pool) && mid == ext[x := ext[x].(state := Active)]
    requires Absorbed(mid, x, last, r, pool) && end == last[r := last[r].(state := pool.state)]
    ensures forall s: State :: s != pool.state && !s.Active? && Coalesced(ext, s) ==> Coalesced(end, s)
  {
    forall s: State, i, j | s != pool.state && !s.Active? && Coalesced(ext, s) && i in end && j in end && i != j
                            && end[i].state == s && end[j].state == s
      ensures !Joinable(end[i], end[j])
    {
      assert i in ext && ext[i] == end[i] && j in ext && ext[j] == end[j];
    }
  }

  /** A call of extents_alloc without or with an address, of extents_dalloc, of extent_dalloc_wrapper where
      the pages stay mapped, of extents_evict, or the registration of pages that are new to the map. */
  datatype Op =
    | Alloc(pool: Pool, n: nat, al: nat, szind: nat, slab: bool, commit: bool, fit: Option<Id>,
            y: Id, z: Id)
    | AllocAt(pool: Pool, addr: nat, n: nat, szind: nat, commit: bool, y: Id, z: Id)
    | Free(pool: Pool, x: Id)
    | Keep(pool: Pool, x: Id, decommitted: bool, purged: bool)
    | Purge(pool: Pool, overLimit: bool)
    | Fresh(x: Id, e: Extent)

  /** The operation is not on a pool of state s that delays coalescing. */
  predicate NotDelayed(op: Op, s: State) {
    !op.Fresh? && op.pool.state == s ==> !op.pool.delay
  }

  /** What the callers guarantee. */
  predicate Allowed(op: Op, ext: Extents, tree: Tree) {
    match op
    case Alloc(pool, n, al, szind, slab, commit, fit, y, z) =>
      && !pool.state.Active?
      && n > 0 && al > 0 && y !in ext && z !in ext && y != z && (slab ==> szind != NSIZES)
      && (fit.Some? ==> Member(ext, fit.value, pool)
                        && AlignUp(ext[fit.value].base, al) + n <= Past(ext[fit.value]))
    case AllocAt(pool, addr, n, szind, commit, y, z) =>
      && !pool.state.Active? && n > 0 && y !in ext && z !in ext && y != z
      && (addr in tree ==> tree[addr].id in ext && ext[tree[addr].id].base == addr)
    case Free(pool, x) =>
      !pool.state.Active? && x in ext && ext[x].state.Active? && ext[x].arena == pool.arena
    case Keep(pool, x, _, _) =>
      pool.state.Retained? && x in ext && ext[x].state.Active? && ext[x].arena == pool.arena
    case Purge(pool, _) => !pool.state.Active?
    case Fresh(x, e) =>
      && x !in ext && e.base > 0 && e.npages > 0 && e.state.Active?
      && (e.slab ==> e.szind != NSIZES) && forall i :: i in ext ==> Apart(ext[i], e)
  }

  /** Adding the result of coalescing to its pool keeps free neighbours joined. */
  lemma RecordCoalesces(ext: Extents, x0: Id, last: Extents, x: Id, pool: Pool, s: State)
    requires x0 in ext && ext[x0].state.Active? && Absorbed(ext, x0, last, x, pool)
    requires Coalesced(ext, s) && !s.Active? && (s == pool.state ==> Isolated(last, x, pool))
    ensures Coalesced(last[x := last[x].(state := pool.state)], s)
  {
    var end := last[x := last[x].(state := pool.state)];
    forall i, j | i in end && j in end && i != j && end[i].state == s && end[j].state == s
      ensures !Joinable(end[i], end[j])
    {
      if i != x && j != x {
        assert i in ext && ext[i] == end[i] && j in ext && ext[j] == end[j];
      } else {
        NoJoin(last, x, pool, if i == x then j else i);
      }
    }
  }

  lemma NoJoin(last: Extents, x: Id, pool: Pool, k: Id)
    requires x in last && k in last && k != x && Isolated(last, x, pool)
    requires last[x].arena == pool.arena && last[k].state == pool.state
    ensures !Joinable(last[x], last[k]) && !Joinable(last[k], last[x])
  {
    assert Beside(last[x], last[k], true) <==> Past(last[x]) == last[k].base;
    assert Beside(last[x], last[k], false) <==> Past(last[k]) == last[x].base;
  }
}
