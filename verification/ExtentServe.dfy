/**
 Allocation, free and eviction across a pool of free extents (in bytes) and the address map (in
 pages), end to end: the search of the pool picks an extent, which is cut up in the map; a freed
 extent is joined with its neighbours, which leave the pool for it; and the pool goes on listing
 exactly the free extents of the map.  Pages of 4096 bytes.
 */
module ExtentServe {
  import opened Common
  import P = ExtentPool
  import M = ExtentMap

  /** An extent of the address map as the pool sees it. */
  function Bytes(e: M.Extent): P.Extent { P.Extent(e.base * 4096, e.npages * 4096, e.sn) }

  /** The page of extent i is in the list exactly if it is a member of the pool and not pending. */
  ghost predicate Listed(ext: M.Extents, lru: seq<P.Extent>, pool: M.Pool, pending: set<M.Id>) {
    && (forall i :: i !in pending && M.Member(ext, i, pool) ==> Bytes(ext[i]) in lru)
    && (forall e :: e in lru ==> exists i :: i !in pending && M.Member(ext, i, pool) && Bytes(ext[i]) == e)
  }

  /** The pool holds exactly the free extents of its arena and state. */
  ghost predicate Agree(ext: M.Extents, lru: seq<P.Extent>, pool: M.Pool) { Listed(ext, lru, pool, {}) }

  // ------------------------------------------------------------------ bytes and pages

  lemma MulAssoc(a: int, b: int, c: int)
    ensures a * b * c == a * (b * c)
  {
  }

  /** Rounding up to a multiple of whole pages, in pages. */
  lemma AlignInPages(base: nat, al: nat)
    requires al > 0
    ensures P.AlignUp(base * 4096, al * 4096) == M.AlignUp(base, al) * 4096
  {
    var x := base + al - 1;
    var k, r := x / al, x % al;
    assert x == al * k + r;
    assert base * 4096 + al * 4096 - 1 == (al * 4096) * k + (4096 * r + 4095) by {
      MulAssoc(4096, al, k);
      assert (al * 4096) * k == 4096 * (al * k);
    }
    DivUnique(base * 4096 + al * 4096 - 1, al * 4096, k, 4096 * r + 4095);
    MulAssoc(k, al, 4096);
  }

  /** What the search promises in bytes is what the cut needs in pages: it never finds the extent too
      short. */
  lemma RoomInPages(x: M.Extent, n: nat, alignment: nat)
    requires alignment > 0 && P.FitsAligned(Bytes(x), n * 4096, alignment)
    ensures P.PageCeil(alignment) / 4096 > 0
    ensures M.AlignUp(x.base, P.PageCeil(alignment) / 4096) + n <= M.Past(x)
  {
    P.PageCeilIsPages(alignment);
    var al := P.PageCeil(alignment) / 4096;
    assert P.PageCeil(alignment) == al * 4096;
    AlignInPages(x.base, al);
  }

  // ------------------------------------------------------------------ the list

  /** Different extents of the map start at different addresses. */
  lemma BasesDiffer(ext: M.Extents, tree: M.Tree, i: M.Id, j: M.Id)
    requires M.AllEdged(ext, tree) && M.AllApart(ext) && i in ext && j in ext && i != j
    ensures Bytes(ext[i]).base != Bytes(ext[j]).base
  {
    assert M.Edged(tree, i, ext[i]) && M.Edged(tree, j, ext[j]) && M.Apart(ext[i], ext[j]);
  }

  /** Taking an extent off the list makes it pending. */
  lemma TakenOff(ext: M.Extents, tree: M.Tree, before: seq<P.Extent>, lru: seq<P.Extent>, pool: M.Pool,
                 i: M.Id)
    requires M.AllEdged(ext, tree) && M.AllApart(ext) && Listed(ext, before, pool, {})
    requires M.Member(ext, i, pool)
    requires forall f :: f in lru <==> f in before && f != Bytes(ext[i])
    ensures Listed(ext, lru, pool, {i})
  {
    forall j | j !in {i} && M.Member(ext, j, pool) ensures Bytes(ext[j]) in lru {
      BasesDiffer(ext, tree, i, j);
    }
    forall e | e in lru
      ensures exists j :: j !in {i} && M.Member(ext, j, pool) && Bytes(ext[j]) == e
    {
      var j :| M.Member(ext, j, pool) && Bytes(ext[j]) == e;
    }
  }

  /** The pieces of the extent are pending; the list is right for all others. */
  lemma CutUp(ext: M.Extents, x: M.Id, ext': M.Extents, y: M.Id, z: M.Id, lru: seq<P.Extent>, pool: M.Pool)
    requires Listed(ext, lru, pool, {x}) && M.Pieces(ext, x, ext', y, z) && y !in ext && z !in ext
    ensures Listed(ext', lru, pool, {x, y, z})
  {
    forall e | e in lru
      ensures exists j :: j !in {x, y, z} && M.Member(ext', j, pool) && Bytes(ext'[j]) == e
    {
      var j :| j !in {x} && M.Member(ext, j, pool) && Bytes(ext[j]) == e;
      assert M.Member(ext', j, pool) && Bytes(ext'[j]) == e;
    }
  }

  /** A piece that the pool could hold: inside the address space, like the extent it was cut from. */
  ghost predicate Small(ext: M.Extents, i: M.Id) {
    i in ext ==> M.Past(ext[i]) * 4096 <= RANGE
  }

  /** Puts a pending extent into the pool if it is a member. */
  method PutIn(ext: M.Extents, ghost tree: M.Tree, p: P.Pool, pool: M.Pool, i: M.Id,
               ghost pending: set<M.Id>, ghost tab: seq<nat>, ghost pad: nat)
    requires M.AllEdged(ext, tree) && M.AllApart(ext) && p.Valid() && p.Quantised(tab, pad)
    requires Listed(ext, p.lru, pool, pending) && i in pending && Small(ext, i)
    modifies p`lru, p`npages, p.heaps, p.bitmap
    ensures p.Valid() && Listed(ext, p.lru, pool, pending - {i})
    ensures p.lru == old(p.lru) + (if M.Member(ext, i, pool) then [Bytes(ext[i])] else [])
  {
    if M.Member(ext, i, pool) {
      var e := Bytes(ext[i]);
      assert M.Edged(tree, i, ext[i]) && p.BinAgrees(tab, pad, e.size);
      WholePages(ext[i].base);
      WholePages(ext[i].npages);
      forall f | f in p.lru ensures f.base != e.base {
        var j :| j !in pending && M.Member(ext, j, pool) && Bytes(ext[j]) == f;
        BasesDiffer(ext, tree, i, j);
      }
      p.Insert(e);
    }
    forall e | e in p.lru
      ensures exists j :: j !in pending - {i} && M.Member(ext, j, pool) && Bytes(ext[j]) == e
    {
      if e in old(p.lru) {
        var j :| j !in pending && M.Member(ext, j, pool) && Bytes(ext[j]) == e;
      }
    }
  }

  lemma WholePages(k: nat)
    ensures (k * 4096) % 4096 == 0
  {
    MultipleMod(k, 4096);
  }

  // ------------------------------------------------------------------ the allocation

  /** The largest request the caller may make: the padded size has a size class. */
  ghost predicate Askable(n: nat, alignment: nat, tab: seq<nat>, pad: nat)
    requires P.TableOk(tab, pad)
  {
    && n > 0 && alignment > 0 && n * 4096 < RANGE && P.PageCeil(alignment) < RANGE
    && var m := P.MaxSize(n * 4096, alignment);
       m < RANGE ==> m - pad <= P.Largest(tab)
  }

  /** The pool lists nothing that the search may pick. */
  ghost predicate Unserved(lru: seq<P.Extent>, n: nat, alignment: nat, pool: M.Pool, tab: seq<nat>, pad: nat,
                           lgMaxActiveFit: nat)
    requires P.TableOk(tab, pad) && n > 0 && alignment > 0
  {
    match pool
    case Pool(_, _, delay) => P.Refused(lru, n * 4096, alignment, delay, tab, pad, lgMaxActiveFit)
  }

  /** The listed extent is the one that the search picks. */
  ghost predicate Picked(lru: seq<P.Extent>, e: P.Extent, n: nat, alignment: nat, pool: M.Pool, tab: seq<nat>,
                         pad: nat, lgMaxActiveFit: nat)
    requires P.TableOk(tab, pad) && n > 0 && alignment > 0
  {
    match pool
    case Pool(_, _, delay) => P.Chosen(lru, e, n * 4096, alignment, delay, tab, pad, lgMaxActiveFit)
  }

  /** Extent i is large enough for n pages wherever it starts, after rounding up to a size class. */
  predicate LargeEnough(e: M.Extent, n: nat, alignment: nat, tab: seq<nat>, pad: nat)
    requires P.TableOk(tab, pad) && n > 0 && alignment > 0
  {
    P.MaxSize(n * 4096, alignment) < RANGE
    && e.npages * 4096 >= P.Ceil(tab, pad, P.MaxSize(n * 4096, alignment))
  }

  /** In a pool without delayed coalescing, a free extent that is large enough means that the request is
      served, and then by the oldest, then lowest, of all those that are large enough. */
  lemma LargeServes(ext: M.Extents, lru: seq<P.Extent>, pool: M.Pool, n: nat, alignment: nat, tab: seq<nat>,
                    pad: nat, lgMaxActiveFit: nat)
    requires Agree(ext, lru, pool) && P.TableOk(tab, pad) && n > 0 && alignment > 0 && !pool.delay
    requires exists i :: M.Member(ext, i, pool) && LargeEnough(ext[i], n, alignment, tab, pad)
    ensures !Unserved(lru, n, alignment, pool, tab, pad, lgMaxActiveFit)
    ensures forall x :: M.Member(ext, x, pool)
                        && Picked(lru, Bytes(ext[x]), n, alignment, pool, tab, pad, lgMaxActiveFit) ==>
              && LargeEnough(ext[x], n, alignment, tab, pad)
              && forall i :: M.Member(ext, i, pool) && LargeEnough(ext[i], n, alignment, tab, pad) ==>
                             ext[x].sn < ext[i].sn || (ext[x].sn == ext[i].sn && ext[x].base <= ext[i].base)
  {
    var m := P.MaxSize(n * 4096, alignment);
    var i :| M.Member(ext, i, pool) && LargeEnough(ext[i], n, alignment, tab, pad);
    assert Bytes(ext[i]) in lru;
    assert !P.NoneLarge(lru, m, false, tab, pad, lgMaxActiveFit);
  }

  /** extents_fit_locked: the member of the pool that the search picks, taken out of the pool. */
  method Pick(ext: M.Extents, ghost tree: M.Tree, p: P.Pool, pool: M.Pool, n: nat, alignment: nat,
              tab: seq<nat>, pad: nat, lgMaxActiveFit: nat) returns (r: Option<M.Id>)
    requires M.AllEdged(ext, tree) && M.AllApart(ext) && p.Valid() && p.Quantised(tab, pad)
    requires Agree(ext, p.lru, pool) && Askable(n, alignment, tab, pad)
    modifies p`lru, p`npages, p.heaps, p.bitmap
    ensures p.Valid()
    ensures r.None? <==> Unserved(old(p.lru), n, alignment, pool, tab, pad, lgMaxActiveFit)
    ensures r.None? ==> p.lru == old(p.lru)
    ensures r.Some? ==> r.value in ext
                        && Picked(old(p.lru), Bytes(ext[r.value]), n, alignment, pool, tab, pad, lgMaxActiveFit)
    ensures r.Some? ==> M.Member(ext, r.value, pool) && Listed(ext, p.lru, pool, {r.value})
                        && M.Past(ext[r.value]) * 4096 <= RANGE
                        && P.FitsAligned(Bytes(ext[r.value]), n * 4096, alignment)
  {
    WholePages(n);
    var fit := p.FitLocked(n * 4096, alignment, tab, pad, pool.delay, lgMaxActiveFit);
    if fit.None? {
      return None;
    }
    var i :| i in ext && M.Member(ext, i, pool) && Bytes(ext[i]) == fit.value;
    assert p.ExtentOk(fit.value);
    p.Remove(fit.value);
    TakenOff(ext, tree, old(p.lru), p.lru, pool, i);
    return Some(i);
  }

  /** The allocation: whatever the search returns, the cut has room for the request, so with hooks
      that succeed it never fails, and the pool then again holds exactly the free extents of the
      map, the cut-off pieces included. */
  method Allocate(book: M.Book, p: P.Pool, pool: M.Pool, n: nat, alignment: nat, szind: nat, slab: bool,
                  commit: bool, y: M.Id, z: M.Id, hooks: M.Hooks, tab: seq<nat>, pad: nat,
                  lgMaxActiveFit: nat) returns (r: Option<M.Id>, found: bool, ghost from: M.Id)
    requires M.Tiled(book.ext, book.tree, {}) && !pool.state.Active?
    requires p.Valid() && p.Quantised(tab, pad) && Agree(book.ext, p.lru, pool)
    requires Askable(n, alignment, tab, pad)
    requires y !in book.ext && z !in book.ext && y != z && (slab ==> szind != M.NSIZES)
    modifies book, p`lru, p`npages, p.heaps, p.bitmap
    ensures M.Tiled(book.ext, book.tree, {}) && p.Valid()
    ensures r.Some? ==> r.value in book.ext && M.SamePages(old(book.ext), book.ext)
                        && M.Serves(book.ext[r.value], pool, n, szind, slab, commit)
                        && P.PageCeil(alignment) > 0
                        && (book.ext[r.value].base * 4096) % P.PageCeil(alignment) == 0
                        && Agree(book.ext, p.lru, pool)
    ensures !found ==> r.None? && book.ext == old(book.ext) && p.lru == old(p.lru)
    ensures !found <==> Unserved(old(p.lru), n, alignment, pool, tab, pad, lgMaxActiveFit)
    ensures r.Some? ==> M.Member(old(book.ext), from, pool)
                        && Picked(old(p.lru), Bytes(old(book.ext)[from]), n, alignment, pool, tab, pad,
                                  lgMaxActiveFit)
                        && M.ServedFrom(old(book.ext), from, book.ext, r.value, pool, commit)
    ensures hooks.AlwaysSucceed? ==> (found <==> r.Some?) && Agree(book.ext, p.lru, pool)
    ensures hooks.AlwaysSucceed? ==>
              forall s: M.State :: !s.Active? && M.Coalesced(old(book.ext), s) ==> M.Coalesced(book.ext, s)
  {
    var fit := Pick(book.ext, book.tree, p, pool, n, alignment, tab, pad, lgMaxActiveFit);
    if fit.None? {
      return None, false, 0;
    }
    found, from := true, fit.value;
    ghost var before := book.ext;
    var x := fit.value;
    RoomInPages(book.ext[x], n, alignment);
    var al := P.PageCeil(alignment) / 4096;
    r := book.Recycle(pool, None, n, al, szind, slab, commit, Some(x), y, z, hooks);
    if r.Some? {
      GiveBack(before, book.ext, book.tree, p, pool, x, y, z, tab, pad);
      AlignedInBytes(book.ext[r.value].base, al, alignment);
    }
  }

  /** extent_deactivate of the pieces, and of x itself if it is one. */
  method GiveBack(ghost before: M.Extents, ext: M.Extents, ghost tree: M.Tree, p: P.Pool, pool: M.Pool,
                  x: M.Id, y: M.Id, z: M.Id, ghost tab: seq<nat>, ghost pad: nat)
    requires M.AllEdged(ext, tree) && M.AllApart(ext) && p.Valid() && p.Quantised(tab, pad)
    requires Listed(before, p.lru, pool, {x}) && M.Pieces(before, x, ext, y, z)
    requires y !in before && z !in before && y != z && M.Past(before[x]) * 4096 <= RANGE
    modifies p`lru, p`npages, p.heaps, p.bitmap
    ensures p.Valid() && Agree(ext, p.lru, pool)
  {
    CutUp(before, x, ext, y, z, p.lru, pool);
    PutIn(ext, tree, p, pool, x, {x, y, z}, tab, pad);
    PutIn(ext, tree, p, pool, y, {x, y, z} - {x}, tab, pad);
    PutIn(ext, tree, p, pool, z, {x, y, z} - {x} - {y}, tab, pad);
    assert {x, y, z} - {x} - {y} - {z} == {};
  }

  lemma AlignedInBytes(base: nat, al: nat, alignment: nat)
    requires alignment > 0 && al > 0 && al == P.PageCeil(alignment) / 4096 && base % al == 0
    ensures P.PageCeil(alignment) > 0 && (base * 4096) % P.PageCeil(alignment) == 0
  {
    P.PageCeilIsPages(alignment);
    var k := base / al;
    assert base == al * k;
    assert base * 4096 == k * (al * 4096);
    MultipleMod(k, al * 4096);
  }

  // ------------------------------------------------------------------ freeing and evicting

  /** Every extent lies inside the address space. */
  ghost predicate InSpace(ext: M.Extents) { forall i :: i in ext ==> M.Past(ext[i]) * 4096 <= RANGE }

  lemma StaysInSpace(ext: M.Extents, ext': M.Extents, tree': M.Tree)
    requires InSpace(ext) && M.SamePages(ext, ext') && M.AllEdged(ext', tree')
    ensures InSpace(ext')
  {
    forall i | i in ext' ensures M.Past(ext'[i]) * 4096 <= RANGE {
      assert M.Edged(tree', i, ext'[i]);
      var p := M.Last(ext'[i]);
      assert M.In(ext'[i], p) && M.Covered(ext', p);
      var j :| j in ext && M.In(ext[j], p);
      MulLe(M.Past(ext'[i]), M.Past(ext[j]), 4096);
    }
  }

  /** The members that x took in, r itself if it is one of them. */
  function TakenIn(ext: M.Extents, x: M.Id, ext': M.Extents, r: M.Id): (gone: set<M.Id>)
    ensures forall i :: i in gone <==> i in ext && i != x && (i !in ext' || i == r)
  {
    set i | i in ext && i != x && (i !in ext' || i == r)
  }

  /** Taking one more extent off the list. */
  lemma OneTakenOff(ext: M.Extents, tree: M.Tree, before: seq<P.Extent>, lru: seq<P.Extent>, pool: M.Pool,
                    pending: set<M.Id>, i: M.Id)
    requires M.AllEdged(ext, tree) && M.AllApart(ext) && Listed(ext, before, pool, pending)
    requires i !in pending && M.Member(ext, i, pool)
    requires forall f :: f in lru <==> f in before && f != Bytes(ext[i])
    ensures Listed(ext, lru, pool, pending + {i})
  {
    forall j | j !in pending + {i} && M.Member(ext, j, pool) ensures Bytes(ext[j]) in lru {
      BasesDiffer(ext, tree, i, j);
    }
    forall e | e in lru
      ensures exists j :: j !in pending + {i} && M.Member(ext, j, pool) && Bytes(ext[j]) == e
    {
      var j :| j !in pending && M.Member(ext, j, pool) && Bytes(ext[j]) == e;
    }
  }

  // ------------------------------------------------------------------ the order of the list

  /** The list without some extents, in the same order. */
  function Without(s: seq<P.Extent>, drop: set<P.Extent>): seq<P.Extent> {
    if s == [] then []
    else
      var n := |s| - 1;
      Without(s[..n], drop) + (if s[n] in drop then [] else [s[n]])
  }

  function BytesOf(ext: M.Extents, ids: set<M.Id>): set<P.Extent> {
    set i | i in ids && i in ext :: Bytes(ext[i])
  }

  lemma {:induction false} WithoutConcat(a: seq<P.Extent>, b: seq<P.Extent>, drop: set<P.Extent>)
    ensures Without(a + b, drop) == Without(a, drop) + Without(b, drop)
  {
    if b == [] {
      assert a + b == a;
    } else {
      var n := |b| - 1;
      WithoutConcat(a, b[..n], drop);
      assert (a + b)[..|a + b| - 1] == a + b[..n];
    }
  }

  lemma {:induction false} WithoutTwice(s: seq<P.Extent>, drop: set<P.Extent>, more: set<P.Extent>)
    ensures Without(Without(s, drop), more) == Without(s, drop + more)
  {
    if s != [] {
      var n := |s| - 1;
      WithoutTwice(s[..n], drop, more);
      WithoutConcat(Without(s[..n], drop), if s[n] in drop then [] else [s[n]], more);
      assert [s[n]][..0] == [];
    }
  }

  lemma {:induction false} WithoutNone(s: seq<P.Extent>, drop: set<P.Extent>)
    requires forall e :: e in s ==> e !in drop
    ensures Without(s, drop) == s
  {
    if s != [] {
      WithoutNone(s[..|s| - 1], drop);
    }
  }

  lemma {:induction false} WithoutLess(s: seq<P.Extent>, drop: set<P.Extent>)
    ensures forall e :: e in Without(s, drop) ==> e in s
  {
    if s != [] {
      WithoutLess(s[..|s| - 1], drop);
    }
  }

  /** Removing one extent from a list on which it stands once. */
  lemma WithoutOne(s: seq<P.Extent>, k: nat)
    requires k < |s| && forall i, j :: 0 <= i < j < |s| ==> s[i] != s[j]
    ensures Without(s, {s[k]}) == s[..k] + s[k + 1..]
  {
    var e := s[k];
    forall f | f in s[..k] ensures f !in {e} {
      var i :| 0 <= i < k && s[i] == f;
    }
    var rest := s[k + 1..];
    forall f | f in rest ensures f !in {e} {
      var i :| k + 1 <= i < |s| && s[i] == f;
    }
    WithoutNone(s[..k], {e});
    WithoutNone(rest, {e});
    WithoutParts(s, k, {e});
  }

  lemma WithoutParts(s: seq<P.Extent>, k: nat, drop: set<P.Extent>)
    requires k < |s| && s[k] in drop
    ensures Without(s, drop) == Without(s[..k], drop) + Without(s[k + 1..], drop)
  {
    assert s == s[..k] + ([s[k]] + s[k + 1..]);
    WithoutConcat(s[..k], [s[k]] + s[k + 1..], drop);
    WithoutConcat([s[k]], s[k + 1..], drop);
    assert [s[k]][..0] == [];
  }

  /** extents_remove_locked of one extent. */
  method RemoveOne(p: P.Pool, e: P.Extent)
    requires p.Valid() && e in p.lru
    modifies p`lru, p`npages, p.heaps, p.bitmap
    ensures p.Valid() && p.lru == Without(old(p.lru), {e})
    ensures forall f :: f in p.lru <==> f in old(p.lru) && f != e
  {
    ghost var before := p.lru;
    p.Remove(e);
    ghost var k: nat :| k < |before| && before[k] == e && p.lru == before[..k] + before[k + 1..];
    WithoutOne(before, k);
  }

  lemma OneMoreOf(ext: M.Extents, gone: set<M.Id>, left: set<M.Id>, i: M.Id)
    requires i in left && left <= gone && i in ext
    ensures BytesOf(ext, gone - (left - {i})) == BytesOf(ext, gone - left) + {Bytes(ext[i])}
  {
    assert gone - (left - {i}) == (gone - left) + {i};
  }

  lemma OneLess(ext: M.Extents, tree: M.Tree, start: seq<P.Extent>, before: seq<P.Extent>, lru: seq<P.Extent>,
                pool: M.Pool, pending: set<M.Id>, gone: set<M.Id>, left: set<M.Id>, i: M.Id)
    requires M.AllEdged(ext, tree) && M.AllApart(ext) && Listed(ext, before, pool, pending + (gone - left))
    requires i in left && left <= gone && gone !! pending && M.Member(ext, i, pool)
    requires before == Without(start, BytesOf(ext, gone - left)) && lru == Without(before, {Bytes(ext[i])})
    requires forall f :: f in lru <==> f in before && f != Bytes(ext[i])
    ensures Listed(ext, lru, pool, pending + (gone - (left - {i})))
    ensures lru == Without(start, BytesOf(ext, gone - (left - {i})))
  {
    WithoutTwice(start, BytesOf(ext, gone - left), {Bytes(ext[i])});
    OneMoreOf(ext, gone, left, i);
    OneTakenOff(ext, tree, before, lru, pool, pending + (gone - left), i);
    SameListed(ext, lru, pool, pending + (gone - left) + {i}, pending + (gone - (left - {i})));
  }

  /** extents_remove_locked of all the members that were taken in. */
  method RemoveAll(ext: M.Extents, ghost tree: M.Tree, p: P.Pool, pool: M.Pool, gone: set<M.Id>,
                   ghost pending: set<M.Id>)
    requires M.AllEdged(ext, tree) && M.AllApart(ext) && p.Valid() && Listed(ext, p.lru, pool, pending)
    requires gone !! pending && forall i :: i in gone ==> M.Member(ext, i, pool)
    modifies p`lru, p`npages, p.heaps, p.bitmap
    ensures p.Valid() && Listed(ext, p.lru, pool, pending + gone)
    ensures p.lru == Without(old(p.lru), BytesOf(ext, gone))
  {
    var left := gone;
    WithoutNone(p.lru, {});
    assert BytesOf(ext, gone - left) == {};
    while true
      invariant left <= gone && p.Valid() && Listed(ext, p.lru, pool, pending + (gone - left))
      invariant p.lru == Without(old(p.lru), BytesOf(ext, gone - left))
      decreases left
    {
      var i;
      if j :| j in left {
        i := j;
      } else {
        SameListed(ext, p.lru, pool, pending + (gone - left), pending + gone);
        assert gone - left == gone;
        return;
      }
      ghost var before := p.lru;
      RemoveOne(p, Bytes(ext[i]));
      OneLess(ext, tree, old(p.lru), before, p.lru, pool, pending, gone, left, i);
      left := left - {i};
    }
  }

  lemma SameListed(ext: M.Extents, lru: seq<P.Extent>, pool: M.Pool, a: set<M.Id>, b: set<M.Id>)
    requires Listed(ext, lru, pool, a) && forall i :: i in a <==> i in b
    ensures Listed(ext, lru, pool, b)
  {
    forall e | e in lru ensures exists i :: i !in b && M.Member(ext, i, pool) && Bytes(ext[i]) == e {
      var i :| i !in a && M.Member(ext, i, pool) && Bytes(ext[i]) == e;
    }
  }

  /** Once all that x took in is off the list, the list is right for the new map without r. */
  lemma TakenInListed(ext: M.Extents, x: M.Id, ext': M.Extents, r: M.Id, lru: seq<P.Extent>, pool: M.Pool)
    requires M.TookIn(ext, x, ext', r, pool) && Listed(ext, lru, pool, {x} + TakenIn(ext, x, ext', r))
    ensures Listed(ext', lru, pool, {r})
  {
    forall i | i !in {r} && M.Member(ext', i, pool) ensures Bytes(ext'[i]) in lru {
      assert i in ext && ext'[i] == ext[i];
    }
    forall e | e in lru ensures exists i :: i !in {r} && M.Member(ext', i, pool) && Bytes(ext'[i]) == e {
      var i :| i !in {x} + TakenIn(ext, x, ext', r) && M.Member(ext, i, pool) && Bytes(ext[i]) == e;
      assert M.Member(ext', i, pool) && Bytes(ext'[i]) == e;
    }
  }

  /** What x took in has left the list, the rest is there in the same order, and r stands at its end. */
  ghost predicate Requeued(ext: M.Extents, x: M.Id, ext': M.Extents, r: M.Id, lru: seq<P.Extent>,
                           lru': seq<P.Extent>)
  {
    r in ext' && lru' == Without(lru, BytesOf(ext, TakenIn(ext, x, ext', r))) + [Bytes(ext'[r])]
  }

  /** What the pool is told when x has taken in members and become member r: those leave the pool and
      r enters it at the end of the list. */
  method Reconcile(ext: M.Extents, ghost tree: M.Tree, x: M.Id, ext': M.Extents, ghost tree': M.Tree, r: M.Id,
                   p: P.Pool, pool: M.Pool, ghost tab: seq<nat>, ghost pad: nat)
    requires M.AllEdged(ext, tree) && M.AllApart(ext) && M.AllEdged(ext', tree') && M.AllApart(ext')
    requires p.Valid() && p.Quantised(tab, pad) && M.TookIn(ext, x, ext', r, pool)
    requires Listed(ext, p.lru, pool, {x}) && Small(ext', r)
    modifies p`lru, p`npages, p.heaps, p.bitmap
    ensures p.Valid() && Agree(ext', p.lru, pool)
    ensures Requeued(ext, x, ext', r, old(p.lru), p.lru)
    ensures ext.Keys == ext'.Keys ==> p.lru == old(p.lru) + [Bytes(ext'[r])]
  {
    var gone := TakenIn(ext, x, ext', r);
    RemoveAll(ext, tree, p, pool, gone, {x});
    TakenInListed(ext, x, ext', r, p.lru, pool);
    if ext.Keys == ext'.Keys {
      assert r == x;
      assert gone == {};
      assert BytesOf(ext, gone) == {};
      WithoutNone(old(p.lru), {});
    }
    PutIn(ext', tree', p, pool, r, {r}, tab, pad);
    assert {r} - {r} == {};
  }

  /** The freed extent, no longer known to be zero, with the members that it took in. */
  ghost predicate TookBack(ext: M.Extents, x0: M.Id, ext': M.Extents, x: M.Id, pool: M.Pool)
    requires x0 in ext
  {
    M.TookIn(M.Reflagged(ext, x0, ext[x0].committed, false), x0, ext', x, pool)
  }

  lemma SameTaken(ext: M.Extents, x: M.Id, ext': M.Extents, r: M.Id, lru: seq<P.Extent>, lru': seq<P.Extent>)
    requires x in ext && Requeued(M.Reflagged(ext, x, ext[x].committed, false), x, ext', r, lru, lru')
    ensures Requeued(ext, x, ext', r, lru, lru')
  {
    var used := M.Reflagged(ext, x, ext[x].committed, false);
    assert TakenIn(used, x, ext', r) == TakenIn(ext, x, ext', r);
    assert forall i :: i in ext ==> Bytes(used[i]) == Bytes(ext[i]);
    assert BytesOf(used, TakenIn(used, x, ext', r)) == BytesOf(ext, TakenIn(ext, x, ext', r));
  }

  /** Clearing the flag of an extent in use does not concern the pool. */
  lemma UsedListed(ext: M.Extents, tree: M.Tree, x: M.Id, lru: seq<P.Extent>, pool: M.Pool)
    requires M.Tiled(ext, tree, {}) && x in ext && ext[x].state.Active? && !pool.state.Active?
    requires Agree(ext, lru, pool)
    ensures var used := M.Reflagged(ext, x, ext[x].committed, false);
      M.AllEdged(used, tree) && M.AllApart(used) && Listed(used, lru, pool, {x})
  {
    var used := M.Reflagged(ext, x, ext[x].committed, false);
    M.FlagsFree(ext, tree, x, used[x], {});
    forall e | e in lru ensures exists i :: i !in {x} && M.Member(used, i, pool) && Bytes(used[i]) == e {
      var i :| M.Member(ext, i, pool) && Bytes(ext[i]) == e;
      assert i != x && M.Member(used, i, pool);
    }
    forall i | i !in {x} && M.Member(used, i, pool) ensures Bytes(used[i]) in lru {
      assert M.Member(ext, i, pool);
    }
  }

  /** extents_dalloc: the extent leaves use and enters the pool, joined as the pool prescribes; the
      pool then again lists exactly the free extents of the map. */
  method Deallocate(book: M.Book, p: P.Pool, pool: M.Pool, x0: M.Id, hooks: M.Hooks,
                    ghost tab: seq<nat>, ghost pad: nat) returns (x: M.Id)
    requires M.Tiled(book.ext, book.tree, {}) && x0 in book.ext && InSpace(book.ext)
    requires book.ext[x0].state.Active? && book.ext[x0].arena == pool.arena && !pool.state.Active?
    requires p.Valid() && p.Quantised(tab, pad) && Agree(book.ext, p.lru, pool)
    modifies book, p`lru, p`npages, p.heaps, p.bitmap
    ensures M.Tiled(book.ext, book.tree, {}) && M.SamePages(old(book.ext), book.ext) && InSpace(book.ext)
    ensures p.Valid() && Agree(book.ext, p.lru, pool) && TookBack(old(book.ext), x0, book.ext, x, pool)
    ensures Requeued(old(book.ext), x0, book.ext, x, old(p.lru), p.lru)
    ensures pool.delay && old(book.ext)[x0].npages < M.LARGE_MIN ==>
              x == x0 && p.lru == old(p.lru) + [Bytes(book.ext[x0])]
    ensures !pool.delay && hooks.AlwaysSucceed? ==> M.Isolated(book.ext, x, pool)
    ensures pool.delay && old(book.ext)[x0].npages >= M.LARGE_MIN && hooks.AlwaysSucceed? ==>
              (M.Isolated(book.ext, x, pool) <==> !M.Barred(old(book.ext), old(book.tree), x0, pool))
    ensures hooks.AlwaysSucceed? && !pool.delay ==>
              forall s: M.State :: !s.Active? && M.Coalesced(old(book.ext), s) ==> M.Coalesced(book.ext, s)
  {
    var before := book.ext;
    ghost var tree := book.tree;
    var used := M.Reflagged(before, x0, before[x0].committed, false);
    UsedListed(before, tree, x0, p.lru, pool);
    x := book.Dalloc(x0, pool, hooks);
    StaysInSpace(before, book.ext, book.tree);
    Reconcile(used, tree, x0, book.ext, book.tree, x, p, pool, tab, pad);
    SameTaken(before, x0, book.ext, x, old(p.lru), p.lru);
  }

  /** From `from` on the list is as it was, but for what was joined, with the joined extents, which were
      not there before, behind. */
  ghost predicate Queued(before: seq<P.Extent>, after: seq<P.Extent>, from: nat, drop: set<P.Extent>,
                         behind: seq<P.Extent>)
  {
    && from <= |before| && after == Without(before[from..], drop) + behind
    && forall e :: e in behind ==> e !in before
  }

  ghost predicate InOrder(before: seq<P.Extent>, after: seq<P.Extent>) {
    exists from: nat, drop: set<P.Extent>, behind: seq<P.Extent> :: Queued(before, after, from, drop, behind)
  }

  /** Extent e was taken when its turn had come: everything in front of it on the list had gone, and what
      was behind it is there in the same order. */
  ghost predicate InTurn(before: seq<P.Extent>, e: P.Extent, after: seq<P.Extent>) {
    exists from: nat, drop: set<P.Extent>, behind: seq<P.Extent> ::
      Queued(before, after, from, drop, behind) && (from == |before| || (from > 0 && before[from - 1] == e))
  }

  lemma {:induction false} FirstKept(s: seq<P.Extent>, drop: set<P.Extent>) returns (k: nat)
    requires Without(s, drop) != []
    ensures k < |s| && s[k] == Without(s, drop)[0] && Without(s, drop)[1..] == Without(s[k + 1..], drop)
  {
    var n := |s| - 1;
    var init := Without(s[..n], drop);
    if init == [] {
      k := n;
    } else {
      k := FirstKept(s[..n], drop);
      assert s[k + 1..] == s[..n][k + 1..] + [s[n]];
      WithoutConcat(s[..n][k + 1..], [s[n]], drop);
      assert [s[n]][..0] == [];
    }
  }

  /** Taking the first extent off the list. */
  lemma TurnOf(before: seq<P.Extent>, lru: seq<P.Extent>)
    requires InOrder(before, lru) && lru != []
    ensures InOrder(before, lru[1..]) && InTurn(before, lru[0], lru[1..])
  {
    var from: nat, drop: set<P.Extent>, behind: seq<P.Extent> :| Queued(before, lru, from, drop, behind);
    if Without(before[from..], drop) == [] {
      assert Without(before[|before|..], drop) == [];
      assert Queued(before, lru[1..], |before|, drop, behind[1..]);
    } else {
      var k := FirstKept(before[from..], drop);
      assert before[from..][k + 1..] == before[from + k + 1..];
      assert Queued(before, lru[1..], from + k + 1, drop, behind);
    }
  }

  /** What was joined leaves the list, and the joined extent goes to its end. */
  lemma TurnAfterJoin(before: seq<P.Extent>, lru: seq<P.Extent>, gone: set<P.Extent>, e: P.Extent)
    requires InOrder(before, lru) && e !in before
    ensures InOrder(before, Without(lru, gone) + [e])
  {
    var from: nat, drop: set<P.Extent>, behind: seq<P.Extent> :| Queued(before, lru, from, drop, behind);
    WithoutConcat(Without(before[from..], drop), behind, gone);
    WithoutTwice(before[from..], drop, gone);
    WithoutLess(behind, gone);
    assert Queued(before, Without(lru, gone) + [e], from, drop + gone, Without(behind, gone) + [e]);
  }

  /** The pages of f are those of one extent, or part of them. */
  ghost predicate Inside(f: P.Extent, ext: M.Extents) {
    exists i :: i in ext && Holds(ext[i], f)
  }

  predicate Holds(e: M.Extent, f: P.Extent) {
    e.base * 4096 <= f.base && f.base + f.size <= M.Past(e) * 4096
  }

  ghost predicate AllInside(lru: seq<P.Extent>, ext: M.Extents) {
    forall f :: f in lru ==> f.size > 0 && Inside(f, ext)
  }

  /** A joined extent holds all its parts. */
  lemma PartInside(ext: M.Extents, x: M.Id, ext': M.Extents, r: M.Id, pool: M.Pool, i: M.Id)
    requires M.TookIn(ext, x, ext', r, pool) && M.SamePages(ext, ext') && M.AllApart(ext)
    requires M.Part(ext, x, ext', r, i) && ext[i].npages > 0
    ensures ext'[r].base <= ext[i].base && M.Past(ext[i]) <= M.Past(ext'[r])
  {
    PageInside(ext, x, ext', r, pool, i, ext[i].base);
    PageInside(ext, x, ext', r, pool, i, M.Last(ext[i]));
  }

  lemma PageInside(ext: M.Extents, x: M.Id, ext': M.Extents, r: M.Id, pool: M.Pool, i: M.Id, q: int)
    requires M.TookIn(ext, x, ext', r, pool) && M.SamePages(ext, ext') && M.AllApart(ext)
    requires M.Part(ext, x, ext', r, i) && M.In(ext[i], q)
    ensures M.In(ext'[r], q)
  {
    assert M.Covered(ext, q) && M.Covered(ext', q);
    var j :| j in ext' && M.In(ext'[j], q);
    assert j == r;
  }

  /** What was inside one extent still is after a join, and a joined extent is none of those before. */
  lemma JoinedInside(ext: M.Extents, tree: M.Tree, x: M.Id, ext': M.Extents, r: M.Id, pool: M.Pool,
                     lru: seq<P.Extent>)
    requires M.TookIn(ext, x, ext', r, pool) && M.SamePages(ext, ext')
    requires M.AllApart(ext) && M.AllEdged(ext, tree) && AllInside(lru, ext)
    ensures AllInside(lru, ext')
    ensures ext'.Keys < ext.Keys ==> Bytes(ext'[r]) !in lru
  {
    forall i | M.Part(ext, x, ext', r, i)
      ensures ext[i].npages > 0 && ext'[r].base <= ext[i].base && M.Past(ext[i]) <= M.Past(ext'[r])
    {
      assert M.Edged(tree, i, ext[i]);
      PartInside(ext, x, ext', r, pool, i);
    }
    forall f | f in lru ensures f.size > 0 && Inside(f, ext') {
      var i :| i in ext && Holds(ext[i], f);
      var j := if M.Part(ext, x, ext', r, i) then r else i;
      assert j in ext' && Holds(ext'[j], f);
    }
    if ext'.Keys < ext.Keys && Bytes(ext'[r]) in lru {
      var i :| i in ext && Holds(ext[i], Bytes(ext'[r]));
      TwoParts(ext, tree, x, ext', r, i);
    }
  }

  lemma OneGone(before: set<M.Id>, after: set<M.Id>) returns (k: M.Id)
    requires after < before
    ensures k in before && k !in after
  {
    if forall i :: i in before ==> i in after {
      assert false;
    }
    k :| k in before && k !in after;
  }

  /** A joined extent has a part besides each extent. */
  lemma TwoParts(ext: M.Extents, tree: M.Tree, x: M.Id, ext': M.Extents, r: M.Id, i: M.Id)
    requires x in ext && ext'.Keys < ext.Keys && (r == x || x !in ext') && i in ext
    requires M.AllApart(ext) && M.AllEdged(ext, tree) && r in ext'
    requires forall k :: M.Part(ext, x, ext', r, k) ==>
               ext[k].npages > 0 && ext'[r].base <= ext[k].base && M.Past(ext[k]) <= M.Past(ext'[r])
    ensures !Holds(ext[i], Bytes(ext'[r]))
  {
    var gone := OneGone(ext.Keys, ext'.Keys);
    var other := if gone == x then r else x;
    assert M.Part(ext, x, ext', r, gone) && M.Part(ext, x, ext', r, other) && gone != other;
    var k := if i == gone then other else gone;
    assert M.Edged(tree, i, ext[i]) && M.Apart(ext[i], ext[k]);
  }

  lemma ListInside(ext: M.Extents, tree: M.Tree, lru: seq<P.Extent>, pool: M.Pool)
    requires Agree(ext, lru, pool) && M.AllEdged(ext, tree)
    ensures AllInside(lru, ext)
  {
    forall f | f in lru ensures f.size > 0 && Inside(f, ext) {
      var i :| M.Member(ext, i, pool) && Bytes(ext[i]) == f;
      assert M.Edged(tree, i, ext[i]) && Holds(ext[i], f);
    }
  }

  /** Both hold in front of every round of the loop. */
  ghost predicate Underway(first: seq<P.Extent>, lru: seq<P.Extent>, ext: M.Extents) {
    InOrder(first, lru) && AllInside(first, ext)
  }

  lemma StartsUnderway(ext: M.Extents, tree: M.Tree, lru: seq<P.Extent>, pool: M.Pool)
    requires Agree(ext, lru, pool) && M.AllEdged(ext, tree)
    ensures Underway(lru, lru, ext)
  {
    StartsInOrder(lru);
    ListInside(ext, tree, lru, pool);
  }

  lemma StartsInOrder(lru: seq<P.Extent>)
    ensures InOrder(lru, lru)
  {
    WithoutNone(lru, {});
    assert lru[0..] == lru && lru + [] == lru;
    assert Queued(lru, lru, 0, {}, []);
  }

  /** The loop of extents_evict: while the pool is above its limit its oldest extent is taken out, until
      one is found that is fully joined; a pool that does not delay coalescing stops at the oldest. */
  method TakeVictim(book: M.Book, p: P.Pool, pool: M.Pool, npagesMin: nat, hooks: M.Hooks,
                    ghost tab: seq<nat>, ghost pad: nat) returns (r: Option<M.Id>)
    requires M.Tiled(book.ext, book.tree, {}) && InSpace(book.ext) && !pool.state.Active?
    requires p.Valid() && p.Quantised(tab, pad) && Agree(book.ext, p.lru, pool)
    modifies book, p`lru, p`npages, p.heaps, p.bitmap
    ensures M.Tiled(book.ext, book.tree, {}) && p.Valid() && M.SamePages(old(book.ext), book.ext)
    ensures r.None? ==> Agree(book.ext, p.lru, pool) && (p.lru == [] || p.npages <= npagesMin)
    ensures r.Some? ==> M.Member(book.ext, r.value, pool) && Listed(book.ext, p.lru, pool, {r.value})
    ensures !pool.delay ==>
              && book.ext == old(book.ext) && (r.None? <==> old(p.lru) == [] || old(p.npages) <= npagesMin)
              && (r.None? ==> p.lru == old(p.lru))
              && (r.Some? ==> Bytes(book.ext[r.value]) == old(p.lru)[0] && p.lru == old(p.lru)[1..])
    ensures r.Some? && pool.delay && hooks.AlwaysSucceed? ==> M.Isolated(book.ext, r.value, pool)
    ensures r.Some? ==> InTurn(old(p.lru), Bytes(book.ext[r.value]), p.lru)
    ensures forall s: M.State ::
              !s.Active? && M.Coalesced(old(book.ext), s) && (s == pool.state ==> !pool.delay) ==>
                M.Coalesced(book.ext, s)
  {
    StartsUnderway(book.ext, book.tree, p.lru, pool);
    while true
      invariant Underway(old(p.lru), p.lru, book.ext)
      invariant M.Tiled(book.ext, book.tree, {}) && M.SamePages(old(book.ext), book.ext) && InSpace(book.ext)
      invariant p.Valid() && p.Quantised(tab, pad) && Agree(book.ext, p.lru, pool)
      invariant !pool.delay ==> book.ext == old(book.ext) && p.lru == old(p.lru) && p.npages == old(p.npages)
      invariant forall s: M.State ::
                  !s.Active? && M.Coalesced(old(book.ext), s) && (s == pool.state ==> !pool.delay) ==>
                    M.Coalesced(book.ext, s)
      decreases book.ext.Keys
    {
      if |p.lru| == 0 || p.npages <= npagesMin {
        return None;
      }
      if !pool.delay {
        var oldest := TakeOldest(book.ext, book.tree, p, pool);
        return Some(oldest);
      }
      var x, coalesced := JoinOldest(book, p, pool, hooks, tab, pad, old(p.lru));
      if !coalesced {
        return Some(x);
      }
    }
  }

  /** One round of the loop of a pool that delays coalescing: the first extent of the list is taken out,
      and if it takes a member in, the result goes to the end of the list. */
  method JoinOldest(book: M.Book, p: P.Pool, pool: M.Pool, hooks: M.Hooks, ghost tab: seq<nat>, ghost pad: nat,
                    ghost first: seq<P.Extent>) returns (x: M.Id, coalesced: bool)
    requires M.Tiled(book.ext, book.tree, {}) && InSpace(book.ext) && !pool.state.Active? && pool.delay
    requires p.Valid() && p.Quantised(tab, pad) && Agree(book.ext, p.lru, pool) && p.lru != []
    requires Underway(first, p.lru, book.ext)
    modifies book, p`lru, p`npages, p.heaps, p.bitmap
    ensures M.Tiled(book.ext, book.tree, {}) && M.SamePages(old(book.ext), book.ext) && InSpace(book.ext)
    ensures p.Valid() && M.Member(book.ext, x, pool)
    ensures coalesced ==> Agree(book.ext, p.lru, pool) && book.ext.Keys < old(book.ext).Keys
                          && Underway(first, p.lru, book.ext)
    ensures !coalesced ==> Listed(book.ext, p.lru, pool, {x}) && InTurn(first, Bytes(book.ext[x]), p.lru)
    ensures !coalesced && hooks.AlwaysSucceed? ==> M.Isolated(book.ext, x, pool)
    ensures forall s: M.State :: s != pool.state && !s.Active? && M.Coalesced(old(book.ext), s) ==>
                                 M.Coalesced(book.ext, s)
  {
    TurnOf(first, p.lru);
    x := TakeOldest(book.ext, book.tree, p, pool);
    ghost var ext1, tree1, x1, lru1 := book.ext, book.tree, x, p.lru;
    x, coalesced := TryDelayed(book, p, pool, x, hooks, tab, pad);
    if coalesced {
      JoinedInside(ext1, tree1, x1, book.ext, x, pool, first);
      TurnAfterJoin(first, lru1, BytesOf(ext1, TakenIn(ext1, x1, book.ext, x)), Bytes(book.ext[x]));
    }
  }

  /** extents_evict: the extent found leaves the map if retained, and becomes active otherwise. */
  method Evict(book: M.Book, p: P.Pool, pool: M.Pool, npagesMin: nat, hooks: M.Hooks,
               ghost tab: seq<nat>, ghost pad: nat) returns (r: Option<M.Id>, e: Option<M.Extent>)
    requires M.Tiled(book.ext, book.tree, {}) && InSpace(book.ext) && !pool.state.Active?
    requires p.Valid() && p.Quantised(tab, pad) && Agree(book.ext, p.lru, pool)
    modifies book, p`lru, p`npages, p.heaps, p.bitmap
    ensures M.Tiled(book.ext, book.tree, {}) && p.Valid() && Agree(book.ext, p.lru, pool)
    ensures r.None? ==> M.SamePages(old(book.ext), book.ext) && (p.lru == [] || p.npages <= npagesMin)
    ensures r.Some? ==> e.Some? && M.SamePages(old(book.ext), book.ext[r.value := e.value])
    ensures !pool.delay ==>
              if old(p.lru) == [] || old(p.npages) <= npagesMin
              then r.None? && book.ext == old(book.ext) && p.lru == old(p.lru)
              else r.Some? && Bytes(e.value) == old(p.lru)[0] && p.lru == old(p.lru)[1..]
    ensures r.Some? && pool.delay && hooks.AlwaysSucceed? && !pool.state.Retained? ==>
              r.value in book.ext && M.Isolated(book.ext, r.value, pool)
    ensures r.Some? ==> InTurn(old(p.lru), Bytes(e.value), p.lru)
    ensures forall s: M.State ::
              !s.Active? && M.Coalesced(old(book.ext), s) && (s == pool.state ==> !pool.delay) ==>
                M.Coalesced(book.ext, s)
  {
    r := TakeVictim(book, p, pool, npagesMin, hooks, tab, pad);
    if r.None? {
      return r, None;
    }
    var out := HandOut(book, p, pool, r.value);
    e := Some(out);
  }

  /** extent_try_delayed_coalesce of an extent just taken out of the pool: if it took a member in, the
      result goes back into the pool. */
  method TryDelayed(book: M.Book, p: P.Pool, pool: M.Pool, x: M.Id, hooks: M.Hooks,
                    ghost tab: seq<nat>, ghost pad: nat) returns (r: M.Id, coalesced: bool)
    requires M.Tiled(book.ext, book.tree, {}) && InSpace(book.ext) && !pool.state.Active? && pool.delay
    requires M.Member(book.ext, x, pool) && Listed(book.ext, p.lru, pool, {x})
    requires p.Valid() && p.Quantised(tab, pad)
    modifies book, p`lru, p`npages, p.heaps, p.bitmap
    ensures M.Tiled(book.ext, book.tree, {}) && M.SamePages(old(book.ext), book.ext) && InSpace(book.ext)
    ensures p.Valid() && M.Member(book.ext, r, pool)
    ensures coalesced ==> Agree(book.ext, p.lru, pool) && book.ext.Keys < old(book.ext).Keys
    ensures coalesced ==> Requeued(old(book.ext), x, book.ext, r, old(p.lru), p.lru)
                          && M.TookIn(old(book.ext), x, book.ext, r, pool)
    ensures !coalesced ==> r == x && book.ext == old(book.ext) && p.lru == old(p.lru)
                           && Listed(book.ext, p.lru, pool, {x})
    ensures !coalesced && hooks.AlwaysSucceed? ==> M.Isolated(book.ext, r, pool)
    ensures forall s: M.State :: s != pool.state && !s.Active? && M.Coalesced(old(book.ext), s) ==>
                                 M.Coalesced(book.ext, s)
  {
    var before := book.ext;
    ghost var tree := book.tree;
    r, coalesced := book.TryDelayed(x, pool, hooks);
    StaysInSpace(before, book.ext, book.tree);
    if coalesced {
      Reconcile(before, tree, x, book.ext, book.tree, r, p, pool, tab, pad);
    }
  }

  /** The first extent of the list leaves the pool. */
  method TakeOldest(ext: M.Extents, ghost tree: M.Tree, p: P.Pool, pool: M.Pool) returns (x: M.Id)
    requires M.AllEdged(ext, tree) && M.AllApart(ext) && p.Valid() && Agree(ext, p.lru, pool) && p.lru != []
    modifies p`lru, p`npages, p.heaps, p.bitmap
    ensures p.Valid() && M.Member(ext, x, pool) && Listed(ext, p.lru, pool, {x})
    ensures Bytes(ext[x]) == old(p.lru)[0] && p.lru == old(p.lru)[1..]
    ensures InTurn(old(p.lru), Bytes(ext[x]), p.lru)
  {
    StartsInOrder(p.lru);
    TurnOf(p.lru, p.lru);
    var first := p.lru[0];
    assert first in p.lru;
    var i :| i in ext && M.Member(ext, i, pool) && Bytes(ext[i]) == first;
    x := i;
    ghost var before := p.lru;
    p.Remove(first);
    OneTakenOff(ext, tree, before, p.lru, pool, {}, x);
    assert {} + {x} == {x};
  }

  /** The end of extents_evict, for an extent that has left the pool. */
  method HandOut(book: M.Book, ghost p: P.Pool, pool: M.Pool, x: M.Id) returns (e: M.Extent)
    requires M.Tiled(book.ext, book.tree, {}) && !pool.state.Active? && M.Member(book.ext, x, pool)
    requires p.Valid() && Listed(book.ext, p.lru, pool, {x})
    modifies book
    ensures M.Tiled(book.ext, book.tree, {}) && Agree(book.ext, p.lru, pool)
    ensures p.Valid() && p.lru == old(p.lru)
    ensures M.SamePages(old(book.ext), book.ext[x := e]) && Bytes(e) == Bytes(old(book.ext)[x])
    ensures !pool.state.Retained? ==> x in book.ext
    ensures !pool.state.Retained? && M.Isolated(old(book.ext), x, pool) ==> M.Isolated(book.ext, x, pool)
    ensures forall s: M.State :: !s.Active? && M.Coalesced(old(book.ext), s) ==> M.Coalesced(book.ext, s)
  {
    ghost var last := book.ext;
    e := book.HandOut(x, pool);
    OutListed(last, book.ext, p.lru, pool, x);
  }

  /** An extent handed out is no member of the pool. */
  lemma OutListed(ext: M.Extents, ext': M.Extents, lru: seq<P.Extent>, pool: M.Pool, x: M.Id)
    requires Listed(ext, lru, pool, {x}) && ext' - {x} == ext - {x} && !M.Member(ext', x, pool)
    ensures Agree(ext', lru, pool)
  {
    forall i | i !in {} && M.Member(ext', i, pool) ensures Bytes(ext'[i]) in lru {
      assert i in ext' - {x} && (ext' - {x})[i] == ext'[i];
    }
    forall e | e in lru ensures exists i :: i !in {} && M.Member(ext', i, pool) && Bytes(ext'[i]) == e {
      var i :| i !in {x} && M.Member(ext, i, pool) && Bytes(ext[i]) == e;
      assert i in ext - {x} && (ext - {x})[i] == ext[i];
    }
  }
}
