/**
 A pool of free extents (extents_t): size-class heaps, the bitmap of empty heaps, the LRU list and
 the page count, with the quantisation of sizes into heaps and the three ways to pick an extent.
 Sizes and addresses are bytes.  `tab` is the table of page size classes; its last entry is the
 one-past-the-end value the source stores after the largest class.  `pad` is sz_large_pad.
 */
module ExtentPool {
  import opened Common

  const PAGE: nat := 4096

  datatype Extent = Extent(base: nat, size: nat, sn: nat)

  // ------------------------------------------------------------------ size classes

  /** Page multiples, strictly increasing from one page; the last one is a page past the largest. */
  ghost predicate TableOk(tab: seq<nat>, pad: nat) {
    && |tab| >= 2 && tab[0] == PAGE && (pad == 0 || pad == PAGE)
    && (forall i :: 0 <= i < |tab| ==> tab[i] % PAGE == 0)
    && (forall i, j :: 0 <= i < j < |tab| ==> tab[i] < tab[j])
    && tab[|tab| - 1] == tab[|tab| - 2] + PAGE
  }

  function Largest(tab: seq<nat>): nat
    requires |tab| >= 2
  {
    tab[|tab| - 2]
  }

  /** sz_psz2ind: the least class at or above psz; the extra index for anything beyond them. */
  function Psz2Ind(tab: seq<nat>, psz: nat): (i: nat)
    requires |tab| >= 2
    ensures i < |tab|
    ensures i < |tab| - 1 ==> psz <= tab[i]
    ensures forall j :: 0 <= j < i ==> tab[j] < psz
  {
    FirstAtLeast(tab, psz, 0)
  }

  function FirstAtLeast(tab: seq<nat>, psz: nat, from: nat): (i: nat)
    requires |tab| >= 2 && from < |tab|
    ensures from <= i < |tab|
    ensures i < |tab| - 1 ==> psz <= tab[i]
    ensures forall j :: from <= j < i ==> tab[j] < psz
    decreases |tab| - from
  {
    if from == |tab| - 1 || psz <= tab[from] then from else FirstAtLeast(tab, psz, from + 1)
  }

  /** extent_size_quantize_floor */
  function Floor(tab: seq<nat>, pad: nat, size: nat): nat
    requires |tab| >= 2 && pad <= size
  {
    var pind := Psz2Ind(tab, size - pad + 1);
    if pind == 0 then size else tab[pind - 1] + pad
  }

  /** extent_size_quantize_ceil */
  function Ceil(tab: seq<nat>, pad: nat, size: nat): nat
    requires |tab| >= 2 && pad <= size && TableOk(tab, pad)
  {
    var ret := Floor(tab, pad, size);
    if ret < size then tab[Psz2Ind(tab, ret - pad + 1)] + pad else ret
  }

  /** A size that the source may quantise: whole pages, at least one, not less than the pad. */
  predicate Pages(size: nat) { size > 0 && size % PAGE == 0 }

  /** The heap an extent of this size goes to. */
  function Bin(tab: seq<nat>, pad: nat, size: nat): (i: nat)
    requires |tab| >= 2 && pad <= size
    ensures i < |tab|
  {
    Psz2Ind(tab, Floor(tab, pad, size))
  }

  /** The first heap searched for a request of this size. */
  function SearchFrom(tab: seq<nat>, pad: nat, size: nat): (i: nat)
    requires |tab| >= 2 && pad <= size && TableOk(tab, pad)
    ensures i < |tab|
  {
    Psz2Ind(tab, Ceil(tab, pad, size))
  }

  lemma FloorIsClass(tab: seq<nat>, pad: nat, size: nat)
    requires TableOk(tab, pad) && Pages(size) && pad <= size
    ensures var f, p := Floor(tab, pad, size), Psz2Ind(tab, size - pad + 1);
      f <= size && (p == 0 ==> size == PAGE == pad) && (p > 0 ==> f == tab[p - 1] + pad)
  {
  }

  lemma CeilIsClass(tab: seq<nat>, pad: nat, size: nat)
    requires TableOk(tab, pad) && Pages(size) && pad <= size && size - pad <= Largest(tab)
    ensures var c := Ceil(tab, pad, size);
      size <= c && ((c == PAGE == pad) || exists q :: 0 <= q < |tab| - 1 && c == tab[q] + pad)
  {
    FloorIsClass(tab, pad, size);
    var f := Floor(tab, pad, size);
    var p := Psz2Ind(tab, size - pad + 1);
    if f < size {
      assert f == tab[p - 1] + pad;
      var q := Psz2Ind(tab, f - pad + 1);
      assert q == p;
      assert p < |tab| - 1;
    } else if p > 0 {
      assert f == tab[p - 1] + pad;
    }
  }

  /** Where a class value lands: pad 0 keeps the class index, a page of pad moves it up by one. */
  lemma ClassIndex(tab: seq<nat>, pad: nat, q: nat)
    requires TableOk(tab, pad) && q < |tab| - 1
    ensures Psz2Ind(tab, tab[q] + pad) == if pad == 0 then q else q + 1
  {
    assert tab[q] % PAGE == 0 && tab[q + 1] % PAGE == 0;
    assert tab[q + 1] >= tab[q] + PAGE;
  }

  /** Class q fits into the size exactly when it is below the size's floor index. */
  lemma ClassFits(tab: seq<nat>, pad: nat, size: nat, q: nat)
    requires TableOk(tab, pad) && pad <= size && q < |tab| - 1
    ensures tab[q] + pad <= size <==> q < Psz2Ind(tab, size - pad + 1)
  {
    var p := Psz2Ind(tab, size - pad + 1);
    if q >= p {
      assert size - pad + 1 <= tab[p] <= tab[q];
    }
  }

  lemma BinOf(tab: seq<nat>, pad: nat, size: nat)
    requires TableOk(tab, pad) && Pages(size) && pad <= size
    ensures var p := Psz2Ind(tab, size - pad + 1);
      Bin(tab, pad, size) == if pad == 0 then p - 1 else p
  {
    FloorIsClass(tab, pad, size);
    var p := Psz2Ind(tab, size - pad + 1);
    if p > 0 {
      ClassIndex(tab, pad, p - 1);
    }
  }

  /** Quantising down on insertion and up on lookup is exact: the heaps from SearchFrom(r) on hold
      precisely the extents of at least Ceil(r) bytes, so every one of them is big enough. */
  lemma BinsAreExact(tab: seq<nat>, pad: nat, size: nat, request: nat)
    requires TableOk(tab, pad) && Pages(size) && Pages(request) && pad <= size && pad <= request
    requires request - pad <= Largest(tab)
    ensures Bin(tab, pad, size) >= SearchFrom(tab, pad, request) <==> size >= Ceil(tab, pad, request)
    ensures Bin(tab, pad, size) >= SearchFrom(tab, pad, request) ==> size >= request
  {
    BinOf(tab, pad, size);
    CeilIsClass(tab, pad, request);
    var c := Ceil(tab, pad, request);
    if !(c == PAGE == pad) {
      var q :| 0 <= q < |tab| - 1 && c == tab[q] + pad;
      ClassIndex(tab, pad, q);
      ClassFits(tab, pad, size, q);
    }
  }

  // ------------------------------------------------------------------ alignment

  /** ALIGNMENT_CEILING, before truncation to the address width. */
  function AlignUp(x: nat, a: nat): nat
    requires a > 0
  {
    (x + a - 1) / a * a
  }

  function PageCeil(a: nat): nat { AlignUp(a, PAGE) }

  /** The extent holds esize bytes starting at its first aligned address: what
      extent_split_interior needs in order not to report cant_alloc. */
  predicate FitsAligned(e: Extent, esize: nat, alignment: nat)
    requires alignment > 0
  {
    PageCeil(alignment) > 0
    && AlignUp(e.base, PageCeil(alignment)) - e.base + esize <= e.size
  }

  /** What the alignment search accepts: an extent that ends at the top of the address space has an
      end address that wraps to zero, and is passed over. */
  predicate Accepted(e: Extent, esize: nat, alignment: nat)
    requires alignment > 0
  {
    FitsAligned(e, esize, alignment) && e.base + e.size < RANGE
  }

  lemma PageCeilIsPages(alignment: nat)
    requires alignment > 0
    ensures Pages(PageCeil(alignment)) && PageCeil(alignment) >= alignment
  {
  }

  function Shift(x: nat, lg: nat): nat {
    if lg == 0 then x else Shift(x / 2, lg - 1)
  }

  lemma Lead(base: nat, a: nat)
    requires base % PAGE == 0 && Pages(a)
    ensures base <= AlignUp(base, a) <= base + a - PAGE
  {
    var q := (base + a - 1) / a;
    var up := q * a;
    assert base + a - 1 == up + (base + a - 1) % a;
    WholePages(q, a);
    assert up - base < a;
  }

  lemma WholePages(q: nat, a: nat)
    requires a % PAGE == 0
    ensures (q * a) % PAGE == 0
  {
    var k := a / PAGE;
    assert a == k * PAGE;
    assert q * a == (q * k) * PAGE;
    MultipleMod(q * k, PAGE);
  }

  // ------------------------------------------------------------------ the pool

  /** extent_snad_comp: serial number first, then address. */
  predicate Before(a: Extent, b: Extent) { a.sn < b.sn || (a.sn == b.sn && a.base < b.base) }

  ghost function PageSum(s: seq<Extent>): nat {
    if s == [] then 0 else PageSum(s[..|s| - 1]) + s[|s| - 1].size / PAGE
  }

  lemma {:induction false} PageSumRemove(s: seq<Extent>, k: nat)
    requires k < |s|
    ensures PageSum(s[..k] + s[k + 1..]) == PageSum(s) - s[k].size / PAGE
  {
    var last := |s| - 1;
    if k == last {
      assert s[..k] + s[k + 1..] == s[..last];
    } else {
      var t := s[..last];
      PageSumRemove(t, k);
      assert (s[..k] + s[k + 1..])[..last - 1] == t[..k] + t[k + 1..];
      assert (s[..k] + s[k + 1..])[last - 1] == s[last];
    }
  }

  /** A non-empty heap has a first extent. */
  lemma {:induction false} HeapHasFirst(heap: set<Extent>)
    requires heap != {}
    ensures exists e :: e in heap && forall f :: f in heap ==> !Before(f, e)
  {
    var x :| x in heap;
    var rest := heap - {x};
    if rest == {} {
      assert heap == {x};
      assert forall f :: f in heap ==> !Before(f, x);
    } else {
      HeapHasFirst(rest);
      var e :| e in rest && forall f :: f in rest ==> !Before(f, e);
      var best := if Before(x, e) then x else e;
      forall f | f in heap ensures !Before(f, best) {
        assert f == x || f in rest;
        assert !Before(x, x);
      }
      assert best in heap;
    }
  }

  // ------------------------------------------------------------------ the choice, over the list

  /** The size that is large enough wherever the extent starts. */
  function MaxSize(esize: nat, alignment: nat): (m: nat)
    requires alignment > 0
    ensures m >= esize && m == esize + PageCeil(alignment) - PAGE
  {
    PageCeilIsPages(alignment);
    esize + PageCeil(alignment) - PAGE
  }

  /** The oldest, then lowest, of the listed extents of its size class. */
  ghost predicate FirstOfClass(lru: seq<Extent>, e: Extent, tab: seq<nat>, pad: nat)
    requires |tab| >= 2
  {
    && e in lru && pad <= e.size
    && forall f :: f in lru && pad <= f.size && Bin(tab, pad, f.size) == Bin(tab, pad, e.size) ==> !Before(f, e)
  }

  /** A class that a pool with delayed coalescing does not split for so small a request. */
  predicate Fragments(size: nat, m: nat, delay: bool, tab: seq<nat>, pad: nat, lgMaxActiveFit: nat)
    requires |tab| >= 2
  {
    delay && pad <= size && Shift(tab[Bin(tab, pad, size)], lgMaxActiveFit) > m
  }

  /** No listed extent has the rounded padded size, but for those too large to be split. */
  ghost predicate NoneLarge(lru: seq<Extent>, m: nat, delay: bool, tab: seq<nat>, pad: nat, lgMaxActiveFit: nat)
    requires TableOk(tab, pad) && pad <= m
  {
    forall e :: e in lru && e.size >= Ceil(tab, pad, m) ==> Fragments(e.size, m, delay, tab, pad, lgMaxActiveFit)
  }

  /** An extent below the padded size that the alignment search tries and accepts. */
  ghost predicate Candidate(lru: seq<Extent>, e: Extent, esize: nat, alignment: nat, tab: seq<nat>, pad: nat)
    requires TableOk(tab, pad) && pad <= esize && alignment > 0
  {
    && FirstOfClass(lru, e, tab, pad) && Accepted(e, esize, alignment)
    && Ceil(tab, pad, esize) <= e.size < Ceil(tab, pad, MaxSize(esize, alignment))
  }

  /** The requests that find nothing. */
  ghost predicate Refused(lru: seq<Extent>, esize: nat, alignment: nat, delay: bool, tab: seq<nat>, pad: nat,
                          lgMaxActiveFit: nat)
    requires TableOk(tab, pad) && pad <= esize && alignment > 0
  {
    var m := MaxSize(esize, alignment);
    || m >= RANGE
    || (&& NoneLarge(lru, m, delay, tab, pad, lgMaxActiveFit)
        && (alignment > PAGE ==> forall e :: !Candidate(lru, e, esize, alignment, tab, pad)))
  }

  /** The one extent that answers the request: of those of the padded size, rounded up to a class, the
      oldest, then lowest, or with delayed coalescing the first of the lowest class; if there is none,
      the candidate of the lowest class. */
  ghost predicate Chosen(lru: seq<Extent>, e: Extent, esize: nat, alignment: nat, delay: bool, tab: seq<nat>,
                         pad: nat, lgMaxActiveFit: nat)
    requires TableOk(tab, pad) && pad <= esize && alignment > 0
  {
    var m := MaxSize(esize, alignment);
    && m < RANGE && e in lru && pad <= e.size
    && if e.size < Ceil(tab, pad, m) then
         && NoneLarge(lru, m, delay, tab, pad, lgMaxActiveFit)
         && alignment > PAGE && Candidate(lru, e, esize, alignment, tab, pad)
         && forall f :: Candidate(lru, f, esize, alignment, tab, pad) ==>
                          Bin(tab, pad, e.size) <= Bin(tab, pad, f.size)
       else if delay then
         && FirstOfClass(lru, e, tab, pad) && !Fragments(e.size, m, delay, tab, pad, lgMaxActiveFit)
         && forall f :: f in lru && f.size >= Ceil(tab, pad, m) && pad <= f.size ==>
                          Bin(tab, pad, e.size) <= Bin(tab, pad, f.size)
       else
         forall f :: f in lru && f.size >= Ceil(tab, pad, m) ==> !Before(f, e)
  }

  /** Nothing is chosen where the request is refused. */
  lemma ChosenIsServed(lru: seq<Extent>, e: Extent, esize: nat, alignment: nat, delay: bool, tab: seq<nat>,
                       pad: nat, lgMaxActiveFit: nat)
    requires TableOk(tab, pad) && pad <= esize && alignment > 0
    requires Chosen(lru, e, esize, alignment, delay, tab, pad, lgMaxActiveFit)
    ensures !Refused(lru, esize, alignment, delay, tab, pad, lgMaxActiveFit)
  {
  }

  /** No two extents are chosen. */
  lemma ChosenIsOne(lru: seq<Extent>, e: Extent, f: Extent, esize: nat, alignment: nat, delay: bool, tab: seq<nat>,
                    pad: nat, lgMaxActiveFit: nat)
    requires TableOk(tab, pad) && pad <= esize && alignment > 0
    requires Chosen(lru, e, esize, alignment, delay, tab, pad, lgMaxActiveFit)
    requires Chosen(lru, f, esize, alignment, delay, tab, pad, lgMaxActiveFit)
    ensures f.sn == e.sn && f.base == e.base
  {
  }

  lemma {:induction false} ShiftGrows(x: nat, y: nat, lg: nat)
    requires x <= y
    ensures Shift(x, lg) <= Shift(y, lg)
    decreases lg
  {
    if lg > 0 {
      ShiftGrows(x / 2, y / 2, lg - 1);
    }
  }

  /** The four views of one set of extents.  `bin` says which heap a size belongs to. */
  class Pool {
    const nheaps: nat
    const bin: nat -> nat
    var heaps: array<set<Extent>>
    var bitmap: array<bool>        // true: the heap is empty
    var lru: seq<Extent>
    var npages: nat

    predicate ExtentOk(e: Extent) {
      Pages(e.size) && e.base % PAGE == 0 && e.base + e.size <= RANGE && bin(e.size) < nheaps
    }

    ghost predicate HeapsOk()
      reads this, heaps
    {
      heaps.Length == nheaps
      && forall i, e :: 0 <= i < nheaps ==> (e in heaps[i] <==> e in lru && bin(e.size) == i)
    }

    ghost predicate BitmapOk()
      reads this, heaps, bitmap
    {
      heaps.Length == bitmap.Length == nheaps
      && forall i :: 0 <= i < nheaps ==> (bitmap[i] <==> heaps[i] == {})
    }

    /** Extents of a pool are different ranges, so no two start at the same address. */
    static ghost predicate Distinct(s: seq<Extent>) {
      forall i, j :: 0 <= i < j < |s| ==> s[i].base != s[j].base
    }

    /** Heaps, bitmap, LRU list and page count describe one and the same set of extents. */
    ghost predicate Valid()
      reads this, heaps, bitmap
    {
      && (forall e :: e in lru ==> ExtentOk(e))
      && Distinct(lru)
      && HeapsOk() && BitmapOk()
      && npages == PageSum(lru)
    }

    constructor (nheaps: nat, bin: nat -> nat)
      ensures Valid() && lru == [] && fresh(heaps) && fresh(bitmap)
      ensures this.nheaps == nheaps && this.bin == bin
    {
      this.nheaps, this.bin := nheaps, bin;
      heaps := new set<Extent>[nheaps](_ => {});
      bitmap := new bool[nheaps](_ => true);
      lru, npages := [], 0;
    }

    /** extents_insert_locked */
    method Insert(e: Extent)
      requires Valid() && ExtentOk(e) && forall f :: f in lru ==> f.base != e.base
      modifies this`lru, this`npages, heaps, bitmap
      ensures Valid() && lru == old(lru) + [e]
    {
      HeapInsert(e);
      ListAppend(lru, e);
      lru := lru + [e];
      npages := npages + e.size / PAGE;
    }

    static lemma ListAppend(s: seq<Extent>, e: Extent)
      requires Distinct(s) && forall f :: f in s ==> f.base != e.base
      ensures Distinct(s + [e]) && PageSum(s + [e]) == PageSum(s) + e.size / PAGE
      ensures forall f :: f in s + [e] <==> f in s || f == e
    {
      assert (s + [e])[..|s + [e]| - 1] == s;
    }

    method HeapInsert(e: Extent)
      requires HeapsOk() && BitmapOk() && bin(e.size) < nheaps
      modifies heaps, bitmap
      ensures BitmapOk()
      ensures forall i, f :: 0 <= i < nheaps ==>
                (f in heaps[i] <==> (f in lru || f == e) && bin(f.size) == i)
    {
      var pind := bin(e.size);
      if heaps[pind] == {} {
        bitmap[pind] := false;
      }
      heaps[pind] := heaps[pind] + {e};
    }

    /** extents_remove_locked */
    method Remove(e: Extent)
      requires Valid() && e in lru
      modifies this`lru, this`npages, heaps, bitmap
      ensures Valid()
      ensures exists k :: 0 <= k < |old(lru)| && old(lru)[k] == e
                          && lru == old(lru)[..k] + old(lru)[k + 1..]
      ensures forall f :: f in lru <==> f in old(lru) && f != e
    {
      var k :| 0 <= k < |lru| && lru[k] == e;
      PageSumRemove(lru, k);
      ListRemove(lru, k);
      HeapRemove(e);
      lru := lru[..k] + lru[k + 1..];
      npages := npages - e.size / PAGE;
      assert HeapsOk();
    }

    method HeapRemove(e: Extent)
      requires HeapsOk() && BitmapOk() && e in lru && bin(e.size) < nheaps
      modifies heaps, bitmap
      ensures BitmapOk()
      ensures forall i, f :: 0 <= i < nheaps ==>
                (f in heaps[i] <==> f in lru && f != e && bin(f.size) == i)
    {
      var pind := bin(e.size);
      heaps[pind] := heaps[pind] - {e};
      if heaps[pind] == {} {
        bitmap[pind] := true;
      }
    }

    static lemma ListRemove(s: seq<Extent>, k: nat)
      requires k < |s| && Distinct(s)
      ensures var r := s[..k] + s[k + 1..];
        && (forall f :: f in r <==> f in s && f != s[k])
        && Distinct(r)
    {
      var r := s[..k] + s[k + 1..];
      assert forall i :: 0 <= i < |r| ==> r[i] == s[if i < k then i else i + 1];
      forall f | f in s && f != s[k] ensures f in r {
        var m :| 0 <= m < |s| && s[m] == f;
        assert r[if m < k then m else m - 1] == f;
      }
    }

    /** bitmap_ffu: the first non-empty heap at or after i; the number of heaps if there is none. */
    method FirstUnset(i: nat) returns (r: nat)
      requires i <= bitmap.Length
      ensures i <= r <= bitmap.Length && (r < bitmap.Length ==> !bitmap[r])
      ensures forall j :: i <= j < r ==> bitmap[j]
    {
      r := i;
      while r < bitmap.Length && bitmap[r]
        invariant i <= r <= bitmap.Length && forall j :: i <= j < r ==> bitmap[j]
      {
        r := r + 1;
      }
    }

    method HeapFirst(i: nat) returns (e: Extent)
      requires Valid() && i < nheaps && !bitmap[i]
      ensures e in lru && bin(e.size) == i
      ensures forall f :: f in lru && bin(f.size) == i ==> !Before(f, e)
    {
      HeapHasFirst(heaps[i]);
      e :| e in heaps[i] && forall f :: f in heaps[i] ==> !Before(f, e);
    }

    /** No extent lives in the heaps i to j-1. */
    ghost predicate NoneIn(i: nat, j: nat)
      reads this
    {
      forall e :: e in lru ==> !(i <= bin(e.size) < j)
    }

    /** The search the three fits share: the next non-empty heap. */
    method NextHeap(i: nat) returns (r: nat)
      requires Valid() && i <= nheaps
      ensures i <= r <= nheaps && (r < nheaps ==> !bitmap[r]) && NoneIn(i, r)
    {
      r := FirstUnset(i);
      forall e | e in lru ensures !(i <= bin(e.size) < r) {
        assert e in heaps[bin(e.size)];
      }
    }

    /** extents_first_fit_locked: the oldest, then lowest, extent of all heaps from pind on. */
    method FirstFit(pind: nat) returns (ret: Option<Extent>)
      requires Valid() && pind < nheaps
      ensures ret.None? <==> NoneIn(pind, nheaps)
      ensures ret.Some? ==> ret.value in lru && bin(ret.value.size) >= pind
      ensures ret.Some? ==>
                forall e :: e in lru && bin(e.size) >= pind ==> !Before(e, ret.value)
    {
      ret := None;
      var i := NextHeap(pind);
      while i < nheaps
        invariant pind <= i <= nheaps && (i < nheaps ==> !bitmap[i])
        invariant ret.Some? ==> ret.value in lru && bin(ret.value.size) >= pind
        invariant forall e :: e in lru && pind <= bin(e.size) < i ==>
                    ret.Some? && !Before(e, ret.value)
      {
        var e := HeapFirst(i);
        if ret.None? || Before(e, ret.value) {
          ret := Some(e);
        }
        if i == nheaps - 1 {
          break;
        }
        i := NextHeap(i + 1);
      }
    }

    /** The extent its heap would yield first. */
    ghost predicate First(e: Extent)
      reads this
    {
      e in lru && forall f :: f in lru && bin(f.size) == bin(e.size) ==> !Before(f, e)
    }

    /** The extent that best fit picks: first of the lowest heap in use from pind on. */
    ghost predicate Lowest(e: Extent, pind: nat)
      reads this
    {
      First(e) && bin(e.size) >= pind && NoneIn(pind, bin(e.size))
    }

    /** Splitting an extent of heap i for so small a request would fragment it. */
    predicate TooLarge(i: nat, size: nat, sizes: seq<nat>, lgMaxActiveFit: nat) {
      i < |sizes| && Shift(sizes[i], lgMaxActiveFit) > size
    }

    /** extents_best_fit_locked: the first extent of the lowest non-empty heap from pind on, unless
        its class `sizes[i]` is too large for the request. */
    method BestFit(pind: nat, size: nat, sizes: seq<nat>, lgMaxActiveFit: nat)
      returns (ret: Option<Extent>)
      requires Valid() && pind < nheaps == |sizes|
      ensures ret.Some? ==> Lowest(ret.value, pind)
                            && !TooLarge(bin(ret.value.size), size, sizes, lgMaxActiveFit)
      ensures ret.None? ==>
                (NoneIn(pind, nheaps)
                 || exists e :: Lowest(e, pind) && TooLarge(bin(e.size), size, sizes, lgMaxActiveFit))
    {
      var i := NextHeap(pind);
      if i < nheaps {
        var e := HeapFirst(i);
        if Shift(sizes[i], lgMaxActiveFit) > size {
          assert Lowest(e, pind) && TooLarge(bin(e.size), size, sizes, lgMaxActiveFit);
          return None;
        }
        return Some(e);
      }
      return None;
    }

    /** The test of one candidate; the next aligned address and the end wrap at the address width. */
    method HoldsAligned(e: Extent, minSize: nat, alignment: nat) returns (fits: bool)
      requires ExtentOk(e) && alignment > 0 && minSize > 0 && PageCeil(alignment) <= RANGE
      ensures fits <==> Accepted(e, minSize, alignment)
    {
      PageCeilIsPages(alignment);
      var up := AlignUp(e.base, PageCeil(alignment));
      var nextAlign := up % RANGE;
      Lead(e.base, PageCeil(alignment));
      if e.base > nextAlign || (e.base + e.size) % RANGE <= nextAlign {
        return false;
      }
      var leadsize := nextAlign - e.base;
      return e.size - leadsize >= minSize;
    }

    /** extents_fit_alignment: for each heap below pindMax, try only the first extent. */
    method FitAlignment(pind: nat, pindMax: nat, minSize: nat, alignment: nat)
      returns (ret: Option<Extent>)
      requires Valid() && pind < nheaps && pindMax < nheaps && alignment > 0 && minSize > 0
      requires PageCeil(alignment) <= RANGE
      ensures ret.Some? ==> First(ret.value) && pind <= bin(ret.value.size) < pindMax
                            && Accepted(ret.value, minSize, alignment)
                            && forall e :: First(e) && pind <= bin(e.size) < bin(ret.value.size) ==>
                                             !Accepted(e, minSize, alignment)
      ensures ret.None? ==> forall e :: First(e) && pind <= bin(e.size) < pindMax ==>
                                        !Accepted(e, minSize, alignment)
    {
      PageCeilIsPages(alignment);
      var i := NextHeap(pind);
      while i < pindMax
        invariant pind <= i <= nheaps && (i < nheaps ==> !bitmap[i])
        invariant forall e :: First(e) && pind <= bin(e.size) < i ==>
                              !Accepted(e, minSize, alignment)
        decreases nheaps - i
      {
        var e := HeapFirst(i);
        var fits := HoldsAligned(e, minSize, alignment);
        if fits {
          return Some(e);
        }
        forall f | First(f) && bin(f.size) == i ensures f == e {
          assert !Before(f, e) && !Before(e, f);
          SameExtent(e, f);
        }
        i := NextHeap(i + 1);
      }
      return None;
    }

    /** One address, one extent: the order of a heap has no ties. */
    lemma SameExtent(e: Extent, f: Extent)
      requires Valid() && e in lru && f in lru && e.base == f.base
      ensures e == f
    {
    }

    /** The heaps are the quantised ones of a size class table. */
    ghost predicate Quantised(tab: seq<nat>, pad: nat) {
      TableOk(tab, pad) && nheaps == |tab|
      && forall s: nat :: pad <= s ==> BinAgrees(tab, pad, s)
    }

    ghost predicate BinAgrees(tab: seq<nat>, pad: nat, s: nat)
      requires TableOk(tab, pad) && pad <= s
    {
      bin(s) == Bin(tab, pad, s)
    }

    /** What a pool without delayed coalescing chooses from: every extent at least as large as the
        padded request rounded up to a class. */
    ghost predicate Eligible(e: Extent, least: nat)
      reads this
    {
      e in lru && e.size >= least
    }

    /** The heaps from pind on are those of the extents of at least `least` bytes. */
    ghost predicate HeapsFrom(pind: nat, least: nat)
      reads this
    {
      forall e :: e in lru ==> (bin(e.size) >= pind <==> e.size >= least)
    }

    /** Every heap from pind on is empty, or the lowest in use is of a class too large. */
    ghost predicate PassedOver(pind: nat, size: nat, sizes: seq<nat>, lgMaxActiveFit: nat)
      reads this
    {
      NoneIn(pind, nheaps) || exists e :: Lowest(e, pind) && TooLarge(bin(e.size), size, sizes, lgMaxActiveFit)
    }

    /** The extent that the alignment search takes: the first of its heap, and no lower heap will do. */
    ghost predicate Aligned(e: Extent, pind: nat, pindMax: nat, esize: nat, alignment: nat)
      requires alignment > 0
      reads this
    {
      && First(e) && pind <= bin(e.size) < pindMax && Accepted(e, esize, alignment)
      && forall f :: First(f) && pind <= bin(f.size) < bin(e.size) ==> !Accepted(f, esize, alignment)
    }

    /** Nothing of at least `least` bytes is left to choose. */
    ghost predicate NoneEligible(maxSize: nat, pindMax: nat, tab: seq<nat>, delay: bool, lgMaxActiveFit: nat,
                                 least: nat)
      reads this
    {
      if delay then PassedOver(pindMax, maxSize, tab, lgMaxActiveFit) else forall e :: !Eligible(e, least)
    }

    /** What the choice says of the extent it takes, heap by heap. */
    ghost predicate Taken(e: Extent, esize: nat, alignment: nat, maxSize: nat, pind: nat, pindMax: nat,
                          tab: seq<nat>, delay: bool, lgMaxActiveFit: nat, least: nat)
      requires alignment > 0
      reads this
    {
      if !Eligible(e, least) then
        && alignment > PAGE && Aligned(e, pind, pindMax, esize, alignment)
        && NoneEligible(maxSize, pindMax, tab, delay, lgMaxActiveFit, least)
      else if delay then
        Lowest(e, pindMax) && !TooLarge(bin(e.size), maxSize, tab, lgMaxActiveFit)
      else
        forall f :: Eligible(f, least) ==> !Before(f, e)
    }

    /** And of the heaps when it takes none. */
    ghost predicate Passed(esize: nat, alignment: nat, maxSize: nat, pind: nat, pindMax: nat,
                           tab: seq<nat>, delay: bool, lgMaxActiveFit: nat, least: nat)
      requires alignment > 0
      reads this
    {
      && NoneEligible(maxSize, pindMax, tab, delay, lgMaxActiveFit, least)
      && (alignment > PAGE ==> forall e :: First(e) && pind <= bin(e.size) < pindMax ==>
                                             !Accepted(e, esize, alignment))
    }

    /** The choice among extents known to be at least maxSize, falling back on the alignment search. */
    method Fit(esize: nat, alignment: nat, maxSize: nat, pind: nat, pindMax: nat, tab: seq<nat>,
               delayCoalesce: bool, lgMaxActiveFit: nat, ghost least: nat)
      returns (ret: Option<Extent>)
      requires Valid() && |tab| == nheaps && pind < nheaps && pindMax < nheaps
      requires esize > 0 && alignment > 0 && PageCeil(alignment) <= RANGE
      requires maxSize == esize + PageCeil(alignment) - PAGE
      requires HeapsFrom(pindMax, least) && least >= maxSize
      ensures ret.Some? ==> ret.value in lru && FitsAligned(ret.value, esize, alignment)
      ensures ret.Some? ==> Taken(ret.value, esize, alignment, maxSize, pind, pindMax, tab, delayCoalesce,
                                  lgMaxActiveFit, least)
      ensures ret.None? ==> Passed(esize, alignment, maxSize, pind, pindMax, tab, delayCoalesce,
                                   lgMaxActiveFit, least)
    {
      PageCeilIsPages(alignment);
      if delayCoalesce {
        ret := BestFit(pindMax, maxSize, tab, lgMaxActiveFit);
      } else {
        ret := FirstFit(pindMax);
      }
      if ret.Some? {
        BigEnoughFits(ret.value, esize, alignment, maxSize);
      } else if alignment > PAGE {
        ret := FitAlignment(pind, pindMax, esize, alignment);
      }
    }

    /** extents_fit_locked.  Whatever it returns can be split at an aligned address; it returns nothing
        exactly where the list has nothing to choose, and otherwise the extent chosen. */
    method FitLocked(esize: nat, alignment: nat, tab: seq<nat>, pad: nat, delayCoalesce: bool,
                     lgMaxActiveFit: nat) returns (ret: Option<Extent>)
      requires Valid() && Quantised(tab, pad)
      requires Pages(esize) && pad <= esize < RANGE && alignment > 0 && PageCeil(alignment) < RANGE
      requires MaxSize(esize, alignment) < RANGE ==> MaxSize(esize, alignment) - pad <= Largest(tab)
      ensures ret.None? <==> Refused(lru, esize, alignment, delayCoalesce, tab, pad, lgMaxActiveFit)
      ensures ret.Some? ==> ret.value in lru && FitsAligned(ret.value, esize, alignment)
                            && Chosen(lru, ret.value, esize, alignment, delayCoalesce, tab, pad, lgMaxActiveFit)
    {
      PageCeilIsPages(alignment);
      var maxSize := (esize + PageCeil(alignment) - PAGE) % RANGE;
      PaddedWraps(esize, alignment, maxSize);
      if maxSize < esize {
        return None;
      }
      EligibleBins(tab, pad, maxSize);
      ret := Fit(esize, alignment, maxSize, SearchFrom(tab, pad, esize), SearchFrom(tab, pad, maxSize),
                 tab, delayCoalesce, lgMaxActiveFit, Ceil(tab, pad, maxSize));
      FitIsRight(ret, esize, alignment, maxSize, tab, pad, delayCoalesce, lgMaxActiveFit);
    }

    /** The padded size comes out below the size exactly when it wrapped. */
    static lemma PaddedWraps(esize: nat, alignment: nat, maxSize: nat)
      requires Pages(esize) && esize < RANGE && alignment > 0 && PageCeil(alignment) < RANGE
      requires maxSize == MaxSize(esize, alignment) % RANGE
      ensures maxSize < esize <==> MaxSize(esize, alignment) >= RANGE
      ensures maxSize >= esize ==> maxSize == MaxSize(esize, alignment) && Pages(maxSize)
    {
      PageCeilIsPages(alignment);
    }

    /** What the choice says heap by heap, over the list. */
    lemma FitIsRight(ret: Option<Extent>, esize: nat, alignment: nat, maxSize: nat, tab: seq<nat>, pad: nat,
                     delay: bool, lgMaxActiveFit: nat)
      requires Valid() && Quantised(tab, pad) && pad <= esize && Pages(esize) && alignment > 0
      requires maxSize == MaxSize(esize, alignment) < RANGE && maxSize - pad <= Largest(tab)
      requires ret.Some? ==> ret.value in lru
      requires ret.Some? ==>
                 Taken(ret.value, esize, alignment, maxSize, SearchFrom(tab, pad, esize),
                       SearchFrom(tab, pad, maxSize), tab, delay, lgMaxActiveFit, Ceil(tab, pad, maxSize))
      requires ret.None? ==>
                 Passed(esize, alignment, maxSize, SearchFrom(tab, pad, esize), SearchFrom(tab, pad, maxSize),
                        tab, delay, lgMaxActiveFit, Ceil(tab, pad, maxSize))
      ensures ret.None? <==> Refused(lru, esize, alignment, delay, tab, pad, lgMaxActiveFit)
      ensures ret.Some? ==> Chosen(lru, ret.value, esize, alignment, delay, tab, pad, lgMaxActiveFit)
    {
      ByClass(esize, alignment, maxSize, tab, pad);
      if ret.Some? {
        TakenIsChosen(ret.value, esize, alignment, maxSize, tab, pad, delay, lgMaxActiveFit);
      } else {
        NoneIsLarge(esize, alignment, maxSize, tab, pad, delay, lgMaxActiveFit);
        PassedIsRefused(esize, alignment, maxSize, tab, pad, delay, lgMaxActiveFit);
      }
    }

    /** The heaps of the pool are those of the classes, and the request is for them. */
    ghost predicate ByClasses(esize: nat, alignment: nat, maxSize: nat, tab: seq<nat>, pad: nat)
      reads this
    {
      && TableOk(tab, pad) && nheaps == |tab| && alignment > 0 && pad <= esize
      && maxSize == MaxSize(esize, alignment) < RANGE
      && HeapsFrom(SearchFrom(tab, pad, maxSize), Ceil(tab, pad, maxSize))
      && (forall e :: e in lru ==> pad <= e.size && bin(e.size) == Bin(tab, pad, e.size))
      && (forall e :: First(e) <==> FirstOfClass(lru, e, tab, pad))
      && forall e :: Candidate(lru, e, esize, alignment, tab, pad) <==>
           && First(e) && Accepted(e, esize, alignment)
           && SearchFrom(tab, pad, esize) <= bin(e.size) < SearchFrom(tab, pad, maxSize)
    }

    lemma NoneIsLarge(esize: nat, alignment: nat, maxSize: nat, tab: seq<nat>, pad: nat, delay: bool,
                      lgMaxActiveFit: nat)
      requires ByClasses(esize, alignment, maxSize, tab, pad)
      requires NoneEligible(maxSize, SearchFrom(tab, pad, maxSize), tab, delay, lgMaxActiveFit,
                            Ceil(tab, pad, maxSize))
      ensures NoneLarge(lru, maxSize, delay, tab, pad, lgMaxActiveFit)
    {
      if delay {
        PassedOverIsLarge(maxSize, tab, pad, lgMaxActiveFit);
      } else {
        forall e ensures !(e in lru && e.size >= Ceil(tab, pad, maxSize)) {
          assert !Eligible(e, Ceil(tab, pad, maxSize));
        }
      }
    }

    lemma PassedIsRefused(esize: nat, alignment: nat, maxSize: nat, tab: seq<nat>, pad: nat, delay: bool,
                          lgMaxActiveFit: nat)
      requires ByClasses(esize, alignment, maxSize, tab, pad)
      requires NoneLarge(lru, maxSize, delay, tab, pad, lgMaxActiveFit)
      requires alignment > PAGE ==> forall e ::
                 First(e) && SearchFrom(tab, pad, esize) <= bin(e.size) < SearchFrom(tab, pad, maxSize) ==>
                 !Accepted(e, esize, alignment)
      ensures Refused(lru, esize, alignment, delay, tab, pad, lgMaxActiveFit)
    {
      if alignment > PAGE {
        forall e ensures !Candidate(lru, e, esize, alignment, tab, pad) {
        }
      }
    }

    lemma AlignedIsChosen(e: Extent, esize: nat, alignment: nat, maxSize: nat, tab: seq<nat>, pad: nat, delay: bool,
                          lgMaxActiveFit: nat)
      requires ByClasses(esize, alignment, maxSize, tab, pad) && e in lru && alignment > PAGE
      requires NoneLarge(lru, maxSize, delay, tab, pad, lgMaxActiveFit) && e.size < Ceil(tab, pad, maxSize)
      requires Aligned(e, SearchFrom(tab, pad, esize), SearchFrom(tab, pad, maxSize), esize, alignment)
      ensures Chosen(lru, e, esize, alignment, delay, tab, pad, lgMaxActiveFit)
    {
      assert Candidate(lru, e, esize, alignment, tab, pad);
      forall f | Candidate(lru, f, esize, alignment, tab, pad)
        ensures Bin(tab, pad, e.size) <= Bin(tab, pad, f.size)
      {
      }
    }

    lemma LowestIsChosen(e: Extent, esize: nat, alignment: nat, maxSize: nat, tab: seq<nat>, pad: nat,
                         lgMaxActiveFit: nat)
      requires ByClasses(esize, alignment, maxSize, tab, pad) && Eligible(e, Ceil(tab, pad, maxSize))
      requires Lowest(e, SearchFrom(tab, pad, maxSize)) && !TooLarge(bin(e.size), maxSize, tab, lgMaxActiveFit)
      ensures Chosen(lru, e, esize, alignment, true, tab, pad, lgMaxActiveFit)
    {
      assert FirstOfClass(lru, e, tab, pad);
      forall f | f in lru && f.size >= Ceil(tab, pad, maxSize) && pad <= f.size
        ensures Bin(tab, pad, e.size) <= Bin(tab, pad, f.size)
      {
        assert bin(f.size) >= SearchFrom(tab, pad, maxSize);
      }
    }

    lemma TakenIsChosen(e: Extent, esize: nat, alignment: nat, maxSize: nat, tab: seq<nat>, pad: nat, delay: bool,
                        lgMaxActiveFit: nat)
      requires ByClasses(esize, alignment, maxSize, tab, pad) && e in lru
      requires Taken(e, esize, alignment, maxSize, SearchFrom(tab, pad, esize), SearchFrom(tab, pad, maxSize), tab,
                     delay, lgMaxActiveFit, Ceil(tab, pad, maxSize))
      ensures Chosen(lru, e, esize, alignment, delay, tab, pad, lgMaxActiveFit)
      ensures !Refused(lru, esize, alignment, delay, tab, pad, lgMaxActiveFit)
    {
      if !Eligible(e, Ceil(tab, pad, maxSize)) {
        NoneIsLarge(esize, alignment, maxSize, tab, pad, delay, lgMaxActiveFit);
        AlignedIsChosen(e, esize, alignment, maxSize, tab, pad, delay, lgMaxActiveFit);
      } else if delay {
        LowestIsChosen(e, esize, alignment, maxSize, tab, pad, lgMaxActiveFit);
      } else {
        OldestIsChosen(e, esize, alignment, maxSize, tab, pad, lgMaxActiveFit);
      }
      ChosenIsServed(lru, e, esize, alignment, delay, tab, pad, lgMaxActiveFit);
    }

    lemma OldestIsChosen(e: Extent, esize: nat, alignment: nat, maxSize: nat, tab: seq<nat>, pad: nat,
                         lgMaxActiveFit: nat)
      requires ByClasses(esize, alignment, maxSize, tab, pad) && Eligible(e, Ceil(tab, pad, maxSize))
      requires forall f :: Eligible(f, Ceil(tab, pad, maxSize)) ==> !Before(f, e)
      ensures Chosen(lru, e, esize, alignment, false, tab, pad, lgMaxActiveFit)
    {
      forall f | f in lru && f.size >= Ceil(tab, pad, maxSize) ensures !Before(f, e) {
        assert Eligible(f, Ceil(tab, pad, maxSize));
      }
    }

    /** Heaps are classes: the first of a heap is the first of its class. */
    lemma ByClass(esize: nat, alignment: nat, maxSize: nat, tab: seq<nat>, pad: nat)
      requires Valid() && Quantised(tab, pad) && alignment > 0 && pad <= esize && Pages(esize)
      requires maxSize == MaxSize(esize, alignment) < RANGE && maxSize - pad <= Largest(tab)
      ensures ByClasses(esize, alignment, maxSize, tab, pad)
    {
      PageCeilIsPages(alignment);
      EligibleBins(tab, pad, maxSize);
      EligibleBins(tab, pad, esize);
      BinIsClass(tab, pad);
      FirstIsClass(tab, pad);
      CandidateIsBin(esize, alignment, maxSize, tab, pad);
    }

    lemma BinIsClass(tab: seq<nat>, pad: nat)
      requires Valid() && Quantised(tab, pad)
      ensures forall e :: e in lru ==> pad <= e.size && bin(e.size) == Bin(tab, pad, e.size)
    {
      forall e | e in lru ensures pad <= e.size && bin(e.size) == Bin(tab, pad, e.size) {
        assert ExtentOk(e) && BinAgrees(tab, pad, e.size);
      }
    }

    lemma FirstIsClass(tab: seq<nat>, pad: nat)
      requires TableOk(tab, pad)
      requires forall e :: e in lru ==> pad <= e.size && bin(e.size) == Bin(tab, pad, e.size)
      ensures forall e :: First(e) <==> FirstOfClass(lru, e, tab, pad)
    {
    }

    lemma CandidateIsBin(esize: nat, alignment: nat, maxSize: nat, tab: seq<nat>, pad: nat)
      requires TableOk(tab, pad) && alignment > 0 && pad <= esize && maxSize == MaxSize(esize, alignment)
      requires HeapsFrom(SearchFrom(tab, pad, esize), Ceil(tab, pad, esize))
      requires HeapsFrom(SearchFrom(tab, pad, maxSize), Ceil(tab, pad, maxSize))
      requires forall e :: First(e) <==> FirstOfClass(lru, e, tab, pad)
      ensures forall e :: Candidate(lru, e, esize, alignment, tab, pad) <==>
                && First(e) && Accepted(e, esize, alignment)
                && SearchFrom(tab, pad, esize) <= bin(e.size) < SearchFrom(tab, pad, maxSize)
    {
    }

    /** If the lowest class is too large to be split, so are those above it. */
    lemma PassedOverIsLarge(m: nat, tab: seq<nat>, pad: nat, lgMaxActiveFit: nat)
      requires TableOk(tab, pad) && nheaps == |tab| && pad <= m
      requires HeapsFrom(SearchFrom(tab, pad, m), Ceil(tab, pad, m))
      requires forall e :: e in lru ==> pad <= e.size && bin(e.size) == Bin(tab, pad, e.size)
      requires PassedOver(SearchFrom(tab, pad, m), m, tab, lgMaxActiveFit)
      ensures NoneLarge(lru, m, true, tab, pad, lgMaxActiveFit)
    {
      var pind := SearchFrom(tab, pad, m);
      forall e | e in lru && e.size >= Ceil(tab, pad, m)
        ensures Fragments(e.size, m, true, tab, pad, lgMaxActiveFit)
      {
        var l :| Lowest(l, pind) && TooLarge(bin(l.size), m, tab, lgMaxActiveFit);
        assert bin(e.size) >= pind && bin(l.size) <= bin(e.size);
        ShiftGrows(tab[bin(l.size)], tab[bin(e.size)], lgMaxActiveFit);
      }
    }

    lemma EligibleBins(tab: seq<nat>, pad: nat, maxSize: nat)
      requires Valid() && Quantised(tab, pad) && pad <= maxSize && Pages(maxSize)
      requires maxSize - pad <= Largest(tab)
      ensures HeapsFrom(SearchFrom(tab, pad, maxSize), Ceil(tab, pad, maxSize))
      ensures Ceil(tab, pad, maxSize) >= maxSize
    {
      CeilIsClass(tab, pad, maxSize);
      forall e | e in lru
        ensures bin(e.size) >= SearchFrom(tab, pad, maxSize) <==> e.size >= Ceil(tab, pad, maxSize)
      {
        assert ExtentOk(e) && BinAgrees(tab, pad, e.size);
        BinsAreExact(tab, pad, e.size, maxSize);
      }
    }
  }

  /** max_size guarantees the alignment: an extent that large holds an aligned range wherever it starts. */
  lemma BigEnoughFits(e: Extent, esize: nat, alignment: nat, maxSize: nat)
    requires e.base % PAGE == 0 && alignment > 0
    requires maxSize == esize + PageCeil(alignment) - PAGE && e.size >= maxSize
    ensures FitsAligned(e, esize, alignment)
  {
    PageCeilIsPages(alignment);
    Lead(e.base, PageCeil(alignment));
  }
}
