/**
 The slabs of one bin of an arena.  Each method is one section that the source runs under the bin
 lock, so `Valid` is what holds whenever the lock is free and any order of calls is a schedule of
 the threads.  `held` are the slabs that a thread holds privately across a dropped lock: a slab
 just allocated and not yet given to the bin, or one dissociated and about to be released.
 */
module ArenaBins {
  import opened Common

  /** The identity of a slab's extent structure. */
  type Id = int

  /** regs[i] is bit i of the slab's bitmap: region i is allocated. */
  datatype Slab = Slab(sn: nat, addr: nat, regs: seq<bool>, nfree: nat)

  /** A region as the bin hands it out. */
  datatype Region = Region(slab: Id, ind: nat)

  // ------------------------------------------------------------------ bitmaps

  function CountFree(regs: seq<bool>): (n: nat)
    ensures n <= |regs|
  {
    if regs == [] then 0
    else CountFree(regs[..|regs| - 1]) + (if regs[|regs| - 1] then 0 else 1)
  }

  lemma {:induction false} CountAfter(regs: seq<bool>, i: nat, b: bool)
    requires i < |regs| && regs[i] != b
    ensures CountFree(regs[i := b]) == CountFree(regs) + (if b then -1 else 1)
  {
    var last := |regs| - 1;
    if i < last {
      CountAfter(regs[..last], i, b);
      assert regs[i := b][..last] == regs[..last][i := b];
    } else {
      assert regs[i := b][..last] == regs[..last];
    }
  }

  lemma {:induction false} SomeFree(regs: seq<bool>)
    requires CountFree(regs) > 0
    ensures exists i :: 0 <= i < |regs| && !regs[i]
  {
    var last := |regs| - 1;
    if regs[last] {
      SomeFree(regs[..last]);
      var i :| 0 <= i < last && !regs[..last][i];
      assert !regs[i];
    }
  }

  lemma {:induction false} AllFree(regs: seq<bool>)
    ensures CountFree(regs) == |regs| <==> forall i :: 0 <= i < |regs| ==> !regs[i]
  {
    if regs != [] {
      AllFree(regs[..|regs| - 1]);
      assert forall i :: 0 <= i < |regs| - 1 ==> regs[..|regs| - 1][i] == regs[i];
    }
  }

  // ------------------------------------------------------------------ slabs

  /** extent_snad_comp(a, b) < 0 */
  predicate Before(a: Slab, b: Slab) { a.sn < b.sn || (a.sn == b.sn && a.addr < b.addr) }

  function Take(s: Slab, i: nat): Slab
    requires i < |s.regs| && s.nfree > 0
  {
    s.(regs := s.regs[i := true], nfree := s.nfree - 1)
  }

  function Give(s: Slab, i: nat): Slab
    requires i < |s.regs|
  {
    s.(regs := s.regs[i := false], nfree := s.nfree + 1)
  }

  predicate LowestFree(s: Slab, i: nat) {
    i < |s.regs| && !s.regs[i] && forall j :: 0 <= j < i ==> s.regs[j]
  }

  /** The lowest free region of one slab was allocated; nothing else differs. */
  predicate Took(slabs0: map<Id, Slab>, slabs1: map<Id, Slab>, r: Region) {
    && r.slab in slabs0 && slabs0[r.slab].nfree > 0
    && LowestFree(slabs0[r.slab], r.ind)
    && slabs1 == slabs0[r.slab := Take(slabs0[r.slab], r.ind)]
  }

  /** No slab that was put away with free regions is older than this one of them. */
  ghost predicate OldestNonfull(slabs: map<Id, Slab>, nonfull: set<Id>, id: Id) {
    && id in nonfull && id in slabs
    && forall k :: k in nonfull && k in slabs ==> !Before(slabs[k], slabs[id])
  }

  class Bin {
    const nregs: nat
    const auto: bool
    const slabSize: nat
    var slabs: map<Id, Slab>
    var slabcur: Option<Id>
    var nonfull: set<Id>
    var full: set<Id>
    var held: set<Id>

    predicate SlabOk(s: Slab) { |s.regs| == nregs && s.nfree == CountFree(s.regs) }

    /** A slab is in exactly one place, and its number of free regions fits the place.  An
        automatic arena keeps no list of its full slabs. */
    predicate Placed(id: Id)
      reads this
      requires id in slabs
    {
      var nfree := slabs[id].nfree;
      if slabcur == Some(id) then
        id !in nonfull && id !in full && id !in held && nfree < nregs
      else if id in nonfull then
        id !in full && id !in held && 0 < nfree < nregs
      else if id in full then
        id !in held && !auto && nfree == 0
      else if id in held then
        nfree == nregs
      else
        auto && nfree == 0
    }

    predicate Nowhere(id: Id)
      reads this
    {
      slabcur != Some(id) && id !in nonfull && id !in full && id !in held
    }

    static predicate Apart(s: Slab, t: Slab, size: nat) {
      s.addr + size <= t.addr || t.addr + size <= s.addr
    }

    ghost predicate Disjoint()
      reads this
    {
      forall i, j :: i in slabs && j in slabs && i != j ==> Apart(slabs[i], slabs[j], slabSize)
    }

    /** Everything but the place of slab `hand` (if any). */
    ghost predicate ValidAround(hand: Option<Id>)
      reads this
    {
      && nregs > 0 && Disjoint()
      && (slabcur.Some? ==> slabcur.value in slabs)
      && nonfull <= slabs.Keys && full <= slabs.Keys && held <= slabs.Keys
      && (forall id :: id in slabs ==> SlabOk(slabs[id]))
      && (forall id :: id in slabs && Some(id) != hand ==> Placed(id))
    }

    /** The bin between two steps, with slab `hand` (if any) taken out of its place. */
    ghost predicate ValidBut(hand: Option<Id>)
      reads this
    {
      ValidAround(hand) && (hand.Some? ==> hand.value in slabs && Nowhere(hand.value))
    }

    ghost predicate Valid()
      reads this
    {
      ValidBut(None)
    }

    constructor (nregs: nat, auto: bool, slabSize: nat)
      requires nregs > 0
      ensures Valid() && slabs == map[] && this.nregs == nregs && this.auto == auto
      ensures this.slabSize == slabSize
    {
      this.nregs, this.auto, this.slabSize := nregs, auto, slabSize;
      slabs, slabcur, nonfull, full, held := map[], None, {}, {}, {};
    }

    // ---------------------------------------------------------------- steps inside a section

    /** arena_slab_reg_alloc: the lowest free region of the slab. */
    method RegAlloc(id: Id) returns (r: Region)
      requires id in slabs && SlabOk(slabs[id]) && slabs[id].nfree > 0
      modifies this`slabs
      ensures r.slab == id && Took(old(slabs), slabs, r) && SlabOk(slabs[id])
    {
      var s := slabs[id];
      SomeFree(s.regs);
      var i := 0;
      while s.regs[i]
        invariant 0 <= i < |s.regs| && (forall j :: 0 <= j < i ==> s.regs[j])
        invariant exists j :: i <= j < |s.regs| && !s.regs[j]
        decreases |s.regs| - i
      {
        i := i + 1;
      }
      CountAfter(s.regs, i, true);
      slabs := slabs[id := s.(regs := s.regs[i := true])];
      slabs := slabs[id := slabs[id].(nfree := s.nfree - 1)];
      return Region(id, i);
    }

    /** arena_slab_reg_dalloc */
    method RegDalloc(id: Id, i: nat)
      requires id in slabs && SlabOk(slabs[id]) && i < nregs && slabs[id].regs[i]
      modifies this`slabs
      ensures slabs == old(slabs)[id := Give(old(slabs)[id], i)] && SlabOk(slabs[id])
      ensures slabs[id].nfree <= nregs
    {
      var s := slabs[id];
      CountAfter(s.regs, i, false);
      slabs := slabs[id := s.(regs := s.regs[i := false])];
      slabs := slabs[id := slabs[id].(nfree := s.nfree + 1)];
    }

    /** extent_heap_remove_first of the slabs that are neither full nor current. */
    method TryGet() returns (r: Option<Id>)
      requires Valid()
      modifies this`nonfull
      ensures ValidBut(r)
      ensures r.None? <==> old(nonfull) == {}
      ensures r.Some? ==> r.value in old(nonfull) && nonfull == old(nonfull) - {r.value}
                          && 0 < slabs[r.value].nfree < nregs
                          && forall id :: id in nonfull ==> !Before(slabs[id], slabs[r.value])
      ensures r.None? ==> nonfull == old(nonfull)
    {
      if nonfull == {} {
        return None;
      }
      FirstOf(slabs, nonfull);
      var id :| id in nonfull && forall k :: k in nonfull ==> !Before(slabs[k], slabs[id]);
      assert Placed(id);
      nonfull := nonfull - {id};
      return Some(id);
    }

    /** arena_bin_lower_slab: keep the older of the slab and slabcur current, put the other away. */
    method LowerSlab(id: Id)
      requires ValidBut(Some(id)) && 0 < slabs[id].nfree < nregs
      modifies this`slabcur, this`nonfull, this`full
      ensures Valid()
      ensures old(slabcur.Some? && Before(slabs[id], slabs[slabcur.value])) ==> slabcur == Some(id)
      ensures !old(slabcur.Some? && Before(slabs[id], slabs[slabcur.value])) ==>
                slabcur == old(slabcur) && nonfull == old(nonfull) + {id} && full == old(full)
      ensures old(Oldest()) ==> Oldest()
    {
      if slabcur.Some? && Before(slabs[id], slabs[slabcur.value]) {
        var cur := slabcur.value;
        assert Placed(cur);
        if slabs[cur].nfree > 0 {
          nonfull := nonfull + {cur};
        } else if !auto {
          full := full + {cur};
        }
        slabcur := Some(id);
      } else {
        nonfull := nonfull + {id};
      }
    }

    /** No slab put away with free regions is older than the slab. */
    ghost predicate NoneOlder(slab: Id)
      reads this
      requires slab in slabs
    {
      forall id :: id in nonfull ==> id in slabs && !Before(slabs[id], slabs[slab])
    }

    /** No slab with free regions outside slabcur is older than slabcur.  Every section keeps this
        except the one in which a freshly allocated slab becomes current: the bin may have got older
        slabs with free regions while the lock was dropped. */
    ghost predicate Oldest()
      reads this
    {
      slabcur.Some? ==> slabcur.value in slabs && NoneOlder(slabcur.value)
    }

    /** Allocate from slabcur. */
    method CurAlloc(ghost hand: Option<Id>) returns (r: Region)
      requires ValidBut(hand) && slabcur.Some? && slabs[slabcur.value].nfree > 0
      modifies this`slabs
      ensures ValidBut(hand) && Took(old(slabs), slabs, r) && Some(r.slab) == slabcur
    {
      assert Placed(slabcur.value);
      r := RegAlloc(slabcur.value);
    }

    /** arena_bin_slabs_full_insert of slabcur, which is then cleared. */
    method RetireCur(ghost hand: Option<Id>)
      requires ValidBut(hand) && slabcur.Some? && slabs[slabcur.value].nfree == 0
      modifies this`slabcur, this`full
      ensures ValidBut(hand) && slabcur == None
    {
      assert Placed(slabcur.value);
      if !auto {
        full := full + {slabcur.value};
      }
      slabcur := None;
    }

    /** Make the slab current and allocate from it. */
    method Adopt(slab: Id) returns (r: Region)
      requires ValidBut(Some(slab)) && slabcur.None? && slabs[slab].nfree > 0
      modifies this`slabcur, this`slabs
      ensures Valid() && Took(old(slabs), slabs, r) && r.slab == slab && slabcur == Some(slab)
    {
      slabcur := Some(slab);
      r := RegAlloc(slab);
    }

    /** A slab that turned out unneeded: release it if it is wholly free, else put it away. */
    method PutBack(slab: Id) returns (release: Option<Id>)
      requires ValidBut(Some(slab)) && slabs[slab].nfree > 0
      modifies this`slabcur, this`nonfull, this`full, this`held
      ensures Valid() && held == old(held) + (if release.Some? then {release.value} else {})
      ensures release == if slabs[slab].nfree == nregs then Some(slab) else None
      ensures old(Oldest()) ==> Oldest()
    {
      if slabs[slab].nfree == nregs {
        held := held + {slab};
        return Some(slab);
      }
      LowerSlab(slab);
      return None;
    }

    /** The second half of arena_bin_malloc_hard: a slab was obtained, or none was to be had, and
        slabcur may have changed while the lock was dropped. */
    method FillCur(slab: Option<Id>) returns (r: Option<Region>, release: Option<Id>)
      requires ValidBut(slab) && (slab.Some? ==> slabs[slab.value].nfree > 0)
      modifies this
      ensures Valid() && held == old(held) + (if release.Some? then {release.value} else {})
      ensures r.None? <==> slab.None? && !old(CurHasFree())
      ensures r.None? ==> slabs == old(slabs)
      ensures r.Some? ==> Took(old(slabs), slabs, r.value)
      ensures r.Some? ==> Some(r.value.slab) == if old(CurHasFree()) then old(slabcur) else slab
      ensures release.Some? ==> release == slab && slabs[release.value].nfree == nregs
      ensures slab.Some? && old(slabs[slab.value].nfree) < nregs ==> release.None?
      ensures slab.Some? && !old(CurHasFree()) ==> slabcur == slab && nonfull == old(nonfull)
      ensures (slab.None? || old(CurHasFree())) && old(Oldest()) ==> Oldest()
      ensures old(CurHasFree()) && slab.Some? && old(slabs[slab.value].nfree) == nregs ==> release.Some?
    {
      var region;
      if slabcur.Some? {
        if slabs[slabcur.value].nfree > 0 {
          region := CurAlloc(slab);
          release := None;
          if slab.Some? {
            release := PutBack(slab.value);
          }
          return Some(region), release;
        }
        RetireCur(slab);
      }
      if slab.None? {
        return None, None;
      }
      region := Adopt(slab.value);
      return Some(region), None;
    }

    predicate CurHasFree()
      reads this
    {
      slabcur.Some? && slabcur.value in slabs && slabs[slabcur.value].nfree > 0
    }

    // ---------------------------------------------------------------- sections

    /** arena_malloc_small up to the point where the bin lock is dropped for a new slab: a region,
        or None when the thread must go and get a slab. */
    method MallocBegin() returns (r: Option<Region>)
      requires Valid()
      modifies this
      ensures Valid() && held == old(held)
      ensures Allocated(old(Now()), Now(), None, r)
      ensures r.Some? && old(CurHasFree()) ==> slabcur == old(slabcur)
      ensures r.None? ==> slabs == old(slabs) && Exhausted()
      ensures r.None? && !auto ==> slabcur.None?
      ensures old(Oldest()) ==> Oldest()
    {
      if slabcur.Some? && slabs[slabcur.value].nfree > 0 {
        var region := CurAlloc(None);
        return Some(region);
      }
      if !auto && slabcur.Some? {
        RetireCur(None);
      }
      var slab := TryGet();
      if slab.None? {
        NothingLeft();
        return None;
      }
      var release;
      r, release := FillCur(slab);
    }

    /** The rest of arena_bin_malloc_hard after the lock is taken again, with the slab the thread
        allocated meanwhile, if it could.  `release` is that slab when it turned out unneeded. */
    method MallocResume(got: Option<Id>) returns (r: Option<Region>, release: Option<Id>)
      requires Valid() && (got.Some? ==> got.value in held)
      modifies this
      ensures Valid()
      ensures Allocated(old(Now()), Now(), got, r)
      ensures r.None? ==> got.None? && slabs == old(slabs) && Exhausted()
      ensures release.Some? ==> release == got && held == old(held)
      ensures release.None? ==> held == old(held) - (if got.Some? then {got.value} else {})
      ensures got.None? && old(Oldest()) ==> Oldest()
      ensures got.Some? ==> (release.None? <==> !old(CurHasFree()))
      ensures got.Some? && release.None? ==> slabcur == got && nonfull == old(nonfull)
      ensures got.Some? && release.None? ==> (Oldest() <==> old(NoneOlder(got.value)))
      ensures release.Some? && old(Oldest()) ==> Oldest()
    {
      var slab := got;
      if got.Some? {
        TakeHeld(got.value);
      } else {
        slab := TryGet();
        NothingLeft();
      }
      r, release := FillCur(slab);
    }

    /** The thread brings its private slab into the section. */
    method TakeHeld(id: Id)
      requires Valid() && id in held
      modifies this`held
      ensures ValidBut(Some(id)) && slabs[id].nfree == nregs && held == old(held) - {id}
    {
      assert Placed(id);
      held := held - {id};
    }

    lemma NothingLeft()
      ensures Valid() && nonfull == {} && !CurHasFree() ==> Exhausted()
    {
      if Valid() && nonfull == {} && !CurHasFree() {
        forall id | id in slabs && id !in held ensures slabs[id].nfree == 0 {
          assert Placed(id);
        }
      }
    }

    /** No slab of the bin has a free region. */
    predicate Exhausted()
      reads this
    {
      forall id :: id in slabs && id !in held ==> slabs[id].nfree == 0
    }

    /** arena_dalloc_bin_locked_impl.  A slab that became wholly free leaves the bin and is
        released once the lock is dropped. */
    method Dalloc(id: Id, i: nat) returns (release: Option<Id>)
      requires Valid() && id in slabs && i < nregs && slabs[id].regs[i]
      modifies this
      ensures Valid() && slabs == old(slabs)[id := Give(old(slabs)[id], i)]
      ensures release == if slabs[id].nfree == nregs then Some(id) else None
      ensures held == old(held) + (if release.Some? then {id} else {})
      ensures old(slabcur).None? && slabs[id].nfree == 1 < nregs ==>
                slabcur.None? && nonfull == old(nonfull) + {id}
      ensures old(Oldest()) ==> Oldest()
    {
      FreeOne(id, i);
      var nfree := slabs[id].nfree;
      if nfree == nregs {
        Dissociate(id);
        return Some(id);
      }
      if nfree == 1 && slabcur != Some(id) {
        Unfull(id);
        LowerSlab(id);
      }
      return None;
    }

    /** The region is free again; the slab may now be in the wrong place. */
    method FreeOne(id: Id, i: nat)
      requires Valid() && id in slabs && i < nregs && slabs[id].regs[i]
      modifies this`slabs
      ensures ValidAround(Some(id)) && slabs == old(slabs)[id := Give(old(slabs)[id], i)]
      ensures id !in held && slabs[id].nfree <= nregs
      ensures slabcur == Some(id) ==> id !in nonfull && id !in full
      ensures slabcur != Some(id) ==>
                if slabs[id].nfree == 1 then id !in nonfull && (auto ==> id !in full)
                else id in nonfull && id !in full
      ensures slabs[id].nfree < nregs && (slabcur == Some(id) || slabs[id].nfree != 1) ==> Placed(id)
      ensures old(Oldest()) ==> Oldest()
    {
      HasLive(slabs[id].regs, i);
      assert Placed(id);
      RegDalloc(id, i);
    }

    /** arena_bin_slabs_full_remove */
    method Unfull(id: Id)
      requires ValidAround(Some(id)) && id in slabs && slabcur != Some(id) && id !in nonfull
      requires id !in held && (auto ==> id !in full)
      modifies this`full
      ensures ValidBut(Some(id))
    {
      if !auto {
        full := full - {id};
      }
    }

    /** arena_dissociate_bin_slab of a slab that was placed until its last region was freed; the
        thread holds it until it is released. */
    method Dissociate(id: Id)
      requires ValidAround(Some(id)) && id in slabs && id !in held && slabs[id].nfree == nregs
      requires slabcur == Some(id) ==> id !in nonfull && id !in full
      requires slabcur != Some(id) ==> if nregs == 1 then id !in nonfull && (auto ==> id !in full)
                                       else id !in full
      modifies this`slabcur, this`nonfull, this`full, this`held
      ensures Valid() && held == old(held) + {id}
      ensures old(Oldest()) ==> Oldest()
    {
      if slabcur == Some(id) {
        slabcur := None;
      } else if nregs == 1 {
        if !auto {
          full := full - {id};
        }
      } else {
        nonfull := nonfull - {id};
      }
      held := held + {id};
    }

    /** arena_slab_alloc, with the lock dropped: a slab on addresses of its own, all regions free. */
    method SlabAlloc(id: Id, sn: nat, addr: nat)
      requires Valid() && id !in slabs
      requires forall j :: j in slabs ==> Apart(Slab(sn, addr, [], 0), slabs[j], slabSize)
      modifies this`slabs, this`held
      ensures Valid() && held == old(held) + {id} && slabs.Keys == old(slabs).Keys + {id}
      ensures slabs[id].nfree == nregs && forall j :: j in old(slabs) ==> slabs[j] == old(slabs)[j]
      ensures slabs[id] == Slab(sn, addr, seq(nregs, _ => false), nregs)
      ensures old(Oldest()) ==> Oldest()
    {
      var regs := seq(nregs, _ => false);
      AllFree(regs);
      assert Nowhere(id);
      slabs := slabs[id := Slab(sn, addr, regs, nregs)];
      held := held + {id};
    }

    /** arena_slab_dalloc, with the lock dropped: a privately held slab goes back to the arena. */
    method SlabDalloc(id: Id)
      requires Valid() && id in held
      modifies this`slabs, this`held
      ensures Valid() && held == old(held) - {id} && slabs == old(slabs) - {id}
      ensures forall i :: 0 <= i < nregs ==> !old(slabs)[id].regs[i]
      ensures old(Oldest()) ==> Oldest()
    {
      assert Placed(id);
      AllFree(slabs[id].regs);
      slabs := slabs - {id};
      held := held - {id};
    }

    /** Any schedule of sections, each skipped where its caller may not make it.  `out` are the
        regions handed out and `back` those given back, in order: what is allocated in the slabs is
        what was handed out and not yet given back, each region once.  `always` says whether slabcur
        was the oldest slab with free regions after every section, `orderly` whether every fresh
        slab, when it became current, met no older slab with free regions. */
    method Run(sections: seq<Section>)
      returns (out: seq<Region>, back: seq<Region>, ghost always: bool, ghost orderly: bool,
               ghost trace: seq<Snap>)
      requires Valid()
      modifies this
      ensures Valid()
      ensures |trace| == |sections| + 1 && trace[0] == old(Now()) && trace[|sections|] == Now()
      ensures forall k :: 0 <= k < |sections| ==> Did(sections[k], trace[k], trace[k + 1])
      ensures old(Oldest()) ==> (always <==> orderly) && (always ==> Oldest())
      ensures multiset(old(Live(slabs))) + multiset(out) == multiset(Live(slabs)) + multiset(back)
    {
      ghost var start := Live(slabs);
      out, back, always, orderly, trace := [], [], true, true, [Now()];
      for k := 0 to |sections|
        invariant Valid()
        invariant |trace| == k + 1 && trace[0] == old(Now()) && trace[k] == Now()
        invariant forall j :: 0 <= j < k ==> Did(sections[j], trace[j], trace[j + 1])
        invariant old(Oldest()) ==> (always <==> orderly) && (always ==> Oldest())
        invariant multiset(start) + multiset(out) == multiset(Live(slabs)) + multiset(back)
      {
        ghost var before := slabs;
        var taken, given;
        ghost var fits;
        taken, given, fits := Perform(sections[k]);
        if taken.Some? {
          Balance(multiset(start), out, multiset(Live(before)), multiset(back), taken.value);
          out := out + [taken.value];
        }
        if given.Some? {
          assert multiset(back + [given.value]) == multiset(back) + multiset{given.value};
          back := back + [given.value];
        }
        always, orderly, trace := always && Oldest(), orderly && fits, trace + [Now()];
      }
    }

    ghost function Now(): Snap
      reads this
    {
      Snap(slabs, slabcur, nonfull, held)
    }

    /** What a section that its caller may run does to the bin. */
    ghost predicate Did(section: Section, a: Snap, b: Snap) {
      match section
      case Begin => exists taken :: Allocated(a, b, None, taken)
      case Resume(got) =>
        if got.Some? && got.value !in a.held then b == a
        else exists taken :: Allocated(a, b, got, taken)
      case Free(r) =>
        if r.slab in a.slabs && |a.slabs[r.slab].regs| == nregs && r.ind < nregs && a.slabs[r.slab].regs[r.ind]
        then b.slabs == a.slabs[r.slab := Give(a.slabs[r.slab], r.ind)]
        else b == a
      case NewSlab(id, sn, addr) =>
        if id !in a.slabs && forall j :: j in a.slabs ==> Apart(Slab(sn, addr, [], 0), a.slabs[j], slabSize)
        then b.slabs == a.slabs[id := Slab(sn, addr, seq(nregs, _ => false), nregs)] && b.held == a.held + {id}
        else b == a
      case Release(id) =>
        if id in a.held then b.slabs == a.slabs - {id} && b.held == a.held - {id} else b == a
    }

    /** One section: the region it hands out or takes back, if any.  `fits` is false when it makes a
        fresh slab current although an older slab with free regions has been put away. */
    method Perform(section: Section)
      returns (taken: Option<Region>, given: Option<Region>, ghost fits: bool)
      requires Valid()
      modifies this
      ensures Valid() && (taken.None? || given.None?)
      ensures taken.Some? ==> multiset(Live(slabs)) == multiset(old(Live(slabs))) + multiset{taken.value}
      ensures given.Some? ==> multiset(old(Live(slabs))) == multiset(Live(slabs)) + multiset{given.value}
      ensures taken.None? && given.None? ==> Live(slabs) == old(Live(slabs))
      ensures old(Oldest()) ==> (Oldest() <==> fits)
      ensures Did(section, old(Now()), Now())
    {
      taken, given, fits := None, None, true;
      ghost var before := slabs;
      match section
      case Begin =>
        taken := MallocBegin();
        Counted(old(Now()), Now(), None, taken);
      case Resume(got) =>
        if got.None? || got.value in held {
          fits := got.Some? && !CurHasFree() ==> NoneOlder(got.value);
          var release;
          taken, release := MallocResume(got);
          Counted(old(Now()), Now(), got, taken);
        }
      case Free(r) =>
        if r.slab in slabs && r.ind < nregs && slabs[r.slab].regs[r.ind] {
          var release := Dalloc(r.slab, r.ind);
          OneLess(before, slabs, r);
          given := Some(r);
        }
      case NewSlab(id, sn, addr) =>
        if id !in slabs && forall j :: j in slabs ==> Apart(Slab(sn, addr, [], 0), slabs[j], slabSize) {
          SlabAlloc(id, sn, addr);
          AllFree(slabs[id].regs);
          SameLive(before, slabs, id);
        }
      case Release(id) =>
        if id in held {
          SlabDalloc(id);
          SameLive(slabs, before, id);
        }
    }
  }

  /** A schedule after which slabcur is not the oldest slab with free regions.  Two threads drop the
      lock for a new slab; while the second is away, the first uses up its own, older slab 1, which
      goes among the full ones and then gets a region back. */
  method OldestLost() returns (bin: Bin)
    ensures fresh(bin) && bin.Valid() && !bin.Oldest()
  {
    bin := SlabUsedUp();
    var release := bin.Dalloc(1, 0);
    assert 1 in bin.nonfull && Before(bin.slabs[1], bin.slabs[2]);
    var r;
    r, release := bin.MallocResume(Some(2));
  }

  method SlabUsedUp() returns (bin: Bin)
    ensures fresh(bin) && bin.Valid() && bin.nregs == 2 && bin.slabcur == None
    ensures bin.slabs.Keys == {1, 2} && bin.held == {2}
    ensures bin.slabs[1].sn == 1 && bin.slabs[1].regs == [true, true] && bin.slabs[1].nfree == 0
    ensures bin.slabs[2].sn == 7
  {
    bin := OneEach();
    assert bin.Placed(1) && bin.Placed(2);
    var r := bin.MallocBegin();
    assert bin.Placed(1) && bin.Placed(2);
    AllTaken(bin.slabs[1].regs);
    r := bin.MallocBegin();
    assert bin.Placed(1) && bin.Placed(2);
  }

  method OneEach() returns (bin: Bin)
    ensures fresh(bin) && bin.Valid() && bin.nregs == 2 && !bin.auto && bin.slabcur == Some(1)
    ensures bin.slabs.Keys == {1, 2} && bin.held == {2}
    ensures bin.slabs[1].sn == 1 && bin.slabs[1].nfree == 1 && bin.slabs[2].sn == 7
  {
    bin := new Bin(2, false, 100);
    var r := bin.MallocBegin();
    assert r.None?;
    bin.SlabAlloc(1, 1, 0);
    var release;
    r, release := bin.MallocResume(Some(1));
    bin.SlabAlloc(2, 7, 100);
  }

  lemma AllTaken(regs: seq<bool>)
    requires |regs| == 2 && CountFree(regs) == 0
    ensures regs == [true, true]
  {
  }

  /** What a thread may do next: the two halves of an allocation, a free, and what happens to slabs
      while the lock is dropped. */
  /** A bin between two sections. */
  datatype Snap = Snap(slabs: map<Id, Slab>, slabcur: Option<Id>, nonfull: set<Id>, held: set<Id>)

  datatype Section =
    | Begin | Resume(got: Option<Id>) | Free(r: Region)
    | NewSlab(id: Id, sn: nat, addr: nat) | Release(id: Id)

  /** A slab of the snapshot has a free region and is current. */
  predicate CurFree(a: Snap) {
    a.slabcur.Some? && a.slabcur.value in a.slabs && a.slabs[a.slabcur.value].nfree > 0
  }

  /** A region of slabcur was taken, if it had one free; else one of the slab that the thread brought,
      or of the oldest slab with free regions; and none only if no slab had one. */
  ghost predicate Allocated(a: Snap, b: Snap, got: Option<Id>, taken: Option<Region>) {
    match taken
    case Some(r) =>
      && Took(a.slabs, b.slabs, r)
      && if CurFree(a) then Some(r.slab) == a.slabcur
         else if got.Some? then Some(r.slab) == got
         else OldestNonfull(a.slabs, a.nonfull, r.slab)
    case None =>
      && got.None? && b.slabs == a.slabs && b.held == a.held
      && forall id :: id in a.slabs && id !in a.held ==> a.slabs[id].nfree == 0
  }

  lemma Counted(a: Snap, b: Snap, got: Option<Id>, taken: Option<Region>)
    requires Allocated(a, b, got, taken)
    ensures taken.Some? ==> multiset(Live(b.slabs)) == multiset(Live(a.slabs)) + multiset{taken.value}
    ensures taken.None? ==> b.slabs == a.slabs
  {
    if taken.Some? {
      OneMore(a.slabs, b.slabs, taken.value);
    }
  }

  lemma OneMore(before: map<Id, Slab>, after: map<Id, Slab>, r: Region)
    requires Took(before, after, r)
    ensures multiset(Live(after)) == multiset(Live(before)) + multiset{r}
  {
    TakeIsFresh(before, r);
  }

  lemma Balance(start: multiset<Region>, out: seq<Region>, live: multiset<Region>,
                back: multiset<Region>, r: Region)
    requires start + multiset(out) == live + back
    ensures start + multiset(out + [r]) == live + multiset{r} + back
  {
    assert multiset(out + [r]) == multiset(out) + multiset{r};
    assert start + multiset(out + [r]) == (start + multiset(out)) + multiset{r};
    assert live + multiset{r} + back == (live + back) + multiset{r};
  }

  lemma OneLess(before: map<Id, Slab>, after: map<Id, Slab>, r: Region)
    requires r.slab in before && r.ind < |before[r.slab].regs| && before[r.slab].regs[r.ind]
    requires after == before[r.slab := Give(before[r.slab], r.ind)]
    ensures multiset(Live(before)) == multiset(Live(after)) + multiset{r}
  {
    GiveReturns(before, r);
    assert Live(before) == Live(after) + {r};
  }

  /** A slab without live regions comes and goes unnoticed. */
  lemma SameLive(slabs: map<Id, Slab>, more: map<Id, Slab>, id: Id)
    requires id !in slabs && more.Keys == slabs.Keys + {id}
    requires forall j :: j in slabs ==> more[j] == slabs[j]
    requires forall i :: 0 <= i < |more[id].regs| ==> !more[id].regs[i]
    ensures Live(more) == Live(slabs)
  {
    forall r: Region ensures r in Live(more) <==> r in Live(slabs) {
    }
  }

  lemma HasLive(regs: seq<bool>, i: nat)
    requires i < |regs| && regs[i]
    ensures CountFree(regs) < |regs|
  {
    AllFree(regs);
  }

  // ------------------------------------------------------------------ what is handed out

  function Live(slabs: map<Id, Slab>): set<Region> {
    set id, i | id in slabs && 0 <= i < |slabs[id].regs| && slabs[id].regs[i] :: Region(id, i)
  }

  /** An allocation hands out a region that no one had, and only that one. */
  lemma TakeIsFresh(slabs: map<Id, Slab>, r: Region)
    requires r.slab in slabs && slabs[r.slab].nfree > 0 && LowestFree(slabs[r.slab], r.ind)
    ensures r !in Live(slabs)
    ensures Live(slabs[r.slab := Take(slabs[r.slab], r.ind)]) == Live(slabs) + {r}
  {
    var slabs' := slabs[r.slab := Take(slabs[r.slab], r.ind)];
    forall q: Region ensures q in Live(slabs') <==> q in Live(slabs) + {r} {
    }
  }

  lemma GiveReturns(slabs: map<Id, Slab>, r: Region)
    requires r.slab in slabs && r.ind < |slabs[r.slab].regs| && slabs[r.slab].regs[r.ind]
    ensures r in Live(slabs)
    ensures Live(slabs[r.slab := Give(slabs[r.slab], r.ind)]) == Live(slabs) - {r}
  {
    var slabs' := slabs[r.slab := Give(slabs[r.slab], r.ind)];
    forall q: Region ensures q in Live(slabs') <==> q in Live(slabs) - {r} {
    }
  }

  /** No two live regions of a bin overlap in memory. */
  lemma LiveRegionsApart(bin: Bin, regSize: nat, r: Region, q: Region)
    requires bin.Valid() && regSize * bin.nregs <= bin.slabSize
    requires r in Live(bin.slabs) && q in Live(bin.slabs) && r != q
    ensures var a := bin.slabs[r.slab].addr + regSize * r.ind;
      var b := bin.slabs[q.slab].addr + regSize * q.ind;
      a + regSize <= b || b + regSize <= a
  {
    if r.slab == q.slab {
      SameSlabApart(regSize, r.ind, q.ind);
    } else {
      assert Bin.Apart(bin.slabs[r.slab], bin.slabs[q.slab], bin.slabSize);
      OtherSlabApart(bin.slabs[r.slab].addr, bin.slabs[q.slab].addr, bin.slabSize, regSize, bin.nregs,
                     r.ind, q.ind);
    }
  }

  lemma SameSlabApart(regSize: nat, i: nat, j: nat)
    requires i != j
    ensures regSize * i + regSize <= regSize * j || regSize * j + regSize <= regSize * i
  {
    if i < j {
      InsideSlab(regSize, i, j);
    } else {
      InsideSlab(regSize, j, i);
    }
  }

  lemma OtherSlabApart(a: nat, b: nat, slabSize: nat, regSize: nat, n: nat, i: nat, j: nat)
    requires (a + slabSize <= b || b + slabSize <= a) && regSize * n <= slabSize && i < n && j < n
    ensures a + regSize * i + regSize <= b + regSize * j || b + regSize * j + regSize <= a + regSize * i
  {
    InsideSlab(regSize, i, n);
    InsideSlab(regSize, j, n);
  }

  lemma {:induction false} InsideSlab(regSize: nat, i: nat, n: nat)
    requires i < n
    ensures regSize * i + regSize <= regSize * n
  {
    var k := n - (i + 1);
    assert regSize * n == regSize * i + regSize + regSize * k;
  }

  lemma {:induction false} FirstOf(slabs: map<Id, Slab>, ids: set<Id>)
    requires ids != {} && ids <= slabs.Keys
    ensures exists id :: id in ids && forall k :: k in ids ==> !Before(slabs[k], slabs[id])
    decreases ids
  {
    assert exists k: Id :: k in ids by {
      if forall k: Id :: k !in ids {
        assert false;
      }
    }
    var x: Id :| x in ids;
    var rest := ids - {x};
    if rest == {} {
      assert ids == {x};
    } else {
      FirstOf(slabs, rest);
      var e :| e in rest && forall k :: k in rest ==> !Before(slabs[k], slabs[e]);
      var best := if Before(slabs[x], slabs[e]) then x else e;
      forall k | k in ids ensures !Before(slabs[k], slabs[best]) {
        assert k == x || k in rest;
      }
      assert best in ids;
    }
  }
}
