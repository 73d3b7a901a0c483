/**
 Flushing a small thread-cache bin: the cached pointers that go are returned to the arenas they came
 from, one arena locked per pass, and the kept ones move up the stack.  Item i is the pointer at
 stack[top - 1 - i].
 */
module TcacheFlush {

  type Ptr = int
  type Extent = int
  type Arena = int

  /** One pass: the locked arena and the pointers freed to it, in order. */
  datatype Pass = Pass(arena: Arena, freed: seq<Ptr>)

  // ------------------------------------------------------------------ what the passes are

  /** Of the first n items, those of arena a (mine) or of any other arena, in order. */
  function Upto(s: seq<Ptr>, arenaOf: Ptr -> Arena, a: Arena, mine: bool, n: nat): (r: seq<Ptr>)
    requires n <= |s|
    ensures |r| <= n
  {
    if n == 0 then []
    else if (arenaOf(s[n - 1]) == a) == mine then Upto(s, arenaOf, a, mine, n - 1) + [s[n - 1]]
    else Upto(s, arenaOf, a, mine, n - 1)
  }

  function Select(s: seq<Ptr>, arenaOf: Ptr -> Arena, a: Arena, mine: bool): (r: seq<Ptr>)
    ensures |r| <= |s|
  {
    Upto(s, arenaOf, a, mine, |s|)
  }

  /** The item that opens a pass belongs to it. */
  lemma {:induction false} FirstGoes(s: seq<Ptr>, arenaOf: Ptr -> Arena, n: nat)
    requires 0 < n <= |s|
    ensures |Upto(s, arenaOf, arenaOf(s[0]), false, n)| < n
  {
    if n > 1 {
      FirstGoes(s, arenaOf, n - 1);
    }
  }

  function Passes(s: seq<Ptr>, arenaOf: Ptr -> Arena): seq<Pass>
    decreases |s|
  {
    if s == [] then []
    else
      var a := arenaOf(s[0]);
      FirstGoes(s, arenaOf, |s|);
      [Pass(a, Select(s, arenaOf, a, true))] + Passes(Select(s, arenaOf, a, false), arenaOf)
  }

  lemma PassesStep(s: seq<Ptr>, arenaOf: Ptr -> Arena)
    requires s != []
    ensures var a := arenaOf(s[0]);
      && |Select(s, arenaOf, a, false)| < |s|
      && Passes(s, arenaOf)
         == [Pass(a, Select(s, arenaOf, a, true))] + Passes(Select(s, arenaOf, a, false), arenaOf)
  {
    FirstGoes(s, arenaOf, |s|);
  }

  lemma MoreLeft(s: seq<Ptr>, t: seq<Ptr>, u: seq<Ptr>, p: Ptr)
    requires multiset(s) == multiset(t) + multiset(u)
    ensures multiset(s + [p]) == multiset(t + [p]) + multiset(u)
  {
  }

  lemma MoreRight(s: seq<Ptr>, t: seq<Ptr>, u: seq<Ptr>, p: Ptr)
    requires multiset(s) == multiset(t) + multiset(u)
    ensures multiset(s + [p]) == multiset(t) + multiset(u + [p])
  {
  }

  lemma {:induction false} UptoSplits(s: seq<Ptr>, arenaOf: Ptr -> Arena, a: Arena, n: nat)
    requires n <= |s|
    ensures multiset(s[..n])
            == multiset(Upto(s, arenaOf, a, true, n)) + multiset(Upto(s, arenaOf, a, false, n))
  {
    if n > 0 {
      UptoSplits(s, arenaOf, a, n - 1);
      var t, u, p := Upto(s, arenaOf, a, true, n - 1), Upto(s, arenaOf, a, false, n - 1), s[n - 1];
      assert s[..n] == s[..n - 1] + [p];
      if arenaOf(p) == a {
        MoreLeft(s[..n - 1], t, u, p);
        assert Upto(s, arenaOf, a, true, n) == t + [p] && Upto(s, arenaOf, a, false, n) == u;
      } else {
        MoreRight(s[..n - 1], t, u, p);
        assert Upto(s, arenaOf, a, true, n) == t && Upto(s, arenaOf, a, false, n) == u + [p];
      }
    }
  }

  lemma {:induction false} UptoMember(s: seq<Ptr>, arenaOf: Ptr -> Arena, a: Arena, mine: bool, n: nat,
                                      p: Ptr)
    requires n <= |s|
    ensures p in Upto(s, arenaOf, a, mine, n) <==> p in s[..n] && (arenaOf(p) == a) == mine
  {
    if n > 0 {
      UptoMember(s, arenaOf, a, mine, n - 1, p);
      assert s[..n] == s[..n - 1] + [s[n - 1]];
    }
  }

  lemma SelectMember(s: seq<Ptr>, arenaOf: Ptr -> Arena, a: Arena, mine: bool, p: Ptr)
    ensures p in Select(s, arenaOf, a, mine) <==> p in s && (arenaOf(p) == a) == mine
  {
    UptoMember(s, arenaOf, a, mine, |s|, p);
    assert s[..|s|] == s;
  }

  lemma {:induction false} UptoPrefix(s: seq<Ptr>, t: seq<Ptr>, arenaOf: Ptr -> Arena, b: Arena, n: nat)
    requires n <= |s| && n <= |t| && s[..n] == t[..n]
    ensures Upto(s, arenaOf, b, true, n) == Upto(t, arenaOf, b, true, n)
  {
    if n > 0 {
      assert s[..n][..n - 1] == s[..n - 1] && t[..n][..n - 1] == t[..n - 1];
      assert s[..n][n - 1] == t[..n][n - 1];
      UptoPrefix(s, t, arenaOf, b, n - 1);
    }
  }

  /** Picking out one arena is not disturbed by having dropped another before. */
  lemma {:induction false} SelectTwice(s: seq<Ptr>, arenaOf: Ptr -> Arena, a: Arena, b: Arena, n: nat)
    requires a != b && n <= |s|
    ensures Select(Upto(s, arenaOf, a, false, n), arenaOf, b, true) == Upto(s, arenaOf, b, true, n)
  {
    if n > 0 {
      SelectTwice(s, arenaOf, a, b, n - 1);
      var t := Upto(s, arenaOf, a, false, n - 1);
      var p := s[n - 1];
      if arenaOf(p) != a {
        assert (t + [p])[..|t|] == t[..|t|];
        UptoPrefix(t + [p], t, arenaOf, b, |t|);
        assert Upto(s, arenaOf, a, false, n) == t + [p];
      } else {
        assert Upto(s, arenaOf, a, false, n) == t;
      }
    }
  }

  function AllFreed(passes: seq<Pass>): seq<Ptr> {
    if passes == [] then [] else passes[0].freed + AllFreed(passes[1..])
  }

  /** Every flushed pointer is freed exactly once. */
  lemma {:induction false} EachOnce(s: seq<Ptr>, arenaOf: Ptr -> Arena)
    ensures multiset(AllFreed(Passes(s, arenaOf))) == multiset(s)
    decreases |s|
  {
    if s != [] {
      var a := arenaOf(s[0]);
      PassesStep(s, arenaOf);
      UptoSplits(s, arenaOf, a, |s|);
      assert s[..|s|] == s;
      EachOnce(Select(s, arenaOf, a, false), arenaOf);
      assert Passes(s, arenaOf)[1..] == Passes(Select(s, arenaOf, a, false), arenaOf);
    }
  }

  lemma DeferredElsewhere(s: seq<Ptr>, arenaOf: Ptr -> Arena, a: Arena)
    ensures forall p :: p in Select(s, arenaOf, a, false) ==> p in s && arenaOf(p) != a
  {
    forall p | p in Select(s, arenaOf, a, false) ensures p in s && arenaOf(p) != a {
      SelectMember(s, arenaOf, a, false, p);
    }
  }

  /** The pass frees all pointers of its arena in their order, and there is one. */
  ghost predicate PassOk(s: seq<Ptr>, arenaOf: Ptr -> Arena, pass: Pass) {
    && pass.freed == Select(s, arenaOf, pass.arena, true)
    && exists k :: 0 <= k < |s| && arenaOf(s[k]) == pass.arena
  }

  lemma LaterPass(s: seq<Ptr>, arenaOf: Ptr -> Arena, a: Arena, pass: Pass)
    requires PassOk(Select(s, arenaOf, a, false), arenaOf, pass)
    ensures PassOk(s, arenaOf, pass) && pass.arena != a
  {
    var rest := Select(s, arenaOf, a, false);
    var k :| 0 <= k < |rest| && arenaOf(rest[k]) == pass.arena;
    SelectMember(s, arenaOf, a, false, rest[k]);
    SelectTwice(s, arenaOf, a, pass.arena, |s|);
  }

  lemma FrontPass(s: seq<Ptr>, arenaOf: Ptr -> Arena, first: Pass, tail: seq<Pass>)
    requires s != [] && first == Pass(arenaOf(s[0]), Select(s, arenaOf, arenaOf(s[0]), true))
    requires forall k :: 0 <= k < |tail| ==> PassOk(s, arenaOf, tail[k]) && tail[k].arena != first.arena
    requires forall k, l :: 0 <= k < l < |tail| ==> tail[k].arena != tail[l].arena
    ensures var ps := [first] + tail;
      && (forall k :: 0 <= k < |ps| ==> PassOk(s, arenaOf, ps[k]))
      && (forall k, l :: 0 <= k < l < |ps| ==> ps[k].arena != ps[l].arena)
  {
    var ps := [first] + tail;
    assert PassOk(s, arenaOf, first);
    forall k | 0 <= k < |ps| ensures PassOk(s, arenaOf, ps[k]) {
      assert ps[k] == if k == 0 then first else tail[k - 1];
    }
  }

  /** Each arena is locked in at most one pass, which frees all it has here in order. */
  lemma {:induction false} OnePassPerArena(s: seq<Ptr>, arenaOf: Ptr -> Arena)
    ensures var ps := Passes(s, arenaOf);
      && (forall k :: 0 <= k < |ps| ==> PassOk(s, arenaOf, ps[k]))
      && (forall k, l :: 0 <= k < l < |ps| ==> ps[k].arena != ps[l].arena)
    decreases |s|
  {
    if s != [] {
      var ps := Passes(s, arenaOf);
      var a := arenaOf(s[0]);
      var rest := Select(s, arenaOf, a, false);
      PassesStep(s, arenaOf);
      OnePassPerArena(rest, arenaOf);
      var tail := Passes(rest, arenaOf);
      forall k | 0 <= k < |tail| ensures PassOk(s, arenaOf, tail[k]) && tail[k].arena != a {
        LaterPass(s, arenaOf, a, tail[k]);
      }
      FrontPass(s, arenaOf, Pass(a, Select(s, arenaOf, a, true)), tail);
    }
  }

  // ------------------------------------------------------------------ the flush

  class CacheBin {
    const stack: array<Ptr>
    const top: nat
    var ncached: nat
    var lowWater: int
    var requests: nat              // tstats.nrequests, not yet merged
    const home: Arena
    const extentOf: Ptr -> Extent
    const arenaOf: Extent -> Arena
    ghost const owner: Ptr -> Arena

    ghost predicate Valid()
      reads this`ncached
    {
      ncached <= top <= stack.Length && forall p: Ptr :: owner(p) == arenaOf(extentOf(p))
    }

    constructor (capacity: nat, home: Arena, extentOf: Ptr -> Extent, arenaOf: Extent -> Arena)
      ensures Valid() && fresh(stack) && ncached == 0 && top == capacity && lowWater == 0
      ensures requests == 0 && this.home == home && this.extentOf == extentOf && this.arenaOf == arenaOf
    {
      stack := new Ptr[capacity](_ => 0);
      top, ncached, lowWater, requests := capacity, 0, 0, 0;
      this.home, this.extentOf, this.arenaOf := home, extentOf, arenaOf;
      owner := (p: Ptr) => arenaOf(extentOf(p));
    }

    /** The pointer at avail - 1 - i. */
    function Item(i: nat): Ptr
      reads stack
      requires i < top <= stack.Length
    {
      stack[top - 1 - i]
    }

    /** The first n items, the ones a flush lets go. */
    function Items(n: nat): (s: seq<Ptr>)
      reads stack
      requires n <= top <= stack.Length
      ensures |s| == n && Still(s, 0, n)
    {
      if n == 0 then [] else Items(n - 1) + [Item(n - 1)]
    }

    /** Items b to e-1 are those of s. */
    ghost predicate Still(s: seq<Ptr>, b: nat, e: nat)
      reads stack
    {
      e <= |s| && e <= top <= stack.Length && forall k :: b <= k < e ==> Item(k) == s[k]
    }

    /** Items b to e-1 have their extents looked up. */
    ghost predicate Looked(itemExtent: array<Extent>, b: nat, e: nat)
      reads stack, itemExtent
    {
      && e <= itemExtent.Length && e <= top <= stack.Length
      && forall k :: b <= k < e ==> itemExtent[k] == extentOf(Item(k))
    }

    /** Only the cells of the first n items differ from st. */
    ghost predicate Only(st: seq<Ptr>, n: nat)
      reads stack
    {
      && n <= top <= stack.Length == |st|
      && forall k :: 0 <= k < stack.Length && !(top - n <= k < top) ==> stack[k] == st[k]
    }

    /** tcache_bin_flush_small: keep rem pointers.  `merged` counts how often, and with how many
        requests, the statistics of the home arena were brought up to date. */
    method FlushSmall(rem: nat) returns (passes: seq<Pass>, merged: nat, requestsMerged: nat)
      requires Valid() && rem <= ncached
      modifies this`ncached, this`lowWater, this`requests, stack
      ensures Valid() && ncached == rem
      ensures passes == Passes(old(Items(ncached - rem)), owner)
      ensures stack[top - rem..top] == old(stack[top - ncached..top - ncached + rem])
      ensures stack[top..] == old(stack[top..])
      ensures lowWater == if rem < old(lowWater) then rem else old(lowWater)
      ensures merged == 1 && requestsMerged == old(requests) && requests == 0
    {
      ghost var spec := (s: seq<Ptr>) => Passes(s, owner);
      forall s: seq<Ptr> ensures IsPasses(spec, s) {
      }
      passes, merged, requestsMerged := Flush(rem, spec, Items(ncached - rem));
    }

    /** `spec` stands for the passes of a sequence of items. */
    ghost predicate IsPasses(spec: seq<Ptr> -> seq<Pass>, s: seq<Ptr>) { spec(s) == Passes(s, owner) }

    method Flush(rem: nat, ghost spec: seq<Ptr> -> seq<Pass>, ghost all: seq<Ptr>)
      returns (passes: seq<Pass>, merged: nat, requestsMerged: nat)
      requires Valid() && rem <= ncached && forall s: seq<Ptr> :: IsPasses(spec, s)
      requires |all| == ncached - rem && Still(all, 0, |all|)
      modifies this`ncached, this`lowWater, this`requests, stack
      ensures Valid() && ncached == rem && passes == spec(all)
      ensures stack[top - rem..top] == old(stack[top - ncached..top - ncached + rem])
      ensures stack[top..] == old(stack[top..])
      ensures lowWater == if rem < old(lowWater) then rem else old(lowWater)
      ensures merged == 1 && requestsMerged == old(requests) && requests == 0
    {
      var nflush := ncached - rem;
      var itemExtent := LookUp(nflush);
      passes, merged, requestsMerged := FlushLoop(nflush, itemExtent, spec, all);
      if merged == 0 {
        merged, requestsMerged := 1, requests;
        requests := 0;
      }
      OnlySlices(old(stack[..]), nflush, rem);
      MoveKept(rem);
      ncached := rem;
      if ncached < lowWater {
        lowWater := ncached;
      }
    }

    lemma OnlySlices(st: seq<Ptr>, n: nat, rem: nat)
      requires Valid() && Only(st, n) && n + rem <= ncached
      ensures stack[top - ncached..top - ncached + rem] == st[top - ncached..top - ncached + rem]
      ensures stack[top..] == st[top..]
    {
    }

    /** The extent of every item, looked up once. */
    method LookUp(n: nat) returns (itemExtent: array<Extent>)
      requires Valid() && n <= ncached
      ensures fresh(itemExtent) && Looked(itemExtent, 0, n)
    {
      itemExtent := new Extent[n];
      for i := 0 to n
        invariant Looked(itemExtent, 0, i)
      {
        itemExtent[i] := extentOf(stack[top - 1 - i]);
      }
    }

    /** The flush loop: one pass after another until nothing is left. */
    method FlushLoop(n: nat, itemExtent: array<Extent>, ghost spec: seq<Ptr> -> seq<Pass>,
                     ghost all: seq<Ptr>)
      returns (passes: seq<Pass>, merged: nat, requestsMerged: nat)
      requires Valid() && n <= ncached && Looked(itemExtent, 0, n) && itemExtent != stack
      requires |all| == n && Still(all, 0, n) && forall s: seq<Ptr> :: IsPasses(spec, s)
      modifies this`requests, stack, itemExtent
      ensures passes == spec(all)
      ensures merged <= 1 && requestsMerged == (if merged == 0 then 0 else old(requests))
      ensures requests == if merged == 0 then old(requests) else 0
      ensures Only(old(stack[..]), n)
    {
      var nflush := n;
      passes, merged, requestsMerged := [], 0, 0;
      ghost var s, st := all, stack[..];
      while nflush > 0
        invariant 0 <= nflush <= n && Only(st, n) && Looked(itemExtent, 0, nflush)
        invariant |s| == nflush && Still(s, 0, nflush) && spec(all) == passes + spec(s)
        invariant merged <= 1 && requestsMerged == (if merged == 0 then 0 else old(requests))
        invariant requests == if merged == 0 then old(requests) else 0
        invariant merged == 1 ==> Foreign(s)
      {
        ghost var rest;
        var pass, ndeferred;
        pass, ndeferred, rest := FlushPass(nflush, itemExtent, spec, s, st, n);
        if pass.arena == home {
          // assert(!merged_stats) in the source
          assert merged == 0;
          merged, requestsMerged := merged + 1, requestsMerged + requests;
          requests := 0;
        }
        assert passes + ([pass] + spec(rest)) == passes + [pass] + spec(rest);
        passes := passes + [pass];
        nflush, s := ndeferred, rest;
      }
      assert IsPasses(spec, s) && s == [];
    }

    /** None of the pointers came from the home arena. */
    ghost predicate Foreign(s: seq<Ptr>) { forall k :: 0 <= k < |s| ==> owner(s[k]) != home }

    /** The body of the flush loop: lock the arena of the first item and run one pass. */
    method FlushPass(nflush: nat, itemExtent: array<Extent>, ghost spec: seq<Ptr> -> seq<Pass>,
                     ghost s: seq<Ptr>, ghost st: seq<Ptr>, ghost n: nat)
      returns (pass: Pass, ndeferred: nat, ghost rest: seq<Ptr>)
      requires Valid() && 0 < nflush <= n <= ncached && Looked(itemExtent, 0, nflush)
      requires itemExtent != stack && |s| == nflush && Still(s, 0, nflush) && Only(st, n)
      requires forall t: seq<Ptr> :: IsPasses(spec, t)
      modifies stack, itemExtent
      ensures |rest| == ndeferred < nflush && Still(rest, 0, ndeferred) && Looked(itemExtent, 0, ndeferred)
      ensures pass.arena == owner(s[0]) && spec(s) == [pass] + spec(rest) && Only(st, n)
      ensures (Foreign(s) || pass.arena == home) ==> Foreign(rest)
    {
      var binArena := arenaOf(itemExtent[0]);
      assert s[0] == Item(0) && binArena == owner(s[0]);
      var freed;
      freed, ndeferred := OnePass(nflush, binArena, itemExtent, s, st, n);
      PassesStep(s, owner);
      rest := Select(s, owner, binArena, false);
      assert IsPasses(spec, s) && IsPasses(spec, rest);
      DeferredElsewhere(s, owner, binArena);
      forall k | 0 <= k < |rest|
        ensures owner(rest[k]) != binArena && (Foreign(s) ==> owner(rest[k]) != home)
      {
        assert rest[k] in rest;
      }
      pass := Pass(binArena, freed);
    }

    /** One pass of the flush loop: free what belongs to the arena, move the rest down in place. */
    method OnePass(nflush: nat, arena: Arena, itemExtent: array<Extent>, ghost s: seq<Ptr>,
                   ghost st: seq<Ptr>, ghost n: nat)
      returns (freed: seq<Ptr>, ndeferred: nat)
      requires Valid() && nflush <= n <= ncached && Looked(itemExtent, 0, nflush)
      requires itemExtent != stack && |s| == nflush && Still(s, 0, nflush) && Only(st, n)
      modifies stack, itemExtent
      ensures freed == Select(s, owner, arena, true)
      ensures ndeferred == |Select(s, owner, arena, false)|
      ensures Still(Select(s, owner, arena, false), 0, ndeferred)
      ensures Looked(itemExtent, 0, ndeferred) && Only(st, n)
    {
      freed, ndeferred := [], 0;
      var i := 0;
      while i < nflush
        invariant 0 <= ndeferred <= i <= nflush
        invariant freed == Upto(s, owner, arena, true, i)
        invariant ndeferred == |Upto(s, owner, arena, false, i)|
        invariant Still(Upto(s, owner, arena, false, i), 0, ndeferred)
        invariant Looked(itemExtent, 0, ndeferred) && Looked(itemExtent, i, nflush)
        invariant Still(s, i, nflush) && Only(st, n)
      {
        var ptr := stack[top - 1 - i];
        assert ptr == Item(i) == s[i];
        var extent := itemExtent[i];
        if arenaOf(extent) == arena {
          freed := freed + [ptr];
        } else {
          Defer(ndeferred, i, nflush, ptr, extent, itemExtent, Upto(s, owner, arena, false, i), s, st, n);
          ndeferred := ndeferred + 1;
        }
        i := i + 1;
      }
    }

    /** Stash an item for a later pass. */
    method Defer(m: nat, i: nat, nflush: nat, ptr: Ptr, extent: Extent, itemExtent: array<Extent>,
                 ghost t: seq<Ptr>, ghost s: seq<Ptr>, ghost st: seq<Ptr>, ghost n: nat)
      requires Valid() && m <= i < nflush <= n <= ncached && itemExtent != stack && |t| == m
      requires Still(t, 0, m) && Still(s, i, nflush) && Only(st, n)
      requires Looked(itemExtent, 0, m) && Looked(itemExtent, i, nflush) && extent == extentOf(ptr)
      modifies stack, itemExtent
      ensures Still(t + [ptr], 0, m + 1) && Still(s, i + 1, nflush) && Only(st, n)
      ensures Looked(itemExtent, 0, m + 1) && Looked(itemExtent, i + 1, nflush)
    {
      stack[top - 1 - m] := ptr;
      itemExtent[m] := extent;
    }

    /** The memmove at the end. */
    method MoveKept(rem: nat)
      requires Valid() && rem <= ncached
      modifies stack
      ensures stack[top - rem..top] == old(stack[top - ncached..top - ncached + rem])
      ensures stack[top..] == old(stack[top..])
    {
      forall k | 0 <= k < rem {
        stack[top - rem + k] := stack[top - ncached + k];
      }
    }
  }
}
