/**
 One round of tasks->run on all threads of a gang: how submit cuts [start, end) into ranges,
 and the work-stealing loop over their shared cursors, in every interleaving.
 */
module WorkSteal {
  import opened Common

  datatype Range = Range(b: nat, e: nat)

  // ------------------------------------------------------------------ cutting the ranges

  /** The ranges cover [start, end) without gap or overlap, in order. */
  ghost predicate Tiles(rs: seq<Range>, start: nat, end: nat) {
    if rs == [] then start == end
    else rs[|rs| - 1].b <= rs[|rs| - 1].e == end && Tiles(rs[..|rs| - 1], start, rs[|rs| - 1].b)
  }

  predicate In(r: Range, x: nat) { r.b <= x < r.e }

  ghost predicate Covered(rs: seq<Range>, x: nat) { exists t: nat :: t < |rs| && In(rs[t], x) }

  /** Every index of [start, end) belongs to exactly one of the ranges, and no other index does. */
  ghost predicate Partition(rs: seq<Range>, start: nat, end: nat) {
    && (forall t: nat, x: nat :: t < |rs| && In(rs[t], x) ==> start <= x < end)
    && (forall x: nat :: start <= x < end ==> Covered(rs, x))
    && (forall t: nat, u: nat, x: nat ::
          t < |rs| && u < |rs| && In(rs[t], x) && In(rs[u], x) ==> t == u)
  }

  lemma {:induction false} TilesPartition(rs: seq<Range>, start: nat, end: nat)
    requires Tiles(rs, start, end)
    ensures start <= end && Partition(rs, start, end)
  {
    if rs != [] {
      var last := |rs| - 1;
      var init := rs[..last];
      TilesPartition(init, start, rs[last].b);
      forall t: nat, x: nat | t < |rs| && In(rs[t], x)
        ensures start <= x < end && (x < rs[last].b <==> t < last)
      {
        assert t < last ==> In(init[t], x);
      }
      forall x: nat | start <= x < end ensures Covered(rs, x) {
        if x < rs[last].b {
          assert Covered(init, x);
          var t: nat :| t < |init| && In(init[t], x);
          assert In(rs[t], x);
        } else {
          assert In(rs[last], x);
        }
      }
      forall t: nat, u: nat, x: nat | t < |rs| && u < |rs| && In(rs[t], x) && In(rs[u], x)
        ensures t == u
      {
        if t < last {
          assert In(init[t], x) && In(init[u], x);
        }
      }
    }
  }

  /** submit: how many ranges, and which.  `granular` is positive: the source divides by it. */
  method CutRanges(start: nat, end: nat, granular: nat, num: nat) returns (ranges: seq<Range>)
    requires start <= end && granular > 0
    ensures |ranges| <= num && (|ranges| - 1) * granular < end - start
    ensures |ranges| == num || end - start <= |ranges| * granular
    ensures start == end || num > 0 ==> Tiles(ranges, start, end)
    ensures forall t, u :: 0 <= t <= u < |ranges| ==>
              0 <= (ranges[t].e - ranges[t].b) - (ranges[u].e - ranges[u].b) <= 1
  {
    var blocks := (end - start + granular - 1) / granular;
    var n := if blocks < num then blocks else num;
    BlockCount(end - start, granular, n);
    if n == 0 {
      return [];
    }
    var sz := BalancedSizes(end - start, n);
    ranges := LayOut(start, sz);
  }

  /** Ranges of the given sizes, one after the other. */
  method LayOut(start: nat, sz: seq<nat>) returns (ranges: seq<Range>)
    ensures |ranges| == |sz| && Tiles(ranges, start, start + Total(sz))
    ensures forall t :: 0 <= t < |sz| ==> ranges[t].e - ranges[t].b == sz[t]
  {
    var b := start;
    ranges := [];
    for i := 0 to |sz|
      invariant |ranges| == i && b == start + Total(sz[..i])
      invariant Tiles(ranges, start, b)
      invariant forall t :: 0 <= t < i ==> ranges[t].e - ranges[t].b == sz[t]
    {
      ghost var before := ranges;
      ranges := ranges + [Range(b, b + sz[i])];
      assert ranges[..|ranges| - 1] == before;
      assert sz[..i + 1][..i] == sz[..i];
      b := b + sz[i];
    }
    assert sz[..|sz|] == sz;
  }

  function Total(s: seq<nat>): nat {
    if s == [] then 0 else Total(s[..|s| - 1]) + s[|s| - 1]
  }

  /** The first len % n sizes get one index more than the others, which get len / n. */
  method BalancedSizes(len: nat, n: nat) returns (sz: seq<nat>)
    requires n > 0
    ensures |sz| == n && Total(sz) == len
    ensures forall t, u :: 0 <= t <= u < n ==> sz[u] <= sz[t] <= sz[u] + 1
  {
    var pn, extra := len / n, len % n;
    sz := seq(n, _ => pn);
    var i := 0;
    while i < extra
      invariant 0 <= i <= extra && |sz| == n
      invariant forall t :: 0 <= t < n ==> sz[t] == if t < i then pn + 1 else pn
    {
      sz := sz[i := sz[i] + 1];
      i := i + 1;
    }
    TwoSizes(sz, pn, extra);
  }

  lemma {:induction false} TwoSizes(sz: seq<nat>, pn: nat, extra: nat)
    requires forall t :: 0 <= t < |sz| ==> sz[t] == if t < extra then pn + 1 else pn
    ensures Total(sz) == |sz| * pn + if extra < |sz| then extra else |sz|
  {
    if sz != [] {
      TwoSizes(sz[..|sz| - 1], pn, extra);
      assert |sz| * pn == (|sz| - 1) * pn + pn;
    }
  }

  lemma BlockCount(len: nat, granular: nat, n: nat)
    requires granular > 0 && n <= (len + granular - 1) / granular
    ensures (n - 1) * granular < len
    ensures n == (len + granular - 1) / granular ==> len <= n * granular
    ensures n == 0 <== len == 0
  {
    var m := len + granular - 1;
    var blocks := m / granular;
    assert m == blocks * granular + m % granular;
    assert (blocks - 1) * granular == blocks * granular - granular;
    assert (n - 1) * granular <= (blocks - 1) * granular;
    if len == 0 {
      assert blocks == 0;
    }
  }

  // ------------------------------------------------------------------ the stealing loop

  /** A thread works through the ranges starting with its own; `o` counts the ranges it has left
      behind.  It is about to claim a chunk, or is executing indices cur..end-1 of a chunk. */
  datatype Thread = Claim(o: nat) | Exec(o: nat, cur: nat, end: nat) | Done

  /** The shared cursors and the threads, with two histories: the indices executed so far and,
      for each range, the threads that found it exhausted. */
  datatype State = State(ranges: seq<Range>, chunk: nat, b: seq<nat>, threads: seq<Thread>,
                         executed: multiset<nat>, gaveUp: seq<set<nat>>)

  predicate WellSized(s: State) {
    |s.b| == |s.threads| == |s.gaveUp| == |s.ranges|
  }

  function Init(ranges: seq<Range>, chunk: nat): State {
    State(ranges, chunk, seq(|ranges|, t requires 0 <= t < |ranges| => ranges[t].b),
          seq(|ranges|, _ => Claim(0)), multiset{}, seq(|ranges|, _ => {}))
  }

  /** The range that thread i works on after leaving o ranges behind. */
  function Target(i: nat, o: nat, n: nat): (t: nat)
    requires i < n && o < n
    ensures t < n && t == if i + o < n then i + o else i + o - n
  {
    (i + o) % n
  }

  /** One atomic step of thread i: a fetch-and-add on a cursor, or f on one index. */
  function Step(s: State, i: nat): (s': State)
    requires WellSized(s) && i < |s.threads|
    ensures WellSized(s') && s'.ranges == s.ranges && s'.chunk == s.chunk
  {
    match s.threads[i]
    case Done => s
    case Claim(o) =>
      if o >= |s.ranges| then s else
      var t := Target(i, o, |s.ranges|);
      var from, e := s.b[t], s.ranges[t].e;
      var s1 := s.(b := s.b[t := from + s.chunk]);
      if from >= e then
        s1.(threads := s.threads[i := if o + 1 == |s.ranges| then Done else Claim(o + 1)],
            gaveUp := s.gaveUp[t := s.gaveUp[t] + {i}])
      else
        s1.(threads := s.threads[i := Exec(o, from, if from + s.chunk > e then e else from + s.chunk)])
    case Exec(o, cur, end) =>
      s.(threads := s.threads[i := if cur + 1 < end then Exec(o, cur + 1, end) else Claim(o)],
         executed := s.executed + multiset{cur})
  }

  function Run(s: State, picks: seq<nat>): (s': State)
    requires WellSized(s)
    ensures WellSized(s') && s'.ranges == s.ranges && s'.chunk == s.chunk
  {
    if picks == [] then s
    else
      var before := Run(s, picks[..|picks| - 1]);
      var i := picks[|picks| - 1];
      if i < |s.ranges| then Step(before, i) else before
  }

  predicate Pending(s: State, i: nat, x: nat)
    requires WellSized(s) && i < |s.ranges|
  {
    s.threads[i].Exec? && s.threads[i].cur <= x < s.threads[i].end
  }

  ghost predicate Held(s: State, x: nat)
    requires WellSized(s)
  {
    exists i: nat :: i < |s.ranges| && Pending(s, i, x)
  }

  /** How many ranges thread i has left behind. */
  function Behind(s: State, i: nat): nat
    requires WellSized(s) && i < |s.ranges|
  {
    if s.threads[i].Done? then |s.ranges| else s.threads[i].o
  }

  /** Thread i has been at range t and found it exhausted. */
  predicate Passed(s: State, i: nat, t: nat)
    requires WellSized(s) && i < |s.ranges| && t < |s.ranges|
  {
    (if i <= t then t - i else t + |s.ranges| - i) < Behind(s, i)
  }

  ghost predicate ThreadOk(s: State, i: nat)
    requires WellSized(s) && i < |s.ranges|
  {
    && (!s.threads[i].Done? ==> s.threads[i].o < |s.ranges|)
    && (s.threads[i].Exec? ==>
          var t := Target(i, s.threads[i].o, |s.ranges|);
          s.ranges[t].b <= s.threads[i].cur < s.threads[i].end
          && s.threads[i].end <= s.ranges[t].e && s.threads[i].end <= s.b[t])
  }

  ghost predicate RangeOk(s: State, t: nat)
    requires WellSized(s) && t < |s.ranges|
  {
    && s.ranges[t].b <= s.b[t]
    && (forall i: nat :: i in s.gaveUp[t] <==> i < |s.ranges| && Passed(s, i, t))
    && (s.gaveUp[t] != {} ==> s.b[t] >= s.ranges[t].e)
    && s.b[t] <= s.ranges[t].e + s.chunk * (1 + |s.gaveUp[t]|)
  }

  /** An index below its range's cursor was executed once or is in one thread's chunk; an index
      at or above the cursor was neither. */
  ghost predicate IndexOk(s: State, x: nat)
    requires WellSized(s)
  {
    && s.executed[x] <= 1
    && (forall i: nat, j: nat ::
          i < |s.ranges| && j < |s.ranges| && Pending(s, i, x) && Pending(s, j, x) ==> i == j)
    && (Held(s, x) ==> s.executed[x] == 0)
    && (forall t: nat :: t < |s.ranges| && In(s.ranges[t], x) ==>
          if x < s.b[t] then s.executed[x] == 1 || Held(s, x)
          else s.executed[x] == 0 && !Held(s, x))
    && (!Covered(s.ranges, x) ==> s.executed[x] == 0)
  }

  ghost predicate Inv(s: State, start: nat, end: nat) {
    && WellSized(s) && s.chunk > 0 && Tiles(s.ranges, start, end)
    && (forall i: nat :: i < |s.ranges| ==> ThreadOk(s, i))
    && (forall t: nat :: t < |s.ranges| ==> RangeOk(s, t))
    && (forall x: nat :: IndexOk(s, x))
  }

  lemma ClaimKeeps(s: State, i: nat, start: nat, end: nat)
    requires Inv(s, start, end) && i < |s.ranges| && s.threads[i].Claim?
    ensures Inv(Step(s, i), start, end)
  {
    var s', n := Step(s, i), |s.ranges|;
    TilesPartition(s.ranges, start, end);
    assert ThreadOk(s, i) && RangeOk(s, Target(i, s.threads[i].o, n));
    forall j: nat | j < n ensures ThreadOk(s', j) && RangeOk(s', j) {
      assert ThreadOk(s, j) && RangeOk(s, j);
      ClaimThread(s, i, j);
      ClaimRange(s, i, j);
    }
    forall x: nat ensures IndexOk(s', x) {
      assert IndexOk(s, x);
      ClaimIndex(s, i, x, start, end);
    }
  }

  lemma ClaimThread(s: State, i: nat, j: nat)
    requires WellSized(s) && i < |s.ranges| && s.threads[i].Claim? && s.chunk > 0
    requires ThreadOk(s, i) && RangeOk(s, Target(i, s.threads[i].o, |s.ranges|))
    requires j < |s.ranges| && ThreadOk(s, j)
    ensures ThreadOk(Step(s, i), j)
  {
  }

  lemma ClaimRange(s: State, i: nat, u: nat)
    requires WellSized(s) && i < |s.ranges| && s.threads[i].Claim? && s.chunk > 0
    requires ThreadOk(s, i) && u < |s.ranges| && RangeOk(s, u)
    ensures RangeOk(Step(s, i), u)
  {
    var s' := Step(s, i);
    assert forall j: nat :: j < |s.ranges| && j != i ==> (Passed(s', j, u) <==> Passed(s, j, u));
    if u == Target(i, s.threads[i].o, |s.ranges|) {
      MoreGivenUp(s.chunk, |s.gaveUp[u]|);
    } else {
      assert Passed(s', i, u) <==> Passed(s, i, u);
    }
  }

  lemma MoreGivenUp(chunk: nat, n: nat)
    ensures chunk * (2 + n) == chunk * (1 + n) + chunk
    ensures chunk * (1 + n) >= chunk
  {
    MulLe(1, 1 + n, chunk);
    assert chunk * (1 + n) == (1 + n) * chunk;
  }

  lemma ClaimIndex(s: State, i: nat, x: nat, start: nat, end: nat)
    requires WellSized(s) && i < |s.ranges| && s.threads[i].Claim? && s.chunk > 0
    requires ThreadOk(s, i) && RangeOk(s, Target(i, s.threads[i].o, |s.ranges|))
    requires Partition(s.ranges, start, end) && IndexOk(s, x)
    ensures IndexOk(Step(s, i), x)
  {
    var s', n := Step(s, i), |s.ranges|;
    assert forall j: nat :: j < n && j != i ==> (Pending(s', j, x) <==> Pending(s, j, x));
    if Pending(s', i, x) {
      assert In(s.ranges[Target(i, s.threads[i].o, n)], x) && !Held(s, x) && Held(s', x);
    } else {
      assert Held(s', x) <==> Held(s, x);
    }
  }

  lemma ExecKeeps(s: State, i: nat, start: nat, end: nat)
    requires Inv(s, start, end) && i < |s.ranges| && s.threads[i].Exec?
    ensures Inv(Step(s, i), start, end)
  {
    var s', n := Step(s, i), |s.ranges|;
    assert ThreadOk(s, i);
    forall j: nat | j < n ensures ThreadOk(s', j) {
      assert ThreadOk(s, j);
    }
    forall u: nat | u < n ensures RangeOk(s', u) {
      assert RangeOk(s, u);
      assert forall j: nat :: j < n ==> (Passed(s', j, u) <==> Passed(s, j, u));
    }
    var t := Target(i, s.threads[i].o, n);
    TilesPartition(s.ranges, start, end);
    forall x: nat ensures IndexOk(s', x) {
      assert IndexOk(s, x);
      assert forall j: nat :: j < n && j != i ==> (Pending(s', j, x) <==> Pending(s, j, x));
      if x == s.threads[i].cur {
        assert Pending(s, i, x) && Held(s, x) && !Held(s', x);
        assert In(s.ranges[t], x);
      } else {
        assert Pending(s', i, x) <==> Pending(s, i, x);
        assert Held(s', x) <==> Held(s, x);
      }
    }
  }

  /** In every interleaving, with cursors of unbounded size: no index is executed twice, none outside
      [start, end) at all, and every cursor stays within n + 1 chunks of the end of its range.  Once
      all threads are done every index of [start, end) has been executed exactly once. */
  lemma EveryIndexOnceUnbounded(ranges: seq<Range>, start: nat, end: nat, chunk: nat, picks: seq<nat>)
    requires Tiles(ranges, start, end) && chunk > 0
    ensures var s := Run(Init(ranges, chunk), picks);
      && (forall x: nat :: s.executed[x] <= (if start <= x < end then 1 else 0))
      && (forall t: nat :: t < |ranges| ==> s.b[t] <= ranges[t].e + (|ranges| + 1) * chunk)
      && ((forall i: nat :: i < |ranges| ==> s.threads[i].Done?) && ranges != [] ==>
            forall x: nat :: s.executed[x] == (if start <= x < end then 1 else 0))
  {
    InitOk(ranges, start, end, chunk);
    RunKeeps(Init(ranges, chunk), picks, start, end);
    var s := Run(Init(ranges, chunk), picks);
    forall x: nat
      ensures s.executed[x] <= (if start <= x < end then 1 else 0)
      ensures (forall i: nat :: i < |ranges| ==> s.threads[i].Done?) && ranges != [] ==>
                s.executed[x] == (if start <= x < end then 1 else 0)
    {
      IndexHistory(s, start, end, x);
    }
    forall t: nat | t < |ranges| ensures s.b[t] <= ranges[t].e + (|ranges| + 1) * chunk {
      CursorBound(s, start, end, t);
    }
  }

  // ------------------------------------------------------------------ cursors of 64 bits

  /** The same step on cursors of 64 bits: the cursor and the end of the chunk wrap. */
  function Step64(s: State, i: nat): (s': State)
    requires WellSized(s) && i < |s.threads|
    ensures WellSized(s') && s'.ranges == s.ranges && s'.chunk == s.chunk
  {
    if s.threads[i].Claim? && s.threads[i].o < |s.ranges| then
      var o, n := s.threads[i].o, |s.ranges|;
      var t := Target(i, o, n);
      var from, e := s.b[t], s.ranges[t].e;
      var next := (from + s.chunk) % RANGE;
      var s1 := s.(b := s.b[t := next]);
      if from >= e then
        s1.(threads := s.threads[i := if o + 1 == n then Done else Claim(o + 1)],
            gaveUp := s.gaveUp[t := s.gaveUp[t] + {i}])
      else
        var end := if next > e then e else next;
        s1.(threads := s.threads[i := if from < end then Exec(o, from, end) else Claim(o)])
    else Step(s, i)
  }

  function Run64(s: State, picks: seq<nat>): (s': State)
    requires WellSized(s)
    ensures WellSized(s') && s'.ranges == s.ranges && s'.chunk == s.chunk
  {
    if picks == [] then s
    else
      var before := Run64(s, picks[..|picks| - 1]);
      var i := picks[|picks| - 1];
      if i < |s.ranges| then Step64(before, i) else before
  }

  /** Nothing wraps while n + 1 chunks beyond the end of the indices fit 64 bits. */
  lemma StepFits(s: State, i: nat, start: nat, end: nat)
    requires Inv(s, start, end) && i < |s.ranges| && end + (|s.ranges| + 1) * s.chunk < RANGE
    ensures Step64(s, i) == Step(s, i)
  {
    assert ThreadOk(s, i);
    if s.threads[i].Claim? {
      var t := Target(i, s.threads[i].o, |s.ranges|);
      ClaimKeeps(s, i, start, end);
      CursorBound(Step(s, i), start, end, t);
      EndsInside(s.ranges, start, end, t);
    }
  }

  lemma EndsInside(rs: seq<Range>, start: nat, end: nat, t: nat)
    requires Tiles(rs, start, end) && t < |rs|
    ensures rs[t].e <= end
  {
    if t < |rs| - 1 {
      EndsInside(rs[..|rs| - 1], start, rs[|rs| - 1].b, t);
    }
  }

  lemma {:induction false} RunFits(s: State, picks: seq<nat>, start: nat, end: nat)
    requires Inv(s, start, end) && end + (|s.ranges| + 1) * s.chunk < RANGE
    ensures Run64(s, picks) == Run(s, picks)
  {
    if picks != [] {
      var before := Run(s, picks[..|picks| - 1]);
      RunFits(s, picks[..|picks| - 1], start, end);
      RunKeeps(s, picks[..|picks| - 1], start, end);
      if picks[|picks| - 1] < |s.ranges| {
        StepFits(before, picks[|picks| - 1], start, end);
      }
    }
  }

  /** In every interleaving, when n + 1 chunks beyond the end of the indices fit 64 bits: no index is
      executed twice, none outside [start, end) at all, and once all threads are done every index of
      [start, end) has been executed exactly once. */
  lemma EveryIndexOnce(ranges: seq<Range>, start: nat, end: nat, chunk: nat, picks: seq<nat>)
    requires Tiles(ranges, start, end) && chunk > 0 && end + (|ranges| + 1) * chunk < RANGE
    ensures var s := Run64(Init(ranges, chunk), picks);
      && (forall x: nat :: s.executed[x] <= (if start <= x < end then 1 else 0))
      && (forall t: nat :: t < |ranges| ==> s.b[t] <= ranges[t].e + (|ranges| + 1) * chunk < RANGE)
      && ((forall i: nat :: i < |ranges| ==> s.threads[i].Done?) && ranges != [] ==>
            forall x: nat :: s.executed[x] == (if start <= x < end then 1 else 0))
  {
    InitOk(ranges, start, end, chunk);
    RunFits(Init(ranges, chunk), picks, start, end);
    EveryIndexOnceUnbounded(ranges, start, end, chunk, picks);
    forall t: nat | t < |ranges| ensures ranges[t].e <= end {
      EndsInside(ranges, start, end, t);
    }
  }

  /** No thread stops while there is something to take: when one is done, each index has been executed or
      is in the chunk that another thread is working on. */
  lemma NobodyStopsEarly(ranges: seq<Range>, start: nat, end: nat, chunk: nat, picks: seq<nat>, i: nat, x: nat)
    requires Tiles(ranges, start, end) && chunk > 0 && end + (|ranges| + 1) * chunk < RANGE
    requires i < |ranges| && Run64(Init(ranges, chunk), picks).threads[i].Done? && start <= x < end
    ensures var s := Run64(Init(ranges, chunk), picks);
      s.executed[x] == 1 || exists j: nat :: j < |ranges| && j != i && Pending(s, j, x)
  {
    var s := Run64(Init(ranges, chunk), picks);
    InitOk(ranges, start, end, chunk);
    RunFits(Init(ranges, chunk), picks, start, end);
    RunKeeps(Init(ranges, chunk), picks, start, end);
    DoneLeavesNothing(s, start, end, i, x);
  }

  lemma DoneLeavesNothing(s: State, start: nat, end: nat, i: nat, x: nat)
    requires Inv(s, start, end) && i < |s.ranges| && s.threads[i].Done? && start <= x < end
    ensures s.executed[x] == 1 || exists j: nat :: j < |s.ranges| && j != i && Pending(s, j, x)
  {
    TilesPartition(s.ranges, start, end);
    assert IndexOk(s, x);
    assert Covered(s.ranges, x);
    var t: nat :| t < |s.ranges| && In(s.ranges[t], x);
    assert RangeOk(s, t) && Passed(s, i, t);
  }

  /** Two threads on the last two indices below 2^64 - 1, as submit cuts them. */
  function LastTwo(): seq<Range> { [Range(RANGE - 3, RANGE - 2), Range(RANGE - 2, RANGE - 1)] }

  lemma RunNext(s: State, picks: seq<nat>, i: nat)
    requires WellSized(s) && i < |s.ranges|
    ensures Run64(s, picks + [i]) == Step64(Run64(s, picks), i)
  {
    assert (picks + [i])[..|picks + [i]| - 1] == picks;
  }

  /** The state of that run, given the cursors, the threads and the histories. */
  function At(b0: nat, b1: nat, t0: Thread, t1: Thread, executed: multiset<nat>, gave0: set<nat>, gave1: set<nat>)
      : State
  {
    State(LastTwo(), 1, [b0, b1], [t0, t1], executed, [gave0, gave1])
  }

  lemma WorkerFirst()
    ensures var s0 := At(RANGE - 3, RANGE - 2, Claim(0), Claim(0), multiset{}, {}, {});
      Step64(Step64(Step64(s0, 1), 1), 1)
      == At(RANGE - 3, 0, Claim(0), Claim(1), multiset{RANGE - 2}, {}, {1})
  {
    var s0 := At(RANGE - 3, RANGE - 2, Claim(0), Claim(0), multiset{}, {}, {});
    assert Step64(s0, 1) == At(RANGE - 3, RANGE - 1, Claim(0), Exec(0, RANGE - 2, RANGE - 1), multiset{}, {}, {});
    assert Step64(Step64(s0, 1), 1)
           == At(RANGE - 3, RANGE - 1, Claim(0), Claim(0), multiset{RANGE - 2}, {}, {});
    assert Step64(Step64(Step64(s0, 1), 1), 1).gaveUp[1] == {1};
  }

  lemma ThenSubmitter(x: multiset<nat>)
    ensures var s0 := At(RANGE - 3, 0, Claim(0), Claim(1), x, {}, {1});
      Step64(Step64(Step64(s0, 0), 0), 0)
      == At(RANGE - 1, 0, Claim(1), Claim(1), x + multiset{RANGE - 3}, {0}, {1})
  {
    var s0 := At(RANGE - 3, 0, Claim(0), Claim(1), x, {}, {1});
    assert Step64(s0, 0) == At(RANGE - 2, 0, Exec(0, RANGE - 3, RANGE - 2), Claim(1), x, {}, {1});
    assert Step64(Step64(s0, 0), 0) == At(RANGE - 2, 0, Claim(0), Claim(1), x + multiset{RANGE - 3}, {}, {1});
    assert Step64(Step64(Step64(s0, 0), 0), 0).gaveUp[0] == {0};
  }

  lemma ThenSteals(x: multiset<nat>)
    ensures var s0 := At(RANGE - 1, 0, Claim(1), Claim(1), x, {0}, {1});
      Step64(Step64(s0, 0), 0) == At(RANGE - 1, 1, Claim(1), Claim(1), x + multiset{0}, {0}, {1})
  {
    var s0 := At(RANGE - 1, 0, Claim(1), Claim(1), x, {0}, {1});
    assert Step64(s0, 0) == At(RANGE - 1, 1, Exec(1, 0, 1), Claim(1), x, {0}, {1});
  }

  lemma RunThree(s: State, picks: seq<nat>, i: nat)
    requires WellSized(s) && i < |s.ranges|
    ensures Run64(s, picks + [i] + [i] + [i]) == Step64(Step64(Step64(Run64(s, picks), i), i), i)
  {
    RunNext(s, picks, i);
    RunNext(s, picks + [i], i);
    RunNext(s, picks + [i] + [i], i);
  }

  /** Near 2^64 an index outside the range is executed: thread 1 executes its index and gives up, which
      takes the cursor of its range around to 0, where thread 0 finds it when it comes to steal. */
  lemma WrapRunsOutside() returns (picks: seq<nat>)
    ensures Tiles(LastTwo(), RANGE - 3, RANGE - 1) && Run64(Init(LastTwo(), 1), picks).executed[0] == 1
  {
    assert LastTwo()[..1] == [Range(RANGE - 3, RANGE - 2)] && LastTwo()[..1][..0] == [];
    var s := Init(LastTwo(), 1);
    assert s == At(RANGE - 3, RANGE - 2, Claim(0), Claim(0), multiset{}, {}, {});
    var first := [] + [1] + [1] + [1];
    RunThree(s, [], 1);
    WorkerFirst();
    RunThree(s, first, 0);
    ThenSubmitter(multiset{RANGE - 2});
    var second := first + [0] + [0] + [0];
    RunNext(s, second, 0);
    RunNext(s, second + [0], 0);
    ThenSteals(multiset{RANGE - 2} + multiset{RANGE - 3});
    picks := second + [0] + [0];
  }

  lemma CursorBound(s: State, start: nat, end: nat, t: nat)
    requires Inv(s, start, end) && t < |s.ranges|
    ensures s.b[t] <= s.ranges[t].e + (|s.ranges| + 1) * s.chunk
  {
    assert RangeOk(s, t);
    FullHouse(s.gaveUp[t], |s.ranges|);
    Chunks(s.chunk, |s.gaveUp[t]|, |s.ranges|);
  }

  lemma Chunks(chunk: nat, g: nat, n: nat)
    requires g <= n
    ensures chunk * (1 + g) <= (n + 1) * chunk
  {
    assert chunk * (1 + g) <= chunk * (n + 1);
  }

  lemma IndexHistory(s: State, start: nat, end: nat, x: nat)
    requires Inv(s, start, end)
    ensures s.executed[x] <= (if start <= x < end then 1 else 0)
    ensures (forall i: nat :: i < |s.ranges| ==> s.threads[i].Done?) && s.ranges != [] ==>
              s.executed[x] == (if start <= x < end then 1 else 0)
  {
    TilesPartition(s.ranges, start, end);
    assert IndexOk(s, x);
    if s.ranges != [] && (forall i: nat :: i < |s.ranges| ==> s.threads[i].Done?) && start <= x < end {
      assert Covered(s.ranges, x) && !Held(s, x);
      var t: nat :| t < |s.ranges| && In(s.ranges[t], x);
      assert RangeOk(s, t) && Passed(s, 0, t);
    }
  }

  lemma InitOk(ranges: seq<Range>, start: nat, end: nat, chunk: nat)
    requires Tiles(ranges, start, end) && chunk > 0
    ensures Inv(Init(ranges, chunk), start, end)
  {
    var s := Init(ranges, chunk);
    TilesPartition(ranges, start, end);
    TilesOrdered(ranges, start, end);
    forall t: nat | t < |ranges| ensures RangeOk(s, t) {
    }
    forall x: nat ensures IndexOk(s, x) {
      assert !Held(s, x);
    }
  }

  lemma {:induction false} TilesOrdered(rs: seq<Range>, start: nat, end: nat)
    requires Tiles(rs, start, end)
    ensures forall t: nat :: t < |rs| ==> rs[t].b <= rs[t].e
  {
    if rs != [] {
      TilesOrdered(rs[..|rs| - 1], start, rs[|rs| - 1].b);
      assert forall t: nat :: t < |rs| - 1 ==> rs[t] == rs[..|rs| - 1][t];
    }
  }

  lemma {:induction false} RunKeeps(s: State, picks: seq<nat>, start: nat, end: nat)
    requires Inv(s, start, end)
    ensures Inv(Run(s, picks), start, end)
  {
    if picks != [] {
      RunKeeps(s, picks[..|picks| - 1], start, end);
      var before, i := Run(s, picks[..|picks| - 1]), picks[|picks| - 1];
      if i < |s.ranges| {
        match before.threads[i]
        case Claim(_) => ClaimKeeps(before, i, start, end);
        case Exec(_, _, _) => ExecKeeps(before, i, start, end);
        case Done =>
      }
    }
  }

  // ------------------------------------------------------------------ every schedule ends

  lemma {:induction false} TotalUpdate(s: seq<nat>, i: nat, v: nat)
    requires i < |s|
    ensures Total(s[i := v]) == Total(s) - s[i] + v
  {
    var last := |s| - 1;
    if i < last {
      TotalUpdate(s[..last], i, v);
      assert s[i := v][..last] == s[..last][i := v];
    } else {
      assert s[i := v][..last] == s[..last];
    }
  }

  /** What is left of each range beyond its cursor. */
  function Unclaimed(s: State): (u: seq<nat>)
    requires WellSized(s)
    ensures |u| == |s.ranges|
  {
    seq(|s.ranges|, t requires 0 <= t < |s.ranges| =>
      if s.b[t] < s.ranges[t].e then s.ranges[t].e - s.b[t] else 0)
  }

  /** Ranges a thread has not left behind, and indices it has claimed but not executed. */
  function Due(th: Thread, n: nat): nat {
    match th
    case Done => 0
    case Claim(o) => if o < n then n - o else 0
    case Exec(o, cur, end) =>
      (if o < n then n - o else 0) + (if cur < end then end - cur else 0)
  }

  function Dues(s: State): (d: seq<nat>)
    requires WellSized(s)
    ensures |d| == |s.ranges|
  {
    seq(|s.ranges|, i requires 0 <= i < |s.ranges| => Due(s.threads[i], |s.ranges|))
  }

  function Work(s: State): nat
    requires WellSized(s)
  {
    2 * Total(Unclaimed(s)) + Total(Dues(s))
  }

  /** Every step of a thread that is not done uses up some of the remaining work. */
  lemma StepDescends(s: State, i: nat)
    requires WellSized(s) && s.chunk > 0 && i < |s.ranges| && ThreadOk(s, i) && !s.threads[i].Done?
    ensures Work(Step(s, i)) < Work(s)
  {
    var s', n := Step(s, i), |s.ranges|;
    TotalUpdate(Dues(s), i, Due(s'.threads[i], n));
    assert Dues(s') == Dues(s)[i := Due(s'.threads[i], n)];
    if s.threads[i].Claim? {
      var t := Target(i, s.threads[i].o, n);
      TotalUpdate(Unclaimed(s), t, Unclaimed(s')[t]);
      assert Unclaimed(s') == Unclaimed(s)[t := Unclaimed(s')[t]];
    } else {
      assert Unclaimed(s') == Unclaimed(s);
    }
  }

  /** A schedule that picks only threads that are not done yet. */
  predicate Busy(s: State, picks: seq<nat>)
    requires WellSized(s)
  {
    picks != [] ==>
      var before := Run(s, picks[..|picks| - 1]);
      var i := picks[|picks| - 1];
      Busy(s, picks[..|picks| - 1]) && i < |s.ranges| && !before.threads[i].Done?
  }

  lemma {:induction false} BusyBound(s: State, picks: seq<nat>, start: nat, end: nat)
    requires Inv(s, start, end) && Busy(s, picks)
    ensures |picks| + Work(Run(s, picks)) <= Work(s)
  {
    if picks != [] {
      var before, i := Run(s, picks[..|picks| - 1]), picks[|picks| - 1];
      BusyBound(s, picks[..|picks| - 1], start, end);
      RunKeeps(s, picks[..|picks| - 1], start, end);
      assert ThreadOk(before, i);
      StepDescends(before, i);
    }
  }

  lemma {:induction false} TileLengths(rs: seq<Range>, start: nat, end: nat, u: seq<nat>)
    requires Tiles(rs, start, end) && |u| == |rs|
    requires forall t :: 0 <= t < |rs| ==> u[t] == if rs[t].b < rs[t].e then rs[t].e - rs[t].b else 0
    ensures Total(u) == end - start
  {
    if rs != [] {
      TileLengths(rs[..|rs| - 1], start, rs[|rs| - 1].b, u[..|u| - 1]);
    }
  }

  lemma {:induction false} SameTotal(d: seq<nat>, v: nat)
    requires forall i :: 0 <= i < |d| ==> d[i] == v
    ensures Total(d) == |d| * v
  {
    if d != [] {
      SameTotal(d[..|d| - 1], v);
      assert |d| * v == (|d| - 1) * v + v;
    }
  }

  /** Whatever the schedule, after at most 2 * (end - start) + n * n steps all n threads are done. */
  lemma EveryScheduleEnds(ranges: seq<Range>, start: nat, end: nat, chunk: nat, picks: seq<nat>)
    requires Tiles(ranges, start, end) && chunk > 0 && Busy(Init(ranges, chunk), picks)
    ensures |picks| <= 2 * (end - start) + |ranges| * |ranges|
  {
    var s := Init(ranges, chunk);
    InitOk(ranges, start, end, chunk);
    BusyBound(s, picks, start, end);
    TileLengths(ranges, start, end, Unclaimed(s));
    SameTotal(Dues(s), |ranges|);
  }

  // ------------------------------------------------------------------ without stealing

  /** The loop without work stealing: thread i walks from at[i] to the end of its own range. */
  datatype Walk = Walk(ranges: seq<Range>, at: seq<nat>, executed: multiset<nat>)

  function WalkInit(ranges: seq<Range>): (w: Walk)
    ensures |w.at| == |ranges| && w.ranges == ranges
  {
    Walk(ranges, seq(|ranges|, t requires 0 <= t < |ranges| => ranges[t].b), multiset{})
  }

  function WalkStep(w: Walk, i: nat): (w': Walk)
    requires |w.at| == |w.ranges|
    ensures |w'.at| == |w'.ranges| && w'.ranges == w.ranges
  {
    if i < |w.at| && w.at[i] < w.ranges[i].e then
      w.(at := w.at[i := w.at[i] + 1], executed := w.executed + multiset{w.at[i]})
    else w
  }

  function WalkRun(w: Walk, picks: seq<nat>): (w': Walk)
    requires |w.at| == |w.ranges|
    ensures |w'.at| == |w'.ranges| && w'.ranges == w.ranges
  {
    if picks == [] then w
    else WalkStep(WalkRun(w, picks[..|picks| - 1]), picks[|picks| - 1])
  }

  /** Executed by now: what lies between the start of a range and its walker. */
  ghost predicate Walked(w: Walk, x: nat)
    requires |w.at| == |w.ranges|
  {
    exists t: nat :: t < |w.ranges| && In(w.ranges[t], x) && x < w.at[t]
  }

  ghost predicate WalkInv(w: Walk) {
    && |w.at| == |w.ranges|
    && (forall t: nat :: t < |w.ranges| ==> w.ranges[t].b <= w.at[t] <= w.ranges[t].e)
    && (forall x: nat :: w.executed[x] == if Walked(w, x) then 1 else 0)
  }

  lemma WalkStepKeeps(w: Walk, i: nat, start: nat, end: nat)
    requires WalkInv(w) && Partition(w.ranges, start, end)
    ensures WalkInv(WalkStep(w, i))
  {
    var w' := WalkStep(w, i);
    if w' != w {
      forall x: nat ensures w'.executed[x] == if Walked(w', x) then 1 else 0 {
        if x == w.at[i] {
          assert In(w.ranges[i], x) && x < w'.at[i];
          assert !Walked(w, x);
        } else if Walked(w, x) {
          var t: nat :| t < |w.ranges| && In(w.ranges[t], x) && x < w.at[t];
          assert In(w'.ranges[t], x) && x < w'.at[t];
        }
      }
    }
  }

  lemma {:induction false} WalkKeeps(w: Walk, picks: seq<nat>, start: nat, end: nat)
    requires WalkInv(w) && Partition(w.ranges, start, end)
    ensures WalkInv(WalkRun(w, picks))
  {
    if picks != [] {
      WalkKeeps(w, picks[..|picks| - 1], start, end);
      WalkStepKeeps(WalkRun(w, picks[..|picks| - 1]), picks[|picks| - 1], start, end);
    }
  }

  /** Without stealing too: in every interleaving no index is executed twice, none outside
      [start, end) at all, and each exactly once when every thread has walked its range. */
  lemma PlainIndexOnce(ranges: seq<Range>, start: nat, end: nat, picks: seq<nat>)
    requires Tiles(ranges, start, end)
    ensures var w := WalkRun(WalkInit(ranges), picks);
      forall x: nat ::
        && w.executed[x] <= (if start <= x < end then 1 else 0)
        && ((forall t: nat :: t < |ranges| ==> w.at[t] >= ranges[t].e) ==>
              w.executed[x] == (if start <= x < end then 1 else 0))
  {
    TilesPartition(ranges, start, end);
    TilesOrdered(ranges, start, end);
    WalkKeeps(WalkInit(ranges), picks, start, end);
    var w := WalkRun(WalkInit(ranges), picks);
    forall x: nat | start <= x < end && forall t: nat :: t < |ranges| ==> w.at[t] >= ranges[t].e
      ensures Walked(w, x)
    {
      assert Covered(ranges, x);
      var t: nat :| t < |ranges| && In(ranges[t], x);
    }
  }
}
