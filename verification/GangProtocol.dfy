/**
 The fork/join round protocol of the gang: the generation-counting barrier, the packed
 round flag, the re-armed second barrier and the worker loop, as atomic steps that any
 number of threads may interleave in any order (sequential consistency).

 Thread 0 is the submitter; threads 1..num-1 are the workers.  A run is a sequence of
 actions: the submitter calls `submit`, or some thread performs its next atomic step.
 */
module GangProtocol {
  import opened Common

  const BAR_INCR: nat := 512
  const BAR_WAS_LAST: nat := 256
  const BAR_OVERFLOW: nat := 10000000
  const UINT_RANGE: nat := 0x1_0000_0000
  /** Number of multi-thread rounds after which the 32-bit generation wraps to zero. */
  const WRAP_ROUNDS: nat := 8388608

  /** The three unsigned fields of the source's barrier that decide its behaviour. */
  datatype Barrier = Barrier(total: nat, generation: nat, awaited: nat)

  /** Program points.  `A` points are inside the wait on the first barrier, `B` points inside
      the wait on the second one; `g` is the generation loaded on entry and `r` the round
      whose task the thread ran. */
  datatype PC =
    | Outside                  // submitter only: not inside submit
    | SoloCall                 // submitter only: a one-range round, run without the workers
    | ArmLoad | ArmFlag(armed: nat) | ArmTotal | ArmAwaited   // submitter only: reinit
    | AFetch | ADec(g: nat) | AReset | ABump | ACheck(g: nat) | ASpin(g: nat)
    | LoadGen | LoadFlag(state: nat) | Call | Running(r: nat)
    | BFetch(r: nat) | BDec(r: nat, g: nat) | BReset(r: nat) | BBump(r: nat)
    | BCheck(r: nat, g: nat) | BSpin(r: nat, g: nat)

  /** The shared words, every thread's program point, and the history of the run. */
  datatype State = State(
    num: nat, abb: Barrier, abb2: Barrier, flag: nat, pc: seq<PC>,
    ns: seq<nat>,                          // sizes of the rounds submitted so far
    arrived: set<nat>, lastA: int,         // who is waiting in the open generation of abb
    arrived2: set<nat>, lastB: int,
    arrivals: seq<nat>, departures: seq<nat>,   // per thread, over the life of abb
    started: multiset<(nat, nat)>, finished: multiset<(nat, nat)>,  // (round, thread)
    left: set<(nat, nat)>)                 // (round, thread) that returned from abb2

  datatype Action = Submit(n: nat) | Advance(i: nat)

  function Dec32(x: nat): nat { if x == 0 then UINT_RANGE - 1 else x - 1 }

  function Inc32(x: nat, d: nat): nat { (x + d) % UINT_RANGE }

  function GenBits(x: nat): nat { x / BAR_INCR * BAR_INCR }

  /** x | y */
  function Or(x: nat, y: nat): nat {
    if y == 0 then x
    else if x == 0 then y
    else 2 * Or(x / 2, y / 2) + (if x % 2 == 1 || y % 2 == 1 then 1 else 0)
  }

  /** g | n for a multiple g of BAR_INCR: the nine low bits are those of n. */
  function OrIn(g: nat, n: nat): (w: nat)
    ensures w % BAR_INCR == n % BAR_INCR
    ensures n < BAR_INCR && g % BAR_INCR == 0 ==> w == g + n
  {
    LowBits(Or(g / BAR_INCR, n / BAR_INCR), n % BAR_INCR);
    Or(g / BAR_INCR, n / BAR_INCR) * BAR_INCR + n % BAR_INCR
  }

  lemma LowBits(q: nat, r: nat)
    requires r < BAR_INCR
    ensures (q * BAR_INCR + r) % BAR_INCR == r
  {
  }

  /** The word `reinit` stores: n is put into the bits of the next generation, in 32 bits. */
  function ArmedFlag(generation: nat, n: nat): nat {
    OrIn(GenBits(Inc32(generation, BAR_INCR)), n % UINT_RANGE)
  }

  /** The test after the first barrier: does a thread that read `state` and `flag` stay out? */
  predicate SitsOut(state: nat, flag: nat, id: nat) {
    GenBits(flag) > GenBits(state) || id >= flag % BAR_WAS_LAST
  }

  function Go(s: State, i: nat, p: PC): State
    requires i < |s.pc|
  {
    s.(pc := s.pc[i := p])
  }

  function Init(num: nat, garbage: nat): State {
    State(num, Barrier(num, 0, num), Barrier(num, 0, num), garbage,
          seq(num, i => if i == 0 then Outside else AFetch), [],
          {}, -1, {}, -1, seq(num, i => 0), seq(num, i => 0), multiset{}, multiset{}, {})
  }

  predicate WellSized(s: State) {
    |s.pc| == s.num && |s.arrivals| == s.num && |s.departures| == s.num
  }

  /** Where a thread goes when run() returns. */
  function AfterRun(i: nat): PC { if i == 0 then Outside else AFetch }

  function LeaveA(s: State, i: nat): State
    requires WellSized(s) && i < s.num
  {
    Go(s, i, LoadGen).(departures := s.departures[i := s.departures[i] + 1])
  }

  function LeaveB(s: State, i: nat, r: nat): State
    requires WellSized(s) && i < s.num
  {
    Go(s, i, AfterRun(i)).(left := s.left + {(r, i)})
  }

  /** One atomic step of thread i.  A spinning thread whose generation has not moved, and the
      submitter outside submit, do nothing. */
  function Step(s: State, i: nat): (s': State)
    requires WellSized(s) && i < s.num
    ensures WellSized(s') && s'.num == s.num && s'.ns == s.ns
  {
    match s.pc[i]
    case Outside => s
    case SoloCall => if s.ns == [] then s else Start(s, i)
    case ArmLoad => Go(s, i, ArmFlag(s.abb.generation))
    case ArmFlag(g) =>
      if s.ns == [] then s else
      Go(s, i, ArmTotal).(flag := ArmedFlag(g, s.ns[|s.ns| - 1]))
    case ArmTotal =>
      if s.ns == [] then s else
      Go(s, i, ArmAwaited).(abb2 := s.abb2.(total := s.ns[|s.ns| - 1]))
    case ArmAwaited =>
      if s.ns == [] then s else
      Go(s, i, AFetch).(abb2 := s.abb2.(awaited := s.ns[|s.ns| - 1]))
    case AFetch => Go(s, i, ADec(GenBits(s.abb.generation)))
    case ADec(g) =>
      var w := Dec32(s.abb.awaited);
      Go(s, i, if w == 0 then AReset else ACheck(g)).(
        abb := s.abb.(awaited := w), arrived := s.arrived + {i},
        lastA := if w == 0 then i else s.lastA,
        arrivals := s.arrivals[i := s.arrivals[i] + 1])
    case AReset => Go(s, i, ABump).(abb := s.abb.(awaited := s.abb.total))
    case ABump =>
      LeaveA(s, i).(abb := s.abb.(generation := Inc32(s.abb.generation, BAR_INCR)),
                    arrived := {}, lastA := -1)
    case ACheck(g) => if s.abb.awaited > BAR_OVERFLOW then LeaveA(s, i) else Go(s, i, ASpin(g))
    case ASpin(g) => if s.abb.generation == g then s else LeaveA(s, i)
    case LoadGen => Go(s, i, LoadFlag(s.abb.generation))
    case LoadFlag(state) => Go(s, i, if SitsOut(state, s.flag, i) then AfterRun(i) else Call)
    case Call => if s.ns == [] then s else Start(s, i)
    case Running(r) =>
      Go(s, i, if r < |s.ns| && s.ns[r] == 1 then Outside else BFetch(r)).(
        finished := s.finished + multiset{(r, i)})
    case BFetch(r) => Go(s, i, BDec(r, GenBits(s.abb2.generation)))
    case BDec(r, g) =>
      var w := Dec32(s.abb2.awaited);
      Go(s, i, if w == 0 then BReset(r) else BCheck(r, g)).(
        abb2 := s.abb2.(awaited := w), arrived2 := s.arrived2 + {i},
        lastB := if w == 0 then i else s.lastB)
    case BReset(r) => Go(s, i, BBump(r)).(abb2 := s.abb2.(awaited := s.abb2.total))
    case BBump(r) =>
      LeaveB(s, i, r).(abb2 := s.abb2.(generation := Inc32(s.abb2.generation, BAR_INCR)),
                       arrived2 := {}, lastB := -1)
    case BCheck(r, g) =>
      if s.abb2.awaited > BAR_OVERFLOW then LeaveB(s, i, r) else Go(s, i, BSpin(r, g))
    case BSpin(r, g) => if s.abb2.generation == g then s else LeaveB(s, i, r)
  }

  /** tasks->run(i): the task object called is the one most recently installed. */
  function Start(s: State, i: nat): State
    requires WellSized(s) && i < s.num && s.ns != []
  {
    Go(s, i, Running(|s.ns| - 1)).(started := s.started + multiset{(|s.ns| - 1, i)})
  }

  /** submit: installs the task object of a new round of n ranges and starts it.  submit itself
      clips n to the number of threads and returns at once when there is no work. */
  function Begin(s: State, n: nat): State
    requires WellSized(s) && s.num > 0
  {
    if s.pc[0] != Outside || n == 0 || n > s.num then s
    else Go(s, 0, if n == 1 then SoloCall else ArmLoad).(ns := s.ns + [n])
  }

  /** The rounds that the workers take part in; one of a single range runs on the submitter alone. */
  function GangRounds(ns: seq<nat>): nat {
    if ns == [] then 0 else GangRounds(ns[..|ns| - 1]) + (if ns[|ns| - 1] >= 2 then 1 else 0)
  }

  function Apply(s: State, a: Action): (s': State)
    requires WellSized(s) && s.num > 0
    ensures WellSized(s') && s'.num == s.num && |s.ns| <= |s'.ns| <= |s.ns| + 1
  {
    match a
    case Submit(n) => Begin(s, n)
    case Advance(i) => if i < s.num then Step(s, i) else s
  }

  function Run(s: State, actions: seq<Action>): (s': State)
    requires WellSized(s) && s.num > 0
    ensures WellSized(s') && s'.num == s.num && |s.ns| <= |s'.ns|
  {
    if actions == [] then s
    else Apply(Run(s, actions[..|actions| - 1]), actions[|actions| - 1])
  }

  // ------------------------------------------------------------------ what is promised

  ghost predicate RoundComplete(s: State, k: nat)
    requires k < |s.ns|
  {
    forall j: nat :: s.started[(k, j)] == s.finished[(k, j)] == (if j < s.ns[k] then 1 else 0)
  }

  /** The promises of the protocol, over the history of a run. */
  ghost predicate Safe(s: State) {
    && WellSized(s)
    // thread i runs round k at most once, and only when i < n_k
    && (forall k: nat, i: nat {:trigger s.started[(k, i)]} ::
          s.finished[(k, i)] <= s.started[(k, i)] <= 1
          && (s.started[(k, i)] == 1 ==> k < |s.ns| && i < s.ns[k]))
    // once submit has returned, every round is complete: each of its n_k runs happened
    && (s.num > 0 && s.pc[0].Outside? ==> forall k: nat :: k < |s.ns| ==> RoundComplete(s, k))
    // nobody leaves its m-th wait on the first barrier before everybody arrived m times
    && (forall i, j :: 0 <= i < s.num && 0 <= j < s.num ==> s.departures[i] <= s.arrivals[j])
    // nobody leaves the second barrier of a round before all its runs finished
    && (forall k: nat, i: nat :: (k, i) in s.left ==> k < |s.ns| && RoundComplete(s, k))
    // a running thread runs the installed task object, in the generation it was armed for
    && (forall i :: 0 <= i < s.num && s.pc[i].Running? ==>
          && s.pc[i].r == |s.ns| - 1
          && (s.ns[s.pc[i].r] > 1 ==>
                s.flag == BAR_INCR * s.departures[i] + s.ns[s.pc[i].r]))
  }

  // ------------------------------------------------------------------ the invariant

  predicate InRound(s: State) { s.abb2.generation != s.abb.generation }

  /** The flag already announces the round that the next generation will start. */
  predicate Armed(s: State)
    requires |s.pc| > 0
  {
    || s.pc[0].ArmTotal? || s.pc[0].ArmAwaited? || s.pc[0].AFetch? || s.pc[0].ADec?
    || s.pc[0].AReset? || s.pc[0].ABump? || Waiting(s.pc[0], s.abb.generation)
  }

  predicate Waiting(p: PC, generation: nat) { (p.ACheck? || p.ASpin?) && p.g == generation }

  predicate Released(p: PC, generation: nat) {
    (p.ACheck? || p.ASpin?) && p.g + BAR_INCR == generation
  }

  predicate PreRun(p: PC, generation: nat) {
    Released(p, generation) || p.LoadGen? || (p.LoadFlag? && p.state == generation)
  }

  predicate Gathering(p: PC, generation: nat) {
    || p.AFetch? || (p.ADec? && p.g == generation)
    || p.AReset? || p.ABump? || Waiting(p, generation)
  }

  predicate Waiting2(p: PC, generation2: nat) { (p.BCheck? || p.BSpin?) && p.g == generation2 }

  predicate Released2(p: PC, generation2: nat) {
    (p.BCheck? || p.BSpin?) && p.g + BAR_INCR == generation2
  }

  predicate InB(p: PC, r: int) {
    (p.BFetch? || p.BDec? || p.BReset? || p.BBump? || p.BCheck? || p.BSpin?) && p.r == r
  }

  /** All runs of the newest round have finished and the submitter knows or is about to. */
  predicate Settled(s: State)
    requires |s.pc| > 0
  {
    !InRound(s) && (s.pc[0].Outside? || s.pc[0].BCheck? || s.pc[0].BSpin?)
  }

  /** Where thread i may be, given the shared state. */
  ghost predicate ThreadOk(s: State, i: nat)
    requires WellSized(s) && i < s.num
  {
    var p, gen, gen2, r := s.pc[i], s.abb.generation, s.abb2.generation, |s.ns| - 1;
    && (i in s.arrived <==> p.AReset? || p.ABump? || Waiting(p, gen))
    && (p.AReset? || p.ABump? <==> i == s.lastA)
    && (i in s.arrived2 <==> p.BReset? || p.BBump? || Waiting2(p, gen2))
    && (p.BReset? || p.BBump? <==> i == s.lastB)
    && BAR_INCR * s.arrivals[i] == gen + (if i in s.arrived then BAR_INCR else 0)
    && BAR_INCR * s.departures[i] + (if Released(p, gen) then BAR_INCR else 0) == gen
    && if InRound(s) then
         r >= 0 && if i < s.ns[r] then
           || PreRun(p, gen) || p.Call? || p == Running(r)
           || (InB(p, r) && (p.BDec? || p.BCheck? || p.BSpin? ==> p.g == gen2))
         else
           PreRun(p, gen) || Gathering(p, gen)
       else if i == 0 then
         || p.Outside? || (p.SoloCall? && r >= 0 && s.ns[r] == 1)
         || (r >= 0 && p == Running(r) && s.ns[r] == 1)
         || (Released2(p, gen2) && p.r == r)
         || (r >= 0 && s.ns[r] >= 2 &&
             (p.ArmLoad? || p == ArmFlag(gen) || p.ArmTotal? || p.ArmAwaited? || Gathering(p, gen)))
       else
         || (PreRun(p, gen) && (!Armed(s) ==> i >= s.flag % BAR_WAS_LAST))
         || Gathering(p, gen)
         || (Released2(p, gen2) && (p.r < r || (p.r == r && Settled(s))))
  }

  /** Expected history of the newest round, read off the program points. */
  ghost function StartedNow(s: State, i: nat): nat
    requires WellSized(s) && s.num > 0 && s.ns != []
  {
    if i >= s.num || i >= s.ns[|s.ns| - 1] then 0
    else if InRound(s) then if s.pc[i].Running? || InB(s.pc[i], |s.ns| - 1) then 1 else 0
    else if Settled(s) || (i == 0 && s.pc[0].Running?) then 1 else 0
  }

  ghost function FinishedNow(s: State, i: nat): nat
    requires WellSized(s) && s.num > 0 && s.ns != []
  {
    if i >= s.num || i >= s.ns[|s.ns| - 1] then 0
    else if InRound(s) then if InB(s.pc[i], |s.ns| - 1) then 1 else 0
    else if Settled(s) then 1 else 0
  }

  ghost predicate HistoryOk(s: State)
    requires WellSized(s) && s.num > 0
  {
    && (forall k: nat, i: nat :: k >= |s.ns| ==> s.started[(k, i)] == s.finished[(k, i)] == 0)
    && (forall k: nat :: k < |s.ns| - 1 ==> RoundComplete(s, k))
    && (s.ns != [] ==> forall i: nat ::
          s.started[(|s.ns| - 1, i)] == StartedNow(s, i)
          && s.finished[(|s.ns| - 1, i)] == FinishedNow(s, i))
    && (forall k: nat, i: nat :: (k, i) in s.left ==>
          k < |s.ns| && (k < |s.ns| - 1 || Settled(s)))
  }

  ghost predicate BarriersOk(s: State)
    requires WellSized(s) && s.num > 0
  {
    var gen, gen2, r := s.abb.generation, s.abb2.generation, |s.ns| - 1;
    && gen % BAR_INCR == 0 && gen <= BAR_INCR * GangRounds(s.ns)
    && (gen2 == gen || (gen2 + BAR_INCR == gen && r >= 0 && s.ns[r] >= 2))
    && (!InRound(s) && !s.pc[0].Outside? && !s.pc[0].BCheck? && !s.pc[0].BSpin? && r >= 0 && s.ns[r] >= 2 ==>
          gen + BAR_INCR <= BAR_INCR * GangRounds(s.ns))
    && (forall i :: i in s.arrived ==> i < s.num)
    && -1 <= s.lastA < s.num && -1 <= s.lastB < s.num
    && (s.lastA >= 0 <==> |s.arrived| == s.num)
    && s.abb.total == s.num
    && s.abb.awaited == (if s.lastA >= 0 && s.pc[s.lastA].ABump? then s.num else s.num - |s.arrived|)
    && (InRound(s) ==>
          && !Armed(s) && s.flag == gen + s.ns[r]
          && (forall i :: i in s.arrived2 ==> i < s.ns[r])
          && (s.lastB >= 0 <==> |s.arrived2| == s.ns[r])
          && s.abb2.total == s.ns[r]
          && s.abb2.awaited ==
               (if s.lastB >= 0 && s.pc[s.lastB].BBump? then s.ns[r] else s.ns[r] - |s.arrived2|))
    && (!InRound(s) ==>
          && s.arrived2 == {} && s.lastB == -1
          && s.abb2.awaited <= 255
          && (Armed(s) ==> r >= 0 && s.ns[r] >= 2 && s.flag == gen + BAR_INCR + s.ns[r])
          && (!Armed(s) && gen > 0 ==> gen + 2 <= s.flag <= gen + 255)
          && (s.pc[0].ArmAwaited? ==> s.abb2.total == s.ns[r])
          && (Gathering(s.pc[0], gen) ==> s.abb2.total == s.abb2.awaited == s.ns[r]))
  }

  ghost predicate Inv(s: State) {
    && WellSized(s) && 2 <= s.num <= 255
    && GangRounds(s.ns) < WRAP_ROUNDS
    && (forall k :: 0 <= k < |s.ns| ==> 1 <= s.ns[k] <= s.num)
    && BarriersOk(s)
    && (forall i :: 0 <= i < s.num ==> ThreadOk(s, i))
    && HistoryOk(s)
  }

  /** Unpacking a flag armed for at most 255 threads. */
  lemma FlagFields(generation: nat, n: nat)
    requires generation % BAR_INCR == 0 && n < BAR_WAS_LAST
    ensures GenBits(generation) == generation == GenBits(generation + n)
    ensures (generation + n) % BAR_WAS_LAST == n
  {
    var q := generation / BAR_INCR;
    assert generation == BAR_INCR * q;
    assert (generation + n) / BAR_INCR == q;
    assert (BAR_WAS_LAST * (2 * q) + n) % BAR_WAS_LAST == n;
  }

  lemma NextGeneration(generation: nat)
    requires generation % BAR_INCR == 0 && generation < UINT_RANGE
    ensures Inc32(generation, BAR_INCR) % BAR_INCR == 0
    ensures Inc32(generation, BAR_INCR)
            == if generation + BAR_INCR < UINT_RANGE then generation + BAR_INCR else 0
  {
    var q := generation / BAR_INCR;
    assert generation == BAR_INCR * q;
    assert generation + BAR_INCR == BAR_INCR * (q + 1);
    if generation + BAR_INCR >= UINT_RANGE {
      assert q == 8388607;
    }
  }

  lemma ArmedIs(generation: nat, n: nat)
    requires generation % BAR_INCR == 0 && generation < UINT_RANGE && n < BAR_INCR
    ensures ArmedFlag(generation, n) == Inc32(generation, BAR_INCR) + n
  {
    NextGeneration(generation);
    FlagFields(Inc32(generation, BAR_INCR), 0);
  }

  // ------------------------------------------------------------------ one step at a time

  /** What the proof of one thread's place needs: the barriers, the submitter and the thread. */
  ghost predicate Near(s: State, i: nat) {
    && WellSized(s) && i < s.num && 2 <= s.num <= 255 && GangRounds(s.ns) < WRAP_ROUNDS
    && (forall k :: 0 <= k < |s.ns| ==> 1 <= s.ns[k] <= s.num)
    && BarriersOk(s) && ThreadOk(s, 0) && ThreadOk(s, i)
  }

  /** A step of thread i that leaves everything the other threads' places depend on. */
  ghost predicate Quiet(s: State, s': State, i: nat) {
    && WellSized(s) && WellSized(s') && s'.num == s.num > i
    && s'.abb.generation == s.abb.generation && s'.abb2.generation == s.abb2.generation
    && s'.ns == s.ns && s'.flag == s.flag && Armed(s') == Armed(s)
    && (Settled(s) ==> Settled(s'))
    && forall j :: 0 <= j < s.num && j != i ==>
         && s'.pc[j] == s.pc[j]
         && s'.arrivals[j] == s.arrivals[j] && s'.departures[j] == s.departures[j]
         && (j in s'.arrived <==> j in s.arrived) && (j in s'.arrived2 <==> j in s.arrived2)
         && (j == s'.lastA <==> j == s.lastA) && (j == s'.lastB <==> j == s.lastB)
  }

  lemma QuietStep(s: State, s': State, i: nat)
    requires Inv(s) && Quiet(s, s', i) && ThreadOk(s', i)
    ensures forall j :: 0 <= j < s.num ==> ThreadOk(s', j)
  {
    forall j | 0 <= j < s.num && j != i ensures ThreadOk(s', j) {
      assert ThreadOk(s, j);
    }
  }

  /** A step of thread i that records no run, and no return from an unfinished round. */
  ghost predicate Silent(s: State, s': State, i: nat)
    requires Quiet(s, s', i)
  {
    && s'.started == s.started && s'.finished == s.finished
    && (s'.left == s.left ||
          (Released2(s.pc[i], s.abb2.generation)
           && s'.left == s.left + {(s.pc[i].r, i)} && s.pc[i].r < |s.ns|
           && (s.pc[i].r < |s.ns| - 1 || Settled(s'))))
    && (s.ns != [] ==>
          StartedNow(s', i) == StartedNow(s, i) && FinishedNow(s', i) == FinishedNow(s, i))
    && (!InRound(s) ==>
          Settled(s') == Settled(s) && (s.pc[0].Running? <==> s'.pc[0].Running?))
  }

  /** A quiet step that records nothing keeps the history in agreement with the places. */
  lemma QuietHistory(s: State, s': State, i: nat)
    requires Inv(s) && Quiet(s, s', i)
    requires Silent(s, s', i)
    ensures HistoryOk(s')
  {
    forall k: nat | k < |s.ns| - 1 ensures RoundComplete(s', k) {
      assert RoundComplete(s, k);
    }
    if s.ns != [] {
      forall j: nat
        ensures s'.started[(|s.ns| - 1, j)] == StartedNow(s', j)
        ensures s'.finished[(|s.ns| - 1, j)] == FinishedNow(s', j)
      {
        assert s.started[(|s.ns| - 1, j)] == StartedNow(s, j);
      }
    }
  }

  lemma DecodeFlag(s: State)
    requires Near(s, 0)
    ensures GenBits(s.abb.generation) == s.abb.generation
    ensures InRound(s) || Armed(s) || s.abb.generation > 0 ==>
              && GenBits(s.flag) == s.abb.generation + (if Armed(s) then BAR_INCR else 0)
              && s.flag % BAR_WAS_LAST + GenBits(s.flag) == s.flag
  {
    FlagFields(s.abb.generation, 0);
    if Armed(s) {
      FlagFields(s.abb.generation + BAR_INCR, s.ns[|s.ns| - 1]);
    } else if InRound(s) || s.abb.generation > 0 {
      FlagFields(s.abb.generation, s.flag - s.abb.generation);
    }
  }

  lemma CallPlace(s: State, i: nat)
    requires Near(s, i) && (s.pc[i].SoloCall? || s.pc[i].Call?)
    ensures ThreadOk(Step(s, i), i) && Quiet(s, Step(s, i), i)
  {
  }

  lemma CallBarriers(s: State, i: nat)
    requires Near(s, i) && (s.pc[i].SoloCall? || s.pc[i].Call?)
    ensures BarriersOk(Step(s, i))
  {
  }

  lemma TaskPlace(s: State, i: nat)
    requires Near(s, i) && s.pc[i].Running?
    ensures ThreadOk(Step(s, i), i) && Quiet(s, Step(s, i), i)
  {
  }

  lemma TaskBarriers(s: State, i: nat)
    requires Near(s, i) && s.pc[i].Running?
    ensures BarriersOk(Step(s, i))
  {
  }

  lemma ArmingPlace(s: State, i: nat)
    requires Near(s, i) && (s.pc[i].ArmLoad? || s.pc[i].ArmTotal? || s.pc[i].ArmAwaited?)
    ensures ThreadOk(Step(s, i), i)
  {
    if s.pc[i].ArmAwaited? {
      AwaitedPlace(s, i);
    }
  }

  lemma AwaitedPlace(s: State, i: nat)
    requires Near(s, i) && s.pc[i].ArmAwaited?
    ensures ThreadOk(Step(s, i), i)
  {
  }

  lemma ArmingQuiet(s: State, i: nat)
    requires Near(s, i) && (s.pc[i].ArmLoad? || s.pc[i].ArmTotal? || s.pc[i].ArmAwaited?)
    ensures Quiet(s, Step(s, i), i)
  {
  }

  lemma ArmingCounts(s: State, i: nat)
    requires Near(s, i) && (s.pc[i].ArmLoad? || s.pc[i].ArmTotal? || s.pc[i].ArmAwaited?)
    requires Quiet(s, Step(s, i), i) && s.ns != []
    ensures StartedNow(Step(s, i), i) == StartedNow(s, i)
    ensures FinishedNow(Step(s, i), i) == FinishedNow(s, i)
  {
  }

  lemma ArmingSilent(s: State, i: nat)
    requires Near(s, i) && (s.pc[i].ArmLoad? || s.pc[i].ArmTotal? || s.pc[i].ArmAwaited?)
    requires Quiet(s, Step(s, i), i)
    ensures Silent(s, Step(s, i), i)
  {
    if s.ns != [] {
      ArmingCounts(s, i);
    }
  }

  lemma ArmingBarriers(s: State, i: nat)
    requires Near(s, i) && (s.pc[i].ArmLoad? || s.pc[i].ArmTotal? || s.pc[i].ArmAwaited?)
    ensures BarriersOk(Step(s, i))
  {
  }

  lemma EnterPlace(s: State, i: nat)
    requires Near(s, i) && (s.pc[i].AFetch? || s.pc[i].AReset?)
    ensures ThreadOk(Step(s, i), i) && Quiet(s, Step(s, i), i)
  {
  }

  lemma EnterSilent(s: State, i: nat)
    requires Near(s, i) && (s.pc[i].AFetch? || s.pc[i].AReset?) && Quiet(s, Step(s, i), i)
    ensures Silent(s, Step(s, i), i)
  {
  }

  lemma EnterBarriers(s: State, i: nat)
    requires Near(s, i) && (s.pc[i].AFetch? || s.pc[i].AReset?)
    ensures BarriersOk(Step(s, i))
  {
  }

  lemma ArrivePlace(s: State, i: nat)
    requires Near(s, i) && s.pc[i].ADec?
    ensures ThreadOk(Step(s, i), i) && Quiet(s, Step(s, i), i)
  {
    FullHouse(s.arrived + {i}, s.num);
  }

  lemma ArriveCounts(s: State, i: nat)
    requires Near(s, i) && s.pc[i].ADec? && Quiet(s, Step(s, i), i) && s.ns != []
    ensures StartedNow(Step(s, i), i) == StartedNow(s, i)
    ensures FinishedNow(Step(s, i), i) == FinishedNow(s, i)
  {
  }

  lemma ArriveSilent(s: State, i: nat)
    requires Near(s, i) && s.pc[i].ADec? && Quiet(s, Step(s, i), i)
    ensures Silent(s, Step(s, i), i)
  {
    if s.ns != [] {
      ArriveCounts(s, i);
    }
  }

  lemma ArriveBarriers(s: State, i: nat)
    requires Near(s, i) && s.pc[i].ADec?
    ensures BarriersOk(Step(s, i))
  {
    if s.abb.awaited == 1 {
      ArriveLast(s, i);
    } else {
      ArriveEarly(s, i);
    }
  }

  lemma ArriveLast(s: State, i: nat)
    requires Near(s, i) && s.pc[i].ADec? && s.abb.awaited == 1
    ensures BarriersOk(Step(s, i))
  {
    FullHouse(s.arrived + {i}, s.num);
  }

  lemma ArriveEarly(s: State, i: nat)
    requires Near(s, i) && s.pc[i].ADec? && s.abb.awaited != 1
    ensures BarriersOk(Step(s, i))
  {
    FullHouse(s.arrived + {i}, s.num);
  }

  lemma CheckPlace(s: State, i: nat)
    requires Near(s, i) && s.pc[i].ACheck?
    ensures ThreadOk(Step(s, i), i) && Quiet(s, Step(s, i), i)
    ensures Silent(s, Step(s, i), i)
  {
  }

  lemma CheckBarriers(s: State, i: nat)
    requires Near(s, i) && s.pc[i].ACheck?
    ensures BarriersOk(Step(s, i))
  {
  }

  lemma LeavePlace(s: State, i: nat)
    requires Near(s, i) && s.pc[i].ASpin?
    ensures ThreadOk(Step(s, i), i) && Quiet(s, Step(s, i), i)
    ensures Silent(s, Step(s, i), i)
  {
  }

  lemma LeaveBarriers(s: State, i: nat)
    requires Near(s, i) && s.pc[i].ASpin?
    ensures BarriersOk(Step(s, i))
  {
  }

  lemma LookPlace(s: State, i: nat)
    requires Near(s, i) && s.pc[i].LoadGen?
    ensures ThreadOk(Step(s, i), i) && Quiet(s, Step(s, i), i)
    ensures Silent(s, Step(s, i), i)
  {
  }

  lemma LookBarriers(s: State, i: nat)
    requires Near(s, i) && s.pc[i].LoadGen?
    ensures BarriersOk(Step(s, i))
  {
  }

  lemma DecidePlace(s: State, i: nat)
    requires Near(s, i) && s.pc[i].LoadFlag?
    ensures ThreadOk(Step(s, i), i) && Quiet(s, Step(s, i), i)
    ensures Silent(s, Step(s, i), i)
  {
    DecodeFlag(s);
  }

  lemma DecideBarriers(s: State, i: nat)
    requires Near(s, i) && s.pc[i].LoadFlag?
    ensures BarriersOk(Step(s, i))
  {
  }

  lemma Enter2Place(s: State, i: nat)
    requires Near(s, i) && (s.pc[i].BFetch? || s.pc[i].BReset?)
    ensures ThreadOk(Step(s, i), i) && Quiet(s, Step(s, i), i)
    ensures Silent(s, Step(s, i), i)
  {
  }

  lemma Enter2Barriers(s: State, i: nat)
    requires Near(s, i) && (s.pc[i].BFetch? || s.pc[i].BReset?)
    ensures BarriersOk(Step(s, i))
  {
  }

  lemma Arrive2Place(s: State, i: nat)
    requires Near(s, i) && s.pc[i].BDec?
    ensures ThreadOk(Step(s, i), i)
  {
    FullHouse(s.arrived2 + {i}, s.ns[|s.ns| - 1]);
  }

  lemma Arrive2Quiet(s: State, i: nat)
    requires Near(s, i) && s.pc[i].BDec?
    ensures Quiet(s, Step(s, i), i)
  {
    FullHouse(s.arrived2 + {i}, s.ns[|s.ns| - 1]);
  }

  lemma Arrive2Silent(s: State, i: nat)
    requires Near(s, i) && s.pc[i].BDec? && Quiet(s, Step(s, i), i)
    ensures Silent(s, Step(s, i), i)
  {
  }

  lemma Arrive2Barriers(s: State, i: nat)
    requires Near(s, i) && s.pc[i].BDec?
    ensures BarriersOk(Step(s, i))
  {
    FullHouse(s.arrived2 + {i}, s.ns[|s.ns| - 1]);
  }

  lemma Leave2Place(s: State, i: nat)
    requires Near(s, i) && (s.pc[i].BCheck? || s.pc[i].BSpin?)
    ensures ThreadOk(Step(s, i), i) && Quiet(s, Step(s, i), i)
    ensures Silent(s, Step(s, i), i)
  {
  }

  lemma Leave2Barriers(s: State, i: nat)
    requires Near(s, i) && (s.pc[i].BCheck? || s.pc[i].BSpin?)
    ensures BarriersOk(Step(s, i))
  {
  }

  /** The flag of a round that does not overflow it. */
  lemma ArmedNow(s: State, i: nat)
    requires Near(s, i) && s.pc[i].ArmFlag?
    ensures s.ns != []
    ensures Step(s, i).flag == s.abb.generation + BAR_INCR + s.ns[|s.ns| - 1]
  {
    assert s.pc[i] == ArmFlag(s.abb.generation) && s.ns != [];
    ArmedIs(s.abb.generation, s.ns[|s.ns| - 1]);
    NextGeneration(s.abb.generation);
  }

  lemma ArmPlace(s: State, i: nat, j: nat)
    requires Near(s, i) && Near(s, j) && s.pc[i].ArmFlag?
    ensures ThreadOk(Step(s, i), j)
  {
  }

  lemma ArmBarriers(s: State, i: nat)
    requires Near(s, i) && s.pc[i].ArmFlag?
    ensures BarriersOk(Step(s, i))
  {
    ArmedNow(s, i);
  }

  lemma OpenPlace(s: State, i: nat, j: nat)
    requires Near(s, i) && Near(s, j) && s.pc[i].ABump?
    ensures ThreadOk(Step(s, i), j)
  {
    FullHouse(s.arrived, s.num);
  }

  lemma OpenBarriers(s: State, i: nat)
    requires Near(s, i) && s.pc[i].ABump?
    ensures BarriersOk(Step(s, i))
  {
    FullHouse(s.arrived, s.num);
  }

  lemma Open2Place(s: State, i: nat, j: nat)
    requires Near(s, i) && Near(s, j) && s.pc[i].BBump?
    ensures ThreadOk(Step(s, i), j)
  {
    FullHouse(s.arrived2, s.ns[|s.ns| - 1]);
    DecodeFlag(s);
  }

  lemma Open2Barriers(s: State, i: nat)
    requires Near(s, i) && s.pc[i].BBump?
    ensures BarriersOk(Step(s, i))
  {
    FullHouse(s.arrived2, s.ns[|s.ns| - 1]);
  }

  lemma CallHistory(s: State, i: nat)
    requires Inv(s) && Near(s, i) && (s.pc[i].SoloCall? || s.pc[i].Call?)
    ensures HistoryOk(Step(s, i))
  {
    var s' := Step(s, i);
    forall k: nat | k < |s.ns| - 1 ensures RoundComplete(s', k) {
      assert RoundComplete(s, k);
    }
    forall j: nat
      ensures s'.started[(|s.ns| - 1, j)] == StartedNow(s', j)
      ensures s'.finished[(|s.ns| - 1, j)] == FinishedNow(s', j)
    {
      assert s.started[(|s.ns| - 1, j)] == StartedNow(s, j);
    }
  }

  lemma TaskHistory(s: State, i: nat)
    requires Inv(s) && Near(s, i) && s.pc[i].Running?
    ensures HistoryOk(Step(s, i))
  {
    var s' := Step(s, i);
    forall k: nat | k < |s.ns| - 1 ensures RoundComplete(s', k) {
      assert RoundComplete(s, k);
    }
    forall j: nat
      ensures s'.started[(|s.ns| - 1, j)] == StartedNow(s', j)
      ensures s'.finished[(|s.ns| - 1, j)] == FinishedNow(s', j)
    {
      assert s.started[(|s.ns| - 1, j)] == StartedNow(s, j);
    }
  }

  lemma ArmHistory(s: State, i: nat)
    requires Inv(s) && Near(s, i) && s.pc[i].ArmFlag?
    ensures HistoryOk(Step(s, i))
  {
    var s' := Step(s, i);
    forall k: nat | k < |s.ns| - 1 ensures RoundComplete(s', k) {
      assert RoundComplete(s, k);
    }
    forall j: nat
      ensures s'.started[(|s.ns| - 1, j)] == StartedNow(s', j)
      ensures s'.finished[(|s.ns| - 1, j)] == FinishedNow(s', j)
    {
      assert s.started[(|s.ns| - 1, j)] == StartedNow(s, j);
    }
  }

  lemma OpenHistory(s: State, i: nat)
    requires Inv(s) && Near(s, i) && s.pc[i].ABump?
    ensures HistoryOk(Step(s, i))
  {
    var s' := Step(s, i);
    FullHouse(s.arrived, s.num);
    forall k: nat | k < |s.ns| - 1 ensures RoundComplete(s', k) {
      assert RoundComplete(s, k);
    }
    forall j: nat
      ensures s'.started[(|s.ns| - 1, j)] == StartedNow(s', j)
      ensures s'.finished[(|s.ns| - 1, j)] == FinishedNow(s', j)
    {
      assert s.started[(|s.ns| - 1, j)] == StartedNow(s, j);
      assert j < s.num ==> ThreadOk(s, j);
    }
  }

  lemma Open2History(s: State, i: nat)
    requires Inv(s) && Near(s, i) && s.pc[i].BBump?
    ensures HistoryOk(Step(s, i))
  {
    var s' := Step(s, i);
    FullHouse(s.arrived2, s.ns[|s.ns| - 1]);
    forall k: nat | k < |s.ns| - 1 ensures RoundComplete(s', k) {
      assert RoundComplete(s, k);
    }
    forall j: nat
      ensures s'.started[(|s.ns| - 1, j)] == StartedNow(s', j)
      ensures s'.finished[(|s.ns| - 1, j)] == FinishedNow(s', j)
    {
      assert s.started[(|s.ns| - 1, j)] == StartedNow(s, j);
      assert j < s.num ==> ThreadOk(s, j);
    }
  }

  /** Every atomic step of every thread keeps the invariant. */
  lemma StepKeeps(s: State, i: nat)
    requires Inv(s) && i < s.num
    ensures Inv(Step(s, i))
  {
    var s' := Step(s, i);
    assert Near(s, i) by {
      assert ThreadOk(s, 0) && ThreadOk(s, i);
    }
    if s.pc[i].ArmFlag? {
      ArmBarriers(s, i); ArmHistory(s, i);
      forall j | 0 <= j < s.num ensures ThreadOk(s', j) { LoudPlace(s, i, j); }
    } else if s.pc[i].ABump? {
      OpenBarriers(s, i); OpenHistory(s, i);
      forall j | 0 <= j < s.num ensures ThreadOk(s', j) { LoudPlace(s, i, j); }
    } else if s.pc[i].BBump? {
      Open2Barriers(s, i); Open2History(s, i);
      forall j | 0 <= j < s.num ensures ThreadOk(s', j) { LoudPlace(s, i, j); }
    } else if !s.pc[i].Outside? {
      QuietKeeps(s, i);
      QuietStep(s, s', i);
    }
  }

  lemma LoudPlace(s: State, i: nat, j: nat)
    requires Inv(s) && Near(s, i) && j < s.num
    requires s.pc[i].ArmFlag? || s.pc[i].ABump? || s.pc[i].BBump?
    ensures ThreadOk(Step(s, i), j)
  {
    assert ThreadOk(s, j);
    if s.pc[i].ArmFlag? {
      ArmPlace(s, i, j);
    } else if s.pc[i].ABump? {
      OpenPlace(s, i, j);
    } else {
      Open2Place(s, i, j);
    }
  }

  lemma ArmingKeeps(s: State, i: nat)
    requires Inv(s) && Near(s, i)
    requires s.pc[i].ArmLoad? || s.pc[i].ArmTotal? || s.pc[i].ArmAwaited?
    ensures ThreadOk(Step(s, i), i) && Quiet(s, Step(s, i), i)
    ensures BarriersOk(Step(s, i)) && HistoryOk(Step(s, i))
  {
    ArmingPlace(s, i);
    ArmingQuiet(s, i);
    ArmingSilent(s, i);
    ArmingBarriers(s, i);
    QuietHistory(s, Step(s, i), i);
  }

  lemma FirstKeeps(s: State, i: nat)
    requires Inv(s) && Near(s, i)
    requires s.pc[i].AFetch? || s.pc[i].AReset? || s.pc[i].ADec? || s.pc[i].ACheck?
             || s.pc[i].ASpin? || s.pc[i].LoadGen? || s.pc[i].LoadFlag?
    ensures ThreadOk(Step(s, i), i) && Quiet(s, Step(s, i), i)
    ensures BarriersOk(Step(s, i)) && HistoryOk(Step(s, i))
  {
    match s.pc[i] {
      case AFetch => EnterPlace(s, i); EnterSilent(s, i); EnterBarriers(s, i);
      case AReset => EnterPlace(s, i); EnterSilent(s, i); EnterBarriers(s, i);
      case ADec(_) => ArrivePlace(s, i); ArriveSilent(s, i); ArriveBarriers(s, i);
      case ACheck(_) => CheckPlace(s, i); CheckBarriers(s, i);
      case ASpin(_) => LeavePlace(s, i); LeaveBarriers(s, i);
      case LoadGen => LookPlace(s, i); LookBarriers(s, i);
      case LoadFlag(_) => DecidePlace(s, i); DecideBarriers(s, i);
    }
    QuietHistory(s, Step(s, i), i);
  }

  lemma SecondKeeps(s: State, i: nat)
    requires Inv(s) && Near(s, i)
    requires s.pc[i].BFetch? || s.pc[i].BReset? || s.pc[i].BDec? || s.pc[i].BCheck? || s.pc[i].BSpin?
    ensures ThreadOk(Step(s, i), i) && Quiet(s, Step(s, i), i)
    ensures BarriersOk(Step(s, i)) && HistoryOk(Step(s, i))
  {
    match s.pc[i] {
      case BFetch(_) => Enter2Place(s, i); Enter2Barriers(s, i);
      case BReset(_) => Enter2Place(s, i); Enter2Barriers(s, i);
      case BDec(_, _) => Arrive2Place(s, i); Arrive2Quiet(s, i); Arrive2Silent(s, i); Arrive2Barriers(s, i);
      case BCheck(_, _) => Leave2Place(s, i); Leave2Barriers(s, i);
      case BSpin(_, _) => Leave2Place(s, i); Leave2Barriers(s, i);
    }
    QuietHistory(s, Step(s, i), i);
  }

  lemma QuietKeeps(s: State, i: nat)
    requires Inv(s) && Near(s, i)
    requires !s.pc[i].Outside? && !s.pc[i].ArmFlag? && !s.pc[i].ABump? && !s.pc[i].BBump?
    ensures ThreadOk(Step(s, i), i) && Quiet(s, Step(s, i), i)
    ensures BarriersOk(Step(s, i)) && HistoryOk(Step(s, i))
  {
    if s.pc[i].SoloCall? || s.pc[i].Call? {
      CallPlace(s, i);
      CallBarriers(s, i);
      CallHistory(s, i);
    } else if s.pc[i].Running? {
      TaskPlace(s, i);
      TaskBarriers(s, i);
      TaskHistory(s, i);
    } else if s.pc[i].ArmLoad? || s.pc[i].ArmTotal? || s.pc[i].ArmAwaited? {
      ArmingKeeps(s, i);
    } else if AtSecondBarrier(s.pc[i]) {
      SecondKeeps(s, i);
    } else {
      FirstKeeps(s, i);
    }
  }

  /** When the submitter is back outside, the newest round is complete. */
  lemma LastComplete(s: State)
    requires Inv(s) && Settled(s) && s.ns != []
    ensures RoundComplete(s, |s.ns| - 1)
  {
    var r := |s.ns| - 1;
    forall j: nat
      ensures s.started[(r, j)] == s.finished[(r, j)] == (if j < s.ns[r] then 1 else 0)
    {
      assert s.started[(r, j)] == StartedNow(s, j) && s.finished[(r, j)] == FinishedNow(s, j);
    }
  }

  /** Submitting a round keeps the invariant while the generation cannot wrap. */
  lemma BeginPlaces(s: State, n: nat)
    requires Inv(s) && GangRounds(Begin(s, n).ns) < WRAP_ROUNDS && Begin(s, n) != s
    ensures BarriersOk(Begin(s, n)) && forall j :: 0 <= j < s.num ==> ThreadOk(Begin(s, n), j)
  {
    var s' := Begin(s, n);
    assert ThreadOk(s, 0);
    forall j | 0 <= j < s.num ensures ThreadOk(s', j) {
      assert ThreadOk(s, j);
    }
  }

  lemma BeginHistory(s: State, n: nat)
    requires Inv(s) && GangRounds(Begin(s, n).ns) < WRAP_ROUNDS && Begin(s, n) != s
    ensures HistoryOk(Begin(s, n))
  {
    var s' := Begin(s, n);
    assert ThreadOk(s, 0);
    forall k: nat | k < |s'.ns| - 1 ensures RoundComplete(s', k) {
      if k < |s.ns| - 1 {
        assert RoundComplete(s, k);
      } else {
        LastComplete(s);
      }
    }
  }

  lemma BeginKeeps(s: State, n: nat)
    requires Inv(s) && GangRounds(Begin(s, n).ns) < WRAP_ROUNDS
    ensures Inv(Begin(s, n))
    ensures s.pc[0].Outside? && 1 <= n <= s.num ==> Begin(s, n).ns == s.ns + [n] && !Begin(s, n).pc[0].Outside?
    ensures !s.pc[0].Outside? || n == 0 ==> Begin(s, n) == s
  {
    if Begin(s, n) != s {
      BeginPlaces(s, n);
      BeginHistory(s, n);
    }
  }

  lemma InitOk(num: nat, garbage: nat)
    requires 2 <= num <= 255
    ensures Inv(Init(num, garbage))
  {
    var s := Init(num, garbage);
    assert forall j :: 0 <= j < num ==> ThreadOk(s, j);
  }

  lemma {:induction false} RunKeeps(s: State, actions: seq<Action>)
    requires Inv(s) && GangRounds(Run(s, actions).ns) < WRAP_ROUNDS
    ensures Inv(Run(s, actions))
  {
    if actions != [] {
      var before := actions[..|actions| - 1];
      RunKeeps(s, before);
      match actions[|actions| - 1]
      case Submit(n) => BeginKeeps(Run(s, before), n);
      case Advance(i) => if i < s.num { StepKeeps(Run(s, before), i); }
    }
  }

  lemma InvIsSafe(s: State)
    requires Inv(s)
    ensures Safe(s)
  {
    assert ThreadOk(s, 0);
    var r := |s.ns| - 1;
    forall k: nat, i: nat
      ensures s.finished[(k, i)] <= s.started[(k, i)] <= 1
      ensures s.started[(k, i)] == 1 ==> k < |s.ns| && i < s.ns[k]
    {
      if k < r {
        assert RoundComplete(s, k);
      } else if k == r {
        assert s.started[(r, i)] == StartedNow(s, i);
      }
    }
    if Settled(s) && r >= 0 {
      LastComplete(s);
    }
    forall i, j | 0 <= i < s.num && 0 <= j < s.num ensures s.departures[i] <= s.arrivals[j] {
      assert ThreadOk(s, i) && ThreadOk(s, j);
    }
    RunningArmed(s);
  }

  lemma RunningArmed(s: State)
    requires Inv(s)
    ensures forall i :: 0 <= i < s.num && s.pc[i].Running? ==>
              && s.pc[i].r == |s.ns| - 1
              && (s.ns[s.pc[i].r] > 1 ==> s.flag == BAR_INCR * s.departures[i] + s.ns[s.pc[i].r])
  {
    forall i | 0 <= i < s.num && s.pc[i].Running?
      ensures && s.pc[i].r == |s.ns| - 1
              && (s.ns[s.pc[i].r] > 1 ==> s.flag == BAR_INCR * s.departures[i] + s.ns[s.pc[i].r])
    {
      assert ThreadOk(s, 0) && ThreadOk(s, i);
    }
  }

  /** In every interleaving of any sequence of submits, all the promises of the protocol hold, for the
      rounds that were submitted. */
  lemma EveryRunIsSafe(num: nat, garbage: nat, actions: seq<Action>)
    requires 2 <= num <= 255 && GangRounds(Run(Init(num, garbage), actions).ns) < WRAP_ROUNDS
    ensures Safe(Run(Init(num, garbage), actions))
    ensures Run(Init(num, garbage), actions).ns == Submitted(Init(num, garbage), actions)
  {
    RoundsAreSubmitted(Init(num, garbage), actions);
    InitOk(num, garbage);
    RunKeeps(Init(num, garbage), actions);
    InvIsSafe(Run(Init(num, garbage), actions));
  }

  // ------------------------------------------------------------------ progress

  /** Some thread's next atomic step does something. */
  predicate Effective(s: State, i: nat)
    requires WellSized(s)
  {
    i < s.num && Step(s, i) != s
  }

  /** Somebody can move while the submitter waits on the first barrier. */
  lemma FirstBarrierMoves(s: State)
    requires Inv(s) && s.pc[0].ASpin? && !Effective(s, 0)
    ensures exists i: nat :: Effective(s, i)
  {
    assert ThreadOk(s, 0);
    if s.lastA >= 0 {
      assert ThreadOk(s, s.lastA);
      assert Effective(s, s.lastA);
    } else {
      FullHouse(s.arrived, s.num);
      var j: nat :| j < s.num && j !in s.arrived;
      assert ThreadOk(s, j);
      assert Effective(s, j);
    }
  }

  lemma SecondBarrierMoves(s: State)
    requires Inv(s) && s.pc[0].BSpin? && !Effective(s, 0)
    ensures exists i: nat :: Effective(s, i)
  {
    assert ThreadOk(s, 0);
    if s.lastB >= 0 {
      assert ThreadOk(s, s.lastB);
      assert Effective(s, s.lastB);
    } else {
      FullHouse(s.arrived2, s.ns[|s.ns| - 1]);
      var j: nat :| j < s.ns[|s.ns| - 1] && j !in s.arrived2;
      assert ThreadOk(s, j);
      assert Effective(s, j);
    }
  }

  /** No reachable state inside a submit is stuck: some thread can always move. */
  lemma NoDeadlock(s: State)
    requires Inv(s) && !s.pc[0].Outside?
    ensures exists i: nat :: Effective(s, i)
  {
    assert ThreadOk(s, 0);
    if !Effective(s, 0) {
      if s.pc[0].ASpin? {
        FirstBarrierMoves(s);
      } else {
        SecondBarrierMoves(s);
      }
    }
  }

  /** How many atomic steps thread i can still take before it blocks or submit returns. */
  ghost function Rank(s: State, i: nat): nat
    requires WellSized(s) && i < s.num
  {
    (if Armed(s) then 12 else 0) + Position(s.pc[i], s.abb.generation, s.num)
  }

  ghost function Position(p: PC, generation: nat, num: nat): nat {
    match p
    case Outside => 0
    case SoloCall => 15
    case ArmLoad => 24 + 12 * num
    case ArmFlag(_) => 23 + 12 * num
    case ArmTotal => 10
    case ArmAwaited => 9
    case AFetch => 8
    case ADec(_) => 7
    case AReset => 6
    case ABump => 5
    case ACheck(g) => if g == generation then 6 else 18
    case ASpin(g) => if g == generation then 5 else 17
    case LoadGen => 16
    case LoadFlag(_) => 15
    case Call => 14
    case Running(_) => 13
    case BFetch(_) => 12
    case BDec(_, _) => 11
    case BReset(_) => 10
    case BCheck(_, _) => 10
    case BBump(_) => 9
    case BSpin(_, _) => 9
  }

  ghost function Work(s: State, n: nat): nat
    requires WellSized(s) && n <= s.num
  {
    if n == 0 then 0 else Work(s, n - 1) + Rank(s, n - 1)
  }

  lemma {:induction false} WorkChange(s: State, s': State, i: nat, slack: nat, n: nat)
    requires WellSized(s) && WellSized(s') && s'.num == s.num && i < s.num && n <= s.num
    requires forall j :: 0 <= j < s.num && j != i ==> Rank(s', j) <= Rank(s, j) + slack
    requires Rank(s', i) + slack * s.num < Rank(s, i)
    ensures Work(s', n) + (if i < n then slack * s.num + 1 else 0) <= Work(s, n) + slack * n
  {
    if n > 0 {
      WorkChange(s, s', i, slack, n - 1);
      assert slack * n == slack * (n - 1) + slack;
    }
  }

  /** Every effective step uses up some of the remaining work. */
  lemma StepDescends(s: State, i: nat)
    requires Inv(s) && Effective(s, i)
    ensures Work(Step(s, i), s.num) < Work(s, s.num)
  {
    assert Near(s, i) by { assert ThreadOk(s, 0) && ThreadOk(s, i); }
    if s.pc[i].ABump? {
      OpenDescends(s, i);
    } else if s.pc[i].ArmFlag? || s.pc[i].BBump? {
      LoudDescends(s, i);
    } else {
      QuietKeeps(s, i);
      QuietWork(s, i);
    }
  }

  lemma QuietWork(s: State, i: nat)
    requires Near(s, i) && Effective(s, i) && Quiet(s, Step(s, i), i)
    requires !s.pc[i].ABump? && !s.pc[i].Outside?
    ensures Work(Step(s, i), s.num) < Work(s, s.num)
  {
    var s' := Step(s, i);
    QuietDescends(s, i);
    forall j | 0 <= j < s.num && j != i ensures Rank(s', j) <= Rank(s, j) {
      assert s'.pc[j] == s.pc[j];
    }
    WorkChange(s, s', i, 0, s.num);
  }

  lemma LoudRanks(s: State, i: nat)
    requires Near(s, i) && (s.pc[i].ArmFlag? || s.pc[i].BBump?)
    ensures forall j: nat :: j < s.num && j != i ==>
              Rank(Step(s, i), j) <= Rank(s, j) + (if s.pc[i].ArmFlag? then 12 else 0)
  {
    forall j: nat | j < s.num && j != i
      ensures Rank(Step(s, i), j) <= Rank(s, j) + (if s.pc[i].ArmFlag? then 12 else 0)
    {
      assert Step(s, i).pc[j] == s.pc[j];
    }
  }

  lemma LoudOwnRank(s: State, i: nat)
    requires Near(s, i) && (s.pc[i].ArmFlag? || s.pc[i].BBump?)
    ensures Rank(Step(s, i), i) + (if s.pc[i].ArmFlag? then 12 * s.num else 0) < Rank(s, i)
  {
  }

  lemma LoudDescends(s: State, i: nat)
    requires Near(s, i) && (s.pc[i].ArmFlag? || s.pc[i].BBump?)
    ensures Work(Step(s, i), s.num) < Work(s, s.num)
  {
    LoudRanks(s, i);
    LoudOwnRank(s, i);
    WorkChange(s, Step(s, i), i, if s.pc[i].ArmFlag? then 12 else 0, s.num);
  }

  lemma OpenRank(s: State, i: nat, j: nat)
    requires Near(s, i) && Near(s, j) && s.pc[i].ABump? && j != i
    ensures Rank(Step(s, i), j) <= Rank(s, j)
  {
    FullHouse(s.arrived, s.num);
  }

  lemma OpenOwnRank(s: State, i: nat)
    requires Near(s, i) && s.pc[i].ABump?
    ensures Rank(Step(s, i), i) < Rank(s, i)
  {
    FullHouse(s.arrived, s.num);
  }

  lemma OpenDescends(s: State, i: nat)
    requires Inv(s) && Near(s, i) && s.pc[i].ABump?
    ensures Work(Step(s, i), s.num) < Work(s, s.num)
  {
    var s' := Step(s, i);
    forall j | 0 <= j < s.num && j != i ensures Rank(s', j) <= Rank(s, j) {
      assert ThreadOk(s, j);
      OpenRank(s, i, j);
    }
    OpenOwnRank(s, i);
    WorkChange(s, s', i, 0, s.num);
  }

  predicate AtFirstBarrier(p: PC) {
    p.AFetch? || p.ADec? || p.AReset? || p.ACheck? || p.ASpin? || p.LoadGen?
  }

  predicate AtSecondBarrier(p: PC) {
    p.BFetch? || p.BDec? || p.BReset? || p.BBump? || p.BCheck? || p.BSpin?
  }

  lemma QuietDescends(s: State, i: nat)
    requires WellSized(s) && Effective(s, i) && s.abb.awaited <= BAR_OVERFLOW
    requires s.pc[i].ADec? ==> s.pc[i].g == s.abb.generation
    requires !s.pc[i].ABump? && !s.pc[i].Outside?
    ensures Position(Step(s, i).pc[i], s.abb.generation, s.num)
            < Position(s.pc[i], s.abb.generation, s.num)
  {
    if AtFirstBarrier(s.pc[i]) {
      FirstBarrierDescends(s, i);
    } else if AtSecondBarrier(s.pc[i]) {
      SecondBarrierDescends(s, i);
    } else {
      RestDescends(s, i);
    }
  }

  lemma FirstBarrierDescends(s: State, i: nat)
    requires WellSized(s) && i < s.num && Step(s, i) != s && s.abb.awaited <= BAR_OVERFLOW
    requires s.pc[i].ADec? ==> s.pc[i].g == s.abb.generation
    requires AtFirstBarrier(s.pc[i])
    ensures Position(Step(s, i).pc[i], s.abb.generation, s.num)
            < Position(s.pc[i], s.abb.generation, s.num)
  {
  }

  lemma SecondBarrierDescends(s: State, i: nat)
    requires WellSized(s) && i < s.num && Step(s, i) != s && AtSecondBarrier(s.pc[i])
    ensures Position(Step(s, i).pc[i], s.abb.generation, s.num)
            < Position(s.pc[i], s.abb.generation, s.num)
  {
  }

  lemma RestDescends(s: State, i: nat)
    requires WellSized(s) && i < s.num && Step(s, i) != s
    requires !AtFirstBarrier(s.pc[i]) && !AtSecondBarrier(s.pc[i])
    requires !s.pc[i].ABump? && !s.pc[i].Outside?
    ensures Position(Step(s, i).pc[i], s.abb.generation, s.num)
            < Position(s.pc[i], s.abb.generation, s.num)
  {
  }

  /** A schedule in which every chosen step does something. */
  predicate Busy(s: State, picks: seq<nat>)
    requires WellSized(s)
    decreases |picks|
  {
    picks != [] ==> Effective(s, picks[0]) && Busy(Step(s, picks[0]), picks[1..])
  }

  function After(s: State, picks: seq<nat>): (e: State)
    requires WellSized(s) && Busy(s, picks)
    ensures WellSized(e) && e.num == s.num && e.ns == s.ns
    decreases |picks|
  {
    if picks == [] then s else After(Step(s, picks[0]), picks[1..])
  }

  lemma {:induction false} BoundedWork(s: State, picks: seq<nat>)
    requires Inv(s) && Busy(s, picks)
    ensures |picks| <= Work(s, s.num) && Inv(After(s, picks))
    decreases |picks|
  {
    if picks != [] {
      StepKeeps(s, picks[0]);
      StepDescends(s, picks[0]);
      BoundedWork(Step(s, picks[0]), picks[1..]);
    }
  }

  /** From every reachable state, every schedule of effective steps is finite, and when no step
      is left submit has returned with all the runs of all rounds done. */
  lemma SubmitReturns(s: State, picks: seq<nat>)
    requires Inv(s) && Busy(s, picks)
    ensures |picks| <= Work(s, s.num)
    ensures var e := After(s, picks);
      (forall i: nat :: !Effective(e, i)) ==>
        && e.pc[0].Outside?
        && forall k: nat :: k < |s.ns| ==> RoundComplete(e, k)
  {
    BoundedWork(s, picks);
    var e := After(s, picks);
    InvIsSafe(e);
    if !e.pc[0].Outside? {
      NoDeadlock(e);
    }
  }

  /** The steps of a schedule never undo a round that is complete. */
  lemma {:induction false} CompleteStays(s: State, picks: seq<nat>)
    requires Inv(s) && Busy(s, picks)
    ensures Inv(After(s, picks))
    ensures forall k: nat, i: nat :: k < |s.ns| - 1 ==>
              var e := After(s, picks);
              e.started[(k, i)] == s.started[(k, i)] && e.finished[(k, i)] == s.finished[(k, i)]
  {
    BoundedWork(s, picks);
    var e := After(s, picks);
    forall k: nat, i: nat | k < |s.ns| - 1
      ensures e.started[(k, i)] == s.started[(k, i)] && e.finished[(k, i)] == s.finished[(k, i)]
    {
      assert RoundComplete(s, k) && RoundComplete(e, k);
    }
  }

  /** A submit of n ranges, from any reachable state outside submit: whatever the threads do, once
      submit has returned exactly the threads below n have run the new round, once each, and the rounds
      before it stand as they did; and submit does return, after finitely many steps. */
  lemma SubmitRuns(s: State, n: nat, picks: seq<nat>)
    requires Inv(s) && s.pc[0].Outside? && 1 <= n <= s.num && GangRounds(s.ns + [n]) < WRAP_ROUNDS
    requires Busy(Begin(s, n), picks)
    ensures var e, k := After(Begin(s, n), picks), |s.ns|;
      && |picks| <= Work(Begin(s, n), s.num)
      && ((forall i: nat :: !Effective(e, i)) ==> e.pc[0].Outside?)
      && (e.pc[0].Outside? ==> picks != [] && |e.ns| == k + 1)
      && (e.pc[0].Outside? ==>
            forall i: nat :: e.started[(k, i)] == e.finished[(k, i)] == (if i < n then 1 else 0))
      && forall j: nat, i: nat :: j < k ==>
           e.started[(j, i)] == s.started[(j, i)] && e.finished[(j, i)] == s.finished[(j, i)]
  {
    var b := Begin(s, n);
    BeginKeeps(s, n);
    SubmitReturns(b, picks);
    CompleteStays(b, picks);
    var e := After(b, picks);
    if e.pc[0].Outside? {
      InvIsSafe(e);
      assert RoundComplete(e, |s.ns|);
    }
  }

  /** The same after any run, and a submit without work starts no round. */
  lemma SubmitAfterRun(num: nat, garbage: nat, actions: seq<Action>, n: nat, picks: seq<nat>)
    requires 2 <= num <= 255 && GangRounds(Run(Init(num, garbage), actions).ns + [n]) < WRAP_ROUNDS
    requires Run(Init(num, garbage), actions).pc[0].Outside? && n <= num
    requires Busy(Run(Init(num, garbage), actions + [Submit(n)]), picks)
    ensures var s := Run(Init(num, garbage), actions);
      var e := After(Run(Init(num, garbage), actions + [Submit(n)]), picks);
      && (n == 0 ==> e.ns == s.ns && e.pc[0].Outside? && e.started == s.started && e.finished == s.finished)
      && ((forall i: nat :: !Effective(e, i)) ==> e.pc[0].Outside?)
      && (n >= 1 && e.pc[0].Outside? ==> forall i: nat ::
            e.started[(|s.ns|, i)] == e.finished[(|s.ns|, i)] == (if i < n then 1 else 0))
  {
    var s := Run(Init(num, garbage), actions);
    InitOk(num, garbage);
    assert (s.ns + [n])[..|s.ns|] == s.ns;
    RunKeeps(Init(num, garbage), actions);
    assert (actions + [Submit(n)])[..|actions|] == actions;
    if n == 0 {
      QuietOutside(s, picks);
    } else {
      SubmitRuns(s, n, picks);
    }
  }

  lemma {:induction false} StaysOutside(s: State, picks: seq<nat>)
    requires WellSized(s) && s.num > 0 && s.pc[0].Outside? && Busy(s, picks)
    ensures After(s, picks).pc[0].Outside?
    decreases |picks|
  {
    if picks != [] {
      OutsideStep(s, picks[0]);
      StaysOutside(Step(s, picks[0]), picks[1..]);
    }
  }

  lemma OutsideStep(s: State, i: nat)
    requires WellSized(s) && i < s.num && s.pc[0].Outside?
    ensures Step(s, i).pc[0].Outside?
  {
  }

  /** Outside submit the history is settled: each round ran once on each of its threads. */
  lemma OutsideHistory(s: State, k: nat, i: nat)
    requires Inv(s) && s.pc[0].Outside?
    ensures s.started[(k, i)] == s.finished[(k, i)] == (if k < |s.ns| && i < s.ns[k] then 1 else 0)
  {
    InvIsSafe(s);
    if k < |s.ns| {
      assert RoundComplete(s, k);
    }
  }

  /** Between two submits the workers only settle down at the first barrier. */
  lemma QuietOutside(s: State, picks: seq<nat>)
    requires Inv(s) && s.pc[0].Outside? && Busy(s, picks)
    ensures var e := After(s, picks);
      e.pc[0].Outside? && e.started == s.started && e.finished == s.finished
  {
    var e := After(s, picks);
    StaysOutside(s, picks);
    BoundedWork(s, picks);
    forall p: (nat, nat) ensures e.started[p] == s.started[p] && e.finished[p] == s.finished[p] {
      OutsideHistory(s, p.0, p.1);
      OutsideHistory(e, p.0, p.1);
    }
  }

  /** The sizes of the rounds that a sequence of actions submits, in order. */
  function Submitted(s: State, actions: seq<Action>): seq<nat>
    requires WellSized(s) && s.num > 0
  {
    if actions == [] then []
    else
      var before, a := actions[..|actions| - 1], actions[|actions| - 1];
      Submitted(s, before)
      + (if a.Submit? && 1 <= a.n <= s.num && Run(s, before).pc[0].Outside? then [a.n] else [])
  }

  /** The rounds of a run are those submitted, with the sizes submitted. */
  lemma {:induction false} RoundsAreSubmitted(s: State, actions: seq<Action>)
    requires WellSized(s) && s.num > 0
    ensures Run(s, actions).ns == s.ns + Submitted(s, actions)
  {
    if actions != [] {
      RoundsAreSubmitted(s, actions[..|actions| - 1]);
    }
  }

  // ------------------------------------------------------------------ limits of the flag word

  /** A thread still holding the previous generation stays out of a newly armed round exactly
      until the 32-bit generation wraps; after a wrap it is let in early. */
  lemma StaleTestUntilWrap(generation: nat, n: nat, id: nat)
    requires generation % BAR_INCR == 0 && generation < UINT_RANGE
    requires id < n < BAR_WAS_LAST
    ensures SitsOut(generation, ArmedFlag(generation, n), id)
            <==> generation + BAR_INCR < UINT_RANGE
  {
    NextGeneration(generation);
    ArmedIs(generation, n);
    FlagFields(generation, 0);
    FlagFields(Inc32(generation, BAR_INCR), n);
  }

  /** Thread id takes part in the round that generation + BAR_INCR starts. */
  predicate Admitted(generation: nat, n: nat, id: nat) {
    !SitsOut(generation + BAR_INCR, ArmedFlag(generation, n), id)
  }

  /** In the generation it was armed for, the flag admits the threads below n, all of them and no
      others, exactly when n fits the eight bits that carry it. */
  lemma FlagAdmitsExactly(generation: nat, n: nat)
    requires generation % BAR_INCR == 0 && generation + BAR_INCR < UINT_RANGE && n >= 1
    ensures (forall id: nat :: Admitted(generation, n, id) <==> id < n) <==> n < BAR_WAS_LAST
  {
    if n < BAR_WAS_LAST {
      NextGeneration(generation);
      ArmedIs(generation, n);
      FlagFields(generation + BAR_INCR, 0);
      FlagFields(generation + BAR_INCR, n);
    } else {
      EightBits(ArmedFlag(generation, n));
      assert !Admitted(generation, n, n - 1);
    }
  }

  lemma EightBits(flag: nat)
    ensures flag % BAR_WAS_LAST <= 255
  {
  }
}
