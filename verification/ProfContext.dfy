/**
 The lifetime of profiling contexts (prof.c): sampling threads look up or create the global
 context (gctx) of a backtrace and link a thread context (tctx) into its tree, freeing threads
 unlink theirs, and one dumping thread at a time pins every gctx.  `nlimbo` counts the threads
 that must keep a gctx alive although nothing of theirs is linked into it yet, or any more.

 Each atomic step is one critical section: all accesses to a gctx's counter, tree and tctx
 states happen under its lock, so a section under that lock is one step; bt2gctx_mtx, which is
 held across several such sections, is explicit (`owner`), and so is the dump lock (`dumper`).
 */
module ProfContext {
  import opened Common
  import Cuckoo

  datatype TState = Initializing | Nominal | Dumping | Purgatory

  /** Who a unit of nlimbo belongs to. */
  datatype Token = ByThread(i: nat) | ByDump | Leaked(serial: nat)

  /** `live` is false after the free.  `holders` and `keeper` are history: the tokens counted by
      nlimbo, and the thread to which an unpublished gctx is private (-1 once published). */
  datatype Gctx = Gctx(bt: nat, nlimbo: int, tree: set<nat>, live: bool,
                       holders: set<Token>, keeper: int)

  /** `linked`: still in its thread's own table.  `maker` and `killer` are history. */
  datatype Tctx = Tctx(g: nat, st: TState, linked: bool, live: bool, maker: nat, killer: int)

  /** What a thread does after trying to destroy a gctx. */
  datatype Next = Nothing | FreeTctx(t: nat) | MoreDump

  /** Program points; tg is a gctx of the thread's own making, -1 for none. */
  datatype PC =
    | Idle
    | EnterFirst(bt: nat) | SearchFirst(bt: nat) | Create(bt: nat)
    | EnterAgain(bt: nat, tg: int) | SearchAgain(bt: nat, tg: int) | Abandon(tg: int)
    | Retain(g: nat, tg: int) | LeaveSearch(g: nat, tg: int)
    | NewTctx(g: nat, isNew: bool) | Link(g: nat, t: nat)
    | Unlink(t: nat) | FreeT(t: nat)
    | TryEnter(g: nat, k: Next) | TryCheck(g: nat, k: Next) | Free(g: nat, k: Next)
    | DumpEnter | DumpPrep(todo: set<nat>) | DumpMerge(todo: set<nat>) | DumpFinish

  datatype State = State(
    gctx: seq<Gctx>, tctx: seq<Tctx>, bt2gctx: map<nat, nat>,
    owner: int, dumper: int, dumpSet: set<nat>, leaks: nat, pc: seq<PC>)

  datatype Action =
    | Sample(i: nat, bt: nat)               // prof_lookup, the thread's own table lacks bt
    | Release(i: nat, t: nat)               // prof_tctx_destroy
    | Dump(i: nat)
    | Advance(i: nat, ok: bool, pick: nat)  // ok: memory was available; pick: iteration order
    | Displace(i: nat, victim: nat)         // an insertion fails with an old binding in hand

  function Init(threads: nat): State {
    State([], [], map[], -1, -1, {}, 0, seq(threads, _ => Idle))
  }

  function Go(s: State, i: nat, p: PC): State
    requires i < |s.pc|
  {
    s.(pc := s.pc[i := p])
  }

  function SetG(s: State, g: nat, x: Gctx): State
    requires g < |s.gctx|
  {
    s.(gctx := s.gctx[g := x])
  }

  function SetT(s: State, t: nat, x: Tctx): State
    requires t < |s.tctx|
  {
    s.(tctx := s.tctx[t := x])
  }

  function After(k: Next): PC {
    match k
    case Nothing => Idle
    case FreeTctx(t) => FreeT(t)
    case MoreDump => DumpFinish
  }

  /** gctx->nlimbo++ on behalf of a token. */
  function Hold(x: Gctx, who: Token): Gctx {
    x.(nlimbo := x.nlimbo + 1, holders := x.holders + {who})
  }

  function Drop(x: Gctx, who: Token): Gctx {
    x.(nlimbo := x.nlimbo - 1, holders := x.holders - {who})
  }

  function Dead(x: Gctx): Gctx {
    x.(live := false, holders := {}, keeper := -1)
  }

  predicate ShouldDestroy(x: Gctx) { x.tree == {} && x.nlimbo == 0 }

  // ------------------------------------------------------------------ prof_lookup

  /** A search of bt2gctx, made with bt2gctx_mtx held. */
  function Search(s: State, i: nat, bt: nat, tg: int, ok: bool): State
    requires i < |s.pc| && tg < |s.gctx|
  {
    if bt in s.bt2gctx then Go(s, i, Retain(s.bt2gctx[bt], tg))
    else if tg < 0 then Go(s, i, Create(bt)).(owner := -1)
    else if ok then
      SetG(Go(s, i, NewTctx(tg, true)), tg, s.gctx[tg].(keeper := -1)).(
        bt2gctx := s.bt2gctx[bt := tg], owner := -1)
    else Go(s, i, Abandon(tg)).(owner := -1)
  }

  function CreateGctx(s: State, i: nat, bt: nat): State
    requires i < |s.pc|
  {
    Go(s, i, EnterAgain(bt, |s.gctx|)).(
      gctx := s.gctx + [Gctx(bt, 1, {}, true, {ByThread(i)}, i)])
  }

  function LinkTctx(s: State, i: nat, g: nat, t: nat): State
    requires i < |s.pc| && g < |s.gctx| && t < |s.tctx|
  {
    SetT(SetG(Go(s, i, Idle), g,
              Drop(s.gctx[g].(tree := s.gctx[g].tree + {t}), ByThread(i))),
         t, s.tctx[t].(st := Nominal))
  }

  // ------------------------------------------------------------------ destruction

  /** prof_tctx_destroy after its first section, under the gctx lock. */
  function UnlinkTctx(s: State, i: nat, t: nat): State
    requires i < |s.pc| && t < |s.tctx| && s.tctx[t].g < |s.gctx|
  {
    var g := s.tctx[t].g;
    if s.tctx[t].st == Dumping then
      SetT(Go(s, i, Idle), t, s.tctx[t].(st := Purgatory, killer := -1))
    else
      var x := s.gctx[g].(tree := s.gctx[g].tree - {t});
      var last := ShouldDestroy(x);
      SetG(Go(s, i, if last then TryEnter(g, FreeTctx(t)) else FreeT(t)), g,
           if last then Hold(x, ByThread(i)) else x)
  }

  /** The test of prof_gctx_try_destroy, under both locks. */
  function Check(s: State, i: nat, g: nat, k: Next): State
    requires i < |s.pc| && g < |s.gctx|
  {
    var x := s.gctx[g];
    if x.tree == {} && x.nlimbo == 1 then
      SetG(Go(s, i, Free(g, k)), g, x.(keeper := i)).(
        bt2gctx := s.bt2gctx - {x.bt}, owner := -1)
    else SetG(Go(s, i, After(k)), g, Drop(x, ByThread(i))).(owner := -1)
  }

  // ------------------------------------------------------------------ dumping

  function Below(n: nat): (r: set<nat>)
    ensures forall j: nat :: j in r <==> j < n
  {
    if n == 0 then {} else Below(n - 1) + {n - 1}
  }

  /** The tctxs after the merge pass over the table of one thread: its nominal ones are now dumping. */
  function Merged(s: State, who: nat): seq<Tctx> {
    seq(|s.tctx|, t requires 0 <= t < |s.tctx| =>
      var y := s.tctx[t];
      if y.linked && y.maker == who && y.st == Nominal then y.(st := Dumping) else y)
  }

  /** The tctxs of g after the finish pass: dumping ones are nominal again, purgatory ones freed. */
  function Finished(s: State, g: nat): seq<Tctx> {
    seq(|s.tctx|, t requires 0 <= t < |s.tctx| =>
      var y := s.tctx[t];
      if y.g != g || !y.live then y
      else if y.st == Dumping then y.(st := Nominal)
      else if y.st == Purgatory then y.(live := false)
      else y)
  }

  function FinishOne(s: State, i: nat, g: nat): State
    requires i < |s.pc| && g < |s.gctx|
  {
    var kept := set t | t in s.gctx[g].tree && (t >= |s.tctx| || s.tctx[t].st != Purgatory);
    var x := Drop(s.gctx[g].(tree := kept), ByDump);
    var s1 := s.(tctx := Finished(s, g), dumpSet := s.dumpSet - {g});
    var last := ShouldDestroy(x);
    SetG(Go(s1, i, if last then TryEnter(g, MoreDump) else DumpFinish), g,
         if last then Hold(x, ByThread(i)) else x)
  }

  /** Thread i goes on without giving back its hold on gctx g. */
  function Leak(s: State, i: nat, g: nat): State
    requires g < |s.gctx|
  {
    SetG(s, g, s.gctx[g].(
      holders := s.gctx[g].holders - {ByThread(i)} + {Leaked(s.leaks)})).(leaks := s.leaks + 1)
  }

  /** The next step of thread i; a failed insertion leaves its own new binding in hand, and so the
      table as it was.  A thread waiting for a taken lock stays where it is. */
  function Step(s: State, i: nat, ok: bool, pick: nat): State
    requires i < |s.pc|
  {
    match s.pc[i]
    case Idle => s
    case EnterFirst(bt) => if s.owner >= 0 then s else Go(s, i, SearchFirst(bt)).(owner := i)
    case SearchFirst(bt) => Search(s, i, bt, -1, ok)
    case Create(bt) => if ok then CreateGctx(s, i, bt) else Go(s, i, Idle)
    case EnterAgain(bt, tg) => if s.owner >= 0 then s else Go(s, i, SearchAgain(bt, tg)).(owner := i)
    case SearchAgain(bt, tg) => if tg >= |s.gctx| then s else Search(s, i, bt, tg, ok)
    case Abandon(tg) =>
      if !(0 <= tg < |s.gctx|) then s else SetG(Go(s, i, Idle), tg, Dead(s.gctx[tg]))
    case Retain(g, tg) =>
      if g >= |s.gctx| then s
      else SetG(Go(s, i, LeaveSearch(g, tg)), g, Hold(s.gctx[g], ByThread(i)))
    case LeaveSearch(g, tg) =>
      var s1 := Go(s, i, NewTctx(g, false)).(owner := -1);
      if 0 <= tg < |s.gctx| then SetG(s1, tg, Dead(s.gctx[tg])) else s1
    case NewTctx(g, isNew) =>
      if ok then
        Go(s, i, Link(g, |s.tctx|)).(
          tctx := s.tctx + [Tctx(g, Initializing, true, true, i, -1)])
      else if isNew then Go(s, i, TryEnter(g, Nothing))
      else if g >= |s.gctx| then s
      else Leak(Go(s, i, Idle), i, g)
    case Link(g, t) => if g >= |s.gctx| || t >= |s.tctx| then s else LinkTctx(s, i, g, t)
    case Unlink(t) =>
      if t >= |s.tctx| || s.tctx[t].g >= |s.gctx| then s else UnlinkTctx(s, i, t)
    case FreeT(t) =>
      if t >= |s.tctx| then s else SetT(Go(s, i, Idle), t, s.tctx[t].(live := false, killer := -1))
    case TryEnter(g, k) => if s.owner >= 0 then s else Go(s, i, TryCheck(g, k)).(owner := i)
    case TryCheck(g, k) => if g >= |s.gctx| then s else Check(s, i, g, k)
    case Free(g, k) => if g >= |s.gctx| then s else SetG(Go(s, i, After(k)), g, Dead(s.gctx[g]))
    case DumpEnter => if s.owner >= 0 then s else Go(s, i, DumpPrep(s.bt2gctx.Values)).(owner := i)
    case DumpPrep(todo) =>
      if todo == {} then Go(s, i, DumpMerge(Below(|s.pc|)))
      else if pick in todo && pick < |s.gctx| then
        SetG(Go(s, i, DumpPrep(todo - {pick})), pick, Hold(s.gctx[pick], ByDump)).(
          dumpSet := s.dumpSet + {pick})
      else s
    case DumpMerge(todo) =>
      if todo == {} then Go(s, i, DumpFinish).(owner := -1)
      else if pick in todo then Go(s, i, DumpMerge(todo - {pick})).(tctx := Merged(s, pick))
      else s
    case DumpFinish =>
      if s.dumpSet == {} then Go(s, i, Idle).(dumper := -1)
      else if pick in s.dumpSet && pick < |s.gctx| then FinishOne(s, i, pick)
      else s
  }

  // ------------------------------------------------------------------ failed insertions

  /** Thread i is about to insert its own gctx into bt2gctx, which also holds the key `victim` and
      enough others to fill a bucket: with fewer the insertion cannot fail. */
  predicate UpsetsGctxs(s: State, i: nat, victim: nat) {
    && |s.bt2gctx| >= Cuckoo.CELLS && i < |s.pc| && s.pc[i].SearchAgain? && 0 <= s.pc[i].tg < |s.gctx|
    && s.pc[i].bt !in s.bt2gctx && victim in s.bt2gctx
  }

  /** The tctxs in the table of thread i. */
  function OwnTctxs(s: State, i: nat): set<nat> {
    set t: nat | t < |s.tctx| && s.tctx[t].linked && s.tctx[t].maker == i
  }

  /** Thread i is about to insert a new tctx into its own table, which also holds tctx `victim` and
      enough others to fill a bucket. */
  predicate UpsetsTctxs(s: State, i: nat, victim: nat) {
    && |OwnTctxs(s, i)| >= Cuckoo.CELLS && i < |s.pc| && s.pc[i].NewTctx? && s.pc[i].g < |s.gctx|
    && victim < |s.tctx| && s.tctx[victim].linked && s.tctx[victim].maker == i
  }

  /** The insertion fails after a chain of evictions has stored the new key: the table and the
      binding in hand together are the old table and the new binding.  The caller frees the new
      gctx all the same. */
  function DisplaceGctx(s: State, i: nat, victim: nat): State
    requires UpsetsGctxs(s, i, victim)
  {
    Go(s, i, Abandon(s.pc[i].tg)).(
      bt2gctx := s.bt2gctx[s.pc[i].bt := s.pc[i].tg] - {victim}, owner := -1)
  }

  /** The same in a thread's own table: the caller frees the new tctx. */
  function DisplaceTctx(s: State, i: nat, victim: nat): State
    requires UpsetsTctxs(s, i, victim)
  {
    var g, t := s.pc[i].g, |s.tctx|;
    var s1 := s.(tctx := s.tctx[victim := s.tctx[victim].(linked := false)]
                         + [Tctx(g, Initializing, true, true, i, i)]);
    if s.pc[i].isNew then Go(s1, i, TryEnter(g, FreeTctx(t)))
    else Leak(Go(s1, i, FreeT(t)), i, g)
  }

  function Apply(s: State, a: Action): (s': State)
    ensures |s'.pc| == |s.pc|
  {
    match a
    case Displace(i, victim) =>
      if UpsetsGctxs(s, i, victim) then DisplaceGctx(s, i, victim)
      else if UpsetsTctxs(s, i, victim) then DisplaceTctx(s, i, victim)
      else s
    case Sample(i, bt) =>
      if i < |s.pc| && s.pc[i].Idle? then Go(s, i, EnterFirst(bt)) else s
    case Release(i, t) =>
      if i < |s.pc| && s.pc[i].Idle? && t < |s.tctx| && CanRelease(s.tctx[t]) then
        SetT(Go(s, i, Unlink(t)), t, s.tctx[t].(linked := false, killer := i))
      else s
    case Dump(i) =>
      if i < |s.pc| && s.pc[i].Idle? && s.dumper < 0 then Go(s, i, DumpEnter).(dumper := i) else s
    case Advance(i, ok, pick) =>
      if i < |s.pc| then Step(s, i, ok, pick) else s
  }

  /** The first section of prof_tctx_destroy takes a linked tctx that is in use no more; one
      still being initialised is marked as prepared and is not taken. */
  predicate CanRelease(y: Tctx) { y.linked && y.live && y.st != Initializing }

  function Run(s: State, actions: seq<Action>): (s': State)
    ensures |s'.pc| == |s.pc|
  {
    if actions == [] then s
    else Apply(Run(s, actions[..|actions| - 1]), actions[|actions| - 1])
  }

  /** In this action no insertion fails with an old binding in hand. */
  predicate Tidy(s: State, a: Action) {
    a.Displace? ==> !UpsetsGctxs(s, a.i, a.victim) && !UpsetsTctxs(s, a.i, a.victim)
  }

  predicate TidyRun(s: State, actions: seq<Action>) {
    actions != [] ==>
      TidyRun(s, actions[..|actions| - 1])
      && Tidy(Run(s, actions[..|actions| - 1]), actions[|actions| - 1])
  }

  // ------------------------------------------------------------------ what is promised

  /** The gctxs that a thread's next step dereferences. */
  function Touches(s: State, p: PC): set<nat> {
    match p
    case Abandon(tg) => if tg < 0 then {} else {tg}
    case SearchAgain(_, tg) => if tg < 0 then {} else {tg}
    case Retain(g, _) => {g}
    case LeaveSearch(_, tg) => if tg < 0 then {} else {tg}
    case NewTctx(g, _) => {g}
    case Link(g, _) => {g}
    case Unlink(t) => if t < |s.tctx| then {s.tctx[t].g} else {}
    case TryEnter(g, _) => {g}
    case TryCheck(g, _) => {g}
    case Free(g, _) => {g}
    case DumpPrep(todo) => todo
    case DumpMerge(_) => s.dumpSet + (set t | 0 <= t < |s.tctx| && s.tctx[t].linked :: s.tctx[t].g)
    case DumpFinish => s.dumpSet
    case _ => {}
  }

  ghost predicate TouchesOnlyLive(s: State, p: PC) {
    forall g: nat :: g in Touches(s, p) ==> g < |s.gctx| && s.gctx[g].live
  }

  ghost predicate TreeLive(s: State, g: nat)
    requires g < |s.gctx|
  {
    forall t :: t in s.gctx[g].tree ==>
      s.gctx[g].live && t < |s.tctx| && s.tctx[t].live && s.tctx[t].g == g
  }

  ghost predicate Safe(s: State) {
    // nobody dereferences a freed gctx
    && (forall i: nat :: i < |s.pc| ==> TouchesOnlyLive(s, s.pc[i]))
    // a gctx about to be freed has no tctx, is unpublished, and the destroyer is the only holder
    && (forall i :: 0 <= i < |s.pc| && s.pc[i].Free? ==>
          var g := s.pc[i].g;
          && g < |s.gctx| && s.gctx[g].tree == {} && s.gctx[g].nlimbo == 1 && s.gctx[g].holders == {ByThread(i)}
          && g !in s.bt2gctx.Values
          && forall j :: 0 <= j < |s.pc| && j != i ==> g !in Touches(s, s.pc[j]))
    // published gctxs are alive and carry their backtrace
    && (forall bt :: bt in s.bt2gctx ==>
          s.bt2gctx[bt] < |s.gctx| && s.gctx[s.bt2gctx[bt]].live
          && s.gctx[s.bt2gctx[bt]].bt == bt)
    // a tctx in a tree is alive and so is its gctx
    && (forall g: nat :: g < |s.gctx| ==> TreeLive(s, g))
    // the counter is the number of holders
    && (forall g :: 0 <= g < |s.gctx| && s.gctx[g].live ==> s.gctx[g].nlimbo == |s.gctx[g].holders|)
    // nothing is lost, and what is to be removed from the table is there
    && (forall g: nat :: g < |s.gctx| ==> Accounted(s, g))
    && (forall t: nat :: t < |s.tctx| ==> Kept(s, t))
    && (forall i :: 0 <= i < |s.pc| ==> RemovesOwn(s, s.pc[i]))
  }

  /** A live gctx is in the table, or private to a thread that has not published it or is about to
      free it. */
  ghost predicate Accounted(s: State, g: nat)
    requires g < |s.gctx|
  {
    s.gctx[g].live ==> Published(s, g) || s.gctx[g].keeper >= 0
  }

  /** A thread's table leads only to live tctxs; a live tctx is in its thread's table, being
      destroyed, or left to the dumping thread. */
  predicate Kept(s: State, t: nat)
    requires t < |s.tctx|
  {
    var y := s.tctx[t];
    (y.linked ==> y.live) && (y.live ==> y.linked || y.killer >= 0 || y.st == Purgatory)
  }

  /** The gctx about to be taken out of the table is in it; the source would abort otherwise. */
  ghost predicate RemovesOwn(s: State, p: PC) {
    p.TryCheck? && p.g < |s.gctx| && s.gctx[p.g].tree == {} && s.gctx[p.g].nlimbo == 1 ==>
      Published(s, p.g)
  }

  // ------------------------------------------------------------------ the invariant

  predicate HoldsG(p: PC, g: nat) {
    match p
    case EnterAgain(_, tg) => tg == g
    case SearchAgain(_, tg) => tg == g
    case Abandon(tg) => tg == g
    case Retain(_, tg) => tg == g
    case LeaveSearch(h, tg) => h == g || tg == g
    case NewTctx(h, _) => h == g
    case Link(h, _) => h == g
    case TryEnter(h, _) => h == g
    case TryCheck(h, _) => h == g
    case Free(h, _) => h == g
    case _ => false
  }

  /** The thread's hold is on a gctx that nobody else can reach. */
  predicate Keeps(p: PC, g: nat) {
    match p
    case EnterAgain(_, tg) => tg == g
    case SearchAgain(_, tg) => tg == g
    case Abandon(tg) => tg == g
    case Retain(_, tg) => tg == g
    case LeaveSearch(_, tg) => tg == g
    case Free(h, _) => h == g
    case _ => false
  }

  predicate InMutex(p: PC) {
    p.SearchFirst? || p.SearchAgain? || p.Retain? || p.LeaveSearch? || p.TryCheck?
    || p.DumpPrep? || p.DumpMerge?
  }

  predicate InDump(p: PC) {
    p.DumpEnter? || p.DumpPrep? || p.DumpMerge? || p.DumpFinish?
    || ((p.TryEnter? || p.TryCheck? || p.Free?) && p.k == MoreDump)
  }

  /** The thread will free tctx t, which is already out of its tree. */
  predicate Dying(p: PC, t: nat) {
    p == FreeT(t) || ((p.TryEnter? || p.TryCheck? || p.Free?) && p.k == FreeTctx(t))
  }

  ghost predicate Published(s: State, g: nat) {
    g < |s.gctx| && s.gctx[g].bt in s.bt2gctx && s.bt2gctx[s.gctx[g].bt] == g
  }

  ghost predicate GctxOk(s: State, g: nat)
    requires g < |s.gctx|
  {
    var x := s.gctx[g];
    && (x.live ==> x.nlimbo == |x.holders|)
    && (forall w :: w in x.holders ==>
          match w
          case ByThread(i) => i < |s.pc| && HoldsG(s.pc[i], g)
          case ByDump => g in s.dumpSet
          case Leaked(n) => n < s.leaks)
    && (forall i: nat :: i < |s.pc| && HoldsG(s.pc[i], g) ==> ByThread(i) in x.holders)
    && (g in s.dumpSet ==> ByDump in x.holders)
    && (!x.live ==> x.holders == {} && x.tree == {} && !Published(s, g) && x.keeper == -1)
    && (x.live && x.tree == {} ==> x.holders != {})
    && (x.live ==> (Published(s, g) <==> x.keeper == -1))
    && -1 <= x.keeper < |s.pc|
    && (x.keeper >= 0 ==>
          Keeps(s.pc[x.keeper], g) && x.holders == {ByThread(x.keeper)} && x.tree == {})
    && (forall i: nat :: i < |s.pc| && Keeps(s.pc[i], g) ==> x.keeper == i)
    && (forall t :: t in x.tree ==> t < |s.tctx| && s.tctx[t].live && s.tctx[t].g == g)
  }

  ghost predicate TctxOk(s: State, t: nat)
    requires t < |s.tctx|
  {
    var y := s.tctx[t];
    && y.g < |s.gctx|
    && -1 <= y.killer < |s.pc|
    && (!y.live ==> !y.linked && y.killer == -1)
    && (y.live ==>
          && (y.st == Initializing <==> t !in s.gctx[y.g].tree && y.linked)
          && (y.st == Initializing ==> y.maker < |s.pc| && s.pc[y.maker] == Link(y.g, t))
          && (y.linked ==> y.killer == -1)
          && (!y.linked && y.killer == -1 ==> y.st == Purgatory && t in s.gctx[y.g].tree)
          && (y.st == Dumping || y.st == Purgatory ==> y.g in s.dumpSet && t in s.gctx[y.g].tree)
          && (y.st == Purgatory ==> !y.linked && y.killer == -1)
          && (y.killer >= 0 ==>
                if t in s.gctx[y.g].tree then s.pc[y.killer] == Unlink(t)
                else Dying(s.pc[y.killer], t)))
  }

  ghost predicate ThreadOk(s: State, i: nat)
    requires i < |s.pc|
  {
    var p := s.pc[i];
    && (InMutex(p) <==> s.owner == i)
    && (InDump(p) <==> s.dumper == i)
    && match p
       case EnterAgain(bt, tg) => 0 <= tg < |s.gctx| && s.gctx[tg].bt == bt
       case SearchAgain(bt, tg) => 0 <= tg < |s.gctx| && s.gctx[tg].bt == bt
       case Abandon(tg) => 0 <= tg < |s.gctx|
       case Retain(g, tg) => Published(s, g) && -1 <= tg < |s.gctx|
       case LeaveSearch(g, tg) => g < |s.gctx| && g != tg && -1 <= tg < |s.gctx|
       case NewTctx(g, _) => g < |s.gctx|
       case Link(g, t) =>
         g < |s.gctx| && t < |s.tctx| && s.tctx[t] == Tctx(g, Initializing, true, true, i, -1)
       case Unlink(t) => Kills(s, i, t)
       case FreeT(t) => Kills(s, i, t)
       case TryEnter(g, k) => g < |s.gctx| && (k.FreeTctx? ==> Kills(s, i, k.t))
       case TryCheck(g, k) => g < |s.gctx| && (k.FreeTctx? ==> Kills(s, i, k.t))
       case Free(g, k) => g < |s.gctx| && (k.FreeTctx? ==> Kills(s, i, k.t))
       case DumpEnter => s.dumpSet == {}
       case DumpPrep(todo) => todo !! s.dumpSet && forall g :: g in s.bt2gctx.Values <==> g in todo || g in s.dumpSet
       case DumpMerge(_) => s.bt2gctx.Values <= s.dumpSet
       case _ => true
  }

  predicate Kills(s: State, i: nat, t: nat) {
    t < |s.tctx| && s.tctx[t].live && s.tctx[t].killer == i
  }

  ghost predicate TablesOk(s: State) {
    && -1 <= s.owner < |s.pc| && -1 <= s.dumper < |s.pc|
    && (s.owner >= 0 ==> InMutex(s.pc[s.owner])) && (s.dumper >= 0 ==> InDump(s.pc[s.dumper]))
    && (s.dumpSet != {} ==> s.dumper >= 0)
    && (forall g :: g in s.dumpSet ==> g < |s.gctx| && Published(s, g))
    && (forall bt :: bt in s.bt2gctx ==>
          s.bt2gctx[bt] < |s.gctx| && s.gctx[s.bt2gctx[bt]].live
          && s.gctx[s.bt2gctx[bt]].bt == bt)
  }

  ghost predicate Inv(s: State) {
    && TablesOk(s)
    && (forall g: nat :: g < |s.gctx| ==> GctxOk(s, g))
    && (forall t: nat :: t < |s.tctx| ==> TctxOk(s, t))
    && (forall i: nat :: i < |s.pc| ==> ThreadOk(s, i))
  }

  // ------------------------------------------------------------------ what a step leaves alone

  ghost predicate OnlyThread(s: State, s': State, i: nat) {
    |s'.pc| == |s.pc| > i && forall j: nat :: j < |s.pc| && j != i ==> s'.pc[j] == s.pc[j]
  }

  lemma OtherGctx(s: State, s': State, i: nat, g: nat)
    requires OnlyThread(s, s', i) && g < |s.gctx| && GctxOk(s, g)
    requires g < |s'.gctx| && s'.gctx[g] == s.gctx[g] && s.leaks <= s'.leaks
    requires g in s'.dumpSet <==> g in s.dumpSet
    requires Published(s', g) <==> Published(s, g)
    requires HoldsG(s'.pc[i], g) <==> HoldsG(s.pc[i], g)
    requires Keeps(s'.pc[i], g) <==> Keeps(s.pc[i], g)
    requires forall t :: t in s.gctx[g].tree ==> t < |s'.tctx| && s'.tctx[t].live && s'.tctx[t].g == g
    ensures GctxOk(s', g)
  {
  }

  lemma OtherTctx(s: State, s': State, i: nat, t: nat)
    requires OnlyThread(s, s', i) && t < |s.tctx| && TctxOk(s, t)
    requires t < |s'.tctx| && s'.tctx[t] == s.tctx[t] && |s.gctx| <= |s'.gctx|
    requires s.tctx[t].live ==>
               && (t in s'.gctx[s.tctx[t].g].tree <==> t in s.gctx[s.tctx[t].g].tree)
               && (s.tctx[t].g in s.dumpSet ==> s.tctx[t].g in s'.dumpSet)
    requires s.tctx[t].live && s.tctx[t].st == Initializing ==> s.tctx[t].maker != i
    requires s.tctx[t].killer == i ==>
               && (s.pc[i] == Unlink(t) ==> s'.pc[i] == Unlink(t))
               && (Dying(s.pc[i], t) ==> Dying(s'.pc[i], t))
    ensures TctxOk(s', t)
  {
  }

  /** The tctx that a thread is responsible for. */
  predicate Minds(p: PC, t: nat) {
    p == Unlink(t) || Dying(p, t) || (p.Link? && p.t == t)
  }

  /** A lock that changes hands at most between nobody and thread i. */
  predicate Passes(before: int, after: int, i: nat) {
    before == after || ((before == -1 || before == i) && (after == -1 || after == i))
  }

  lemma OtherThread(s: State, s': State, i: nat, j: nat)
    requires OnlyThread(s, s', i) && j < |s.pc| && j != i && ThreadOk(s, j)
    requires Passes(s.owner, s'.owner, i) && Passes(s.dumper, s'.dumper, i)
    requires |s.gctx| <= |s'.gctx| && |s.tctx| <= |s'.tctx|
    requires forall g: nat :: g < |s.gctx| ==> s'.gctx[g].bt == s.gctx[g].bt
    requires s.owner == j ==> s'.bt2gctx == s.bt2gctx
    requires s.dumper == j ==> s'.dumpSet == s.dumpSet
    requires forall t: nat :: t < |s.tctx| && Minds(s.pc[j], t) ==>
               && s'.tctx[t].live == s.tctx[t].live && s'.tctx[t].killer == s.tctx[t].killer
               && (s.pc[j].Link? ==> s'.tctx[t] == s.tctx[t])
    ensures ThreadOk(s', j)
  {
  }

  /** Steps that only move one thread and pass the two mutexes on. */
  lemma OnlyMoves(s: State, s': State, i: nat)
    requires Inv(s) && OnlyThread(s, s', i)
    requires s'.gctx == s.gctx && s'.tctx == s.tctx && s'.bt2gctx == s.bt2gctx
    requires s'.dumpSet == s.dumpSet && s'.leaks == s.leaks
    requires forall g: nat :: g < |s.gctx| ==>
               && (HoldsG(s'.pc[i], g) <==> HoldsG(s.pc[i], g))
               && (Keeps(s'.pc[i], g) <==> Keeps(s.pc[i], g))
    requires forall t: nat :: Minds(s.pc[i], t) ==> Dying(s.pc[i], t) && Dying(s'.pc[i], t)
    requires ThreadOk(s', i) && TablesOk(s')
    requires Passes(s.owner, s'.owner, i) && Passes(s.dumper, s'.dumper, i)
    ensures Inv(s')
  {
    forall g: nat | g < |s'.gctx| ensures GctxOk(s', g) {
      assert GctxOk(s, g);
      OtherGctx(s, s', i, g);
    }
    forall t: nat | t < |s'.tctx| ensures TctxOk(s', t) {
      assert TctxOk(s, t);
      assert Minds(s.pc[i], t) ==> Dying(s.pc[i], t) && Dying(s'.pc[i], t);
      OtherTctx(s, s', i, t);
    }
    forall j: nat | j < |s'.pc| && j != i ensures ThreadOk(s', j) {
      assert ThreadOk(s, j);
      OtherThread(s, s', i, j);
    }
  }

  lemma StepEnterFirst(s: State, i: nat, ok: bool, pick: nat)
    requires Inv(s) && i < |s.pc| && s.pc[i].EnterFirst?
    ensures Inv(Step(s, i, ok, pick))
  {
    assert ThreadOk(s, i);
    if Step(s, i, ok, pick) != s {
      OnlyMoves(s, Step(s, i, ok, pick), i);
    }
  }

  lemma StepSearchFirst(s: State, i: nat, ok: bool, pick: nat)
    requires Inv(s) && i < |s.pc| && s.pc[i].SearchFirst?
    ensures Inv(Step(s, i, ok, pick))
  {
    assert ThreadOk(s, i);
    if Step(s, i, ok, pick) != s {
      OnlyMoves(s, Step(s, i, ok, pick), i);
    }
  }

  lemma StepEnterAgain(s: State, i: nat, ok: bool, pick: nat)
    requires Inv(s) && i < |s.pc| && s.pc[i].EnterAgain?
    ensures Inv(Step(s, i, ok, pick))
  {
    assert ThreadOk(s, i);
    if Step(s, i, ok, pick) != s {
      OnlyMoves(s, Step(s, i, ok, pick), i);
    }
  }

  lemma StepTryEnter(s: State, i: nat, ok: bool, pick: nat)
    requires Inv(s) && i < |s.pc| && s.pc[i].TryEnter?
    ensures Inv(Step(s, i, ok, pick))
  {
    assert ThreadOk(s, i);
    if Step(s, i, ok, pick) != s {
      OnlyMoves(s, Step(s, i, ok, pick), i);
    }
  }

  lemma StepDumpEnter(s: State, i: nat, ok: bool, pick: nat)
    requires Inv(s) && i < |s.pc| && s.pc[i].DumpEnter?
    ensures Inv(Step(s, i, ok, pick))
  {
    assert ThreadOk(s, i);
    if Step(s, i, ok, pick) != s {
      OnlyMoves(s, Step(s, i, ok, pick), i);
    }
  }

  lemma Alone(holders: set<Token>, who: Token)
    requires |holders| == 1 && who in holders
    ensures holders == {who}
  {
    assert |holders - {who}| == 0;
  }

  lemma StepCreate(s: State, i: nat, ok: bool, pick: nat)
    requires Inv(s) && i < |s.pc| && (s.pc[i].Create?)
    ensures Inv(Step(s, i, ok, pick))
  {
    var s' := Step(s, i, ok, pick);
    assert ThreadOk(s, i);
    forall j: nat | j < |s.pc| ensures !HoldsG(s.pc[j], |s.gctx|) { assert ThreadOk(s, j); }
    forall g: nat | g < |s'.gctx| ensures GctxOk(s', g) {
      if g < |s.gctx| {
        assert GctxOk(s, g);
        if !(g == |s.gctx|) { OtherGctx(s, s', i, g); }
      }
    }
    forall t: nat | t < |s'.tctx| ensures TctxOk(s', t) {
      assert TctxOk(s, t);
      OtherTctx(s, s', i, t);
    }
    forall j: nat | j < |s'.pc| ensures ThreadOk(s', j) {
      assert ThreadOk(s, j);
      if j != i { OtherThread(s, s', i, j); }
    }
  }

  lemma PublishGctx(s: State, i: nat, g: nat)
    requires i < |s.pc| && s.pc[i].SearchAgain? && s.pc[i].tg == g < |s.gctx| && GctxOk(s, g)
    requires s.pc[i].bt == s.gctx[g].bt
    ensures GctxOk(Search(s, i, s.pc[i].bt, g, true), g)
    ensures GctxOk(Search(s, i, s.pc[i].bt, g, false), g)
  {
  }

  lemma SearchAgainThreads(s: State, i: nat, ok: bool, pick: nat)
    requires Inv(s) && i < |s.pc| && (s.pc[i].SearchAgain?)
    ensures var s' := Step(s, i, ok, pick);
      TablesOk(s') && |s'.pc| == |s.pc| && forall j: nat :: j < |s.pc| ==> ThreadOk(s', j)
  {
    var s' := Step(s, i, ok, pick);
    assert ThreadOk(s, i);
    assert GctxOk(s, s.pc[i].tg);
    forall j: nat | j < |s'.pc| ensures ThreadOk(s', j) {
      assert ThreadOk(s, j);
      if j != i { OtherThread(s, s', i, j); }
    }
  }

  lemma StepSearchAgain(s: State, i: nat, ok: bool, pick: nat)
    requires Inv(s) && i < |s.pc| && (s.pc[i].SearchAgain?)
    ensures Inv(Step(s, i, ok, pick))
  {
    var s' := Step(s, i, ok, pick);
    assert ThreadOk(s, i);
    assert GctxOk(s, s.pc[i].tg);
    forall g: nat | g < |s'.gctx| ensures GctxOk(s', g) {
      if g < |s.gctx| {
        assert GctxOk(s, g);
        if !(g == s.pc[i].tg) { OtherGctx(s, s', i, g); } else { PublishGctx(s, i, g); }
      }
    }
    forall t: nat | t < |s'.tctx| ensures TctxOk(s', t) {
      assert TctxOk(s, t);
      OtherTctx(s, s', i, t);
    }
    SearchAgainThreads(s, i, ok, pick);
  }

  lemma StepAbandon(s: State, i: nat, ok: bool, pick: nat)
    requires Inv(s) && i < |s.pc| && (s.pc[i].Abandon?)
    ensures Inv(Step(s, i, ok, pick))
  {
    var s' := Step(s, i, ok, pick);
    assert ThreadOk(s, i);
    assert GctxOk(s, s.pc[i].tg);
    forall g: nat | g < |s'.gctx| ensures GctxOk(s', g) {
      if g < |s.gctx| {
        assert GctxOk(s, g);
        if !(g == s.pc[i].tg) { OtherGctx(s, s', i, g); }
      }
    }
    forall t: nat | t < |s'.tctx| ensures TctxOk(s', t) {
      assert TctxOk(s, t);
      OtherTctx(s, s', i, t);
    }
    forall j: nat | j < |s'.pc| ensures ThreadOk(s', j) {
      assert ThreadOk(s, j);
      if j != i { OtherThread(s, s', i, j); }
    }
  }

  lemma RetainThreads(s: State, i: nat, ok: bool, pick: nat)
    requires Inv(s) && i < |s.pc| && (s.pc[i].Retain?)
    ensures var s' := Step(s, i, ok, pick);
      TablesOk(s') && |s'.pc| == |s.pc| && forall j: nat :: j < |s.pc| ==> ThreadOk(s', j)
  {
    var s' := Step(s, i, ok, pick);
    assert ThreadOk(s, i);
    assert GctxOk(s, s.pc[i].g);
    forall j: nat | j < |s'.pc| ensures ThreadOk(s', j) {
      assert ThreadOk(s, j);
      if j != i { OtherThread(s, s', i, j); }
    }
  }

  lemma RetainGctx(s: State, i: nat, ok: bool, pick: nat, g: nat)
    requires i < |s.pc| && s.pc[i].Retain? && ThreadOk(s, i)
    requires g < |s.gctx| && GctxOk(s, g) && GctxOk(s, s.pc[i].g)
    requires g == s.pc[i].g || g == s.pc[i].tg
    ensures GctxOk(Step(s, i, ok, pick), g)
  {
  }

  lemma StepRetain(s: State, i: nat, ok: bool, pick: nat)
    requires Inv(s) && i < |s.pc| && (s.pc[i].Retain?)
    ensures Inv(Step(s, i, ok, pick))
  {
    var s' := Step(s, i, ok, pick);
    assert ThreadOk(s, i);
    assert GctxOk(s, s.pc[i].g);
    forall g: nat | g < |s'.gctx| ensures GctxOk(s', g) {
      if g < |s.gctx| {
        assert GctxOk(s, g);
        if g == s.pc[i].g || g == s.pc[i].tg {
          RetainGctx(s, i, ok, pick, g);
        } else {
          OtherGctx(s, s', i, g);
        }
      }
    }
    forall t: nat | t < |s'.tctx| ensures TctxOk(s', t) {
      assert TctxOk(s, t);
      OtherTctx(s, s', i, t);
    }
    RetainThreads(s, i, ok, pick);
  }

  lemma LeaveSearchThreads(s: State, i: nat, ok: bool, pick: nat)
    requires Inv(s) && i < |s.pc| && (s.pc[i].LeaveSearch?)
    ensures var s' := Step(s, i, ok, pick);
      TablesOk(s') && |s'.pc| == |s.pc| && forall j: nat :: j < |s.pc| ==> ThreadOk(s', j)
  {
    var s' := Step(s, i, ok, pick);
    assert ThreadOk(s, i);
    assert s.pc[i].tg >= 0 ==> GctxOk(s, s.pc[i].tg);
    forall j: nat | j < |s'.pc| ensures ThreadOk(s', j) {
      assert ThreadOk(s, j);
      if j != i { OtherThread(s, s', i, j); }
    }
  }

  lemma StepLeaveSearch(s: State, i: nat, ok: bool, pick: nat)
    requires Inv(s) && i < |s.pc| && (s.pc[i].LeaveSearch?)
    ensures Inv(Step(s, i, ok, pick))
  {
    var s' := Step(s, i, ok, pick);
    assert ThreadOk(s, i);
    assert s.pc[i].tg >= 0 ==> GctxOk(s, s.pc[i].tg);
    forall g: nat | g < |s'.gctx| ensures GctxOk(s', g) {
      if g < |s.gctx| {
        assert GctxOk(s, g);
        if !(g == s.pc[i].tg) { OtherGctx(s, s', i, g); }
      }
    }
    forall t: nat | t < |s'.tctx| ensures TctxOk(s', t) {
      assert TctxOk(s, t);
      OtherTctx(s, s', i, t);
    }
    LeaveSearchThreads(s, i, ok, pick);
  }

  lemma StepNewTctx(s: State, i: nat, ok: bool, pick: nat)
    requires Inv(s) && i < |s.pc| && (s.pc[i].NewTctx?) && ok
    ensures Inv(Step(s, i, ok, pick))
  {
    var s' := Step(s, i, ok, pick);
    assert ThreadOk(s, i);
    assert GctxOk(s, s.pc[i].g);
    forall g: nat | g < |s'.gctx| ensures GctxOk(s', g) {
      assert GctxOk(s, g);
      OtherGctx(s, s', i, g);
    }
    forall t: nat | t < |s'.tctx| ensures TctxOk(s', t) {
      if t < |s.tctx| {
        assert TctxOk(s, t);
        if !(t == |s.tctx|) { OtherTctx(s, s', i, t); }
      }
    }
    forall j: nat | j < |s'.pc| ensures ThreadOk(s', j) {
      assert ThreadOk(s, j);
      if j != i { OtherThread(s, s', i, j); }
    }
  }

  lemma StepReturn(s: State, i: nat, ok: bool, pick: nat)
    requires Inv(s) && i < |s.pc| && s.pc[i].NewTctx? && !ok && s.pc[i].isNew
    ensures Inv(Step(s, i, ok, pick))
  {
    assert ThreadOk(s, i);
    OnlyMoves(s, Step(s, i, ok, pick), i);
  }

  lemma GiveGctx(s: State, i: nat, pick: nat)
    requires i < |s.pc| && s.pc[i].NewTctx? && !s.pc[i].isNew && s.pc[i].g < |s.gctx|
    requires GctxOk(s, s.pc[i].g)
    ensures GctxOk(Step(s, i, false, pick), s.pc[i].g)
  {
    assert HoldsG(s.pc[i], s.pc[i].g);
  }

  lemma StepGive(s: State, i: nat, ok: bool, pick: nat)
    requires Inv(s) && i < |s.pc| && (s.pc[i].NewTctx?) && !ok && !s.pc[i].isNew
    ensures Inv(Step(s, i, ok, pick))
  {
    var s' := Step(s, i, ok, pick);
    assert ThreadOk(s, i);
    assert GctxOk(s, s.pc[i].g);
    forall g: nat | g < |s'.gctx| ensures GctxOk(s', g) {
      if g < |s.gctx| {
        assert GctxOk(s, g);
        if !(g == s.pc[i].g) { OtherGctx(s, s', i, g); } else { GiveGctx(s, i, pick); }
      }
    }
    forall t: nat | t < |s'.tctx| ensures TctxOk(s', t) {
      assert TctxOk(s, t);
      OtherTctx(s, s', i, t);
    }
    forall j: nat | j < |s'.pc| ensures ThreadOk(s', j) {
      assert ThreadOk(s, j);
      if j != i { OtherThread(s, s', i, j); }
    }
  }

  lemma LinkGctx(s: State, i: nat, g: nat, t: nat)
    requires i < |s.pc| && s.pc[i] == Link(g, t) && g < |s.gctx| && GctxOk(s, g)
    requires t < |s.tctx| && s.tctx[t] == Tctx(g, Initializing, true, true, i, -1)
    ensures GctxOk(LinkTctx(s, i, g, t), g)
  {
  }

  lemma LinkGctxs(s: State, i: nat)
    requires Inv(s) && i < |s.pc| && (s.pc[i].Link?) && s.pc[i].g < |s.gctx| && s.pc[i].t < |s.tctx|
    ensures var s' := LinkTctx(s, i, s.pc[i].g, s.pc[i].t);
      |s'.gctx| == |s.gctx| && forall g: nat :: g < |s.gctx| ==> GctxOk(s', g)
  {
    var s' := LinkTctx(s, i, s.pc[i].g, s.pc[i].t);
    assert ThreadOk(s, i);
    assert GctxOk(s, s.pc[i].g) && TctxOk(s, s.pc[i].t);
    forall g: nat | g < |s.gctx| ensures GctxOk(s', g) {
      assert GctxOk(s, g);
      if g == s.pc[i].g {
        LinkGctx(s, i, g, s.pc[i].t);
      } else {
        LinkOtherGctx(s, i, s.pc[i].g, s.pc[i].t, g);
      }
    }
  }

  lemma LinkOtherGctx(s: State, i: nat, g: nat, t: nat, h: nat)
    requires i < |s.pc| && s.pc[i] == Link(g, t) && g < |s.gctx| && t < |s.tctx|
    requires h < |s.gctx| && h != g && GctxOk(s, h)
    ensures GctxOk(LinkTctx(s, i, g, t), h)
  {
    OtherGctx(s, LinkTctx(s, i, g, t), i, h);
  }

  lemma LinkOwnTctx(s: State, i: nat, g: nat, t: nat)
    requires i < |s.pc| && s.pc[i] == Link(g, t) && g < |s.gctx| && t < |s.tctx|
    requires ThreadOk(s, i) && TctxOk(s, t)
    ensures TctxOk(LinkTctx(s, i, g, t), t)
  {
  }

  lemma LinkOtherTctx(s: State, i: nat, g: nat, t: nat, u: nat)
    requires i < |s.pc| && s.pc[i] == Link(g, t) && g < |s.gctx| && t < |s.tctx| && ThreadOk(s, i)
    requires u < |s.tctx| && u != t && TctxOk(s, u)
    ensures TctxOk(LinkTctx(s, i, g, t), u)
  {
    OtherTctx(s, LinkTctx(s, i, g, t), i, u);
  }

  lemma LinkTctxs(s: State, i: nat)
    requires Inv(s) && i < |s.pc| && (s.pc[i].Link?) && s.pc[i].g < |s.gctx| && s.pc[i].t < |s.tctx|
    ensures var s' := LinkTctx(s, i, s.pc[i].g, s.pc[i].t);
      |s'.tctx| == |s.tctx| && forall t: nat :: t < |s.tctx| ==> TctxOk(s', t)
  {
    var s' := LinkTctx(s, i, s.pc[i].g, s.pc[i].t);
    assert ThreadOk(s, i);
    assert GctxOk(s, s.pc[i].g) && TctxOk(s, s.pc[i].t);
    forall t: nat | t < |s.tctx| ensures TctxOk(s', t) {
      assert TctxOk(s, t);
      if t == s.pc[i].t {
        LinkOwnTctx(s, i, s.pc[i].g, t);
      } else {
        LinkOtherTctx(s, i, s.pc[i].g, s.pc[i].t, t);
      }
    }
  }

  lemma LinkSelf(s: State, i: nat, g: nat, t: nat)
    requires i < |s.pc| && s.pc[i] == Link(g, t) && g < |s.gctx| && t < |s.tctx|
    requires TablesOk(s) && ThreadOk(s, i) && s.gctx[g].live
    ensures TablesOk(LinkTctx(s, i, g, t)) && ThreadOk(LinkTctx(s, i, g, t), i)
  {
  }

  lemma LinkOther(s: State, i: nat, g: nat, t: nat, j: nat)
    requires i < |s.pc| && s.pc[i] == Link(g, t) && g < |s.gctx| && t < |s.tctx| && ThreadOk(s, i)
    requires j < |s.pc| && j != i && ThreadOk(s, j)
    ensures ThreadOk(LinkTctx(s, i, g, t), j)
  {
    assert !Minds(s.pc[j], t);
    OtherThread(s, LinkTctx(s, i, g, t), i, j);
  }

  lemma LinkThreads(s: State, i: nat)
    requires Inv(s) && i < |s.pc| && (s.pc[i].Link?) && s.pc[i].g < |s.gctx| && s.pc[i].t < |s.tctx|
    ensures var s' := LinkTctx(s, i, s.pc[i].g, s.pc[i].t);
      TablesOk(s') && |s'.pc| == |s.pc| && forall j: nat :: j < |s.pc| ==> ThreadOk(s', j)
  {
    var s' := LinkTctx(s, i, s.pc[i].g, s.pc[i].t);
    assert ThreadOk(s, i) && GctxOk(s, s.pc[i].g) && HoldsG(s.pc[i], s.pc[i].g);
    LinkSelf(s, i, s.pc[i].g, s.pc[i].t);
    forall j: nat | j < |s'.pc| && j != i ensures ThreadOk(s', j) {
      assert ThreadOk(s, j);
      LinkOther(s, i, s.pc[i].g, s.pc[i].t, j);
    }
  }

  lemma StepLink(s: State, i: nat)
    requires Inv(s) && i < |s.pc| && (s.pc[i].Link?) && s.pc[i].g < |s.gctx| && s.pc[i].t < |s.tctx|
    ensures Inv(LinkTctx(s, i, s.pc[i].g, s.pc[i].t))
  {
    var s' := LinkTctx(s, i, s.pc[i].g, s.pc[i].t);
    assert ThreadOk(s, i);
    assert GctxOk(s, s.pc[i].g) && TctxOk(s, s.pc[i].t);
    LinkGctxs(s, i);
    LinkTctxs(s, i);
    LinkThreads(s, i);
  }

  /** The tree of gctx g loses t, and the destroyer takes a hold when nothing else keeps g. */
  lemma UnlinkGctx(s: State, i: nat)
    requires i < |s.pc| && s.pc[i].Unlink? && s.pc[i].t < |s.tctx|
    requires var y := s.tctx[s.pc[i].t]; y.st == Nominal && y.g < |s.gctx| && s.gctx[y.g].live
    requires GctxOk(s, s.tctx[s.pc[i].t].g) && s.pc[i].t in s.gctx[s.tctx[s.pc[i].t].g].tree
    ensures GctxOk(UnlinkTctx(s, i, s.pc[i].t), s.tctx[s.pc[i].t].g)
  {
    var t := s.pc[i].t;
    var g := s.tctx[t].g;
    if ShouldDestroy(s.gctx[g].(tree := s.gctx[g].tree - {t})) {
      UnlinkLast(s, i, g, t);
    } else {
      UnlinkOther(s, i, g, t);
    }
  }

  lemma UnlinkLast(s: State, i: nat, g: nat, t: nat)
    requires i < |s.pc| && s.pc[i] == Unlink(t) && t < |s.tctx| && g < |s.gctx| && GctxOk(s, g)
    requires s.gctx[g].live && s.gctx[g].tree - {t} == {} && s.gctx[g].nlimbo == 0
    ensures GctxOk(SetG(Go(s, i, TryEnter(g, FreeTctx(t))), g,
                        Hold(s.gctx[g].(tree := s.gctx[g].tree - {t}), ByThread(i))), g)
  {
  }

  lemma UnlinkOther(s: State, i: nat, g: nat, t: nat)
    requires i < |s.pc| && s.pc[i] == Unlink(t) && t < |s.tctx| && g < |s.gctx| && GctxOk(s, g)
    requires s.gctx[g].live && t in s.gctx[g].tree && !(s.gctx[g].tree - {t} == {} && s.gctx[g].nlimbo == 0)
    ensures GctxOk(SetG(Go(s, i, FreeT(t)), g, s.gctx[g].(tree := s.gctx[g].tree - {t})), g)
  {
  }

  lemma UnlinkSelf(s: State, i: nat)
    requires i < |s.pc| && s.pc[i].Unlink? && s.pc[i].t < |s.tctx| && ThreadOk(s, i)
    requires TctxOk(s, s.pc[i].t) && s.tctx[s.pc[i].t].st == Nominal
    ensures TctxOk(UnlinkTctx(s, i, s.pc[i].t), s.pc[i].t)
  {
  }

  lemma UnlinkOtherGctx(s: State, i: nat, t: nat, h: nat)
    requires i < |s.pc| && s.pc[i] == Unlink(t) && t < |s.tctx| && s.tctx[t].g < |s.gctx|
    requires s.tctx[t].st != Dumping && h < |s.gctx| && h != s.tctx[t].g && GctxOk(s, h)
    ensures GctxOk(UnlinkTctx(s, i, t), h)
  {
    OtherGctx(s, UnlinkTctx(s, i, t), i, h);
  }

  lemma UnlinkGctxs(s: State, i: nat)
    requires Inv(s) && i < |s.pc| && (s.pc[i].Unlink?) && s.pc[i].t < |s.tctx|
    requires s.tctx[s.pc[i].t].g < |s.gctx| && s.tctx[s.pc[i].t].st != Dumping
    ensures var s' := UnlinkTctx(s, i, s.pc[i].t);
      |s'.gctx| == |s.gctx| && forall g: nat :: g < |s.gctx| ==> GctxOk(s', g)
  {
    var s' := UnlinkTctx(s, i, s.pc[i].t);
    assert ThreadOk(s, i);
    assert TctxOk(s, s.pc[i].t);
    assert GctxOk(s, s.tctx[s.pc[i].t].g);
    forall g: nat | g < |s.gctx| ensures GctxOk(s', g) {
      assert GctxOk(s, g);
      if g == s.tctx[s.pc[i].t].g {
        UnlinkGctx(s, i);
      } else {
        UnlinkOtherGctx(s, i, s.pc[i].t, g);
      }
    }
  }

  lemma UnlinkTctxs(s: State, i: nat)
    requires Inv(s) && i < |s.pc| && (s.pc[i].Unlink?) && s.pc[i].t < |s.tctx|
    requires s.tctx[s.pc[i].t].g < |s.gctx| && s.tctx[s.pc[i].t].st != Dumping
    ensures var s' := UnlinkTctx(s, i, s.pc[i].t);
      |s'.tctx| == |s.tctx| && forall t: nat :: t < |s.tctx| ==> TctxOk(s', t)
  {
    var s' := UnlinkTctx(s, i, s.pc[i].t);
    assert ThreadOk(s, i);
    assert TctxOk(s, s.pc[i].t);
    assert GctxOk(s, s.tctx[s.pc[i].t].g);
    forall t: nat | t < |s.tctx| ensures TctxOk(s', t) {
      if t < |s.tctx| {
        assert TctxOk(s, t);
        if !(t == s.pc[i].t) { OtherTctx(s, s', i, t); } else { UnlinkSelf(s, i); }
      }
    }
  }

  lemma UnlinkThreads(s: State, i: nat)
    requires Inv(s) && i < |s.pc| && (s.pc[i].Unlink?) && s.pc[i].t < |s.tctx|
    requires s.tctx[s.pc[i].t].g < |s.gctx| && s.tctx[s.pc[i].t].st != Dumping
    ensures var s' := UnlinkTctx(s, i, s.pc[i].t);
      |s'.pc| == |s.pc| && forall j: nat :: j < |s.pc| ==> ThreadOk(s', j)
  {
    var s' := UnlinkTctx(s, i, s.pc[i].t);
    assert ThreadOk(s, i) && TctxOk(s, s.pc[i].t);
    forall j: nat | j < |s'.pc| ensures ThreadOk(s', j) {
      assert ThreadOk(s, j);
      if j != i { OtherThread(s, s', i, j); }
    }
  }

  lemma StepUnlink(s: State, i: nat)
    requires Inv(s) && i < |s.pc| && (s.pc[i].Unlink?) && s.pc[i].t < |s.tctx|
    requires s.tctx[s.pc[i].t].g < |s.gctx| && s.tctx[s.pc[i].t].st != Dumping
    ensures Inv(UnlinkTctx(s, i, s.pc[i].t))
  {
    var s' := UnlinkTctx(s, i, s.pc[i].t);
    assert ThreadOk(s, i);
    assert TctxOk(s, s.pc[i].t);
    assert GctxOk(s, s.tctx[s.pc[i].t].g);
    UnlinkGctxs(s, i);
    UnlinkTctxs(s, i);
    UnlinkThreads(s, i);
  }

  lemma RetireThreads(s: State, i: nat, ok: bool, pick: nat)
    requires Inv(s) && i < |s.pc| && (s.pc[i].Unlink?) && s.pc[i].t < |s.tctx| && s.tctx[s.pc[i].t].st == Dumping
    ensures var s' := Step(s, i, ok, pick);
      TablesOk(s') && |s'.pc| == |s.pc| && forall j: nat :: j < |s.pc| ==> ThreadOk(s', j)
  {
    var s' := Step(s, i, ok, pick);
    assert ThreadOk(s, i);
    assert TctxOk(s, s.pc[i].t);
    assert GctxOk(s, s.tctx[s.pc[i].t].g);
    forall j: nat | j < |s'.pc| ensures ThreadOk(s', j) {
      assert ThreadOk(s, j);
      if j != i { OtherThread(s, s', i, j); }
    }
  }

  lemma StepRetire(s: State, i: nat, ok: bool, pick: nat)
    requires Inv(s) && i < |s.pc| && (s.pc[i].Unlink?) && s.pc[i].t < |s.tctx| && s.tctx[s.pc[i].t].st == Dumping
    ensures Inv(Step(s, i, ok, pick))
  {
    var s' := Step(s, i, ok, pick);
    assert ThreadOk(s, i);
    assert TctxOk(s, s.pc[i].t);
    assert GctxOk(s, s.tctx[s.pc[i].t].g);
    forall g: nat | g < |s'.gctx| ensures GctxOk(s', g) {
      if g < |s.gctx| {
        assert GctxOk(s, g);
        if !(g == s.tctx[s.pc[i].t].g) { OtherGctx(s, s', i, g); }
      }
    }
    forall t: nat | t < |s'.tctx| ensures TctxOk(s', t) {
      if t < |s.tctx| {
        assert TctxOk(s, t);
        if !(t == s.pc[i].t) { OtherTctx(s, s', i, t); }
      }
    }
    RetireThreads(s, i, ok, pick);
  }

  lemma FreeTThreads(s: State, i: nat, ok: bool, pick: nat)
    requires Inv(s) && i < |s.pc| && (s.pc[i].FreeT?)
    ensures var s' := Step(s, i, ok, pick);
      TablesOk(s') && |s'.pc| == |s.pc| && forall j: nat :: j < |s.pc| ==> ThreadOk(s', j)
  {
    var s' := Step(s, i, ok, pick);
    assert ThreadOk(s, i);
    assert TctxOk(s, s.pc[i].t);
    forall j: nat | j < |s'.pc| ensures ThreadOk(s', j) {
      assert ThreadOk(s, j);
      if j != i { OtherThread(s, s', i, j); }
    }
  }

  lemma StepFreeT(s: State, i: nat, ok: bool, pick: nat)
    requires Inv(s) && i < |s.pc| && (s.pc[i].FreeT?)
    ensures Inv(Step(s, i, ok, pick))
  {
    var s' := Step(s, i, ok, pick);
    assert ThreadOk(s, i);
    assert TctxOk(s, s.pc[i].t);
    forall g: nat | g < |s'.gctx| ensures GctxOk(s', g) {
      assert GctxOk(s, g);
      OtherGctx(s, s', i, g);
    }
    forall t: nat | t < |s'.tctx| ensures TctxOk(s', t) {
      if t < |s.tctx| {
        assert TctxOk(s, t);
        if !(t == s.pc[i].t) { OtherTctx(s, s', i, t); }
      }
    }
    FreeTThreads(s, i, ok, pick);
  }

  lemma CheckGctx(s: State, i: nat, g: nat)
    requires i < |s.pc| && s.pc[i].TryCheck? && s.pc[i].g == g < |s.gctx| && GctxOk(s, g)
    ensures GctxOk(Check(s, i, g, s.pc[i].k), g)
  {
    if s.gctx[g].tree == {} && s.gctx[g].nlimbo == 1 {
      CheckFrees(s, i, g);
    } else {
      CheckLeaves(s, i, g);
    }
  }

  lemma CheckFrees(s: State, i: nat, g: nat)
    requires i < |s.pc| && s.pc[i].TryCheck? && s.pc[i].g == g < |s.gctx| && GctxOk(s, g)
    requires s.gctx[g].tree == {} && s.gctx[g].nlimbo == 1
    ensures GctxOk(Check(s, i, g, s.pc[i].k), g)
  {
    Alone(s.gctx[g].holders, ByThread(i));
  }

  lemma CheckLeaves(s: State, i: nat, g: nat)
    requires i < |s.pc| && s.pc[i].TryCheck? && s.pc[i].g == g < |s.gctx| && GctxOk(s, g)
    requires s.gctx[g].tree != {} || s.gctx[g].nlimbo != 1
    ensures GctxOk(Check(s, i, g, s.pc[i].k), g)
  {
    if |s.gctx[g].holders| == 1 {
      Alone(s.gctx[g].holders, ByThread(i));
    }
  }

  lemma CheckOtherGctx(s: State, i: nat, g: nat, h: nat)
    requires i < |s.pc| && s.pc[i].TryCheck? && s.pc[i].g == g < |s.gctx|
    requires TablesOk(s) && GctxOk(s, g) && h < |s.gctx| && h != g && GctxOk(s, h)
    ensures GctxOk(Check(s, i, g, s.pc[i].k), h)
  {
    if |s.gctx[g].holders| == 1 {
      Alone(s.gctx[g].holders, ByThread(i));
    }
    OtherGctx(s, Check(s, i, g, s.pc[i].k), i, h);
  }

  lemma TryCheckGctxs(s: State, i: nat)
    requires Inv(s) && i < |s.pc| && (s.pc[i].TryCheck?) && s.pc[i].g < |s.gctx|
    ensures var s' := Check(s, i, s.pc[i].g, s.pc[i].k);
      |s'.gctx| == |s.gctx| && forall g: nat :: g < |s.gctx| ==> GctxOk(s', g)
  {
    var s' := Check(s, i, s.pc[i].g, s.pc[i].k);
    assert ThreadOk(s, i);
    assert GctxOk(s, s.pc[i].g);
    forall g: nat | g < |s.gctx| ensures GctxOk(s', g) {
      assert GctxOk(s, g);
      if g == s.pc[i].g {
        CheckGctx(s, i, g);
      } else {
        CheckOtherGctx(s, i, s.pc[i].g, g);
      }
    }
  }

  lemma TryCheckTctxs(s: State, i: nat)
    requires Inv(s) && i < |s.pc| && (s.pc[i].TryCheck?) && s.pc[i].g < |s.gctx|
    ensures var s' := Check(s, i, s.pc[i].g, s.pc[i].k);
      |s'.tctx| == |s.tctx| && forall t: nat :: t < |s.tctx| ==> TctxOk(s', t)
  {
    var s' := Check(s, i, s.pc[i].g, s.pc[i].k);
    assert ThreadOk(s, i);
    assert GctxOk(s, s.pc[i].g);
    if |s.gctx[s.pc[i].g].holders| == 1 { Alone(s.gctx[s.pc[i].g].holders, ByThread(i)); }
    forall t: nat | t < |s.tctx| ensures TctxOk(s', t) {
      assert TctxOk(s, t);
      OtherTctx(s, s', i, t);
    }
  }

  lemma CheckSelf(s: State, i: nat, g: nat)
    requires i < |s.pc| && s.pc[i].TryCheck? && s.pc[i].g == g < |s.gctx|
    requires TablesOk(s) && ThreadOk(s, i) && GctxOk(s, g)
    ensures ThreadOk(Check(s, i, g, s.pc[i].k), i)
  {
    if |s.gctx[g].holders| == 1 {
      Alone(s.gctx[g].holders, ByThread(i));
    }
  }

  lemma CheckTables(s: State, i: nat, g: nat)
    requires i < |s.pc| && s.pc[i].TryCheck? && s.pc[i].g == g < |s.gctx|
    requires TablesOk(s) && ThreadOk(s, i) && GctxOk(s, g)
    ensures TablesOk(Check(s, i, g, s.pc[i].k))
  {
    if |s.gctx[g].holders| == 1 {
      Alone(s.gctx[g].holders, ByThread(i));
    }
  }

  lemma TryCheckThreads(s: State, i: nat)
    requires Inv(s) && i < |s.pc| && (s.pc[i].TryCheck?) && s.pc[i].g < |s.gctx|
    ensures var s' := Check(s, i, s.pc[i].g, s.pc[i].k);
      TablesOk(s') && |s'.pc| == |s.pc| && forall j: nat :: j < |s.pc| ==> ThreadOk(s', j)
  {
    var s' := Check(s, i, s.pc[i].g, s.pc[i].k);
    assert ThreadOk(s, i) && GctxOk(s, s.pc[i].g);
    CheckSelf(s, i, s.pc[i].g);
    CheckTables(s, i, s.pc[i].g);
    forall j: nat | j < |s'.pc| && j != i ensures ThreadOk(s', j) {
      assert ThreadOk(s, j);
      OtherThread(s, s', i, j);
    }
  }

  lemma StepTryCheck(s: State, i: nat)
    requires Inv(s) && i < |s.pc| && (s.pc[i].TryCheck?) && s.pc[i].g < |s.gctx|
    ensures Inv(Check(s, i, s.pc[i].g, s.pc[i].k))
  {
    var s' := Check(s, i, s.pc[i].g, s.pc[i].k);
    assert ThreadOk(s, i);
    assert GctxOk(s, s.pc[i].g);
    if |s.gctx[s.pc[i].g].holders| == 1 { Alone(s.gctx[s.pc[i].g].holders, ByThread(i)); }
    TryCheckGctxs(s, i);
    TryCheckTctxs(s, i);
    TryCheckThreads(s, i);
  }

  lemma FreeThreads(s: State, i: nat, ok: bool, pick: nat)
    requires Inv(s) && i < |s.pc| && (s.pc[i].Free?)
    ensures var s' := Step(s, i, ok, pick);
      TablesOk(s') && |s'.pc| == |s.pc| && forall j: nat :: j < |s.pc| ==> ThreadOk(s', j)
  {
    var s' := Step(s, i, ok, pick);
    assert ThreadOk(s, i);
    assert GctxOk(s, s.pc[i].g);
    forall j: nat | j < |s'.pc| ensures ThreadOk(s', j) {
      assert ThreadOk(s, j);
      if j != i { OtherThread(s, s', i, j); }
    }
  }

  lemma StepFree(s: State, i: nat, ok: bool, pick: nat)
    requires Inv(s) && i < |s.pc| && (s.pc[i].Free?)
    ensures Inv(Step(s, i, ok, pick))
  {
    var s' := Step(s, i, ok, pick);
    assert ThreadOk(s, i);
    assert GctxOk(s, s.pc[i].g);
    forall g: nat | g < |s'.gctx| ensures GctxOk(s', g) {
      if g < |s.gctx| {
        assert GctxOk(s, g);
        if !(g == s.pc[i].g) { OtherGctx(s, s', i, g); }
      }
    }
    forall t: nat | t < |s'.tctx| ensures TctxOk(s', t) {
      assert TctxOk(s, t);
      OtherTctx(s, s', i, t);
    }
    FreeThreads(s, i, ok, pick);
  }

  lemma PrepGctx(s: State, i: nat, ok: bool, g: nat)
    requires i < |s.pc| && s.pc[i].DumpPrep? && g in s.pc[i].todo && g !in s.dumpSet
    requires g < |s.gctx| && GctxOk(s, g) && Published(s, g)
    ensures GctxOk(Step(s, i, ok, g), g)
  {
  }

  lemma StepPrepDone(s: State, i: nat, ok: bool, pick: nat)
    requires Inv(s) && i < |s.pc| && s.pc[i].DumpPrep? && s.pc[i].todo == {}
    ensures Inv(Step(s, i, ok, pick))
  {
    assert ThreadOk(s, i);
    OnlyMoves(s, Step(s, i, ok, pick), i);
  }

  lemma DumpPrepThreads(s: State, i: nat, ok: bool, pick: nat)
    requires Inv(s) && i < |s.pc| && (s.pc[i].DumpPrep?) && pick in s.pc[i].todo && pick < |s.gctx|
    ensures var s' := Step(s, i, ok, pick);
      TablesOk(s') && |s'.pc| == |s.pc| && forall j: nat :: j < |s.pc| ==> ThreadOk(s', j)
  {
    var s' := Step(s, i, ok, pick);
    assert ThreadOk(s, i);
    forall j: nat | j < |s'.pc| ensures ThreadOk(s', j) {
      assert ThreadOk(s, j);
      if j != i { OtherThread(s, s', i, j); }
    }
  }

  lemma StepDumpPrep(s: State, i: nat, ok: bool, pick: nat)
    requires Inv(s) && i < |s.pc| && (s.pc[i].DumpPrep?) && pick in s.pc[i].todo && pick < |s.gctx|
    ensures Inv(Step(s, i, ok, pick))
  {
    var s' := Step(s, i, ok, pick);
    assert ThreadOk(s, i);
    forall g: nat | g < |s'.gctx| ensures GctxOk(s', g) {
      if g < |s.gctx| {
        assert GctxOk(s, g);
        if !(g == pick) { OtherGctx(s, s', i, g); } else { PrepGctx(s, i, ok, g); }
      }
    }
    forall t: nat | t < |s'.tctx| ensures TctxOk(s', t) {
      assert TctxOk(s, t);
      OtherTctx(s, s', i, t);
    }
    DumpPrepThreads(s, i, ok, pick);
  }

  lemma MergeThread(s: State, i: nat, j: nat, pick: nat)
    requires i < |s.pc| && s.pc[i].DumpMerge? && pick in s.pc[i].todo && j < |s.pc| && ThreadOk(s, j) && TablesOk(s)
    ensures ThreadOk(Step(s, i, true, pick), j)
  {
    if j != i {
      OtherThread(s, Step(s, i, true, pick), i, j);
    }
  }

  /** A linked nominal tctx is in the tree of a gctx that the dump has prepared. */
  lemma MergeTctx(s: State, i: nat, pick: nat, t: nat)
    requires i < |s.pc| && s.pc[i].DumpMerge? && pick in s.pc[i].todo && ThreadOk(s, i) && TablesOk(s)
    requires t < |s.tctx| && TctxOk(s, t) && GctxOk(s, s.tctx[t].g)
    requires Merged(s, pick)[t] != s.tctx[t]
    ensures TctxOk(Step(s, i, true, pick), t)
  {
  }

  lemma MergeTctxs(s: State, i: nat, pick: nat)
    requires Inv(s) && i < |s.pc| && s.pc[i].DumpMerge? && pick in s.pc[i].todo
    ensures var s' := Step(s, i, true, pick);
      |s'.tctx| == |s.tctx| && forall t: nat :: t < |s.tctx| ==> TctxOk(s', t)
  {
    var s' := Step(s, i, true, pick);
    assert ThreadOk(s, i);
    forall t: nat | t < |s.tctx| ensures TctxOk(s', t) {
      assert TctxOk(s, t) && GctxOk(s, s.tctx[t].g);
      if Merged(s, pick)[t] == s.tctx[t] {
        OtherTctx(s, s', i, t);
      } else {
        MergeTctx(s, i, pick, t);
      }
    }
  }

  lemma MergeGctx(s: State, i: nat, pick: nat, g: nat)
    requires i < |s.pc| && s.pc[i].DumpMerge? && pick in s.pc[i].todo && g < |s.gctx| && GctxOk(s, g)
    ensures GctxOk(Step(s, i, true, pick), g)
  {
    OtherGctx(s, Step(s, i, true, pick), i, g);
  }

  lemma StepDumpMerge(s: State, i: nat, ok: bool, pick: nat)
    requires Inv(s) && i < |s.pc| && s.pc[i].DumpMerge? && pick in s.pc[i].todo
    ensures Inv(Step(s, i, ok, pick))
  {
    var s' := Step(s, i, true, pick);
    assert s' == Step(s, i, ok, pick);
    forall g: nat | g < |s'.gctx| ensures GctxOk(s', g) {
      assert GctxOk(s, g);
      MergeGctx(s, i, pick, g);
    }
    MergeTctxs(s, i, pick);
    forall j: nat | j < |s'.pc| ensures ThreadOk(s', j) {
      assert ThreadOk(s, j);
      MergeThread(s, i, j, pick);
    }
  }

  lemma StepMergeDone(s: State, i: nat, ok: bool, pick: nat)
    requires Inv(s) && i < |s.pc| && s.pc[i].DumpMerge? && s.pc[i].todo == {}
    ensures Inv(Step(s, i, ok, pick))
  {
    assert ThreadOk(s, i);
    OnlyMoves(s, Step(s, i, ok, pick), i);
  }

  lemma StepDumpDone(s: State, i: nat, ok: bool, pick: nat)
    requires Inv(s) && i < |s.pc| && s.pc[i].DumpFinish? && s.dumpSet == {}
    ensures Inv(Step(s, i, ok, pick))
  {
    assert ThreadOk(s, i);
    OnlyMoves(s, Step(s, i, ok, pick), i);
  }

  /** Giving up one hold and taking another keeps the counter in step. */
  lemma Counted(x: Gctx, given: Token, taken: Token)
    requires x.nlimbo == |x.holders| && given in x.holders && taken !in x.holders
    ensures Drop(x, given).nlimbo == |Drop(x, given).holders|
    ensures Hold(Drop(x, given), taken).nlimbo == |Hold(Drop(x, given), taken).holders|
  {
  }

  lemma FinishGctx(s: State, i: nat, g: nat)
    requires i < |s.pc| && s.pc[i].DumpFinish? && g < |s.gctx| && g in s.dumpSet
    requires GctxOk(s, g) && Published(s, g)
    ensures GctxOk(FinishOne(s, i, g), g)
  {
    var s' := FinishOne(s, i, g);
    Counted(s.gctx[g], ByDump, ByThread(i));
    forall t | t in s'.gctx[g].tree
      ensures t < |s'.tctx| && s'.tctx[t].live && s'.tctx[t].g == g
    {
      assert t in s.gctx[g].tree;
    }
  }

  lemma FinishTctx(s: State, i: nat, g: nat, t: nat)
    requires i < |s.pc| && s.pc[i].DumpFinish? && g < |s.gctx|
    requires t < |s.tctx| && TctxOk(s, t) && s.tctx[t].g == g
    ensures TctxOk(FinishOne(s, i, g), t)
  {
  }

  lemma FinishThread(s: State, i: nat, g: nat, j: nat, t: nat)
    requires i < |s.pc| && g < |s.gctx| && t < |s.tctx| && TctxOk(s, t)
    requires j < |s.pc| && ThreadOk(s, j) && Minds(s.pc[j], t)
    ensures Finished(s, g)[t].live == s.tctx[t].live
    ensures Finished(s, g)[t].killer == s.tctx[t].killer
    ensures s.pc[j].Link? ==> Finished(s, g)[t] == s.tctx[t]
  {
  }

  lemma FinishOneThreads(s: State, i: nat, ok: bool, pick: nat)
    requires Inv(s) && i < |s.pc| && (s.pc[i].DumpFinish?) && pick in s.dumpSet && pick < |s.gctx|
    ensures var s' := Step(s, i, ok, pick);
      TablesOk(s') && |s'.pc| == |s.pc| && forall j: nat :: j < |s.pc| ==> ThreadOk(s', j)
  {
    var s' := Step(s, i, ok, pick);
    assert ThreadOk(s, i);
    assert GctxOk(s, pick);
    forall j: nat | j < |s'.pc| ensures ThreadOk(s', j) {
      assert ThreadOk(s, j);
      forall t: nat | t < |s.tctx| && Minds(s.pc[j], t)
        ensures s'.tctx[t].live == s.tctx[t].live && s'.tctx[t].killer == s.tctx[t].killer
        ensures s.pc[j].Link? ==> s'.tctx[t] == s.tctx[t]
      {
        assert TctxOk(s, t);
        FinishThread(s, i, pick, j, t);
      }
      if j != i { OtherThread(s, s', i, j); }
    }
  }

  lemma StepFinishOne(s: State, i: nat, ok: bool, pick: nat)
    requires Inv(s) && i < |s.pc| && (s.pc[i].DumpFinish?) && pick in s.dumpSet && pick < |s.gctx|
    ensures Inv(Step(s, i, ok, pick))
  {
    var s' := Step(s, i, ok, pick);
    assert ThreadOk(s, i);
    assert GctxOk(s, pick);
    forall g: nat | g < |s'.gctx| ensures GctxOk(s', g) {
      if g < |s.gctx| {
        assert GctxOk(s, g);
        if !(g == pick) { OtherGctx(s, s', i, g); } else { FinishGctx(s, i, pick); }
      }
    }
    forall t: nat | t < |s'.tctx| ensures TctxOk(s', t) {
      if t < |s.tctx| {
        assert TctxOk(s, t);
        if !(s.tctx[t].g == pick) { OtherTctx(s, s', i, t); } else { FinishTctx(s, i, pick, t); }
      }
    }
    FinishOneThreads(s, i, ok, pick);
  }

  lemma StepKeeps(s: State, i: nat, ok: bool, pick: nat)
    requires Inv(s) && i < |s.pc|
    ensures Inv(Step(s, i, ok, pick))
  {
    assert ThreadOk(s, i);
    match s.pc[i]
    case Idle =>
    case EnterFirst(_) => StepEnterFirst(s, i, ok, pick);
    case SearchFirst(_) => StepSearchFirst(s, i, ok, pick);
    case Create(_) => StepCreate(s, i, ok, pick);
    case EnterAgain(_, _) => StepEnterAgain(s, i, ok, pick);
    case SearchAgain(_, _) => StepSearchAgain(s, i, ok, pick);
    case Abandon(_) => StepAbandon(s, i, ok, pick);
    case Retain(_, _) => StepRetain(s, i, ok, pick);
    case LeaveSearch(_, _) => StepLeaveSearch(s, i, ok, pick);
    case NewTctx(_, isNew) =>
      if ok { StepNewTctx(s, i, ok, pick); }
      else if isNew { StepReturn(s, i, ok, pick); }
      else { StepGive(s, i, ok, pick); }
    case Link(_, _) => StepLink(s, i);
    case Unlink(t) =>
      assert TctxOk(s, t);
      if s.tctx[t].st == Dumping { StepRetire(s, i, ok, pick); } else { StepUnlink(s, i); }
    case FreeT(_) => StepFreeT(s, i, ok, pick);
    case TryEnter(_, _) => StepTryEnter(s, i, ok, pick);
    case TryCheck(_, _) => StepTryCheck(s, i);
    case Free(_, _) => StepFree(s, i, ok, pick);
    case DumpEnter => StepDumpEnter(s, i, ok, pick);
    case DumpPrep(todo) =>
      if todo == {} { StepPrepDone(s, i, ok, pick); }
      else if pick in todo && pick < |s.gctx| { StepDumpPrep(s, i, ok, pick); }
    case DumpMerge(todo) =>
      if todo == {} { StepMergeDone(s, i, ok, pick); }
      else if pick in todo { StepDumpMerge(s, i, ok, pick); }
    case DumpFinish =>
      if s.dumpSet == {} { StepDumpDone(s, i, ok, pick); }
      else if pick in s.dumpSet && pick < |s.gctx| { StepFinishOne(s, i, ok, pick); }
  }

  lemma ReleaseThreads(s: State, i: nat, t: nat)
    requires Inv(s) && i < |s.pc| && s.pc[i].Idle? && t < |s.tctx| && CanRelease(s.tctx[t])
    ensures var s' := Apply(s, Release(i, t));
      TablesOk(s') && |s'.pc| == |s.pc| && forall j: nat :: j < |s.pc| ==> ThreadOk(s', j)
  {
    var s' := Apply(s, Release(i, t));
    assert ThreadOk(s, i) && TctxOk(s, t);
    forall j: nat | j < |s'.pc| && j != i ensures ThreadOk(s', j) {
      assert ThreadOk(s, j);
      OtherThread(s, s', i, j);
    }
    ReleaseSelf(s, i, t);
  }

  lemma ReleaseSelf(s: State, i: nat, t: nat)
    requires i < |s.pc| && s.pc[i].Idle? && t < |s.tctx| && CanRelease(s.tctx[t])
    requires TablesOk(s) && ThreadOk(s, i)
    ensures TablesOk(Apply(s, Release(i, t))) && ThreadOk(Apply(s, Release(i, t)), i)
  {
  }

  lemma ReleaseKeeps(s: State, i: nat, t: nat)
    requires Inv(s) && i < |s.pc| && s.pc[i].Idle? && t < |s.tctx| && CanRelease(s.tctx[t])
    ensures Inv(Apply(s, Release(i, t)))
  {
    var s' := Apply(s, Release(i, t));
    assert ThreadOk(s, i) && TctxOk(s, t);
    forall g: nat | g < |s'.gctx| ensures GctxOk(s', g) {
      assert GctxOk(s, g);
      OtherGctx(s, s', i, g);
    }
    forall u: nat | u < |s'.tctx| ensures TctxOk(s', u) {
      assert TctxOk(s, u);
      if u != t { OtherTctx(s, s', i, u); }
    }
    ReleaseThreads(s, i, t);
  }

  lemma ActionKeeps(s: State, a: Action)
    requires Inv(s) && Tidy(s, a)
    ensures Inv(Apply(s, a))
  {
    match a
    case Sample(i, bt) =>
      if i < |s.pc| && s.pc[i].Idle? {
        assert ThreadOk(s, i);
        OnlyMoves(s, Apply(s, a), i);
      }
    case Release(i, t) =>
      if i < |s.pc| && s.pc[i].Idle? && t < |s.tctx| && CanRelease(s.tctx[t]) {
        ReleaseKeeps(s, i, t);
      }
    case Dump(i) =>
      if i < |s.pc| && s.pc[i].Idle? && s.dumper < 0 {
        assert ThreadOk(s, i);
        OnlyMoves(s, Apply(s, a), i);
      }
    case Advance(i, ok, pick) =>
      if i < |s.pc| { StepKeeps(s, i, ok, pick); }
    case Displace(_, _) =>
  }

  lemma {:induction false} RunKeeps(s: State, actions: seq<Action>)
    requires Inv(s) && TidyRun(s, actions)
    ensures Inv(Run(s, actions))
  {
    if actions != [] {
      RunKeeps(s, actions[..|actions| - 1]);
      ActionKeeps(Run(s, actions[..|actions| - 1]), actions[|actions| - 1]);
    }
  }

  /** A gctx that some token keeps is alive. */
  lemma HeldIsLive(s: State, i: nat, g: nat)
    requires Inv(s) && i < |s.pc| && g < |s.gctx| && HoldsG(s.pc[i], g)
    ensures s.gctx[g].live && ByThread(i) in s.gctx[g].holders
  {
    assert GctxOk(s, g);
  }

  lemma LinkedIsLive(s: State, t: nat)
    requires Inv(s) && t < |s.tctx| && s.tctx[t].live && (s.tctx[t].linked || s.tctx[t].killer >= 0)
    requires 0 <= s.tctx[t].killer < |s.pc| ==> s.pc[s.tctx[t].killer] == Unlink(t)
    ensures s.tctx[t].g < |s.gctx| && s.gctx[s.tctx[t].g].live
    ensures s.gctx[s.tctx[t].g].tree != {}
            || (s.tctx[t].maker < |s.pc| && s.pc[s.tctx[t].maker] == Link(s.tctx[t].g, t))
  {
    assert TctxOk(s, t);
    assert GctxOk(s, s.tctx[t].g);
  }

  lemma TouchesLive(s: State, i: nat, g: nat)
    requires Inv(s) && i < |s.pc| && g in Touches(s, s.pc[i])
    ensures g < |s.gctx| && s.gctx[g].live
    ensures HoldsG(s.pc[i], g) || Published(s, g) || s.gctx[g].tree != {}
            || exists j: nat :: j < |s.pc| && s.pc[j].Link? && HoldsG(s.pc[j], g)
  {
    assert ThreadOk(s, i);
    var p := s.pc[i];
    if HoldsG(p, g) {
      HeldIsLive(s, i, g);
    } else if p.Unlink? {
      assert TctxOk(s, p.t);
      LinkedIsLive(s, p.t);
    } else if p.DumpMerge? && g !in s.dumpSet {
      var t :| 0 <= t < |s.tctx| && s.tctx[t].linked && s.tctx[t].g == g;
      assert TctxOk(s, t);
      LinkedIsLive(s, t);
    }
  }

  lemma InvIsSafe(s: State)
    requires Inv(s)
    ensures Safe(s)
  {
    forall i: nat | i < |s.pc| ensures TouchesOnlyLive(s, s.pc[i]) {
      forall g: nat | g in Touches(s, s.pc[i]) ensures g < |s.gctx| && s.gctx[g].live {
        TouchesLive(s, i, g);
      }
    }
    forall i | 0 <= i < |s.pc| && s.pc[i].Free?
      ensures var g := s.pc[i].g;
        && g < |s.gctx| && s.gctx[g].tree == {} && s.gctx[g].nlimbo == 1
        && s.gctx[g].holders == {ByThread(i)} && g !in s.bt2gctx.Values
        && forall j :: 0 <= j < |s.pc| && j != i ==> g !in Touches(s, s.pc[j])
    {
      FreeIsSole(s, i);
    }
    forall g: nat | g < |s.gctx| ensures TreeLive(s, g) {
      assert GctxOk(s, g);
    }
    forall g | 0 <= g < |s.gctx| && s.gctx[g].live ensures s.gctx[g].nlimbo == |s.gctx[g].holders| {
      assert GctxOk(s, g);
    }
    NothingLost(s);
    OwnEntries(s);
  }

  lemma NothingLost(s: State)
    requires Inv(s)
    ensures forall g: nat :: g < |s.gctx| ==> Accounted(s, g)
    ensures forall t: nat :: t < |s.tctx| ==> Kept(s, t)
  {
    forall g: nat | g < |s.gctx| ensures Accounted(s, g) {
      assert GctxOk(s, g);
    }
    forall t: nat | t < |s.tctx| ensures Kept(s, t) {
      assert TctxOk(s, t);
    }
  }

  lemma OwnEntries(s: State)
    requires Inv(s)
    ensures forall i :: 0 <= i < |s.pc| ==> RemovesOwn(s, s.pc[i])
  {
    forall i: nat | i < |s.pc| && s.pc[i].TryCheck? && s.pc[i].g < |s.gctx|
      ensures Published(s, s.pc[i].g)
    {
      HeldIsLive(s, i, s.pc[i].g);
      assert GctxOk(s, s.pc[i].g);
    }
  }

  lemma FreeIsSole(s: State, i: nat)
    requires Inv(s) && i < |s.pc| && s.pc[i].Free?
    ensures var g := s.pc[i].g;
      && g < |s.gctx| && s.gctx[g].tree == {} && s.gctx[g].nlimbo == 1
      && s.gctx[g].holders == {ByThread(i)} && g !in s.bt2gctx.Values
      && forall j :: 0 <= j < |s.pc| && j != i ==> g !in Touches(s, s.pc[j])
  {
    var g := s.pc[i].g;
    assert ThreadOk(s, i) && GctxOk(s, g);
    assert HoldsG(s.pc[i], g) && Keeps(s.pc[i], g);
    forall k: nat | k < |s.pc| && HoldsG(s.pc[k], g) ensures k == i {
      HeldIsLive(s, k, g);
    }
    forall j | 0 <= j < |s.pc| && j != i ensures g !in Touches(s, s.pc[j]) {
      if g in Touches(s, s.pc[j]) {
        TouchesLive(s, j, g);
      }
    }
  }

  /** In every interleaving of sampling, freeing and dumping threads in which no failed insertion
      displaces an old binding, no thread ever dereferences a freed gctx, and a gctx is freed only
      when its tree is empty and the destroyer is its only holder. */
  lemma EveryRunIsSafe(threads: nat, actions: seq<Action>)
    requires TidyRun(Init(threads), actions)
    ensures Safe(Run(Init(threads), actions))
  {
    assert Inv(Init(threads));
    RunKeeps(Init(threads), actions);
    InvIsSafe(Run(Init(threads), actions));
  }

  // ------------------------------------------------------------------ when insertions displace

  /** A displaced binding is lost at once. */
  lemma DisplacedIsLost(s: State, a: Action)
    requires Inv(s) && !Tidy(s, a)
    ensures !Safe(Apply(s, a))
  {
    var s' := Apply(s, a);
    if UpsetsGctxs(s, a.i, a.victim) {
      var v := s.bt2gctx[a.victim];
      assert GctxOk(s, v);
      assert !Accounted(s', v);
    } else {
      assert ThreadOk(s, a.i) && TctxOk(s, a.victim);
      assert s'.tctx[a.victim] == s.tctx[a.victim].(linked := false);
      assert !Kept(s', a.victim);
    }
  }

  lemma {:induction false} PrefixTidy(s: State, actions: seq<Action>, k: nat)
    requires TidyRun(s, actions) && k <= |actions|
    ensures TidyRun(s, actions[..k])
  {
    if k < |actions| {
      PrefixTidy(s, actions[..|actions| - 1], k);
      assert actions[..|actions| - 1][..k] == actions[..k];
    } else {
      assert actions[..k] == actions;
    }
  }

  /** Safe all along the run. */
  ghost predicate SafeRun(s: State, actions: seq<Action>) {
    forall k :: 0 <= k <= |actions| ==> Safe(Run(s, actions[..k]))
  }

  lemma {:induction false} SafeIsTidy(s: State, actions: seq<Action>)
    requires Inv(s) && SafeRun(s, actions)
    ensures TidyRun(s, actions)
  {
    if actions != [] {
      var before, last := actions[..|actions| - 1], actions[|actions| - 1];
      forall k | 0 <= k <= |before| ensures Safe(Run(s, before[..k])) {
        assert before[..k] == actions[..k];
      }
      SafeIsTidy(s, before);
      RunKeeps(s, before);
      assert actions[..|actions|] == actions;
      if !Tidy(Run(s, before), last) {
        DisplacedIsLost(Run(s, before), last);
      }
    }
  }

  /** A run is safe all along exactly if every failed insertion in it leaves its own new binding in
      hand. */
  lemma SafeExactlyWhenTidy(threads: nat, actions: seq<Action>)
    ensures SafeRun(Init(threads), actions) <==> TidyRun(Init(threads), actions)
  {
    assert Inv(Init(threads));
    if TidyRun(Init(threads), actions) {
      forall k | 0 <= k <= |actions| ensures Safe(Run(Init(threads), actions[..k])) {
        PrefixTidy(Init(threads), actions, k);
        EveryRunIsSafe(threads, actions[..k]);
      }
    }
    if SafeRun(Init(threads), actions) {
      SafeIsTidy(Init(threads), actions);
    }
  }

  /** Four more steps of the same thread: it frees its gctx, samples the same backtrace again, and
      finds the freed gctx in the table. */
  function Relapse(i: nat, bt: nat): seq<Action> {
    [Advance(i, true, 0), Sample(i, bt), Advance(i, true, 0), Advance(i, true, 0)]
  }

  lemma RunFour(s: State, a: Action, b: Action, c: Action, d: Action)
    ensures Run(s, [a, b, c, d]) == Apply(Apply(Apply(Apply(s, a), b), c), d)
  {
    RunTwo(s, a, b);
    RunTwo(Run(s, [a, b]), c, d);
    RunConcat(s, [a, b], [c, d]);
    assert [a, b] + [c, d] == [a, b, c, d];
  }

  lemma RunTwo(s: State, a: Action, b: Action)
    ensures Run(s, [a, b]) == Apply(Apply(s, a), b)
  {
    RunLast(s, [a], b);
    RunLast(s, [], a);
    assert [] + [a] == [a] && [a] + [b] == [a, b];
  }

  lemma RunLast(s: State, actions: seq<Action>, a: Action)
    ensures Run(s, actions + [a]) == Apply(Run(s, actions), a)
    ensures TidyRun(s, actions + [a]) <==> TidyRun(s, actions) && Tidy(Run(s, actions), a)
  {
    assert (actions + [a])[..|actions + [a]| - 1] == actions;
  }

  /** From every state in which an insertion into bt2gctx may displace a binding, doing so leads to
      a step that dereferences a freed gctx. */
  lemma DisplacedGctxIsTouched(s: State, i: nat, victim: nat)
    requires Inv(s) && UpsetsGctxs(s, i, victim)
    ensures var s1 := Apply(s, Displace(i, victim));
      var s' := Run(s1, Relapse(i, s.pc[i].bt));
      && s'.pc[i] == Retain(s.pc[i].tg, -1) && s.pc[i].tg in Touches(s', s'.pc[i])
      && |s'.gctx| == |s.gctx| && !s'.gctx[s.pc[i].tg].live
  {
    var bt, tg := s.pc[i].bt, s.pc[i].tg;
    assert ThreadOk(s, i);
    var s1 := Apply(s, Displace(i, victim));
    assert s1.bt2gctx[bt] == tg;
    var r := Relapse(i, bt);
    RunFour(s1, r[0], r[1], r[2], r[3]);
  }

  /** In a thread's own table it leaves an entry that leads to a freed tctx, once that is freed: at
      once if the gctx was already there. */
  lemma DisplacedTctxIsDead(s: State, i: nat, victim: nat)
    requires Inv(s) && UpsetsTctxs(s, i, victim) && !s.pc[i].isNew
    ensures var s' := Apply(Apply(s, Displace(i, victim)), Advance(i, true, 0));
      |s'.tctx| == |s.tctx| + 1 && s'.tctx[|s.tctx|].linked && !s'.tctx[|s.tctx|].live
      && s'.tctx[|s.tctx|].maker == i && s'.pc[i] == Idle
  {
    assert !UpsetsGctxs(s, i, victim);
  }

  /** The gctx that was lost cannot be destroyed: when its last tctx goes, the destroyer does not
      find it in the table. */
  lemma LostGctxIsMissing(s: State, i: nat, victim: nat, j: nat, t: nat)
    requires Inv(s) && UpsetsGctxs(s, i, victim)
    requires j < |s.pc| && j != i && s.pc[j].Idle? && t < |s.tctx| && CanRelease(s.tctx[t])
    requires s.tctx[t].st == Nominal && s.tctx[t].g == s.bt2gctx[victim]
    requires s.gctx[s.bt2gctx[victim]].tree == {t} && s.gctx[s.bt2gctx[victim]].nlimbo == 0
    ensures var s1 := Apply(s, Displace(i, victim));
      var s' := Apply(Apply(Apply(s1, Release(j, t)), Advance(j, true, 0)), Advance(j, true, 0));
      s'.pc[j] == TryCheck(s.bt2gctx[victim], FreeTctx(t)) && !RemovesOwn(s', s'.pc[j])
  {
    var v := s.bt2gctx[victim];
    assert ThreadOk(s, i) && GctxOk(s, v);
    var s1 := Apply(s, Displace(i, victim));
    assert s1.gctx[v] == s.gctx[v] && s1.tctx == s.tctx && !Published(s1, v);
    LastTctxGoes(s1, j, t, v);
  }

  lemma LastTctxGoes(s: State, j: nat, t: nat, v: nat)
    requires j < |s.pc| && s.pc[j].Idle? && t < |s.tctx| && CanRelease(s.tctx[t]) && s.owner == -1
    requires s.tctx[t].st == Nominal && s.tctx[t].g == v < |s.gctx| && !Published(s, v)
    requires s.gctx[v].tree == {t} && s.gctx[v].nlimbo == 0
    ensures var s' := Apply(Apply(Apply(s, Release(j, t)), Advance(j, true, 0)), Advance(j, true, 0));
      s'.pc[j] == TryCheck(v, FreeTctx(t)) && !RemovesOwn(s', s'.pc[j])
  {
    var s2 := Apply(s, Release(j, t));
    assert s2.pc[j] == Unlink(t) && s2.tctx[t].st == Nominal;
    var s3 := Apply(s2, Advance(j, true, 0));
    assert s3.gctx[v].tree == {} && s3.gctx[v].nlimbo == 1;
    assert s3.pc[j] == TryEnter(v, FreeTctx(t)) && s3.owner == -1;
  }

  // ------------------------------------------------------------------ runs that get there

  /** Thread 0 has sampled backtraces 0 to n - 1: gctx k is published and tctx k linked into it. */
  function Sampled(n: nat): State {
    State(seq(n, k requires k >= 0 => Gctx(k, 0, {k}, true, {}, -1)),
          seq(n, k requires k >= 0 => Tctx(k, Nominal, true, true, 0, -1)),
          Numbers(n), -1, -1, {}, 0, [Idle, Idle])
  }

  function Numbers(n: nat): (m: map<nat, nat>)
    ensures |m| == n && forall k: nat :: (k in m <==> k < n) && (k in m ==> m[k] == k)
  {
    if n == 0 then map[] else Numbers(n - 1)[n - 1 := n - 1]
  }

  /** Half way to the next one it has made gctx n and is about to take the lock again. */
  function Made(n: nat): State {
    Sampled(n).(gctx := Sampled(n).gctx + [Gctx(n, 1, {}, true, {ByThread(0)}, 0)],
                pc := [EnterAgain(n, n), Idle])
  }

  /** Then it has published its gctx and is about to make its tctx. */
  function InTable(n: nat): State {
    Sampled(n).(gctx := Sampled(n).gctx + [Gctx(n, 1, {}, true, {ByThread(0)}, -1)],
                bt2gctx := Numbers(n + 1), pc := [NewTctx(n, true), Idle])
  }

  function Samples(n: nat): seq<Action> {
    if n == 0 then [] else Samples(n - 1) + OneSample(n - 1)
  }

  function OneSample(n: nat): seq<Action> {
    [Sample(0, n)] + seq(7, _ => Advance(0, true, 0))
  }

  lemma {:induction false} RunConcat(s: State, a: seq<Action>, b: seq<Action>)
    ensures Run(s, a + b) == Run(Run(s, a), b)
    ensures TidyRun(s, a + b) <==> TidyRun(s, a) && TidyRun(Run(s, a), b)
  {
    if b == [] {
      assert a + b == a;
    } else {
      RunConcat(s, a, b[..|b| - 1]);
      RunLast(s, a + b[..|b| - 1], b[|b| - 1]);
      assert a + b == (a + b[..|b| - 1]) + [b[|b| - 1]];
    }
  }

  /** A thread starts to sample and searches the table. */
  lemma StartSample(s: State, i: nat, bt: nat)
    requires i < |s.pc| && s.pc[i].Idle? && s.owner == -1
    ensures Apply(Apply(s, Sample(i, bt)), Advance(i, true, 0)) == Go(s, i, SearchFirst(bt)).(owner := i)
  {
    assert Apply(s, Sample(i, bt)) == Go(s, i, EnterFirst(bt));
  }

  /** It does not find the backtrace and makes a gctx. */
  lemma MakeGctx(s: State, i: nat, bt: nat)
    requires i < |s.pc| && s.pc[i] == SearchFirst(bt) && bt !in s.bt2gctx
    ensures Apply(Apply(s, Advance(i, true, 0)), Advance(i, true, 0))
            == Go(s, i, EnterAgain(bt, |s.gctx|)).(
                 gctx := s.gctx + [Gctx(bt, 1, {}, true, {ByThread(i)}, i)], owner := -1)
  {
    assert Apply(s, Advance(i, true, 0)) == Go(s, i, Create(bt)).(owner := -1);
  }

  lemma FirstHalf(n: nat)
    ensures var a := Advance(0, true, 0); Run(Sampled(n), [Sample(0, n), a, a, a]) == Made(n)
  {
    var a := Advance(0, true, 0);
    StartSample(Sampled(n), 0, n);
    MakeGctx(Apply(Apply(Sampled(n), Sample(0, n)), a), 0, n);
    RunFour(Sampled(n), Sample(0, n), a, a, a);
  }

  lemma ThenPublished(n: nat)
    ensures var a := Advance(0, true, 0); Run(Made(n), [a, a]) == InTable(n)
  {
    var a := Advance(0, true, 0);
    var s0 := Made(n);
    var s1 := Apply(s0, a);
    assert s1 == s0.(pc := [SearchAgain(n, n), Idle], owner := 0);
    assert s0.gctx[n := s0.gctx[n].(keeper := -1)] == InTable(n).gctx;
    assert s0.bt2gctx[n := n] == InTable(n).bt2gctx;
    assert Apply(s1, a) == InTable(n);
    RunTwo(s0, a, a);
  }

  lemma ThenLinked(n: nat)
    ensures var a := Advance(0, true, 0); Run(InTable(n), [a, a]) == Sampled(n + 1)
  {
    var a := Advance(0, true, 0);
    var s0, s' := InTable(n), Sampled(n + 1);
    var s1 := Apply(s0, a);
    assert s1 == s0.(pc := [Link(n, n), Idle], tctx := s0.tctx + [Tctx(n, Initializing, true, true, 0, -1)]);
    var s2 := Apply(s1, a);
    assert s2.gctx[n].tree == {n} && s2.gctx[n].holders == {};
    assert s2.gctx == s'.gctx && s2.tctx == s'.tctx && s2.pc == s'.pc;
    RunTwo(s0, a, a);
  }

  lemma {:induction false} SampledIsReached(n: nat)
    ensures Run(Init(2), Samples(n)) == Sampled(n) && TidyRun(Init(2), Samples(n))
  {
    if n == 0 {
      assert Init(2).pc == [Idle, Idle];
    } else {
      SampledIsReached(n - 1);
      NextSampled(n - 1);
      RunConcat(Init(2), Samples(n - 1), OneSample(n - 1));
    }
  }

  lemma NextSampled(n: nat)
    ensures Run(Sampled(n), OneSample(n)) == Sampled(n + 1) && TidyRun(Sampled(n), OneSample(n))
  {
    var a := Advance(0, true, 0);
    FirstHalf(n);
    ThenPublished(n);
    ThenLinked(n);
    RunConcat(Sampled(n), [Sample(0, n), a, a, a], [a, a]);
    RunConcat(Sampled(n), [Sample(0, n), a, a, a] + [a, a], [a, a]);
    assert OneSample(n) == [Sample(0, n), a, a, a] + [a, a] + [a, a];
    NoDisplacing(Sampled(n), OneSample(n));
  }

  lemma {:induction false} NoDisplacing(s: State, actions: seq<Action>)
    requires forall k :: 0 <= k < |actions| ==> !actions[k].Displace?
    ensures TidyRun(s, actions)
  {
    if actions != [] {
      NoDisplacing(s, actions[..|actions| - 1]);
    }
  }

  lemma ManySampled(n: nat)
    ensures |Sampled(n).bt2gctx| == |OwnTctxs(Sampled(n), 0)| == n
  {
    var s := Sampled(n);
    FullHouse(OwnTctxs(s, 0), n);
  }

  /** Then thread 1 samples backtrace n up to the insertion of its gctx n. */
  function SecondSample(n: nat): seq<Action> {
    [Sample(1, n)] + seq(4, _ => Advance(1, true, 0))
  }

  lemma GctxIsMade(s: State, n: nat)
    requires s.pc == [Idle, Idle] && s.owner == -1 && |s.gctx| == n && n !in s.bt2gctx
    ensures var a := Advance(1, true, 0);
      Run(s, [Sample(1, n), a, a, a])
      == Go(s, 1, EnterAgain(n, n)).(gctx := s.gctx + [Gctx(n, 1, {}, true, {ByThread(1)}, 1)])
  {
    var a := Advance(1, true, 0);
    StartSample(s, 1, n);
    MakeGctx(Apply(Apply(s, Sample(1, n)), a), 1, n);
    RunFour(s, Sample(1, n), a, a, a);
  }

  lemma LockAgain(s: State, n: nat)
    requires s.pc == [Idle, EnterAgain(n, n)] && s.owner == -1
    ensures Apply(s, Advance(1, true, 0)) == s.(pc := [Idle, SearchAgain(n, n)], owner := 1)
  {
  }

  lemma InsertionIsReached(n: nat)
    requires n >= Cuckoo.CELLS
    ensures var s := Run(Sampled(n), SecondSample(n));
      && s.pc == [Idle, SearchAgain(n, n)] && UpsetsGctxs(s, 1, 0)
      && s.bt2gctx == Sampled(n).bt2gctx && s.tctx == Sampled(n).tctx
      && |s.gctx| == n + 1 && s.gctx[0] == Sampled(n).gctx[0]
  {
    var a := Advance(1, true, 0);
    ManySampled(n);
    GctxIsMade(Sampled(n), n);
    LockAgain(Run(Sampled(n), [Sample(1, n), a, a, a]), n);
    RunLast(Sampled(n), [Sample(1, n), a, a, a], a);
    assert SecondSample(n) == [Sample(1, n), a, a, a] + [a];
  }

  /** Both samplings, from the start. */
  lemma BothSampled(n: nat)
    requires n >= Cuckoo.CELLS
    ensures var before := Samples(n) + SecondSample(n);
      Run(Init(2), before) == Run(Sampled(n), SecondSample(n)) && TidyRun(Init(2), before)
      && Inv(Run(Init(2), before))
  {
    SampledIsReached(n);
    NoDisplacing(Sampled(n), SecondSample(n));
    GoOn(Samples(n), SecondSample(n));
  }

  lemma InitInv(threads: nat)
    ensures Inv(Init(threads))
  {
  }

  lemma GoOn(a: seq<Action>, b: seq<Action>)
    requires TidyRun(Init(2), a) && TidyRun(Run(Init(2), a), b)
    ensures Run(Init(2), a + b) == Run(Run(Init(2), a), b)
    ensures TidyRun(Init(2), a + b) && Inv(Run(Init(2), a + b))
  {
    InitInv(2);
    RunConcat(Init(2), a, b);
    RunKeeps(Init(2), a + b);
  }

  /** A run in which a step dereferences a freed gctx: thread 0 samples as many backtraces as fill a
      bucket, or any larger number of them, thread 1's insertion of another one runs out of memory
      with the binding of backtrace 0 in hand, and thread 1 samples again. */
  lemma DeadGctxRun(n: nat) returns (actions: seq<Action>)
    requires n >= Cuckoo.CELLS
    ensures var s := Run(Init(2), actions);
      |s.pc| == 2 && n in Touches(s, s.pc[1]) && n < |s.gctx| && !s.gctx[n].live
  {
    var before := Samples(n) + SecondSample(n);
    BothSampled(n);
    InsertionIsReached(n);
    DisplacedGctxIsTouched(Run(Init(2), before), 1, 0);
    RunLast(Init(2), before, Displace(1, 0));
    RunConcat(Init(2), before + [Displace(1, 0)], Relapse(1, n));
    actions := before + [Displace(1, 0)] + Relapse(1, n);
  }

  /** A run in which a gctx about to be destroyed is not in the table: after the same insertion,
      the sampled object of backtrace 0 is freed. */
  lemma MissingGctxRun(n: nat) returns (actions: seq<Action>)
    requires n >= Cuckoo.CELLS
    ensures var s := Run(Init(2), actions); |s.pc| == 2 && !RemovesOwn(s, s.pc[0])
  {
    var before := Samples(n) + SecondSample(n);
    BothSampled(n);
    InsertionIsReached(n);
    LostGctxIsMissing(Run(Init(2), before), 1, 0, 0, 0);
    var a := Advance(0, true, 0);
    RunLast(Init(2), before, Displace(1, 0));
    RunLast(Init(2), before + [Displace(1, 0)], Release(0, 0));
    RunLast(Init(2), before + [Displace(1, 0)] + [Release(0, 0)], a);
    RunLast(Init(2), before + [Displace(1, 0)] + [Release(0, 0)] + [a], a);
    actions := before + [Displace(1, 0)] + [Release(0, 0)] + [a] + [a];
  }

  /** Thread 0 is about to insert tctx n into its own table of n others. */
  lemma TctxIsDisplaced(n: nat)
    requires n >= Cuckoo.CELLS
    ensures UpsetsTctxs(InTable(n), 0, 0)
    ensures var a := Advance(0, true, 0);
      var s := Run(Apply(InTable(n), Displace(0, 0)), [a, a, a, a]);
      s.pc[0] == Idle && |s.tctx| == n + 1 && s.tctx[n].linked && !s.tctx[n].live && s.tctx[n].maker == 0
  {
    ManySampled(n);
    var a := Advance(0, true, 0);
    var s0 := InTable(n);
    assert OwnTctxs(s0, 0) == OwnTctxs(Sampled(n), 0);
    var s1 := Apply(s0, Displace(0, 0));
    assert s1.pc[0] == TryEnter(n, FreeTctx(n)) && s1.tctx[n].linked;
    var s2 := Apply(Apply(s1, a), a);
    assert s2.pc[0] == Free(n, FreeTctx(n)) && s2.tctx == s1.tctx;
    RunFour(s1, a, a, a, a);
    LastFrees(s2, n);
  }

  lemma LastFrees(s: State, n: nat)
    requires |s.pc| > 0 && s.pc[0] == Free(n, FreeTctx(n)) && n < |s.gctx| && n < |s.tctx|
    ensures var a := Advance(0, true, 0);
      var s' := Apply(Apply(s, a), a);
      s'.pc[0] == Idle && s'.tctx == s.tctx[n := s.tctx[n].(live := false, killer := -1)]
  {
  }

  /** A run after which a thread's own table leads to a freed tctx: thread 0 has sampled as many
      backtraces as fill a bucket, or any larger number of them, and its insertion of the tctx of
      another one runs out of memory with tctx 0 in hand. */
  lemma DeadTctxRun(n: nat) returns (actions: seq<Action>)
    requires n >= Cuckoo.CELLS
    ensures var s := Run(Init(2), actions);
      |s.pc| == 2 && s.pc[0] == Idle && |s.tctx| == n + 1
      && s.tctx[n].linked && !s.tctx[n].live && s.tctx[n].maker == 0
  {
    var a := Advance(0, true, 0);
    SampledIsReached(n);
    FirstHalf(n);
    ThenPublished(n);
    TctxIsDisplaced(n);
    RunConcat(Init(2), Samples(n), [Sample(0, n), a, a, a]);
    RunConcat(Init(2), Samples(n) + [Sample(0, n), a, a, a], [a, a]);
    var before := Samples(n) + [Sample(0, n), a, a, a] + [a, a];
    RunLast(Init(2), before, Displace(0, 0));
    RunConcat(Init(2), before + [Displace(0, 0)], [a, a, a, a]);
    actions := before + [Displace(0, 0)] + [a, a, a, a];
  }

  function FailedSample(): seq<Action> {
    [Sample(1, 0)] + seq(4, _ => Advance(1, true, 0)) + [Advance(1, false, 0)]
  }

  lemma HoldIsTaken(s: State)
    requires s.pc == [Idle, Idle] && s.owner == -1 && |s.gctx| == 1 && 0 in s.bt2gctx && s.bt2gctx[0] == 0
    ensures var a := Advance(1, true, 0);
      Run(s, [Sample(1, 0), a, a, a])
      == SetG(Go(s, 1, LeaveSearch(0, -1)), 0, Hold(s.gctx[0], ByThread(1))).(owner := 1)
  {
    var a := Advance(1, true, 0);
    StartSample(s, 1, 0);
    TakeHold(Apply(Apply(s, Sample(1, 0)), a), 1, 0);
    RunFour(s, Sample(1, 0), a, a, a);
  }

  lemma TakeHold(s: State, i: nat, bt: nat)
    requires i < |s.pc| && s.pc[i] == SearchFirst(bt) && bt in s.bt2gctx && s.bt2gctx[bt] < |s.gctx|
    ensures var g := s.bt2gctx[bt];
      Apply(Apply(s, Advance(i, true, 0)), Advance(i, true, 0))
      == SetG(Go(s, i, LeaveSearch(g, -1)), g, Hold(s.gctx[g], ByThread(i)))
  {
    assert Apply(s, Advance(i, true, 0)) == Go(s, i, Retain(s.bt2gctx[bt], -1));
  }

  /** Without memory for its tctx it leaves the hold behind. */
  lemma LeaveHold(s: State)
    requires |s.pc| == 2 && s.pc[1] == LeaveSearch(0, -1) && |s.gctx| == 1 && s.leaks == 0
    ensures var s' := Apply(Apply(s, Advance(1, true, 0)), Advance(1, false, 0));
      |s'.gctx| == 1 && Leaked(0) in s'.gctx[0].holders
  {
    assert Apply(s, Advance(1, true, 0)) == Go(s, 1, NewTctx(0, false)).(owner := -1);
  }

  lemma HoldIsReached(s: State, q: seq<Action>)
    requires s.pc == [Idle, Idle] && s.owner == -1 && |s.gctx| == 1 && 0 in s.bt2gctx && s.bt2gctx[0] == 0
    requires s.leaks == 0 && q == [Sample(1, 0), Advance(1, true, 0), Advance(1, true, 0), Advance(1, true, 0)]
    ensures var s' := Run(s, q);
      |s'.pc| == 2 && s'.pc[1] == LeaveSearch(0, -1) && |s'.gctx| == 1 && s'.leaks == 0
  {
    HoldIsTaken(s);
  }

  lemma HoldIsLeaked(s: State, r: seq<Action>)
    requires s.pc == [Idle, Idle] && s.owner == -1 && |s.gctx| == 1 && 0 in s.bt2gctx && s.bt2gctx[0] == 0
    requires s.leaks == 0 && r == FailedSample()
    ensures |Run(s, r).gctx| == 1 && Leaked(0) in Run(s, r).gctx[0].holders
  {
    var a := Advance(1, true, 0);
    var q := [Sample(1, 0), a, a, a];
    HoldIsReached(s, q);
    LeaveHoldAfter(s, q, r);
  }

  lemma LeaveHoldAfter(s: State, q: seq<Action>, r: seq<Action>)
    requires r == q + [Advance(1, true, 0), Advance(1, false, 0)]
    requires var s' := Run(s, q);
      |s'.pc| == 2 && s'.pc[1] == LeaveSearch(0, -1) && |s'.gctx| == 1 && s'.leaks == 0
    ensures |Run(s, r).gctx| == 1 && Leaked(0) in Run(s, r).gctx[0].holders
  {
    LeaveHold(Run(s, q));
    RunTwoMore(s, q, Advance(1, true, 0), Advance(1, false, 0), r);
  }

  lemma RunTwoMore(s: State, q: seq<Action>, a: Action, b: Action, r: seq<Action>)
    requires r == q + [a, b]
    ensures Run(s, r) == Apply(Apply(Run(s, q), a), b)
  {
    RunConcat(s, q, [a, b]);
    RunTwo(Run(s, q), a, b);
  }

  /** A run that leaks a hold: thread 1 samples backtrace 0 too, finds its gctx, and gets no memory
      for its tctx. */
  lemma LeakingRun() returns (actions: seq<Action>)
    ensures TidyRun(Init(2), actions)
    ensures var s := Run(Init(2), actions);
      Inv(s) && 0 < |s.gctx| && Leaked(0) in s.gctx[0].holders
  {
    SampledIsReached(1);
    HoldIsLeaked(Sampled(1), FailedSample());
    NoDisplacing(Sampled(1), FailedSample());
    GoOn(Samples(1), FailedSample());
    actions := Samples(1) + FailedSample();
  }

  // ------------------------------------------------------------------ what is reclaimed

  ghost predicate LeakedIn(s: State, g: nat) {
    g < |s.gctx| && exists n :: Leaked(n) in s.gctx[g].holders
  }

  /** When every thread is idle, a gctx is still allocated exactly if some tctx is linked into it
      or a lookup that found it already published failed and left its count behind. */
  lemma IdleMeansReclaimed(threads: nat, actions: seq<Action>, g: nat)
    requires TidyRun(Init(threads), actions)
    requires var s := Run(Init(threads), actions);
      g < |s.gctx| && forall i :: 0 <= i < |s.pc| ==> s.pc[i].Idle?
    ensures var s := Run(Init(threads), actions);
      s.gctx[g].live <==> s.gctx[g].tree != {} || LeakedIn(s, g)
  {
    assert Inv(Init(threads));
    RunKeeps(Init(threads), actions);
    var s := Run(Init(threads), actions);
    assert GctxOk(s, g);
    if s.gctx[g].live && s.gctx[g].tree == {} {
      var w :| w in s.gctx[g].holders;
      assert w.Leaked?;
    }
  }

  lemma LeakStays(s: State, a: Action, g: nat, n: nat)
    requires Inv(s) && Tidy(s, a) && g < |s.gctx| && Leaked(n) in s.gctx[g].holders
    ensures g < |Apply(s, a).gctx| && Leaked(n) in Apply(s, a).gctx[g].holders
  {
    assert GctxOk(s, g);
    if a.Advance? {
      if a.i < |s.pc| {
        assert ThreadOk(s, a.i);
        LeakStep(s, a.i, a.ok, a.pick, g, n);
      }
    }
  }

  lemma LeakStep(s: State, i: nat, ok: bool, pick: nat, g: nat, n: nat)
    requires i < |s.pc| && g < |s.gctx| && Leaked(n) in s.gctx[g].holders && GctxOk(s, g) && ThreadOk(s, i)
    ensures var s' := Step(s, i, ok, pick); g < |s'.gctx| && Leaked(n) in s'.gctx[g].holders
  {
  }

  /** A count left behind is never given back: its gctx stays allocated for ever. */
  lemma {:induction false} LeakIsForever(s: State, actions: seq<Action>, g: nat, n: nat)
    requires Inv(s) && TidyRun(s, actions) && g < |s.gctx| && Leaked(n) in s.gctx[g].holders
    ensures g < |Run(s, actions).gctx|
    ensures Leaked(n) in Run(s, actions).gctx[g].holders && Run(s, actions).gctx[g].live
  {
    if actions == [] {
      assert GctxOk(s, g);
    } else {
      var before := Run(s, actions[..|actions| - 1]);
      LeakIsForever(s, actions[..|actions| - 1], g, n);
      RunKeeps(s, actions[..|actions| - 1]);
      LeakStays(before, actions[|actions| - 1], g, n);
      RunKeeps(s, actions);
      assert GctxOk(Run(s, actions), g);
    }
  }

  // ------------------------------------------------------------------ progress

  /** A thread that is not waiting for the lock of bt2gctx can take its next step. */
  lemma CanMove(s: State, i: nat) returns (pick: nat)
    requires i < |s.pc| && !s.pc[i].Idle? && ThreadOk(s, i) && TablesOk(s) && (s.owner < 0 || s.owner == i)
    requires s.pc[i].Unlink? && s.pc[i].t < |s.tctx| ==> s.tctx[s.pc[i].t].g < |s.gctx|
    ensures Step(s, i, true, pick).pc[i] != s.pc[i] || Step(s, i, true, pick).dumpSet != s.dumpSet
  {
    pick := 0;
    if s.pc[i].DumpPrep? || s.pc[i].DumpMerge? {
      if j :| j in s.pc[i].todo {
        pick := j;
      }
    } else if s.pc[i].DumpFinish? {
      if j :| j in s.dumpSet {
        pick := j;
      }
    }
  }

  /** As long as some operation is under way, some thread can take a step: the lock of bt2gctx is never
      held by a thread that waits. */
  lemma NoDeadlock(s: State, i: nat) returns (a: Action)
    requires Inv(s) && i < |s.pc| && !s.pc[i].Idle?
    ensures a.Advance? && Tidy(s, a) && Apply(s, a) != s
  {
    var j := if s.owner < 0 then i else s.owner;
    assert ThreadOk(s, j);
    if s.pc[j].Unlink? {
      assert TctxOk(s, s.pc[j].t);
    }
    var pick := CanMove(s, j);
    a := Advance(j, true, pick);
  }

  // ------------------------------------------------------------------ what a dump relies on

  /** The dumping thread has merged tctx t and will come back to it. */
  predicate Marked(s: State, t: nat) {
    t < |s.tctx| && s.tctx[t].live && (s.tctx[t].st == Dumping || s.tctx[t].st == Purgatory)
  }

  /** All along the run gctx g is one that the dump has still to finish with. */
  predicate DumpedAlong(s: State, actions: seq<Action>, g: nat) {
    && g in Run(s, actions).dumpSet
    && (actions != [] ==> DumpedAlong(s, actions[..|actions| - 1], g))
  }

  /** The action in which the dump finishes with gctx g. */
  predicate Finishes(s: State, a: Action, g: nat) {
    && a.Advance? && a.i < |s.pc| && s.pc[a.i].DumpFinish? && a.i == s.dumper
    && a.pick == g && g in s.dumpSet && g < |s.gctx|
  }

  /** The steps that change tctxs or take gctxs out of the dump. */
  predicate Minders(p: PC) { p.Link? || p.Unlink? || p.FreeT? || p.DumpMerge? || p.DumpFinish? }

  lemma OthersLeaveMarks(s: State, i: nat, ok: bool, pick: nat, t: nat)
    requires i < |s.pc| && t < |s.tctx| && !Minders(s.pc[i])
    ensures var s' := Step(s, i, ok, pick);
      t < |s'.tctx| && s'.tctx[t] == s.tctx[t] && s.dumpSet <= s'.dumpSet
  {
  }

  lemma MindersLeaveMarks(s: State, i: nat, ok: bool, pick: nat, t: nat)
    requires i < |s.pc| && t < |s.tctx| && TctxOk(s, t) && Marked(s, t) && Minders(s.pc[i])
    requires ThreadOk(s, i) && !Finishes(s, Advance(i, ok, pick), s.tctx[t].g)
    ensures var s' := Step(s, i, ok, pick);
      Marked(s', t) && s'.tctx[t].g == s.tctx[t].g && s.tctx[t].g in s'.dumpSet
  {
  }

  /** No step but that takes the tctx away: nobody is about to free it. */
  lemma MarkedStays(s: State, a: Action, t: nat)
    requires Inv(s) && Tidy(s, a) && Marked(s, t) && !Finishes(s, a, s.tctx[t].g)
    ensures var s' := Apply(s, a); Marked(s', t) && s'.tctx[t].g == s.tctx[t].g && s.tctx[t].g in s'.dumpSet
  {
    assert TctxOk(s, t);
    if a.Advance? {
      if a.i < |s.pc| {
        assert ThreadOk(s, a.i);
        if Minders(s.pc[a.i]) {
          MindersLeaveMarks(s, a.i, a.ok, a.pick, t);
        } else {
          OthersLeaveMarks(s, a.i, a.ok, a.pick, t);
        }
      }
    }
  }

  /** That one makes it nominal again, or frees it if its thread has given it up in the meantime. */
  lemma FinishReleases(s: State, a: Action, t: nat)
    requires Inv(s) && Marked(s, t) && Finishes(s, a, s.tctx[t].g)
    ensures var s' := Apply(s, a);
      && t < |s'.tctx| && s.tctx[t].g !in s'.dumpSet
      && (s.tctx[t].st == Dumping ==> s'.tctx[t].live && s'.tctx[t].st == Nominal)
      && (s.tctx[t].st == Purgatory ==> !s'.tctx[t].live && t !in s'.gctx[s.tctx[t].g].tree)
  {
    assert TctxOk(s, t);
  }

  /** In every run without displaced bindings: a tctx that the dump has marked stays alive, in the tree
      of its gctx, as long as the dump has not finished with that gctx, whatever its thread does. */
  lemma {:induction false} MarkedTillFinished(s: State, actions: seq<Action>, t: nat)
    requires Inv(s) && Marked(s, t) && TidyRun(s, actions) && DumpedAlong(s, actions, s.tctx[t].g)
    ensures var e := Run(s, actions);
      Marked(e, t) && e.tctx[t].g == s.tctx[t].g && s.tctx[t].g < |e.gctx| && t in e.gctx[s.tctx[t].g].tree
  {
    RunKeeps(s, actions);
    if actions != [] {
      var before, a := actions[..|actions| - 1], actions[|actions| - 1];
      MarkedTillFinished(s, before, t);
      RunKeeps(s, before);
      if Finishes(Run(s, before), a, s.tctx[t].g) {
        FinishReleases(Run(s, before), a, t);
        assert false;
      }
      MarkedStays(Run(s, before), a, t);
    }
    assert TctxOk(Run(s, actions), t);
  }

  /** The same from the start of a program: what the dump has marked is alive until it is finished with. */
  lemma EveryDumpedStaysAlive(threads: nat, actions: seq<Action>, more: seq<Action>, t: nat)
    requires TidyRun(Init(threads), actions) && TidyRun(Run(Init(threads), actions), more)
    requires Marked(Run(Init(threads), actions), t)
    requires DumpedAlong(Run(Init(threads), actions), more, Run(Init(threads), actions).tctx[t].g)
    ensures Marked(Run(Run(Init(threads), actions), more), t)
  {
    assert Inv(Init(threads));
    RunKeeps(Init(threads), actions);
    MarkedTillFinished(Run(Init(threads), actions), more, t);
  }

  /** A tctx in use whose thread's table the dump has still to go through. */
  predicate Awaiting(s: State, t: nat) {
    && 0 <= s.dumper < |s.pc| && s.pc[s.dumper].DumpMerge?
    && t < |s.tctx| && s.tctx[t].live && s.tctx[t].linked && s.tctx[t].st == Nominal
    && s.tctx[t].maker in s.pc[s.dumper].todo
  }

  /** It goes on waiting until the dump marks it, unless its thread gives it up first. */
  lemma AwaitingStays(s: State, a: Action, t: nat)
    requires Inv(s) && Tidy(s, a) && Awaiting(s, t)
    ensures var s' := Apply(s, a); Awaiting(s', t) || Marked(s', t) || (a.Release? && a.t == t)
  {
    assert ThreadOk(s, s.dumper) && TctxOk(s, t);
    if a.Advance? {
      if a.i < |s.pc| {
        assert ThreadOk(s, a.i);
        if Minders(s.pc[a.i]) {
          MindersAwaited(s, a.i, a.ok, a.pick, t);
        } else {
          OthersAwaited(s, a.i, a.ok, a.pick, t);
        }
      }
    }
  }

  lemma MindersAwaited(s: State, i: nat, ok: bool, pick: nat, t: nat)
    requires i < |s.pc| && Awaiting(s, t) && ThreadOk(s, s.dumper) && ThreadOk(s, i) && TctxOk(s, t)
    requires Minders(s.pc[i])
    ensures var s' := Step(s, i, ok, pick); Awaiting(s', t) || Marked(s', t)
  {
  }

  lemma OthersAwaited(s: State, i: nat, ok: bool, pick: nat, t: nat)
    requires i < |s.pc| && Awaiting(s, t) && ThreadOk(s, s.dumper) && ThreadOk(s, i)
    requires !Minders(s.pc[i])
    ensures Awaiting(Step(s, i, ok, pick), t)
  {
    OthersLeaveMarks(s, i, ok, pick, t);
  }

  /** No tctx is missed: when the dump has gone through the tables, each one that was in use in a table it
      had not been through has been marked on the way, or its thread has given it up. */
  lemma {:induction false} NoneMissed(s: State, actions: seq<Action>, t: nat) returns (k: nat)
    requires Inv(s) && TidyRun(s, actions) && Awaiting(s, t) && !Awaiting(Run(s, actions), t)
    ensures k < |actions| && Awaiting(Run(s, actions[..k]), t)
    ensures Marked(Run(s, actions[..k + 1]), t) || (actions[k].Release? && actions[k].t == t)
  {
    var n := |actions| - 1;
    var before := actions[..n];
    if Awaiting(Run(s, before), t) {
      k := n;
      RunKeeps(s, before);
      AwaitingStays(Run(s, before), actions[n], t);
      assert actions[..n + 1] == actions;
    } else {
      k := NoneMissed(s, before, t);
      assert before[..k] == actions[..k] && before[..k + 1] == actions[..k + 1];
    }
  }

  /** The dump has been through the table of this thread. */
  predicate Past(p: PC, who: nat) {
    InDump(p) && !p.DumpEnter? && !p.DumpPrep? && (p.DumpMerge? ==> who !in p.todo)
  }

  ghost predicate MarksPast(s: State) {
    forall t: nat :: Marked(s, t) ==> 0 <= s.dumper < |s.pc| && Past(s.pc[s.dumper], s.tctx[t].maker)
  }

  /** Only the merge marks. */
  lemma NoNewMark(s: State, i: nat, ok: bool, pick: nat, t: nat)
    requires i < |s.pc| && !s.pc[i].DumpMerge? && Marked(Step(s, i, ok, pick), t)
    ensures Marked(s, t) && Step(s, i, ok, pick).tctx[t].maker == s.tctx[t].maker
  {
    if t < |s.tctx| && !Minders(s.pc[i]) {
      OthersLeaveMarks(s, i, ok, pick, t);
    }
  }

  lemma DumpIsTheDumpers(s: State, i: nat, ok: bool, pick: nat)
    requires i < |s.pc| && !InDump(s.pc[i])
    ensures var s' := Step(s, i, ok, pick);
      s'.dumper == s.dumper && |s'.pc| == |s.pc| && forall j :: 0 <= j < |s.pc| && j != i ==> s'.pc[j] == s.pc[j]
  {
  }

  /** The dump does not end before its marks are gone. */
  lemma DumpGoesOn(s: State, i: nat, ok: bool, pick: nat, who: nat)
    requires i < |s.pc| && s.dumper == i && InDump(s.pc[i]) && !s.pc[i].DumpMerge? && s.dumpSet != {}
    requires Past(s.pc[i], who)
    ensures var s' := Step(s, i, ok, pick); s'.dumper == i && Past(s'.pc[i], who)
  {
  }

  lemma StaysPast(s: State, i: nat, ok: bool, pick: nat, t: nat)
    requires i < |s.pc| && !s.pc[i].DumpMerge? && ThreadOk(s, i) && Marked(s, t) && TctxOk(s, t)
    requires 0 <= s.dumper < |s.pc| && Past(s.pc[s.dumper], s.tctx[t].maker)
    ensures var s' := Step(s, i, ok, pick);
      0 <= s'.dumper < |s'.pc| && Past(s'.pc[s'.dumper], s.tctx[t].maker)
  {
    assert s.tctx[t].g in s.dumpSet;
    if InDump(s.pc[i]) {
      DumpGoesOn(s, i, ok, pick, s.tctx[t].maker);
    } else {
      DumpIsTheDumpers(s, i, ok, pick);
    }
  }

  lemma MergeMarksPast(s: State, i: nat, ok: bool, pick: nat, t: nat)
    requires i < |s.pc| && s.pc[i].DumpMerge? && ThreadOk(s, i) && TablesOk(s)
    requires Marked(s, t) ==> Past(s.pc[i], s.tctx[t].maker)
    requires Marked(Step(s, i, ok, pick), t)
    ensures var s' := Step(s, i, ok, pick);
      s'.dumper == i && Past(s'.pc[i], s'.tctx[t].maker)
  {
  }

  lemma OneMarkPast(s: State, i: nat, ok: bool, pick: nat, t: nat)
    requires i < |s.pc| && TablesOk(s) && ThreadOk(s, i) && (t < |s.tctx| ==> TctxOk(s, t))
    requires Marked(s, t) ==> 0 <= s.dumper < |s.pc| && Past(s.pc[s.dumper], s.tctx[t].maker)
    requires Marked(Step(s, i, ok, pick), t)
    ensures var s' := Step(s, i, ok, pick);
      0 <= s'.dumper < |s'.pc| && Past(s'.pc[s'.dumper], s'.tctx[t].maker)
  {
    if s.pc[i].DumpMerge? {
      MergeMarksPast(s, i, ok, pick, t);
    } else {
      NoNewMark(s, i, ok, pick, t);
      StaysPast(s, i, ok, pick, t);
    }
  }

  lemma MarksStayPast(s: State, a: Action)
    requires Inv(s) && Tidy(s, a) && MarksPast(s)
    ensures MarksPast(Apply(s, a))
  {
    var s' := Apply(s, a);
    forall t: nat | Marked(s', t) ensures 0 <= s'.dumper < |s'.pc| && Past(s'.pc[s'.dumper], s'.tctx[t].maker) {
      if t < |s.tctx| {
        assert TctxOk(s, t);
      }
      if a.Advance? {
        if a.i < |s.pc| {
          assert ThreadOk(s, a.i);
          OneMarkPast(s, a.i, a.ok, a.pick, t);
        }
      }
    }
  }

  /** The merge meets no tctx that is already dumping: in every run, the tctxs in a table that the dump has
      still to go through are nominal, or their thread is still setting them up or giving them up. */
  lemma {:induction false} MergeMeetsNoMark(s: State, actions: seq<Action>)
    requires Inv(s) && MarksPast(s) && TidyRun(s, actions)
    ensures MarksPast(Run(s, actions))
  {
    if actions != [] {
      var before := actions[..|actions| - 1];
      MergeMeetsNoMark(s, before);
      RunKeeps(s, before);
      MarksStayPast(Run(s, before), actions[|actions| - 1]);
    }
  }

  lemma EveryMergeMeetsNoMark(threads: nat, actions: seq<Action>, t: nat)
    requires TidyRun(Init(threads), actions)
    requires var s := Run(Init(threads), actions);
      0 <= s.dumper < |s.pc| && s.pc[s.dumper].DumpMerge? && t < |s.tctx| && s.tctx[t].live
      && s.tctx[t].maker in s.pc[s.dumper].todo
    ensures var y := Run(Init(threads), actions).tctx[t]; y.st != Dumping && y.st != Purgatory
  {
    assert Inv(Init(threads)) && MarksPast(Init(threads));
    MergeMeetsNoMark(Init(threads), actions);
    assert !Marked(Run(Init(threads), actions), t);
  }
}
