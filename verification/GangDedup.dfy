/**
 dedup: two parallel passes over the data that keep one occurrence of each key.  One process per
 index; every read or write of the shared index array is a step of its own, and the second pass
 starts when the first is finished.  NONE is the sentinel of the data and of the index array.
 */
module GangDedup {

  const NONE: int := -1

  datatype PC = Start | Cas | Mid | Reset | Lose | Done

  /** `data0` is the input; `win` is the index array at the start of the second pass. */
  datatype State = State(second: bool, pc: seq<PC>, data: seq<int>, index: seq<int>,
                         data0: seq<int>, win: seq<int>)

  ghost predicate Shape(s: State) {
    && |s.pc| == |s.data| == |s.data0|
    && |s.win| == |s.index|
    && (forall i :: 0 <= i < |s.data0| ==> s.data0[i] == NONE || 0 <= s.data0[i] < |s.index|)
    && (forall i :: 0 <= i < |s.data0| ==> s.data[i] == NONE || s.data[i] == s.data0[i])
  }

  /** Keys below the length of an index array that is all sentinel. */
  ghost predicate Init(s: State) {
    && Shape(s) && !s.second && s.data == s.data0
    && (forall i :: 0 <= i < |s.pc| ==> s.pc[i] == Start)
    && (forall k :: 0 <= k < |s.index| ==> s.index[k] == NONE)
  }

  // ------------------------------------------------------------------ steps

  function At(s: State, i: nat, pc: PC): State
    requires i < |s.pc|
  {
    s.(pc := s.pc[i := pc])
  }

  /** First pass: look at the key and at its index entry. */
  function Look(s: State, i: nat): State
    requires Shape(s) && i < |s.pc|
  {
    var key := s.data[i];
    At(s, i, if key != NONE && s.index[key] == NONE then Cas else Mid)
  }

  /** First pass: compare-and-swap the index entry from the sentinel to i. */
  function Swap(s: State, i: nat): State
    requires Shape(s) && i < |s.pc| && s.data[i] != NONE
  {
    var key := s.data[i];
    At(s.(index := if s.index[key] == NONE then s.index[key := i] else s.index), i, Mid)
  }

  /** Second pass: look whether i won its key. */
  function Judge(s: State, i: nat): State
    requires Shape(s) && i < |s.pc|
  {
    var key := s.data[i];
    At(s, i, if key == NONE then Done else if s.index[key] == i then Reset else Lose)
  }

  function Act(s: State, i: nat): State
    requires Shape(s) && i < |s.pc| && s.data[i] != NONE
  {
    if s.pc[i] == Reset then At(s.(index := s.index[s.data[i] := NONE]), i, Done)
    else At(s.(data := s.data[i := NONE]), i, Done)
  }

  ghost predicate Step(s: State, s': State, i: nat) {
    Shape(s) && i < |s.pc| &&
    if s.second then
      (s.pc[i] == Mid && s' == Judge(s, i))
      || ((s.pc[i] == Reset || s.pc[i] == Lose) && s.data[i] != NONE && s' == Act(s, i))
    else
      (s.pc[i] == Start && s' == Look(s, i))
      || (s.pc[i] == Cas && s.data[i] != NONE && s' == Swap(s, i))
  }

  /** The first submit returns and the second begins. */
  ghost predicate Turn(s: State, s': State) {
    && !s.second && (forall i :: 0 <= i < |s.pc| ==> s.pc[i] == Mid)
    && s' == s.(second := true, win := s.index)
  }

  ghost predicate Next(s: State, s': State) {
    Turn(s, s') || exists i: nat :: Step(s, s', i)
  }

  ghost predicate Run(t: seq<State>) {
    && t != [] && Init(t[0])
    && forall k :: 0 <= k < |t| - 1 ==> Next(t[k], t[k + 1])
  }

  // ------------------------------------------------------------------ invariant

  ghost predicate KeyOk(s: State, k: nat)
    requires Shape(s) && k < |s.index|
  {
    var v := if s.second then s.win[k] else s.index[k];
    && (v == NONE || (0 <= v < |s.data0| && s.data0[v] == k))
    && (s.second ==> s.index[k] == if v == NONE || s.pc[v] == Done then NONE else v)
  }

  ghost predicate ProcOk(s: State, i: nat)
    requires Shape(s) && i < |s.pc|
  {
    var key, pc := s.data0[i], s.pc[i];
    && (s.second || pc == Start || pc == Cas || pc == Mid)
    && (s.second ==> pc == Mid || pc == Reset || pc == Lose || pc == Done)
    && (pc != Done ==> s.data[i] == key)
    && (pc == Cas || pc == Reset || pc == Lose ==> key != NONE)
    && (!s.second && pc == Mid && key != NONE ==> s.index[key] != NONE)
    && (s.second && key != NONE ==> s.win[key] != NONE)
    && (pc == Reset ==> s.win[key] == i)
    && (pc == Lose ==> s.win[key] != i)
    && (pc == Done && key != NONE ==> s.data[i] == if s.win[key] == i then key else NONE)
  }

  ghost predicate Inv(s: State) {
    && Shape(s)
    && (forall k :: 0 <= k < |s.index| ==> KeyOk(s, k))
    && (forall i :: 0 <= i < |s.pc| ==> ProcOk(s, i))
  }

  lemma InitInv(s: State)
    requires Init(s)
    ensures Inv(s)
  {
  }

  lemma StepInv(s: State, s': State, i: nat)
    requires Inv(s) && Step(s, s', i)
    ensures Inv(s') && s'.data0 == s.data0
  {
    assert ProcOk(s, i);
    var key := s.data0[i];
    if key != NONE {
      assert KeyOk(s, key);
    }
    forall k | 0 <= k < |s'.index| ensures KeyOk(s', k) {
      assert KeyOk(s, k);
    }
    forall j | 0 <= j < |s'.pc| ensures ProcOk(s', j) {
      assert ProcOk(s, j);
    }
  }

  lemma TurnInv(s: State, s': State)
    requires Inv(s) && Turn(s, s')
    ensures Inv(s') && s'.data0 == s.data0
  {
    forall k | 0 <= k < |s'.index| ensures KeyOk(s', k) {
      assert KeyOk(s, k);
    }
    forall j | 0 <= j < |s'.pc| ensures ProcOk(s', j) {
      assert ProcOk(s, j);
    }
  }

  lemma {:induction false} RunInv(t: seq<State>)
    requires Run(t)
    ensures Inv(t[|t| - 1]) && t[|t| - 1].data0 == t[0].data
    decreases |t|
  {
    if |t| == 1 {
      InitInv(t[0]);
    } else {
      var r := t[..|t| - 1];
      RunInv(r);
      var s, s' := t[|t| - 2], t[|t| - 1];
      assert Next(s, s');
      if Turn(s, s') {
        TurnInv(s, s');
      } else {
        var i: nat :| Step(s, s', i);
        StepInv(s, s', i);
      }
    }
  }

  // ------------------------------------------------------------------ results

  predicate Finished(s: State) {
    s.second && forall i :: 0 <= i < |s.pc| ==> s.pc[i] == Done
  }

  /** i is the one place where key survives. */
  predicate OnlyAt(data: seq<int>, key: int, i: nat) {
    i < |data| && data[i] == key && forall j :: 0 <= j < |data| && j != i ==> data[j] != key
  }

  /** However the processes interleave, exactly one occurrence of each key survives, every other
      element is the sentinel, and the index array is all sentinel again. */
  lemma EveryRunDedups(t: seq<State>)
    requires Run(t) && Finished(t[|t| - 1])
    ensures var before, s := t[0].data, t[|t| - 1];
      && |s.data| == |before|
      && (forall i :: 0 <= i < |before| ==> s.data[i] == NONE || s.data[i] == before[i])
      && (forall key :: key in before && key != NONE ==> exists i: nat :: OnlyAt(s.data, key, i))
      && (forall k :: 0 <= k < |s.index| ==> s.index[k] == NONE)
  {
    RunInv(t);
    var before, s := t[0].data, t[|t| - 1];
    forall key | key in before && key != NONE ensures exists i: nat :: OnlyAt(s.data, key, i) {
      var j :| 0 <= j < |before| && before[j] == key;
      assert ProcOk(s, j);
      assert KeyOk(s, key);
      var w := s.win[key];
      assert ProcOk(s, w);
      forall i | 0 <= i < |s.data| && i != w ensures s.data[i] != key {
        assert ProcOk(s, i);
      }
      assert OnlyAt(s.data, key, w);
    }
    forall k | 0 <= k < |s.index| ensures s.index[k] == NONE {
      assert KeyOk(s, k);
    }
  }

  // ------------------------------------------------------------------ progress

  function Left(pc: PC): nat {
    match pc
    case Start => 4
    case Cas => 3
    case Mid => 2
    case Reset => 1
    case Lose => 1
    case Done => 0
  }

  function Work(pc: seq<PC>): nat {
    if pc == [] then 0 else Work(pc[..|pc| - 1]) + Left(pc[|pc| - 1])
  }

  lemma {:induction false} WorkDrops(pc: seq<PC>, i: nat, p: PC)
    requires i < |pc| && Left(p) < Left(pc[i])
    ensures Work(pc[i := p]) < Work(pc)
  {
    var last := |pc| - 1;
    if i < last {
      WorkDrops(pc[..last], i, p);
      assert pc[i := p][..last] == pc[..last][i := p];
    } else {
      assert pc[i := p][..last] == pc[..last];
    }
  }

  function Rank(s: State): nat { 2 * Work(s.pc) + (if s.second then 0 else 1) }

  /** Every step brings the run nearer to its end. */
  lemma NextDescends(s: State, s': State)
    requires Inv(s) && Next(s, s')
    ensures Rank(s') < Rank(s)
  {
    if !Turn(s, s') {
      var i: nat :| Step(s, s', i);
      WorkDrops(s.pc, i, s'.pc[i]);
    }
  }

  /** And until then some step is always possible. */
  lemma NoDeadlock(s: State)
    requires Inv(s) && !Finished(s)
    ensures exists s' :: Next(s, s')
  {
    if s.second {
      var i :| 0 <= i < |s.pc| && s.pc[i] != Done;
      assert ProcOk(s, i);
      var s' := if s.pc[i] == Mid then Judge(s, i) else Act(s, i);
      assert Step(s, s', i);
      assert Next(s, s');
    } else if forall i :: 0 <= i < |s.pc| ==> s.pc[i] == Mid {
      var s' := s.(second := true, win := s.index);
      assert Next(s, s');
    } else {
      var i :| 0 <= i < |s.pc| && s.pc[i] != Mid;
      assert ProcOk(s, i);
      var s' := if s.pc[i] == Start then Look(s, i) else Swap(s, i);
      assert Step(s, s', i);
      assert Next(s, s');
    }
  }
}
