/** PAPI_start and PAPI_stop (src/papi.c): which event sets run, and what each thread's running
    slot for a component holds.  Event sets and threads are numbered; a slot holds the number of
    a set, or NONE for a null pointer. */
module RunState {
  import opened PapiCodes

  const NONE := -1

  /** One event set, neither attached nor software-multiplexed: its state bits, and what
      PAPI_start and PAPI_stop look at. */
  datatype SetState = SetState(stopped: bool, running: bool, overflowing: bool, hardware: bool,
                               profiling: bool, forceSw: bool, events: nat, thread: nat, cmp: nat)

  datatype World = World(sets: seq<SetState>, slots: seq<seq<int>>)

  /** What the calls into the component and the operating system return. */
  datatype StartEnv = StartEnv(dirty: bool, update: int, startSignal: int, start: int, startTimer: int)
  datatype StopEnv = StopEnv(read: int, stop: int, kernelProfile: bool, stopProfiling: int, stopTimer: int)

  datatype Op = Start(target: nat, startEnv: StartEnv) | Stop(target: nat, stopEnv: StopEnv)

  ghost predicate Shaped(w: World) {
    forall i :: 0 <= i < |w.sets| ==> w.sets[i].thread < |w.slots| && w.sets[i].cmp < |w.slots[w.sets[i].thread]|
  }

  function SlotOf(w: World, i: nat): int
    requires Shaped(w) && i < |w.sets|
  {
    w.slots[w.sets[i].thread][w.sets[i].cmp]
  }

  function WithSlot(slots: seq<seq<int>>, t: nat, c: nat, v: int): seq<seq<int>>
    requires t < |slots| && c < |slots[t]|
  {
    slots[t := slots[t][c := v]]
  }

  // ---------------------------------------------------------------- what the calls do

  /** The state change before the component is started: STOPPED is flipped, RUNNING set. */
  function Begun(w: World, i: nat): World
    requires Shaped(w) && i < |w.sets|
  {
    var s := w.sets[i];
    World(w.sets[i := s.(stopped := !s.stopped, running := true)], WithSlot(w.slots, s.thread, s.cmp, i))
  }

  /** The change back: RUNNING is flipped, STOPPED set, the slot cleared. */
  function Ended(w: World, i: nat): World
    requires Shaped(w) && i < |w.sets|
  {
    var s := w.sets[i];
    World(w.sets[i := s.(stopped := true, running := !s.running)], WithSlot(w.slots, s.thread, s.cmp, NONE))
  }

  function StartRefusal(w: World, i: nat, e: StartEnv): int
    requires Shaped(w) && i < |w.sets|
  {
    var s := w.sets[i];
    if SlotOf(w, i) != NONE then PAPI_EISRUN
    else if s.events < 1 then PAPI_EINVAL
    else if e.dirty && e.update != PAPI_OK then e.update
    else if s.overflowing && !s.hardware then e.startSignal
    else PAPI_OK
  }

  function StartSpec(w: World, i: nat, e: StartEnv): (int, World)
    requires Shaped(w) && i < |w.sets|
  {
    var s := w.sets[i];
    var refusal := StartRefusal(w, i, e);
    if refusal != PAPI_OK then (refusal, w)
    else if e.start != PAPI_OK then (e.start, Ended(Begun(w, i), i))
    else if s.overflowing && !s.hardware && e.startTimer != PAPI_OK then (e.startTimer, Ended(Begun(w, i), i))
    else (PAPI_OK, Begun(w, i))
  }

  function StopRefusal(s: SetState, e: StopEnv): int {
    if !s.running then PAPI_ENOTRUN
    else if e.read != PAPI_OK then e.read
    else if e.stop != PAPI_OK then e.stop
    else if s.profiling && e.kernelProfile && !s.forceSw && e.stopProfiling < PAPI_OK then e.stopProfiling
    else if s.overflowing && !s.hardware then e.stopTimer
    else PAPI_OK
  }

  function StopSpec(w: World, i: nat, e: StopEnv): (int, World)
    requires Shaped(w) && i < |w.sets|
  {
    var refusal := StopRefusal(w.sets[i], e);
    if refusal != PAPI_OK then (refusal, w) else (PAPI_OK, Ended(w, i))
  }

  function Apply(w: World, op: Op): (int, World)
    requires Shaped(w) && op.target < |w.sets|
  {
    match op
    case Start(i, e) => StartSpec(w, i, e)
    case Stop(i, e) => StopSpec(w, i, e)
  }

  // ---------------------------------------------------------------- the run-state invariant

  /** Exactly one of STOPPED and RUNNING is set. */
  predicate OneBit(s: SetState) {
    s.stopped == !s.running
  }

  /** The slot's set, if any, is running in this thread and component. */
  predicate SlotHolds(w: World, t: nat, c: nat)
    requires t < |w.slots| && c < |w.slots[t]|
  {
    var i := w.slots[t][c];
    i != NONE ==> 0 <= i < |w.sets| && w.sets[i].running && w.sets[i].thread == t && w.sets[i].cmp == c
  }

  ghost predicate Inv(w: World) {
    && Shaped(w)
    && (forall i :: 0 <= i < |w.sets| ==> OneBit(w.sets[i]))
    && (forall i :: 0 <= i < |w.sets| ==> (w.sets[i].running <==> SlotOf(w, i) == i))
    && (forall t, c :: 0 <= t < |w.slots| && 0 <= c < |w.slots[t]| ==> SlotHolds(w, t, c))
  }

  ghost predicate Initial(w: World) {
    && Shaped(w)
    && (forall i :: 0 <= i < |w.sets| ==> w.sets[i].stopped && !w.sets[i].running)
    && (forall t, c :: 0 <= t < |w.slots| && 0 <= c < |w.slots[t]| ==> w.slots[t][c] == NONE)
  }

  /** Two worlds have the same sets, up to their state bits, and the same slots. */
  ghost predicate SameShape(v: World, w: World) {
    && |v.sets| == |w.sets| && |v.slots| == |w.slots|
    && (forall t :: 0 <= t < |v.slots| ==> |v.slots[t]| == |w.slots[t]|)
    && (forall i :: 0 <= i < |v.sets| ==>
          v.sets[i] == w.sets[i].(stopped := v.sets[i].stopped, running := v.sets[i].running))
  }

  lemma {:induction false} BegunKeeps(w: World, i: nat)
    requires Inv(w) && i < |w.sets| && SlotOf(w, i) == NONE
    ensures Inv(Begun(w, i)) && SameShape(Begun(w, i), w)
  {
    var w' := Begun(w, i);
    assert Shaped(w');
    assert !w.sets[i].running;
    forall j | 0 <= j < |w'.sets| ensures w'.sets[j].running <==> SlotOf(w', j) == j {
      if j != i && w.sets[j].thread == w.sets[i].thread && w.sets[j].cmp == w.sets[i].cmp {
        assert SlotOf(w, j) == NONE;
      }
    }
    forall t, c | 0 <= t < |w'.slots| && 0 <= c < |w'.slots[t]| ensures SlotHolds(w', t, c) {
      assert SlotHolds(w, t, c);
    }
  }

  lemma {:induction false} EndedKeeps(w: World, i: nat)
    requires Inv(w) && i < |w.sets| && w.sets[i].running
    ensures Inv(Ended(w, i)) && SameShape(Ended(w, i), w)
  {
    var w' := Ended(w, i);
    assert Shaped(w');
    assert SlotOf(w, i) == i;
    forall j | 0 <= j < |w'.sets| ensures w'.sets[j].running <==> SlotOf(w', j) == j {
      if j != i && w.sets[j].thread == w.sets[i].thread && w.sets[j].cmp == w.sets[i].cmp {
        assert SlotOf(w, j) == i;
      }
    }
    forall t, c | 0 <= t < |w'.slots| && 0 <= c < |w'.slots[t]| ensures SlotHolds(w', t, c) {
      assert SlotHolds(w, t, c);
    }
  }

  /** Rolling a start back restores everything. */
  lemma {:induction false} EndedUndoesBegun(w: World, i: nat)
    requires Inv(w) && i < |w.sets| && SlotOf(w, i) == NONE
    ensures Ended(Begun(w, i), i) == w
  {
    assert !w.sets[i].running;
    var s := w.sets[i];
    assert WithSlot(WithSlot(w.slots, s.thread, s.cmp, i), s.thread, s.cmp, NONE) == w.slots by {
      assert w.slots[s.thread][s.cmp := i][s.cmp := NONE] == w.slots[s.thread];
    }
    assert Ended(Begun(w, i), i).sets == w.sets;
  }

  /** Every other set, and every slot but that of set i, is the same. */
  ghost predicate OthersSame(v: World, w: World, i: nat)
    requires i < |v.sets|
  {
    && |v.sets| == |w.sets| && |v.slots| == |w.slots|
    && (forall j :: 0 <= j < |v.sets| && j != i ==> w.sets[j] == v.sets[j])
    && (forall t :: 0 <= t < |v.slots| ==> |w.slots[t]| == |v.slots[t]|)
    && (forall t, c :: 0 <= t < |v.slots| && 0 <= c < |v.slots[t]| && (t != v.sets[i].thread || c != v.sets[i].cmp) ==>
          w.slots[t][c] == v.slots[t][c])
  }

  /** Exactly when PAPI_start succeeds; otherwise nothing has changed. */
  lemma {:induction false} StartOutcome(w: World, i: nat, e: StartEnv)
    requires Inv(w) && i < |w.sets|
    ensures var (ret, w') := StartSpec(w, i, e);
      var s := w.sets[i];
      var soft := s.overflowing && !s.hardware;
      && Inv(w') && SameShape(w', w)
      && (ret == PAPI_OK <==>
            && (forall j :: 0 <= j < |w.sets| && w.sets[j].thread == s.thread && w.sets[j].cmp == s.cmp ==>
                  !w.sets[j].running)
            && s.events > 0 && (e.dirty ==> e.update == PAPI_OK) && e.start == PAPI_OK
            && (soft ==> e.startSignal == PAPI_OK && e.startTimer == PAPI_OK))
      && (ret == PAPI_OK ==> w'.sets[i].running && SlotOf(w', i) == i && OthersSame(w, w', i))
      && (ret != PAPI_OK ==> w' == w)
  {
    if StartRefusal(w, i, e) == PAPI_OK {
      BegunKeeps(w, i);
      EndedUndoesBegun(w, i);
    }
    SlotFree(w, i);
  }

  /** A slot is free exactly when no set of that thread and component runs. */
  lemma {:induction false} SlotFree(w: World, i: nat)
    requires Inv(w) && i < |w.sets|
    ensures SlotOf(w, i) == NONE <==>
            forall j :: 0 <= j < |w.sets| && w.sets[j].thread == w.sets[i].thread && w.sets[j].cmp == w.sets[i].cmp ==>
              !w.sets[j].running
  {
    assert SlotHolds(w, w.sets[i].thread, w.sets[i].cmp);
    if SlotOf(w, i) == NONE {
      forall j | 0 <= j < |w.sets| && w.sets[j].thread == w.sets[i].thread && w.sets[j].cmp == w.sets[i].cmp
        ensures !w.sets[j].running
      {
        assert SlotOf(w, j) == NONE;
      }
    }
  }

  /** Exactly when PAPI_stop succeeds, which frees the slot; otherwise nothing has changed. */
  lemma {:induction false} StopOutcome(w: World, i: nat, e: StopEnv)
    requires Inv(w) && i < |w.sets|
    ensures var (ret, w') := StopSpec(w, i, e);
      var s := w.sets[i];
      && Inv(w') && SameShape(w', w)
      && (ret == PAPI_OK <==>
            && SlotOf(w, i) == i && e.read == PAPI_OK && e.stop == PAPI_OK
            && (s.profiling && e.kernelProfile && !s.forceSw ==> e.stopProfiling >= PAPI_OK)
            && (s.overflowing && !s.hardware ==> e.stopTimer == PAPI_OK))
      && (ret == PAPI_OK ==>
            w'.sets[i].stopped && !w'.sets[i].running && SlotOf(w', i) == NONE && OthersSame(w, w', i))
      && (ret != PAPI_OK ==> w' == w)
  {
    if StopRefusal(w.sets[i], e) == PAPI_OK {
      EndedKeeps(w, i);
    }
  }

  /** The code is the first of several answers that is not PAPI_OK, if there is one. */
  predicate FirstFailure(code: int, answers: seq<int>) {
    if code == PAPI_OK then forall k :: 0 <= k < |answers| ==> answers[k] == PAPI_OK
    else exists k :: 0 <= k < |answers| && answers[k] == code && forall j :: 0 <= j < k ==> answers[j] == PAPI_OK
  }

  lemma {:induction false} FirstAt(code: int, answers: seq<int>, k: nat)
    requires k < |answers| && answers[k] == code != PAPI_OK
    requires forall j :: 0 <= j < k ==> answers[j] == PAPI_OK
    ensures FirstFailure(code, answers)
  {}

  ghost predicate SomeRuns(w: World, thread: nat, cmp: nat) {
    exists j :: 0 <= j < |w.sets| && w.sets[j].thread == thread && w.sets[j].cmp == cmp && w.sets[j].running
  }

  /** The answers PAPI_start gets, in the order of its code. */
  ghost function StartAnswers(w: World, i: nat, e: StartEnv): (a: seq<int>)
    requires Shaped(w) && i < |w.sets|
  {
    var s := w.sets[i];
    var soft := s.overflowing && !s.hardware;
    [if SomeRuns(w, s.thread, s.cmp) then PAPI_EISRUN else PAPI_OK,
     if s.events == 0 then PAPI_EINVAL else PAPI_OK,
     if e.dirty then e.update else PAPI_OK,
     if soft then e.startSignal else PAPI_OK,
     e.start,
     if soft then e.startTimer else PAPI_OK]
  }

  /** The answers PAPI_stop gets. */
  ghost function StopAnswers(w: World, i: nat, e: StopEnv): (a: seq<int>)
    requires Shaped(w) && i < |w.sets|
  {
    var s := w.sets[i];
    var kernel := s.profiling && e.kernelProfile && !s.forceSw;
    [if SlotOf(w, i) != i then PAPI_ENOTRUN else PAPI_OK,
     e.read,
     e.stop,
     if kernel && e.stopProfiling < PAPI_OK then e.stopProfiling else PAPI_OK,
     if s.overflowing && !s.hardware then e.stopTimer else PAPI_OK]
  }

  /** The code PAPI_start returns: that of the first thing wrong, a taken slot coming before an
      empty set, and both before what the component and the operating system answer. */
  lemma {:induction false} StartCode(w: World, i: nat, e: StartEnv)
    requires Inv(w) && i < |w.sets|
    ensures FirstFailure(StartSpec(w, i, e).0, StartAnswers(w, i, e))
  {
    SlotFree(w, i);
    var a := StartAnswers(w, i, e);
    if StartSpec(w, i, e).0 != PAPI_OK {
      FirstAt(StartSpec(w, i, e).0, a,
              if a[0] != PAPI_OK then 0 else if a[1] != PAPI_OK then 1 else if a[2] != PAPI_OK then 2
              else if a[3] != PAPI_OK then 3 else if a[4] != PAPI_OK then 4 else 5);
    }
  }

  /** The code PAPI_stop returns, a set that does not hold its slot coming first. */
  lemma {:induction false} StopCode(w: World, i: nat, e: StopEnv)
    requires Inv(w) && i < |w.sets|
    ensures FirstFailure(StopSpec(w, i, e).0, StopAnswers(w, i, e))
  {
    var a := StopAnswers(w, i, e);
    if StopSpec(w, i, e).0 != PAPI_OK {
      FirstAt(StopSpec(w, i, e).0, a,
              if a[0] != PAPI_OK then 0 else if a[1] != PAPI_OK then 1 else if a[2] != PAPI_OK then 2
              else if a[3] != PAPI_OK then 3 else 4);
    }
  }

  /** A successful start followed by a successful stop leaves everything as it was. */
  lemma {:induction false} StopUndoesStart(w: World, i: nat, e: StartEnv, f: StopEnv)
    requires Inv(w) && i < |w.sets|
    requires StartSpec(w, i, e).0 == PAPI_OK && Shaped(StartSpec(w, i, e).1)
    requires StopSpec(StartSpec(w, i, e).1, i, f).0 == PAPI_OK
    ensures StopSpec(StartSpec(w, i, e).1, i, f).1 == w
  {
    StartOutcome(w, i, e);
    EndedUndoesBegun(w, i);
  }

  // ---------------------------------------------------------------- runs

  /** The world after a run of calls. */
  ghost predicate Run(w: World, ops: seq<Op>, w': World)
    decreases |ops|
  {
    if ops == [] then w' == w
    else
      var op := ops[|ops| - 1];
      exists v :: Run(w, ops[..|ops| - 1], v) && Shaped(v) && op.target < |v.sets| && Apply(v, op).1 == w'
  }

  lemma {:induction false} ApplyKeeps(w: World, op: Op)
    requires Inv(w) && op.target < |w.sets|
    ensures Inv(Apply(w, op).1) && SameShape(Apply(w, op).1, w)
  {
    match op {
      case Start(i, e) => StartOutcome(w, i, e);
      case Stop(i, e) => StopOutcome(w, i, e);
    }
  }

  /** Over any run of succeeding or failing calls: exactly one of STOPPED and RUNNING is set on
      each set, a slot holds a set if and only if that set runs there, and so at most one runs. */
  lemma {:induction false} RunKeepsInvariant(w: World, ops: seq<Op>, w': World)
    requires Initial(w) && Run(w, ops, w')
    ensures Inv(w') && SameShape(w', w)
    ensures forall i, j :: 0 <= i < |w'.sets| && 0 <= j < |w'.sets| && BothRun(w', i, j) ==> i == j
    decreases |ops|
  {
    if ops != [] {
      var op := ops[|ops| - 1];
      var v :| Run(w, ops[..|ops| - 1], v) && Shaped(v) && op.target < |v.sets| && Apply(v, op).1 == w';
      RunKeepsInvariant(w, ops[..|ops| - 1], v);
      ApplyKeeps(v, op);
    }
    AtMostOneRuns(w');
  }

  /** Two sets run for the same thread on the same component. */
  predicate BothRun(w: World, i: nat, j: nat)
    requires i < |w.sets| && j < |w.sets|
  {
    && w.sets[i].running && w.sets[j].running
    && w.sets[i].thread == w.sets[j].thread && w.sets[i].cmp == w.sets[j].cmp
  }

  lemma {:induction false} AtMostOneRuns(w: World)
    requires Inv(w)
    ensures forall i, j :: 0 <= i < |w.sets| && 0 <= j < |w.sets| && BothRun(w, i, j) ==> i == j
  {
    forall i, j | 0 <= i < |w.sets| && 0 <= j < |w.sets| && BothRun(w, i, j) ensures i == j {
      assert SlotOf(w, i) == i && SlotOf(w, j) == j;
    }
  }
}
