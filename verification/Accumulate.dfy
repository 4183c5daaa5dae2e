/** PAPI_accum and PAPI_reset (src/papi.c): adding counter values into the caller's array and
    clearing them, so that no count is lost or taken twice. */
module Accumulate {
  import opened PapiCodes

  /** A set that stays running, or stays stopped: the component's counters, the values of the
      last stop, and the caller's array. */
  datatype Counters = Counters(running: bool, hw: seq<int>, swStop: seq<int>, values: seq<int>)

  predicate Sized(s: Counters, n: nat) {
    |s.hw| == n && |s.swStop| == n && |s.values| == n
  }

  /** Where the counts not yet accumulated are. */
  function Remaining(s: Counters): seq<int> {
    if s.running then s.hw else s.swStop
  }

  function Added(a: seq<int>, b: seq<int>): (c: seq<int>)
    requires |a| == |b|
    ensures |c| == |a| && forall i :: 0 <= i < |c| ==> c[i] == a[i] + b[i]
  {
    seq(|a|, i requires 0 <= i < |a| => a[i] + b[i])
  }

  function Zeros(n: nat): (z: seq<int>)
    ensures |z| == n && forall i :: 0 <= i < n ==> z[i] == 0
  {
    seq(n, _ => 0)
  }

  /** What happens to a set: counts arrive while it runs, or the caller accumulates.  readRet and
      resetRet are what the component returns. */
  datatype Step = Count(deltas: seq<int>) | Accum(readRet: int, resetRet: int)

  function AccumSpec(s: Counters, n: nat, readRet: int, resetRet: int): (int, Counters)
    requires Sized(s, n)
  {
    if s.running then
      if readRet != PAPI_OK then (readRet, s)
      else (resetRet, s.(swStop := s.hw, values := Added(s.hw, s.values),
                         hw := if resetRet == PAPI_OK then Zeros(n) else s.hw))
    else (PAPI_OK, s.(values := Added(s.swStop, s.values), swStop := Zeros(n)))
  }

  function Apply(s: Counters, n: nat, step: Step): (s': Counters)
    requires Sized(s, n) && (step.Count? ==> |step.deltas| == n)
    ensures Sized(s', n) && s'.running == s.running
  {
    match step
    case Count(deltas) => if s.running then s.(hw := Added(s.hw, deltas)) else s
    case Accum(readRet, resetRet) => AccumSpec(s, n, readRet, resetRet).1
  }

  /** What event i has counted in all: accumulated or still to be accumulated. */
  function Total(s: Counters, n: nat, i: nat): int
    requires Sized(s, n) && i < n
  {
    s.values[i] + Remaining(s)[i]
  }

  /** What one call returns and leaves of an event.  Read and reset: the counts are added and gone.
      Read but not reset: they are added and stay.  Not read: nothing has happened. */
  lemma {:induction false} AccumOutcome(s: Counters, n: nat, readRet: int, resetRet: int, i: nat)
    requires Sized(s, n) && i < n
    ensures var (ret, s') := AccumSpec(s, n, readRet, resetRet);
      && (!s.running || (readRet == PAPI_OK && resetRet == PAPI_OK) ==>
            ret == PAPI_OK && s'.values[i] == Total(s, n, i) && Remaining(s')[i] == 0)
      && (s.running && readRet == PAPI_OK && resetRet != PAPI_OK ==>
            ret == resetRet && s'.values[i] == Total(s, n, i) && Remaining(s')[i] == Remaining(s)[i])
      && (s.running && readRet != PAPI_OK ==> ret == readRet && s' == s)
      && (s.running && readRet == PAPI_OK ==> s'.swStop == s.hw)
      && (!s.running ==> s'.hw == s.hw)
  {}

  /** One accumulation conserves the total of an event, except when a running component is read
      but refuses to be reset and the event had counted something: that is then counted twice. */
  lemma {:induction false} AccumConserves(s: Counters, n: nat, readRet: int, resetRet: int, i: nat)
    requires Sized(s, n) && i < n
    ensures Total(Apply(s, n, Accum(readRet, resetRet)), n, i) == Total(s, n, i) <==>
            !(s.running && readRet == PAPI_OK && resetRet != PAPI_OK && s.hw[i] != 0)
  {
    var s' := AccumSpec(s, n, readRet, resetRet).1;
    assert s'.values[i] == s.values[i] + if s.running && readRet != PAPI_OK then 0 else Remaining(s)[i];
  }

  ghost predicate StepsFit(steps: seq<Step>, n: nat) {
    forall k :: 0 <= k < |steps| && steps[k].Count? ==> |steps[k].deltas| == n
  }

  function Run(s: Counters, n: nat, steps: seq<Step>): (s': Counters)
    requires Sized(s, n) && StepsFit(steps, n)
    ensures Sized(s', n) && s'.running == s.running
  {
    if steps == [] then s else Apply(Run(s, n, steps[..|steps| - 1]), n, steps[|steps| - 1])
  }

  /** All increments of event i during a run. */
  function Increments(s: Counters, n: nat, steps: seq<Step>, i: nat): int
    requires StepsFit(steps, n) && i < n
  {
    if steps == [] then 0
    else
      var last := steps[|steps| - 1];
      Increments(s, n, steps[..|steps| - 1], i) + if s.running && last.Count? then last.deltas[i] else 0
  }

  /** What one call takes without clearing: the counts of a running component that is read but
      refuses its reset. */
  function TakenTwice(s: Counters, step: Step, i: nat): int
    requires i < |s.hw|
  {
    if step.Accum? && s.running && step.readRet == PAPI_OK && step.resetRet != PAPI_OK then s.hw[i] else 0
  }

  /** All such counts of event i during a run. */
  function CountedTwice(s: Counters, n: nat, steps: seq<Step>, i: nat): int
    requires Sized(s, n) && StepsFit(steps, n) && i < n
  {
    if steps == [] then 0
    else
      var before := steps[..|steps| - 1];
      CountedTwice(s, n, before, i) + TakenTwice(Run(s, n, before), steps[|steps| - 1], i)
  }

  lemma {:induction false} StepTotal(s: Counters, n: nat, step: Step, i: nat)
    requires Sized(s, n) && i < n && (step.Count? ==> |step.deltas| == n)
    ensures Total(Apply(s, n, step), n, i) ==
            Total(s, n, i) + TakenTwice(s, step, i) + if s.running && step.Count? then step.deltas[i] else 0
  {}

  /** Over any run, what has been accumulated and what remains add up to the initial values, all
      increments, and what was counted twice: the run conserves exactly if that is nothing. */
  lemma {:induction false} RunConserves(s: Counters, n: nat, steps: seq<Step>, i: nat)
    requires Sized(s, n) && StepsFit(steps, n) && i < n
    ensures Total(Run(s, n, steps), n, i) ==
            Total(s, n, i) + Increments(s, n, steps, i) + CountedTwice(s, n, steps, i)
    decreases |steps|
  {
    if steps != [] {
      RunConserves(s, n, steps[..|steps| - 1], i);
      StepTotal(Run(s, n, steps[..|steps| - 1]), n, steps[|steps| - 1], i);
    }
  }

  /** After any run, a call that succeeds hands over everything: the caller has the initial values,
      all increments, and what was counted twice on the way, and nothing remains. */
  lemma {:induction false} RunThenAccum(s: Counters, n: nat, steps: seq<Step>, readRet: int, resetRet: int, i: nat)
    requires Sized(s, n) && StepsFit(steps, n) && i < n
    ensures var (ret, s') := AccumSpec(Run(s, n, steps), n, readRet, resetRet);
      var all := Total(s, n, i) + Increments(s, n, steps, i) + CountedTwice(s, n, steps, i);
      && (!s.running || (readRet == PAPI_OK && resetRet == PAPI_OK) ==>
            ret == PAPI_OK && s'.values[i] == all && Remaining(s')[i] == 0)
      && (s.running && readRet == PAPI_OK && resetRet != PAPI_OK ==>
            ret == resetRet && s'.values[i] == all && Remaining(s')[i] == Remaining(Run(s, n, steps))[i])
      && (s.running && readRet != PAPI_OK ==> ret == readRet && s' == Run(s, n, steps))
  {
    RunConserves(s, n, steps, i);
    AccumOutcome(Run(s, n, steps), n, readRet, resetRet, i);
  }

  /** Nothing is counted twice while the set is stopped, or if each reset made of a running set
      succeeds. */
  lemma {:induction false} NothingTwice(s: Counters, n: nat, steps: seq<Step>, i: nat)
    requires Sized(s, n) && StepsFit(steps, n) && i < n
    requires s.running ==>
      forall k :: 0 <= k < |steps| && steps[k].Accum? && steps[k].readRet == PAPI_OK ==> steps[k].resetRet == PAPI_OK
    ensures CountedTwice(s, n, steps, i) == 0
    decreases |steps|
  {
    if steps != [] { NothingTwice(s, n, steps[..|steps| - 1], i); }
  }

  class CounterSet {
    var running: bool
    const hw: array<int>
    const swStop: array<int>

    constructor (events: nat)
      ensures Valid() && !running && hw.Length == events && fresh(hw) && fresh(swStop)
    {
      running, hw, swStop := false, new int[events](_ => 0), new int[events](_ => 0);
    }

    ghost predicate Valid() {
      hw != swStop && hw.Length == swStop.Length
    }

    ghost function Abs(values: array<int>): Counters
      reads this, hw, swStop, values
    {
      Counters(running, hw[..], swStop[..], values[..])
    }

    static method Copy(from: array<int>, to: array<int>)
      requires from != to && from.Length == to.Length
      modifies to
      ensures to[..] == from[..]
    {
      for i := 0 to to.Length
        invariant to[..i] == from[..i]
      {
        to[i] := from[i];
      }
    }

    static method Clear(a: array<int>)
      modifies a
      ensures a[..] == Zeros(a.Length)
    {
      for i := 0 to a.Length
        invariant forall k :: 0 <= k < i ==> a[k] == 0
      {
        a[i] := 0;
      }
    }

    /** src/papi.c, PAPI_reset: the component clears its counters, or the stored values are. */
    method Reset(resetRet: int) returns (ret: int)
      requires Valid()
      modifies hw, swStop
      ensures running ==> ret == resetRet && swStop[..] == old(swStop[..])
      ensures running ==> hw[..] == if resetRet == PAPI_OK then Zeros(hw.Length) else old(hw[..])
      ensures !running ==> ret == PAPI_OK && swStop[..] == Zeros(swStop.Length) && hw[..] == old(hw[..])
    {
      ret := PAPI_OK;
      if running {
        ret := resetRet;
        if resetRet == PAPI_OK { Clear(hw); }
      } else {
        Clear(swStop);
      }
    }

    /** The loop of PAPI_accum that adds the values read to the caller's. */
    method AddInto(values: array<int>)
      requires values != swStop && values.Length == swStop.Length
      modifies values
      ensures values[..] == Added(swStop[..], old(values[..]))
    {
      for i := 0 to values.Length
        invariant forall k :: 0 <= k < i ==> values[k] == swStop[k] + old(values[k])
        invariant forall k :: i <= k < values.Length ==> values[k] == old(values[k])
      {
        values[i] := swStop[i] + values[i];
      }
    }

    /** src/papi.c, PAPI_accum. */
    method Accumulate(values: array<int>, readRet: int, resetRet: int) returns (ret: int)
      requires Valid() && values != hw && values != swStop && values.Length == hw.Length
      modifies hw, swStop, values
      ensures (ret, Abs(values)) == AccumSpec(old(Abs(values)), hw.Length, readRet, resetRet)
    {
      if running {
        if readRet != PAPI_OK { return readRet; }
        Copy(hw, swStop);
      }
      AddInto(values);
      ret := Reset(resetRet);
    }
  }
}
