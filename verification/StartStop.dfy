/** PAPI_start and PAPI_stop (src/papi.c) as code over event set and thread records. */
module StartStop {
  import opened PapiCodes
  import opened RunState

  class ThreadInfo {
    const tid: nat
    const runningEventset: array<int>

    constructor (tid: nat, components: nat)
      ensures this.tid == tid && fresh(runningEventset) && runningEventset.Length == components
      ensures forall c :: 0 <= c < components ==> runningEventset[c] == NONE
    {
      this.tid := tid;
      runningEventset := new int[components](_ => NONE);
    }
  }

  class EventSetInfo {
    const id: nat
    const cmpIdx: nat
    const master: ThreadInfo
    var stopped: bool
    var running: bool
    var overflowing: bool
    var hardware: bool
    var profiling: bool
    var forceSw: bool
    var numberOfEvents: nat
    const swStop: array<int>

    constructor (id: nat, cmpIdx: nat, master: ThreadInfo, numberOfEvents: nat, max: nat)
      ensures this.id == id && this.cmpIdx == cmpIdx && this.master == master
      ensures stopped && !running && this.numberOfEvents == numberOfEvents
      ensures fresh(swStop) && swStop.Length == max
    {
      this.id, this.cmpIdx, this.master, this.numberOfEvents := id, cmpIdx, master, numberOfEvents;
      swStop := new int[max](_ => 0);
      stopped, running := true, false;
      overflowing, hardware, profiling, forceSw := false, false, false, false;
    }

    function Abs(): SetState
      reads this
    {
      SetState(stopped, running, overflowing, hardware, profiling, forceSw, numberOfEvents, master.tid, cmpIdx)
    }

    /** Flips STOPPED, sets RUNNING, and claims the slot. */
    method Begin()
      requires cmpIdx < master.runningEventset.Length
      modifies this`stopped, this`running, master.runningEventset
      ensures stopped == !old(stopped) && running
      ensures master.runningEventset[..] == old(master.runningEventset[..])[cmpIdx := id]
    {
      stopped := !stopped;
      running := true;
      master.runningEventset[cmpIdx] := id;
    }

    /** Flips RUNNING, sets STOPPED, and clears the slot. */
    method End()
      requires cmpIdx < master.runningEventset.Length
      modifies this`stopped, this`running, master.runningEventset
      ensures stopped && running == !old(running)
      ensures master.runningEventset[..] == old(master.runningEventset[..])[cmpIdx := NONE]
    {
      running := !running;
      stopped := true;
      master.runningEventset[cmpIdx] := NONE;
    }
  }

  /** All threads and event sets of a process. */
  class Library {
    const threads: seq<ThreadInfo>
    const sets: seq<EventSetInfo>

    constructor (threads: seq<ThreadInfo>, sets: seq<EventSetInfo>)
      ensures this.threads == threads && this.sets == sets
    {
      this.threads, this.sets := threads, sets;
    }

    ghost predicate Valid() {
      && (forall t :: 0 <= t < |threads| ==> threads[t].tid == t)
      && (forall t, u :: 0 <= t < u < |threads| ==> threads[t].runningEventset != threads[u].runningEventset)
      && (forall i :: 0 <= i < |sets| ==> sets[i].id == i && sets[i].master.tid < |threads|)
      && (forall i :: 0 <= i < |sets| ==> threads[sets[i].master.tid] == sets[i].master)
      && (forall i :: 0 <= i < |sets| ==> sets[i].cmpIdx < sets[i].master.runningEventset.Length)
      && (forall i :: 0 <= i < |sets| ==> sets[i].swStop !in SlotArrays())
    }

    ghost function SlotArrays(): set<object> {
      set t | 0 <= t < |threads| :: threads[t].runningEventset
    }

    ghost function Slots(): seq<seq<int>>
      reads SlotArrays()
    {
      seq(|threads|, t requires 0 <= t < |threads| reads SlotArrays() => threads[t].runningEventset[..])
    }

    ghost function States(): seq<SetState>
      reads sets
    {
      seq(|sets|, i requires 0 <= i < |sets| reads sets => sets[i].Abs())
    }

    ghost function Abs(): World
      reads sets, SlotArrays()
    {
      World(States(), Slots())
    }

    method BeginSet(i: nat)
      requires Valid() && i < |sets| && Shaped(Abs())
      modifies sets[i], sets[i].master.runningEventset
      ensures Abs() == Begun(old(Abs()), i)
    {
      ghost var w := Abs();
      sets[i].Begin();
      assert States() == Begun(w, i).sets;
      assert Slots() == Begun(w, i).slots;
    }

    method EndSet(i: nat)
      requires Valid() && i < |sets| && Shaped(Abs())
      modifies sets[i], sets[i].master.runningEventset
      ensures Abs() == Ended(old(Abs()), i)
    {
      ghost var w := Abs();
      sets[i].End();
      assert States() == Ended(w, i).sets;
      assert Slots() == Ended(w, i).slots;
    }

    /** src/papi.c, PAPI_start. */
    method Start(i: nat, e: StartEnv) returns (ret: int)
      requires Valid() && i < |sets| && Shaped(Abs())
      modifies sets[i], sets[i].master.runningEventset
      ensures (ret, Abs()) == StartSpec(old(Abs()), i, e)
    {
      var esi := sets[i];
      if esi.master.runningEventset[esi.cmpIdx] != NONE { return PAPI_EISRUN; }
      if esi.numberOfEvents < 1 { return PAPI_EINVAL; }
      if e.dirty {
        if e.update != PAPI_OK { return e.update; }
      }
      if esi.overflowing && !esi.hardware {
        if e.startSignal != PAPI_OK { return e.startSignal; }
        BeginSet(i);
        if e.start != PAPI_OK {
          EndSet(i);
          return e.start;
        }
        if e.startTimer != PAPI_OK {
          EndSet(i);
          return e.startTimer;
        }
        return e.startTimer;
      } else {
        BeginSet(i);
        if e.start != PAPI_OK {
          EndSet(i);
          return e.start;
        }
        return e.start;
      }
    }

    /** memcpy of the first n elements. */
    static method Copy(from: seq<int>, to: array<int>)
      requires |from| <= to.Length
      modifies to
      ensures to[..] == from + old(to[|from|..])
    {
      for k := 0 to |from|
        invariant to[..k] == from[..k] && to[k..] == old(to[k..])
      {
        to[k] := from[k];
      }
    }

    /** src/papi.c, PAPI_stop.  latest is what the component reads; values is where the caller wants
        it, or null.  The values are handed over as soon as the component has stopped, even if the
        call fails after that. */
    method Stop(i: nat, e: StopEnv, latest: seq<int>, values: array?<int>) returns (ret: int)
      requires Valid() && i < |sets| && Shaped(Abs())
      requires |latest| == sets[i].numberOfEvents <= sets[i].swStop.Length
      requires values != null ==>
        values.Length >= |latest| && values !in SlotArrays() && values != sets[i].swStop
      modifies sets[i], sets[i].master.runningEventset, sets[i].swStop, values
      ensures (ret, Abs()) == StopSpec(old(Abs()), i, e)
      ensures sets[i].swStop[..] ==
              (if old(sets[i].running) && e.read == PAPI_OK then latest else old(sets[i].swStop[..|latest|]))
              + old(sets[i].swStop[|latest|..])
      ensures values != null ==> values[|latest|..] == old(values[|latest|..])
      ensures values != null ==>
        var stopped := old(sets[i].running) && e.read == PAPI_OK && e.stop == PAPI_OK;
        values[..|latest|] == if stopped then latest else old(values[..|latest|])
    {
      var esi := sets[i];
      if !esi.running { return PAPI_ENOTRUN; }
      if e.read != PAPI_OK { return e.read; }
      ghost var w := Abs();
      Copy(latest, esi.swStop);
      if e.stop != PAPI_OK {
        assert Slots() == w.slots;
        return e.stop;
      }
      if values != null {
        assert esi.swStop[..esi.numberOfEvents] == latest;
        Copy(esi.swStop[..esi.numberOfEvents], values);
      }
      assert Slots() == w.slots;
      ret := FinishStop(i, e);
    }

    /** The part of PAPI_stop after the values are handed over. */
    method FinishStop(i: nat, e: StopEnv) returns (ret: int)
      requires Valid() && i < |sets| && Shaped(Abs())
      requires sets[i].running && e.read == PAPI_OK && e.stop == PAPI_OK
      modifies sets[i], sets[i].master.runningEventset
      ensures (ret, Abs()) == StopSpec(old(Abs()), i, e)
    {
      var esi := sets[i];
      if esi.profiling {
        if e.kernelProfile && !esi.forceSw {
          if e.stopProfiling < PAPI_OK { return e.stopProfiling; }
        }
      }
      if esi.overflowing {
        if !esi.hardware {
          if e.stopTimer != PAPI_OK { return e.stopTimer; }
        }
      }
      EndSet(i);
      return PAPI_OK;
    }
  }
}
