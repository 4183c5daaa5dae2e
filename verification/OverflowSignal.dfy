/** The code of _papi_hwi_dispatch_overflow_signal (src/extras.c), proved to do what Dispatch says. */
module OverflowSignal {
  import opened PapiCodes
  import opened Words
  import opened FirstSet
  import opened OverflowTables
  import opened EventSets
  import opened Dispatch

  /** temp holds what the scan leaves there for the first n entries. */
  ghost predicate Excesses(temp: seq<int>, n: nat, ovf: seq<OvfEntry>, latest: seq<int>)
    requires forall i :: 0 <= i < |ovf| ==> 0 <= ovf[i].index < |latest|
  {
    n <= |ovf| && n <= |temp| && forall k :: 0 <= k < n ==> temp[k] == Excess(ovf[k], latest)
  }

  /** The scan has ticked the first n entries of ovf. */
  ghost predicate TickedTo(now: seq<OvfEntry>, n: nat, ovf: seq<OvfEntry>, latest: seq<int>)
    requires forall i :: 0 <= i < |ovf| ==> 0 <= ovf[i].index < |latest|
  {
    && n <= |ovf| == |now|
    && (forall k :: 0 <= k < n ==> now[k] == TickedEntry(ovf[k], latest))
    && (forall k :: n <= k < |ovf| ==> now[k] == ovf[k])
  }

  lemma {:induction false} OneMoreTicked(now: seq<OvfEntry>, after: seq<OvfEntry>, n: nat, ovf: seq<OvfEntry>,
                                         latest: seq<int>)
    requires forall i :: 0 <= i < |ovf| ==> 0 <= ovf[i].index < |latest|
    requires TickedTo(now, n, ovf, latest) && n < |ovf|
    requires |after| == |now| && after[n] == TickedEntry(ovf[n], latest)
    requires forall k :: 0 <= k < |now| && k != n ==> after[k] == now[k]
    ensures TickedTo(after, n + 1, ovf, latest)
  {}

  lemma {:induction false} OneMoreFired(n: nat, ovf: seq<OvfEntry>, events: seq<EventInfo>, latest: seq<int>)
    requires Registered(ovf, events, latest) && n < |ovf|
    ensures Registered(ovf[..n], events, latest) && Registered(ovf[..n + 1], events, latest)
    ensures AnyFired(ovf[..n + 1], latest) == (AnyFired(ovf[..n], latest) || Fired(ovf[n], latest))
    ensures FiredVector(ovf[..n + 1], events, latest) ==
            if Fired(ovf[n], latest)
            then Xor(FiredVector(ovf[..n], events, latest), Pow2(events[ovf[n].index].pos[0]))
            else FiredVector(ovf[..n], events, latest)
  {
    var s := ovf[..n + 1];
    assert s[..n] == ovf[..n] && s[n] == ovf[n];
    if AnyFired(ovf[..n], latest) {
      var i :| 0 <= i < n && Fired(ovf[..n][i], latest);
      assert Fired(s[i], latest);
    }
    if AnyFired(s, latest) && !Fired(ovf[n], latest) {
      var i :| 0 <= i < n + 1 && Fired(s[i], latest);
      assert Fired(ovf[..n][i], latest);
    }
  }

  /** The loop body: one entry's deadline against its counter. */
  method ScanOne(ov: OverflowInfo, i: nat, latest: seq<int>, temp: array<int>) returns (fired: bool)
    requires ov.Valid() && i < ov.eventCounter <= temp.Length && temp !in ov.Arrays()
    requires 0 <= ov.eventIndex[i] < |latest|
    modifies ov.deadline, temp
    ensures ov.Valid() && fired == Fired(old(ov.Entries())[i], latest)
    ensures ov.Entries() == old(ov.Entries())[i := TickedEntry(old(ov.Entries())[i], latest)]
    ensures temp[..] == old(temp[..])[i := Excess(old(ov.Entries())[i], latest)]
  {
    var last := latest[ov.eventIndex[i]];
    temp[i] := -1;
    fired := false;
    if last >= ov.deadline[i] {
      temp[i] := last - ov.deadline[i];
      fired := true;
      ov.deadline[i] := last + ov.threshold[i];
    }
  }

  /** The scan has done the first n entries: moved their deadlines, filled temp, and collected the
      vector and the flag. */
  ghost predicate ScannedTo(now: seq<OvfEntry>, temp: seq<int>, vector: nat, flag: bool, n: nat,
                            ovf: seq<OvfEntry>, events: seq<EventInfo>, latest: seq<int>)
    requires Registered(ovf, events, latest)
  {
    && TickedTo(now, n, ovf, latest) && Excesses(temp, n, ovf, latest)
    && Registered(ovf[..n], events, latest)
    && vector == FiredVector(ovf[..n], events, latest) && flag == AnyFired(ovf[..n], latest)
  }

  lemma {:induction false} ScanMore(now: seq<OvfEntry>, temp: seq<int>, vector: nat, flag: bool, n: nat,
                                    ovf: seq<OvfEntry>, events: seq<EventInfo>, latest: seq<int>)
    requires Registered(ovf, events, latest) && n < |ovf| && n < |temp|
    requires ScannedTo(now, temp, vector, flag, n, ovf, events, latest)
    ensures now[n] == ovf[n]
    ensures ScannedTo(now[n := TickedEntry(ovf[n], latest)], temp[n := Excess(ovf[n], latest)],
                      if Fired(ovf[n], latest) then Xor(vector, Pow2(FirstCounter(ovf[n], events))) else vector,
                      flag || Fired(ovf[n], latest), n + 1, ovf, events, latest)
  {
    OneMoreFired(n, ovf, events, latest);
    OneMoreTicked(now, now[n := TickedEntry(ovf[n], latest)], n, ovf, latest);
  }

  /** The loop over the entries: compares deadlines, moves those that passed, collects the vector. */
  method ScanDeadlines(ov: OverflowInfo, events: seq<EventInfo>, latest: seq<int>, temp: array<int>)
    returns (vector: nat, flag: bool)
    requires ov.Valid() && Registered(ov.Entries(), events, latest) && ov.eventCounter <= temp.Length
    requires temp !in ov.Arrays()
    modifies ov.deadline, temp
    ensures ov.Valid() && ov.Entries() == Ticked(old(ov.Entries()), latest)
    ensures vector == FiredVector(old(ov.Entries()), events, latest)
    ensures flag == AnyFired(old(ov.Entries()), latest)
    ensures Excesses(temp[..], ov.eventCounter, old(ov.Entries()), latest)
  {
    ghost var ovf := ov.Entries();
    vector, flag := 0, false;
    for i := 0 to ov.eventCounter
      invariant ov.Valid()
      invariant ScannedTo(ov.Entries(), temp[..], vector, flag, i, ovf, events, latest)
    {
      ScanMore(ov.Entries(), temp[..], vector, flag, i, ovf, events, latest);
      assert ov.eventIndex[i] == ov.Entries()[i].index;
      var fired := ScanOne(ov, i, latest, temp);
      if fired {
        vector := Xor(vector, Pow2(events[ov.eventIndex[i]].pos[0]));
        flag := true;
      }
    }
    assert ovf[..|ovf|] == ovf;
  }

  /** The search for the entry a counter belongs to: all terms of all entries, in order. */
  method FindSlot(ov: OverflowInfo, events: seq<EventInfo>, k: int) returns (j: nat)
    requires ov.Valid()
    requires forall i :: 0 <= i < ov.eventCounter ==> 0 <= ov.eventIndex[i] < |events|
    ensures j == Slot(ov.Entries(), events, k)
  {
    ghost var ovf := ov.Entries();
    j := 0;
    while j < ov.eventCounter
      invariant j <= |ovf| && forall i :: 0 <= i < j ==> !HasPos(events[ovf[i].index], k)
    {
      var found := ScanTerms(events[ov.eventIndex[j]], k);
      if found {
        break;
      }
      j := j + 1;
    }
    SlotIs(ovf, events, k, j);
  }

  /** The loop over an event's terms, which goes on while the last one was not negative. */
  method ScanTerms(e: EventInfo, i: int) returns (found: bool)
    ensures found == HasPos(e, i)
  {
    var k, pos := 0, 0;
    while k < |e.pos| && pos >= 0
      invariant 0 <= k <= |e.pos|
      invariant forall u :: 0 <= u < k ==> e.pos[u] != i
      invariant pos >= 0 ==> forall u :: 0 <= u < k ==> e.pos[u] >= 0
      invariant pos < 0 ==> k > 0 && e.pos[k - 1] < 0
    {
      pos := e.pos[k];
      if i == pos {
        return true;
      }
      k := k + 1;
    }
    return false;
  }

  /** The samples made for the pairs of d from what the scan left in temp. */
  ghost predicate SamplesFor(samples: seq<Sample>, d: seq<(nat, nat)>, n: nat, temp: seq<int>, hardware: bool)
    requires n <= |temp|
  {
    && |samples| == |d|
    && (forall m :: 0 <= m < |d| ==> d[m].1 < n)
    && (forall m :: 0 <= m < |d| ==>
          samples[m] == Sample(d[m].0, d[m].1, if hardware then 0 else temp[d[m].1]))
  }

  /** The drain of a vector has gone through d and has v left. */
  ghost predicate DrainedTo(whole: (bool, seq<(nat, nat)>), d: seq<(nat, nat)>, v: nat,
                            ovf: seq<OvfEntry>, events: seq<EventInfo>)
    requires forall i :: 0 <= i < |ovf| ==> 0 <= ovf[i].index < |events|
  {
    whole.0 == Drain(v, ovf, events).0 && whole.1 == d + Drain(v, ovf, events).1
  }

  lemma {:induction false} DrainStep(whole: (bool, seq<(nat, nat)>), d: seq<(nat, nat)>, v: nat,
                                     ovf: seq<OvfEntry>, events: seq<EventInfo>)
    requires forall i :: 0 <= i < |ovf| ==> 0 <= ovf[i].index < |events|
    requires v > 0 && DrainedTo(whole, d, v, ovf, events)
    ensures Ffs(v) > 0 && Xor(v, Pow2(Ffs(v) - 1)) < v
    ensures var k := Ffs(v) - 1;
      var j := Slot(ovf, events, k);
      if j == |ovf| then whole.0 == false && whole.1 == d
      else DrainedTo(whole, d + [(k, j)], Xor(v, Pow2(k)), ovf, events)
  {
    ClearLeast(v);
    var k := Ffs(v) - 1;
    var rest := Drain(Xor(v, Pow2(k)), ovf, events).1;
    if Slot(ovf, events, k) == |ovf| {
      assert d + [] == d;
    } else {
      assert d + ([(k, Slot(ovf, events, k))] + rest) == d + [(k, Slot(ovf, events, k))] + rest;
    }
  }

  lemma {:induction false} OneMoreSample(samples: seq<Sample>, d: seq<(nat, nat)>, n: nat, temp: seq<int>,
                                         hardware: bool, i: nat, j: nat)
    requires n <= |temp| && SamplesFor(samples, d, n, temp, hardware) && j < n
    ensures SamplesFor(samples + [Sample(i, j, if hardware then 0 else temp[j])], d + [(i, j)], n, temp, hardware)
  {}

  /** The least bit of the vector, and the entry it belongs to. */
  method NextBit(ov: OverflowInfo, events: seq<EventInfo>, vector: nat) returns (i: nat, j: nat)
    requires ov.Valid() && 0 < vector < WORD64
    requires forall i :: 0 <= i < ov.eventCounter ==> 0 <= ov.eventIndex[i] < |events|
    ensures i + 1 == Ffs(vector) && j == Slot(ov.Entries(), events, i)
  {
    ClearLeast(vector);
    var bit := Ffsll(FromWord(vector));
    i := bit - 1;
    j := FindSlot(ov, events, i);
  }

  /** The while loop that takes the vector apart. */
  method DrainVector(ov: OverflowInfo, events: seq<EventInfo>, vector0: nat, temp: array<int>, hardware: bool)
    returns (ok: bool, samples: seq<Sample>)
    requires ov.Valid() && ov.eventCounter <= temp.Length && vector0 < WORD64
    requires forall i :: 0 <= i < ov.eventCounter ==> 0 <= ov.eventIndex[i] < |events|
    ensures ok == Drain(vector0, ov.Entries(), events).0
    ensures SamplesFor(samples, Drain(vector0, ov.Entries(), events).1, ov.eventCounter, temp[..], hardware)
  {
    ghost var d: seq<(nat, nat)> := [];
    ghost var whole := Drain(vector0, ov.Entries(), events);
    assert d + whole.1 == whole.1;
    samples := [];
    var vector: nat := vector0;
    while vector != 0
      invariant 0 <= vector <= vector0
      invariant DrainedTo(whole, d, vector, ov.Entries(), events)
      invariant SamplesFor(samples, d, ov.eventCounter, temp[..], hardware)
      decreases vector
    {
      var more;
      more, vector, samples, d := ProfileBit(ov, events, vector, temp, hardware, samples, d, whole);
      if !more {
        return false, samples;
      }
    }
    assert d + [] == d;
    return true, samples;
  }

  /** One turn of that loop: the least bit is profiled and cleared, unless it belongs to no entry. */
  method ProfileBit(ov: OverflowInfo, events: seq<EventInfo>, vector: nat, temp: array<int>, hardware: bool,
                    samples: seq<Sample>, ghost d: seq<(nat, nat)>, ghost whole: (bool, seq<(nat, nat)>))
    returns (more: bool, vector': nat, samples': seq<Sample>, ghost d': seq<(nat, nat)>)
    requires ov.Valid() && ov.eventCounter <= temp.Length && 0 < vector < WORD64
    requires forall i :: 0 <= i < ov.eventCounter ==> 0 <= ov.eventIndex[i] < |events|
    requires DrainedTo(whole, d, vector, ov.Entries(), events)
    requires SamplesFor(samples, d, ov.eventCounter, temp[..], hardware)
    ensures SamplesFor(samples', d', ov.eventCounter, temp[..], hardware)
    ensures more ==> vector' < vector && DrainedTo(whole, d', vector', ov.Entries(), events)
    ensures !more ==> !whole.0 && whole.1 == d'
  {
    var i, j := NextBit(ov, events, vector);
    DrainStep(whole, d, vector, ov.Entries(), events);
    if j == ov.eventCounter {
      return false, vector, samples, d;
    }
    var over := if hardware then 0 else temp[j];
    OneMoreSample(samples, d, ov.eventCounter, temp[..], hardware, i, j);
    return true, Xor(vector, Pow2(i)), samples + [Sample(i, j, over)], d + [(i, j)];
  }

  /** The samples the drain makes are those of the specification. */
  lemma {:induction false} SamplesAgree(samples: seq<Sample>, d: seq<(nat, nat)>, ovf: seq<OvfEntry>, latest: seq<int>,
                                        temp: seq<int>, hardware: bool)
    requires forall i :: 0 <= i < |ovf| ==> 0 <= ovf[i].index < |latest|
    requires |ovf| <= |temp| && SamplesFor(samples, d, |ovf|, temp, hardware)
    requires hardware || Excesses(temp, |ovf|, ovf, latest)
    ensures samples == Samples(d, ovf, latest, hardware)
  {}

  /** Every bit of the vector is profiled, or the handler is called with it, or there is nothing to do. */
  ghost predicate Delivered(s: Tables, events: seq<EventInfo>, latest: seq<int>, vector: nat, flag: bool,
                            ret: int, out: Outcome)
    requires Registered(s.ovf, events, latest)
  {
    if !s.ovfFlags.hardware && !flag then ret == PAPI_OK && out == Ignored
    else if s.profiling then
      var (ok, d) := Drain(vector, s.ovf, events);
      && (forall m :: 0 <= m < |d| ==> d[m].1 < |s.ovf|)
      && ret == (if ok then PAPI_OK else PAPI_EBUG)
      && out == Sampled(Samples(d, s.ovf, latest, s.ovfFlags.hardware))
    else
      ret == PAPI_OK && out == HandlerCalled(vector)
  }

  method Deliver(es: EventSet, vector: nat, flag: bool, temp: array<int>, latest: seq<int>, ghost s: Tables)
    returns (ret: int, out: Outcome)
    requires es.Valid() && Registered(s.ovf, es.events, latest) && vector < WORD64
    requires |s.ovf| == es.overflow.eventCounter <= temp.Length
    requires forall i :: 0 <= i < |s.ovf| ==> es.overflow.eventIndex[i] == s.ovf[i].index
    requires es.profiling == s.profiling && es.overflow.flags == s.ovfFlags
    requires s.ovfFlags.hardware || Excesses(temp[..], |s.ovf|, s.ovf, latest)
    ensures Delivered(s, es.events, latest, vector, flag, ret, out)
  {
    if !es.overflow.flags.hardware && !flag {
      return PAPI_OK, Ignored;
    }
    if !es.profiling {
      return PAPI_OK, HandlerCalled(vector);
    }
    var hw := es.overflow.flags.hardware;
    var ok, samples := DrainVector(es.overflow, es.events, vector, temp, hw);
    DrainTicked(vector, s.ovf, es.overflow.Entries(), es.events);
    SamplesAgree(samples, Drain(vector, s.ovf, es.events).1, s.ovf, latest, temp[..], hw);
    return if ok then PAPI_OK else PAPI_EBUG, Sampled(samples);
  }

  /** The vector of a hardware overflow: made from the first entry, or passed in. */
  method HardwareVector(es: EventSet, latest: seq<int>, overflowBit: nat, genOverflowBit: bool) returns (vector: nat)
    requires es.Valid() && Registered(es.overflow.Entries(), es.events, latest)
    requires overflowBit < WORD64 && (genOverflowBit ==> es.overflow.eventCounter > 0)
    ensures vector == VectorFor(true, es.overflow.Entries(), es.events, overflowBit, genOverflowBit) < WORD64
  {
    if !genOverflowBit {
      return overflowBit;
    }
    var papiIndex := es.overflow.eventIndex[0];
    assert papiIndex == es.overflow.Entries()[0].index;
    Pow2Fits(es.events[papiIndex].pos[0]);
    return Pow2(es.events[papiIndex].pos[0]);
  }

  /** The vector of a hardware overflow, and 0 for software, where it is not used. */
  function VectorFor(hardware: bool, ovf: seq<OvfEntry>, events: seq<EventInfo>, overflowBit: nat,
                     genOverflowBit: bool): nat
    requires hardware && genOverflowBit ==>
      ovf != [] && 0 <= ovf[0].index < |events| && events[ovf[0].index].pos != [] && events[ovf[0].index].pos[0] >= 0
  {
    if !hardware then 0 else if genOverflowBit then Pow2(events[ovf[0].index].pos[0]) else overflowBit
  }

  lemma {:induction false} VectorForMeans(ovf: seq<OvfEntry>, events: seq<EventInfo>, overflowBit: nat, k: nat)
    requires ovf != [] && 0 <= ovf[0].index < |events| && events[ovf[0].index].pos != []
    requires FirstCounter(ovf[0], events) >= 0
    ensures Bit(VectorFor(true, ovf, events, overflowBit, true), k) <==> k == FirstCounter(ovf[0], events)
    ensures VectorFor(true, ovf, events, overflowBit, false) == overflowBit
  {
    BitPow2(FirstCounter(ovf[0], events), k);
  }

  /** Where the vector comes from, and what has become of the tables by then. */
  ghost predicate Collected(s: Tables, events: seq<EventInfo>, latest: seq<int>, hwVector: nat,
                            vector: nat, flag: bool, s': Tables)
    requires Registered(s.ovf, events, latest)
  {
    if s.ovfFlags.hardware then vector == hwVector && !flag && s' == s
    else && vector == FiredVector(s.ovf, events, latest) && flag == AnyFired(s.ovf, latest)
         && s' == s.(ovf := Ticked(s.ovf, latest))
  }

  method Collect(es: EventSet, latest: seq<int>, temp: array<int>, overflowBit: nat, genOverflowBit: bool)
    returns (vector: nat, flag: bool)
    requires es.Valid() && Registered(es.overflow.Entries(), es.events, latest)
    requires temp !in es.overflow.Arrays() && temp !in es.profile.Arrays() && es.overflow.eventCounter <= temp.Length
    requires overflowBit < WORD64 && (es.overflow.flags.hardware && genOverflowBit ==> es.overflow.eventCounter > 0)
    modifies es.overflow.deadline, temp
    ensures es.Valid() && vector < WORD64
    ensures var ovf := old(es.overflow.Entries());
      Collected(old(es.Abs()), es.events, latest,
                VectorFor(es.overflow.flags.hardware, ovf, es.events, overflowBit, genOverflowBit),
                vector, flag, es.Abs())
    ensures es.overflow.flags.hardware ||
            Excesses(temp[..], es.overflow.eventCounter, old(es.overflow.Entries()), latest)
  {
    ghost var prof := es.profile.Entries();
    if !es.overflow.flags.hardware {
      FiredVectorBound(es.overflow.Entries(), es.events, latest);
      vector, flag := ScanDeadlines(es.overflow, es.events, latest, temp);
    } else {
      vector := HardwareVector(es, latest, overflowBit, genOverflowBit);
      flag := false;
    }
    assert es.profile.Entries() == prof;
  }

  lemma {:induction false} SignalIs(s: Tables, events: seq<EventInfo>, latest: seq<int>, hwVector: nat,
                                    vector: nat, flag: bool, s': Tables, ret: int, out: Outcome)
    requires Registered(s.ovf, events, latest) && s.overflowing
    requires Collected(s, events, latest, hwVector, vector, flag, s')
    requires Delivered(s, events, latest, vector, flag, ret, out)
    ensures SignalSpec(s, events, latest, hwVector) == (ret, s', out)
  {}

  /** src/extras.c, _papi_hwi_dispatch_overflow_signal, from the point where the running event
      set is known.  latest is what _papi_hwi_read left in sw_stop; askHardware says whether the
      caller passed a place for isHardware.  The set is marked as paused meanwhile, and stays so
      after PAPI_EBUG. */
  method DispatchOverflowSignal(es: EventSet, latest: seq<int>, overflowBit: nat, genOverflowBit: bool,
                                askHardware: bool)
    returns (ret: int, out: Outcome, isHardware: bool)
    requires es.Valid() && Registered(es.overflow.Entries(), es.events, latest)
    requires overflowBit < WORD64
    requires es.overflow.flags.hardware && genOverflowBit ==> es.overflow.eventCounter > 0
    modifies es.overflow.deadline, es`paused
    ensures es.Valid()
    ensures (ret, es.Abs(), out) ==
            SignalSpec(old(es.Abs()), es.events, latest,
                       VectorFor(es.overflow.flags.hardware, old(es.overflow.Entries()), es.events,
                                 overflowBit, genOverflowBit))
    ensures es.overflowing && askHardware ==> isHardware == es.overflow.flags.hardware
    ensures es.paused ==
            if !es.overflowing then old(es.paused)
            else ret == PAPI_EBUG && (old(es.paused) || (askHardware && es.overflow.flags.hardware))
  {
    isHardware := false;
    if !es.overflowing {
      return PAPI_OK, Ignored, isHardware;
    }
    if askHardware {
      if es.overflow.flags.hardware {
        es.paused := true;
        isHardware := true;
      }
    }
    ret, out := SignalUnpaused(es, latest, overflowBit, genOverflowBit);
    if ret != PAPI_EBUG {
      es.paused := false;
    }
  }

  /** The same, once the set is known to overflow, up to the end of the pause. */
  method SignalUnpaused(es: EventSet, latest: seq<int>, overflowBit: nat, genOverflowBit: bool)
    returns (ret: int, out: Outcome)
    requires es.Valid() && Registered(es.overflow.Entries(), es.events, latest) && es.overflowing
    requires overflowBit < WORD64 && (es.overflow.flags.hardware && genOverflowBit ==> es.overflow.eventCounter > 0)
    modifies es.overflow.deadline
    ensures es.Valid()
    ensures (ret, es.Abs(), out) ==
            SignalSpec(old(es.Abs()), es.events, latest,
                       VectorFor(es.overflow.flags.hardware, old(es.overflow.Entries()), es.events,
                                 overflowBit, genOverflowBit))
  {
    var temp := new int[es.cmp.numCntrs];
    ret, out := SignalRunning(es, latest, temp, overflowBit, genOverflowBit);
  }

  /** The same once temp is allocated. */
  method SignalRunning(es: EventSet, latest: seq<int>, temp: array<int>, overflowBit: nat, genOverflowBit: bool)
    returns (ret: int, out: Outcome)
    requires es.Valid() && Registered(es.overflow.Entries(), es.events, latest) && es.overflowing
    requires temp !in es.overflow.Arrays() && temp !in es.profile.Arrays() && es.overflow.eventCounter <= temp.Length
    requires overflowBit < WORD64 && (es.overflow.flags.hardware && genOverflowBit ==> es.overflow.eventCounter > 0)
    modifies es.overflow.deadline, temp
    ensures es.Valid()
    ensures (ret, es.Abs(), out) ==
            SignalSpec(old(es.Abs()), es.events, latest,
                       VectorFor(es.overflow.flags.hardware, old(es.overflow.Entries()), es.events,
                                 overflowBit, genOverflowBit))
  {
    ghost var s := es.Abs();
    ghost var hwVector := VectorFor(s.ovfFlags.hardware, s.ovf, es.events, overflowBit, genOverflowBit);
    var vector, flag := Collect(es, latest, temp, overflowBit, genOverflowBit);
    ghost var s' := es.Abs();
    ret, out := Deliver(es, vector, flag, temp, latest, s);
    SignalIs(s, es.events, latest, hwVector, vector, flag, s', ret, out);
  }

  /** Moving deadlines does not move entries: the drain is the same. */
  lemma {:induction false} DrainTicked(v: nat, ovf: seq<OvfEntry>, moved: seq<OvfEntry>, events: seq<EventInfo>)
    requires |moved| == |ovf| && forall i :: 0 <= i < |ovf| ==> moved[i].index == ovf[i].index
    requires forall i :: 0 <= i < |ovf| ==> 0 <= ovf[i].index < |events|
    ensures Drain(v, moved, events) == Drain(v, ovf, events)
    decreases v
  {
    if v != 0 {
      ClearLeast(v);
      var k := Ffs(v) - 1;
      SlotIs(moved, events, k, Slot(ovf, events, k));
      DrainTicked(Xor(v, Pow2(k)), ovf, moved, events);
    }
  }
}
