/** From overflow signals to histograms (src/extras.c): over a run of software overflow ticks each
    profiled event's buffers grow by its own firings. */
module ProfileRuns {
  import opened PapiCodes
  import opened OverflowTables
  import opened Dispatch
  import H = Histogram

  /** One signal: what the counters read, and the sampled address. */
  datatype Tick = Tick(latest: seq<int>, pc: nat)

  // ---------------------------------------------------------------- one signal

  /** One sample for an event: the buffer of the chosen region is bumped. */
  function SampleEntry(bufs: seq<seq<nat>>, regions: seq<Region>, bytes: nat, pc: nat): (after: seq<seq<nat>>)
    requires |bufs| == |regions| > 0
    ensures |after| == |bufs|
  {
    var b := H.BestRegion(regions, pc);
    bufs[b := H.Bumped(bufs[b], H.HitBy(regions[b], bytes, pc), H.Capacity(bytes))]
  }

  /** A list of buffers for each profile entry, one for each of its regions. */
  predicate Buffered(hs: seq<seq<seq<nat>>>, prof: seq<ProfEntry>) {
    |hs| == |prof| && forall i :: 0 <= i < |hs| ==> |hs[i]| == |prof[i].prof| > 0
  }

  predicate SlotsIn(xs: seq<Sample>, n: nat) {
    forall m :: 0 <= m < |xs| ==> xs[m].slot < n
  }

  /** The samples of one signal, delivered in order. */
  function Deliver(hs: seq<seq<seq<nat>>>, prof: seq<ProfEntry>, bytes: nat, xs: seq<Sample>, pc: nat)
    : (after: seq<seq<seq<nat>>>)
    requires Buffered(hs, prof) && SlotsIn(xs, |prof|)
    ensures Buffered(after, prof)
  {
    if xs == [] then hs
    else
      var n := |xs| - 1;
      var before := Deliver(hs, prof, bytes, xs[..n], pc);
      var i := xs[n].slot;
      before[i := SampleEntry(before[i], prof[i].prof, bytes, pc)]
  }

  predicate HasSlot(xs: seq<Sample>, i: nat) {
    exists m :: 0 <= m < |xs| && xs[m].slot == i
  }

  predicate SlotsDiffer(xs: seq<Sample>) {
    forall m, n :: 0 <= m < n < |xs| ==> xs[m].slot != xs[n].slot
  }

  /** If no slot comes twice, the entries with a slot are sampled once and the others not at all. */
  lemma {:induction false} DeliverAt(hs: seq<seq<seq<nat>>>, prof: seq<ProfEntry>, bytes: nat, xs: seq<Sample>,
                                     pc: nat, i: nat)
    requires Buffered(hs, prof) && SlotsIn(xs, |prof|) && SlotsDiffer(xs) && i < |prof|
    ensures Deliver(hs, prof, bytes, xs, pc)[i] ==
            if HasSlot(xs, i) then SampleEntry(hs[i], prof[i].prof, bytes, pc) else hs[i]
    decreases |xs|
  {
    if xs != [] {
      var n := |xs| - 1;
      DeliverAt(hs, prof, bytes, xs[..n], pc, i);
      if xs[n].slot == i {
        assert !HasSlot(xs[..n], i);
      } else if HasSlot(xs, i) {
        var m :| 0 <= m < |xs| && xs[m].slot == i;
        assert xs[..n][m].slot == i;
      }
    }
  }

  /** One sample for each fired entry means one slot for each. */
  lemma {:induction false} FiredSlots(xs: seq<Sample>, ovf: seq<OvfEntry>, events: seq<EventInfo>, latest: seq<int>)
    requires Registered(ovf, events, latest) && OnePerFired(xs, ovf, events, latest)
    ensures SlotsIn(xs, |ovf|) && SlotsDiffer(xs)
    ensures forall i :: 0 <= i < |ovf| ==> (HasSlot(xs, i) <==> Fired(ovf[i], latest))
  {
    forall m | 0 <= m < |xs| ensures OwnSample(xs[m], ovf, events, latest) {}
  }

  // ---------------------------------------------------------------- runs of signals

  /** Readings for all the events of the set. */
  predicate Ticks(ticks: seq<Tick>, events: seq<EventInfo>) {
    forall n :: 0 <= n < |ticks| ==> |ticks[n].latest| == |events|
  }

  function Readings(ticks: seq<Tick>): (rs: seq<seq<int>>)
    ensures |rs| == |ticks| && forall n :: 0 <= n < |rs| ==> rs[n] == ticks[n].latest
  {
    seq(|ticks|, n requires 0 <= n < |ticks| => ticks[n].latest)
  }

  lemma {:induction false} ReadingsCover(ovf: seq<OvfEntry>, events: seq<EventInfo>, ticks: seq<Tick>)
    requires Placed(ovf, events) && Ticks(ticks, events)
    ensures Readable(ovf, Readings(ticks)) && Placed(AfterTicks(ovf, Readings(ticks)), events)
  {
    forall n | 0 <= n < |ticks| ensures Covers(ovf, Readings(ticks)[n]) {}
  }

  /** What a signal after the given ticks samples. */
  ghost function SignalSamples(ovf: seq<OvfEntry>, events: seq<EventInfo>, ticks: seq<Tick>, last: Tick)
    : (xs: seq<Sample>)
    requires Placed(ovf, events) && Ticks(ticks, events) && |last.latest| == |events|
    ensures SlotsIn(xs, |ovf|)
  {
    ReadingsCover(ovf, events, ticks);
    var now := AfterTicks(ovf, Readings(ticks));
    Dispatch.DrainSlots(FiredVector(now, events, last.latest), now, events);
    FiredSamples(now, events, last.latest)
  }

  /** All buffers after a run of ticks. */
  ghost function Histograms(ovf: seq<OvfEntry>, prof: seq<ProfEntry>, events: seq<EventInfo>, bytes: nat,
                            hs: seq<seq<seq<nat>>>, ticks: seq<Tick>): (after: seq<seq<seq<nat>>>)
    requires Placed(ovf, events) && Ticks(ticks, events) && |prof| == |ovf| && Buffered(hs, prof)
    ensures Buffered(after, prof)
  {
    if ticks == [] then hs
    else
      var before, last := ticks[..|ticks| - 1], ticks[|ticks| - 1];
      Deliver(Histograms(ovf, prof, events, bytes, hs, before), prof, bytes,
              SignalSamples(ovf, events, before, last), last.pc)
  }

  /** The addresses at which entry i fires. */
  ghost function FiredAt(ovf: seq<OvfEntry>, events: seq<EventInfo>, ticks: seq<Tick>, i: nat): seq<nat>
    requires Placed(ovf, events) && Ticks(ticks, events) && i < |ovf|
  {
    if ticks == [] then []
    else
      var before, last := ticks[..|ticks| - 1], ticks[|ticks| - 1];
      ReadingsCover(ovf, events, before);
      FiredAt(ovf, events, before, i) +
      if Fired(AfterTicks(ovf, Readings(before))[i], last.latest) then [last.pc] else []
  }

  /** There are as many as the entry has firings. */
  lemma {:induction false} FiredAtEachFiring(ovf: seq<OvfEntry>, events: seq<EventInfo>, ticks: seq<Tick>, i: nat)
    requires Placed(ovf, events) && Ticks(ticks, events) && i < |ovf|
    ensures Readable(ovf, Readings(ticks)) && |FiredAt(ovf, events, ticks, i)| == Firings(ovf, Readings(ticks), i)
    decreases |ticks|
  {
    ReadingsCover(ovf, events, ticks);
    if ticks != [] {
      var before := ticks[..|ticks| - 1];
      FiredAtEachFiring(ovf, events, before, i);
      assert Readings(ticks)[..|before|] == Readings(before);
    }
  }

  /** One event's buffers after samples at the given addresses. */
  function SampleAll(bufs: seq<seq<nat>>, regions: seq<Region>, bytes: nat, pcs: seq<nat>): (after: seq<seq<nat>>)
    requires |bufs| == |regions| > 0
    ensures |after| == |bufs|
  {
    if pcs == [] then bufs
    else SampleEntry(SampleAll(bufs, regions, bytes, pcs[..|pcs| - 1]), regions, bytes, pcs[|pcs| - 1])
  }

  /** Ticks move deadlines only, so that owning one's counter lasts. */
  lemma {:induction false} StillOwn(ovf: seq<OvfEntry>, events: seq<EventInfo>, ticks: seq<Tick>)
    requires Placed(ovf, events) && OwnCounters(ovf, events) && Ticks(ticks, events)
    ensures Readable(ovf, Readings(ticks)) && Placed(AfterTicks(ovf, Readings(ticks)), events)
    ensures OwnCounters(AfterTicks(ovf, Readings(ticks)), events)
  {
    ReadingsCover(ovf, events, ticks);
    var now := AfterTicks(ovf, Readings(ticks));
    forall i, j | 0 <= i < j < |now| ensures !HasPos(events[now[i].index], FirstCounter(now[j], events)) {
      assert !HasPos(events[ovf[i].index], FirstCounter(ovf[j], events));
    }
  }

  /** The signal samples entry i exactly if it fires. */
  lemma {:induction false} SignalSamplesFired(ovf: seq<OvfEntry>, events: seq<EventInfo>, ticks: seq<Tick>, last: Tick)
    requires Placed(ovf, events) && OwnCounters(ovf, events) && Ticks(ticks, events) && |last.latest| == |events|
    ensures var xs := SignalSamples(ovf, events, ticks, last);
      && SlotsDiffer(xs) && Readable(ovf, Readings(ticks))
      && forall i :: 0 <= i < |ovf| ==>
           0 <= ovf[i].index < |last.latest|
           && (HasSlot(xs, i) <==> Fired(AfterTicks(ovf, Readings(ticks))[i], last.latest))
  {
    StillOwn(ovf, events, ticks);
    var now := AfterTicks(ovf, Readings(ticks));
    TableSamplesExactly(now, events);
    FiredSlots(FiredSamples(now, events, last.latest), now, events, last.latest);
  }

  /** Over any run of signals each event's buffers have taken exactly the samples of its own
      firings, whatever the other events did. */
  lemma {:induction false} BuffersTakeFirings(ovf: seq<OvfEntry>, prof: seq<ProfEntry>, events: seq<EventInfo>,
                                              bytes: nat, hs: seq<seq<seq<nat>>>, ticks: seq<Tick>, i: nat)
    requires Placed(ovf, events) && OwnCounters(ovf, events) && Ticks(ticks, events)
    requires |prof| == |ovf| && Buffered(hs, prof) && i < |ovf|
    ensures Histograms(ovf, prof, events, bytes, hs, ticks)[i] ==
            SampleAll(hs[i], prof[i].prof, bytes, FiredAt(ovf, events, ticks, i))
    decreases |ticks|
  {
    if ticks != [] {
      var before, last := ticks[..|ticks| - 1], ticks[|ticks| - 1];
      BuffersTakeFirings(ovf, prof, events, bytes, hs, before, i);
      SignalSamplesFired(ovf, events, before, last);
      DeliverAt(Histograms(ovf, prof, events, bytes, hs, before), prof, bytes,
                SignalSamples(ovf, events, before, last), last.pc, i);
      OneMoreFiring(ovf, events, ticks, i, hs[i], prof[i].prof, bytes);
    }
  }

  lemma {:induction false} OneMoreFiring(ovf: seq<OvfEntry>, events: seq<EventInfo>, ticks: seq<Tick>, i: nat,
                                         bufs: seq<seq<nat>>, regions: seq<Region>, bytes: nat)
    requires Placed(ovf, events) && Ticks(ticks, events) && i < |ovf| && ticks != [] && |bufs| == |regions| > 0
    ensures var before, last := ticks[..|ticks| - 1], ticks[|ticks| - 1];
      && Readable(ovf, Readings(before)) && 0 <= ovf[i].index < |last.latest|
      && var was := SampleAll(bufs, regions, bytes, FiredAt(ovf, events, before, i));
         SampleAll(bufs, regions, bytes, FiredAt(ovf, events, ticks, i)) ==
         if Fired(AfterTicks(ovf, Readings(before))[i], last.latest)
         then SampleEntry(was, regions, bytes, last.pc) else was
  {
    var before, last := ticks[..|ticks| - 1], ticks[|ticks| - 1];
    ReadingsCover(ovf, events, before);
    var pcs := FiredAt(ovf, events, before, i);
    if Fired(AfterTicks(ovf, Readings(before))[i], last.latest) {
      assert (pcs + [last.pc])[..|pcs|] == pcs;
    } else {
      assert pcs + [] == pcs;
    }
  }

  // ---------------------------------------------------------------- one region

  /** The addresses for which region b is chosen. */
  function ChosenFor(regions: seq<Region>, b: nat, pcs: seq<nat>): seq<nat>
    requires regions != []
  {
    if pcs == [] then []
    else
      var pc := pcs[|pcs| - 1];
      ChosenFor(regions, b, pcs[..|pcs| - 1]) + if H.BestRegion(regions, pc) == b then [pc] else []
  }

  lemma {:induction false} HitsGrow(r: Region, bytes: nat, pcs: seq<nat>, pc: nat)
    ensures H.HitsBy(r, bytes, pcs + [pc]) == H.HitsBy(r, bytes, pcs) + [H.HitBy(r, bytes, pc)]
  {}

  /** The buffer of a region takes the samples for which it is chosen, in order. */
  lemma {:induction false} BufferTakesChosen(bufs: seq<seq<nat>>, regions: seq<Region>, bytes: nat,
                                             pcs: seq<nat>, b: nat)
    requires |bufs| == |regions| > 0 && b < |regions|
    ensures SampleAll(bufs, regions, bytes, pcs)[b] ==
            H.BumpedAll(bufs[b], H.HitsBy(regions[b], bytes, ChosenFor(regions, b, pcs)), H.Capacity(bytes))
    decreases |pcs|
  {
    if pcs != [] {
      var before, pc := pcs[..|pcs| - 1], pcs[|pcs| - 1];
      BufferTakesChosen(bufs, regions, bytes, before, b);
      var chosen := ChosenFor(regions, b, before);
      if H.BestRegion(regions, pc) == b {
        HitsGrow(regions[b], bytes, chosen, pc);
        var ks := H.HitsBy(regions[b], bytes, chosen);
        assert (ks + [H.HitBy(regions[b], bytes, pc)])[..|ks|] == ks;
      } else {
        assert chosen + [] == chosen;
      }
    }
  }

  /** In lock step, with every entry owning its first counter: over any run of software overflow
      signals, the sum of the buffer of a profiled event's region grows by those firings of that
      event for which the region is chosen and which lie in it, and by the strays, less a whole
      capacity for each time a bucket wraps. */
  lemma {:induction false} ProfileGrowsByFirings(cmp: Component, s: Tables, events: seq<EventInfo>, bytes: nat,
                                                 hs: seq<seq<seq<nat>>>, ticks: seq<Tick>, i: nat, b: nat, length: nat)
    requires InStep(cmp, events, s) && Placed(s.ovf, events) && OwnCounters(s.ovf, events) && Ticks(ticks, events)
    requires Buffered(hs, s.prof) && i < |s.prof| && b < |s.prof[i].prof|
    requires H.Holds(hs[i][b], s.prof[i].prof[b], bytes) && H.Documented(s.prof[i].prof[b], length, bytes)
    ensures var r := s.prof[i].prof[b];
      var chosen := ChosenFor(s.prof[i].prof, b, FiredAt(s.ovf, events, ticks, i));
      var wraps := H.AllWraps(hs[i][b], H.HitsBy(r, bytes, chosen), H.Capacity(bytes));
      H.Sum(Histograms(s.ovf, s.prof, events, bytes, hs, ticks)[i][b]) + wraps * H.Capacity(bytes) ==
      H.Sum(hs[i][b]) + H.InRegion(r, length, chosen) + H.Strays(r, length, bytes, chosen)
  {
    var regions, pcs := s.prof[i].prof, FiredAt(s.ovf, events, ticks, i);
    BuffersTakeFirings(s.ovf, s.prof, events, bytes, hs, ticks, i);
    BufferTakesChosen(hs[i], regions, bytes, pcs, b);
    H.HistogramCountsRegion(hs[i][b], regions[b], length, bytes, ChosenFor(regions, b, pcs));
  }

  /** Histograms is what the handler does: one of its signals samples SignalSamples. */
  lemma {:induction false} SignalIsSampled(s: Tables, events: seq<EventInfo>, ticks: seq<Tick>, last: Tick)
    requires s.overflowing && s.profiling && !s.ovfFlags.hardware
    requires Placed(s.ovf, events) && Ticks(ticks, events) && |last.latest| == |events|
    ensures Readable(s.ovf, Readings(ticks)) && Placed(AfterTicks(s.ovf, Readings(ticks)), events)
    ensures var now := s.(ovf := AfterTicks(s.ovf, Readings(ticks)));
      var (ret, next, out) := SignalSpec(now, events, last.latest, 0);
      && next == s.(ovf := AfterTicks(s.ovf, Readings(ticks + [last])))
      && SignalSamples(s.ovf, events, ticks, last) == if out.Sampled? then out.samples else []
  {
    ReadingsCover(s.ovf, events, ticks);
    var now := AfterTicks(s.ovf, Readings(ticks));
    assert Readings(ticks + [last])[..|ticks|] == Readings(ticks);
    if !AnyFired(now, last.latest) {
      NoneFired(now, events, last.latest);
      assert Ticked(now, last.latest) == now;
    }
  }

  lemma {:induction false} NoneFired(ovf: seq<OvfEntry>, events: seq<EventInfo>, latest: seq<int>)
    requires Registered(ovf, events, latest) && !AnyFired(ovf, latest)
    ensures FiredVector(ovf, events, latest) == 0 && FiredSamples(ovf, events, latest) == []
    decreases |ovf|
  {
    if ovf != [] {
      var n := |ovf| - 1;
      assert forall i :: 0 <= i < n ==> ovf[..n][i] == ovf[i];
      NoneFired(ovf[..n], events, latest);
    }
  }
}
