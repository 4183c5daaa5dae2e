/** The overflow signal handler of src/extras.c: deadlines, the overflow vector, and the drain
    that turns its bits back into events. */
module Dispatch {
  import opened PapiCodes
  import opened Counting
  import opened Words
  import opened OverflowTables

  /** One call of _papi_hwi_dispatch_profile, with the counter position it was made for. */
  datatype Sample = Sample(pos: nat, slot: nat, over: int)

  datatype Outcome = Ignored | HandlerCalled(vector: nat) | Sampled(samples: seq<Sample>)

  /** Counter k is one of the event's terms, the list of which ends at the first negative one. */
  predicate HasPos(e: EventInfo, k: int) {
    exists t :: 0 <= t < |e.pos| && e.pos[t] == k && forall u :: 0 <= u < t ==> e.pos[u] >= 0
  }

  /** For an event whose terms end at the first negative one, or fill the list, that is membership
      in the terms before the end. */
  lemma {:induction false} HasPosMeans(e: EventInfo, n: nat, k: int)
    requires n <= |e.pos| && (forall u :: 0 <= u < n ==> e.pos[u] >= 0) && (n < |e.pos| ==> e.pos[n] < 0) && k >= 0
    ensures HasPos(e, k) <==> k in e.pos[..n]
  {
    if HasPos(e, k) {
      var t :| 0 <= t < |e.pos| && e.pos[t] == k && forall u :: 0 <= u < t ==> e.pos[u] >= 0;
      assert e.pos[..n][t] == k;
    }
    if k in e.pos[..n] {
      var t :| 0 <= t < n && e.pos[..n][t] == k;
      assert e.pos[t] == k;
    }
  }

  /** Entries refer to events of the set whose first counter is one of 64. */
  ghost predicate Placed(ovf: seq<OvfEntry>, events: seq<EventInfo>) {
    && (forall i :: 0 <= i < |events| ==> |events[i].pos| == EVENTS_IN_DERIVED_EVENT)
    && (forall i :: 0 <= i < |ovf| ==> 0 <= ovf[i].index < |events| && 0 <= events[ovf[i].index].pos[0] < 64)
  }

  /** Such entries, and a reading of all counters. */
  ghost predicate Registered(ovf: seq<OvfEntry>, events: seq<EventInfo>, latest: seq<int>) {
    |latest| == |events| && Placed(ovf, events)
  }

  /** The first counter of an entry's event, whose bit the entry sets. */
  function FirstCounter(e: OvfEntry, events: seq<EventInfo>): int
    requires 0 <= e.index < |events| && events[e.index].pos != []
  {
    events[e.index].pos[0]
  }

  // ---------------------------------------------------------------- deadlines

  predicate Fired(e: OvfEntry, latest: seq<int>)
    requires 0 <= e.index < |latest|
  {
    latest[e.index] >= e.deadline
  }

  function TickedEntry(e: OvfEntry, latest: seq<int>): OvfEntry
    requires 0 <= e.index < |latest|
  {
    if Fired(e, latest) then e.(deadline := latest[e.index] + e.threshold) else e
  }

  function Ticked(ovf: seq<OvfEntry>, latest: seq<int>): (r: seq<OvfEntry>)
    requires forall i :: 0 <= i < |ovf| ==> 0 <= ovf[i].index < |latest|
    ensures |r| == |ovf| && forall i :: 0 <= i < |ovf| ==> r[i] == TickedEntry(ovf[i], latest)
  {
    seq(|ovf|, i requires 0 <= i < |ovf| => TickedEntry(ovf[i], latest))
  }

  /** The exclusive or of one bit for each fired entry. */
  ghost function FiredVector(ovf: seq<OvfEntry>, events: seq<EventInfo>, latest: seq<int>): nat
    requires Registered(ovf, events, latest)
  {
    if ovf == [] then 0 else
      var n := |ovf| - 1;
      var v := FiredVector(ovf[..n], events, latest);
      if Fired(ovf[n], latest) then Xor(v, Pow2(events[ovf[n].index].pos[0])) else v
  }

  predicate AnyFired(ovf: seq<OvfEntry>, latest: seq<int>)
    requires forall i :: 0 <= i < |ovf| ==> 0 <= ovf[i].index < |latest|
  {
    exists i :: 0 <= i < |ovf| && Fired(ovf[i], latest)
  }

  lemma {:induction false} VectorBound(ovf: seq<OvfEntry>, events: seq<EventInfo>, latest: seq<int>, n: nat)
    requires Registered(ovf, events, latest)
    requires forall i :: 0 <= i < |ovf| ==> events[ovf[i].index].pos[0] < n
    ensures FiredVector(ovf, events, latest) < Pow2(n)
  {
    if ovf != [] {
      var m := |ovf| - 1;
      VectorBound(ovf[..m], events, latest, n);
      Pow2Mono(events[ovf[m].index].pos[0], n);
      XorBound(FiredVector(ovf[..m], events, latest), Pow2(events[ovf[m].index].pos[0]), n);
    }
  }

  lemma {:induction false} FiredVectorBound(ovf: seq<OvfEntry>, events: seq<EventInfo>, latest: seq<int>)
    requires Registered(ovf, events, latest)
    ensures FiredVector(ovf, events, latest) < WORD64
  {
    Pow2At64();
    VectorBound(ovf, events, latest, 64);
  }

  /** Every bit comes from some fired entry. */
  lemma {:induction false} BitIsFired(ovf: seq<OvfEntry>, events: seq<EventInfo>, latest: seq<int>, k: nat)
    requires Registered(ovf, events, latest) && Bit(FiredVector(ovf, events, latest), k)
    ensures exists i :: 0 <= i < |ovf| && Fired(ovf[i], latest) && FirstCounter(ovf[i], events) == k
  {
    if ovf == [] {
      ZeroBit(k);
    } else {
      var n := |ovf| - 1;
      var v, p := FiredVector(ovf[..n], events, latest), FirstCounter(ovf[n], events);
      BitXor(v, Pow2(p), k);
      BitPow2(p, k);
      if Bit(v, k) {
        BitIsFired(ovf[..n], events, latest, k);
        var i :| 0 <= i < n && Fired(ovf[..n][i], latest) && FirstCounter(ovf[..n][i], events) == k;
        assert ovf[i] == ovf[..n][i];
      }
    }
  }

  /** How many fired entries have this first counter. */
  ghost function FiredOn(ovf: seq<OvfEntry>, events: seq<EventInfo>, latest: seq<int>, k: nat): nat
    requires Registered(ovf, events, latest)
  {
    if ovf == [] then 0 else
      var n := |ovf| - 1;
      FiredOn(ovf[..n], events, latest, k) +
      if Fired(ovf[n], latest) && FirstCounter(ovf[n], events) == k then 1 else 0
  }

  /** A bit is set exactly if an odd number of fired entries have that first counter. */
  lemma {:induction false} BitIsParity(ovf: seq<OvfEntry>, events: seq<EventInfo>, latest: seq<int>, k: nat)
    requires Registered(ovf, events, latest)
    ensures Bit(FiredVector(ovf, events, latest), k) <==> FiredOn(ovf, events, latest, k) % 2 == 1
  {
    if ovf == [] {
      ZeroBit(k);
    } else {
      var n := |ovf| - 1;
      BitIsParity(ovf[..n], events, latest, k);
      BitXor(FiredVector(ovf[..n], events, latest), Pow2(FirstCounter(ovf[n], events)), k);
      BitPow2(FirstCounter(ovf[n], events), k);
    }
  }

  /** The first counters of the fired entries are different. */
  ghost predicate FiredApart(ovf: seq<OvfEntry>, events: seq<EventInfo>, latest: seq<int>)
    requires Registered(ovf, events, latest)
  {
    forall i, j | 0 <= i < j < |ovf| && Fired(ovf[i], latest) && Fired(ovf[j], latest) ::
      FirstCounter(ovf[i], events) != FirstCounter(ovf[j], events)
  }

  lemma {:induction false} BitNotFired(ovf: seq<OvfEntry>, events: seq<EventInfo>, latest: seq<int>, k: nat)
    requires Registered(ovf, events, latest)
    requires forall i :: 0 <= i < |ovf| && Fired(ovf[i], latest) ==> FirstCounter(ovf[i], events) != k
    ensures !Bit(FiredVector(ovf, events, latest), k)
  {
    if Bit(FiredVector(ovf, events, latest), k) { BitIsFired(ovf, events, latest, k); }
  }

  /** Then no two bits cancel: the vector has all those counters. */
  lemma {:induction false} FiredBits(ovf: seq<OvfEntry>, events: seq<EventInfo>, latest: seq<int>, i: nat)
    requires Registered(ovf, events, latest) && FiredApart(ovf, events, latest)
    requires i < |ovf| && Fired(ovf[i], latest)
    ensures Bit(FiredVector(ovf, events, latest), FirstCounter(ovf[i], events))
  {
    var n := |ovf| - 1;
    var v, k := FiredVector(ovf[..n], events, latest), FirstCounter(ovf[i], events);
    BitXor(v, Pow2(FirstCounter(ovf[n], events)), k);
    BitPow2(FirstCounter(ovf[n], events), k);
    if i < n {
      FiredBits(ovf[..n], events, latest, i);
    } else {
      BitNotFired(ovf[..n], events, latest, k);
    }
  }

  // ---------------------------------------------------------------- the drain

  /** The first entry one of whose terms is counter k, or |ovf|. */
  function Slot(ovf: seq<OvfEntry>, events: seq<EventInfo>, k: int): (j: nat)
    requires forall i :: 0 <= i < |ovf| ==> 0 <= ovf[i].index < |events|
    ensures j <= |ovf| && (j < |ovf| ==> HasPos(events[ovf[j].index], k))
    ensures forall i :: 0 <= i < j ==> !HasPos(events[ovf[i].index], k)
  {
    if ovf == [] || HasPos(events[ovf[0].index], k) then 0 else 1 + Slot(ovf[1..], events, k)
  }

  /** The (position, slot) pairs the drain goes through, and whether it got to the end. */
  function Drain(v: nat, ovf: seq<OvfEntry>, events: seq<EventInfo>): (r: (bool, seq<(nat, nat)>))
    requires forall i :: 0 <= i < |ovf| ==> 0 <= ovf[i].index < |events|
  {
    if v == 0 then (true, []) else
      ClearLeast(v);
      var k := Ffs(v) - 1;
      var j := Slot(ovf, events, k);
      if j == |ovf| then (false, []) else
        var (ok, rest) := Drain(Xor(v, Pow2(k)), ovf, events);
        (ok, [(k, j)] + rest)
  }

  /** d goes through exactly the bits of v, ascending, each with the entry that owns it. */
  ghost predicate Visits(d: seq<(nat, nat)>, v: nat, ovf: seq<OvfEntry>, events: seq<EventInfo>)
    requires forall i :: 0 <= i < |ovf| ==> 0 <= ovf[i].index < |events|
  {
    && (forall m :: 0 <= m < |d| ==> Bit(v, d[m].0) && d[m].1 == Slot(ovf, events, d[m].0))
    && (forall m, n :: 0 <= m < n < |d| ==> d[m].0 < d[n].0)
    && (forall k: nat :: Bit(v, k) ==> Has(d, k))
  }

  ghost predicate Has(d: seq<(nat, nat)>, k: nat) {
    exists m :: 0 <= m < |d| && d[m].0 == k
  }

  /** w is v without its least bit k0. */
  ghost predicate LessLeast(v: nat, w: nat, k0: nat) {
    && Bit(v, k0)
    && (forall k: nat :: Bit(w, k) <==> Bit(v, k) && k0 < k)
    && (forall k: nat :: Bit(v, k) ==> k0 <= k)
  }

  lemma {:induction false} HasFirst(first: (nat, nat), rest: seq<(nat, nat)>, k: nat)
    ensures Has([first] + rest, k) <==> k == first.0 || Has(rest, k)
  {
    var d := [first] + rest;
    if k == first.0 { assert d[0].0 == k; }
    if m :| 0 <= m < |rest| && rest[m].0 == k { assert d[m + 1].0 == k; }
  }

  /** Clearing the least bit leaves the others. */
  lemma {:induction false} WithoutLeast(v: nat, k: nat)
    requires v > 0
    ensures Ffs(v) > 0 && (Bit(Xor(v, Pow2(Ffs(v) - 1)), k) <==> Bit(v, k) && k != Ffs(v) - 1)
    ensures Bit(v, k) ==> Ffs(v) - 1 <= k
    ensures Bit(v, Ffs(v) - 1)
  {
    FfsLeast(v);
    BitXor(v, Pow2(Ffs(v) - 1), k);
    BitPow2(Ffs(v) - 1, k);
  }

  /** A visit of w, with first in front, visits v, if v is w and the lower bit of first. */
  lemma {:induction false} FirstThenRest(v: nat, w: nat, first: (nat, nat), rest: seq<(nat, nat)>,
                                         ovf: seq<OvfEntry>, events: seq<EventInfo>)
    requires forall i :: 0 <= i < |ovf| ==> 0 <= ovf[i].index < |events|
    requires Visits(rest, w, ovf, events) && first.1 == Slot(ovf, events, first.0) && LessLeast(v, w, first.0)
    ensures Visits([first] + rest, v, ovf, events)
  {
    forall k: nat | Bit(v, k) ensures Has([first] + rest, k) {
      HasFirst(first, rest, k);
    }
  }

  lemma {:induction false} VisitsLeastFirst(v: nat, rest: seq<(nat, nat)>, ovf: seq<OvfEntry>, events: seq<EventInfo>)
    requires forall i :: 0 <= i < |ovf| ==> 0 <= ovf[i].index < |events|
    requires v > 0 && Ffs(v) > 0 && Visits(rest, Xor(v, Pow2(Ffs(v) - 1)), ovf, events)
    ensures Visits([(Ffs(v) - 1, Slot(ovf, events, Ffs(v) - 1))] + rest, v, ovf, events)
  {
    var k0 := Ffs(v) - 1;
    LeastIsLess(v);
    FirstThenRest(v, Xor(v, Pow2(k0)), (k0, Slot(ovf, events, k0)), rest, ovf, events);
  }

  /** If every bit belongs to some entry the drain gets to the end and visits them all. */
  lemma {:induction false} DrainVisits(v: nat, ovf: seq<OvfEntry>, events: seq<EventInfo>)
    requires forall i :: 0 <= i < |ovf| ==> 0 <= ovf[i].index < |events|
    requires forall k: nat :: Bit(v, k) ==> Slot(ovf, events, k) < |ovf|
    ensures Drain(v, ovf, events).0 && Visits(Drain(v, ovf, events).1, v, ovf, events)
    decreases v
  {
    if v == 0 {
      forall k: nat ensures !Bit(v, k) { ZeroBit(k); }
    } else {
      ClearLeast(v);
      var w := Xor(v, Pow2(Ffs(v) - 1));
      WithoutLeast(v, 0);
      forall k: nat | Bit(w, k) ensures Bit(v, k) { WithoutLeast(v, k); }
      DrainVisits(w, ovf, events);
      VisitsLeastFirst(v, Drain(w, ovf, events).1, ovf, events);
    }
  }

  /** The bit belongs to an entry. */
  predicate Owned(ovf: seq<OvfEntry>, events: seq<EventInfo>, k: nat)
    requires forall i :: 0 <= i < |ovf| ==> 0 <= ovf[i].index < |events|
  {
    Slot(ovf, events, k) < |ovf|
  }

  /** Bits of v with the entries they belong to, ascending. */
  ghost predicate OwnedPairs(d: seq<(nat, nat)>, v: nat, ovf: seq<OvfEntry>, events: seq<EventInfo>)
    requires forall i :: 0 <= i < |ovf| ==> 0 <= ovf[i].index < |events|
  {
    && (forall m :: 0 <= m < |d| ==> Bit(v, d[m].0) && d[m].1 == Slot(ovf, events, d[m].0) < |ovf|)
    && (forall m, n :: 0 <= m < n < |d| ==> d[m].0 < d[n].0)
  }

  /** Bit k of v and all below it belong to entries. */
  ghost predicate OwnedUpTo(v: nat, ovf: seq<OvfEntry>, events: seq<EventInfo>, k: nat)
    requires forall i :: 0 <= i < |ovf| ==> 0 <= ovf[i].index < |events|
  {
    Bit(v, k) && forall j: nat :: j <= k && Bit(v, j) ==> Owned(ovf, events, j)
  }

  /** d goes through the bits of v below the first one that belongs to no entry, ascending. */
  ghost predicate VisitsOwned(d: seq<(nat, nat)>, v: nat, ovf: seq<OvfEntry>, events: seq<EventInfo>)
    requires forall i :: 0 <= i < |ovf| ==> 0 <= ovf[i].index < |events|
  {
    OwnedPairs(d, v, ovf, events) && forall k: nat :: Has(d, k) <==> OwnedUpTo(v, ovf, events, k)
  }

  lemma {:induction false} OwnedPast(v: nat, w: nat, k0: nat, ovf: seq<OvfEntry>, events: seq<EventInfo>, k: nat)
    requires forall i :: 0 <= i < |ovf| ==> 0 <= ovf[i].index < |events|
    requires LessLeast(v, w, k0) && Owned(ovf, events, k0)
    ensures OwnedUpTo(v, ovf, events, k) <==> k == k0 || OwnedUpTo(w, ovf, events, k)
  {}

  lemma {:induction false} FirstPairs(v: nat, w: nat, first: (nat, nat), rest: seq<(nat, nat)>,
                                      ovf: seq<OvfEntry>, events: seq<EventInfo>)
    requires forall i :: 0 <= i < |ovf| ==> 0 <= ovf[i].index < |events|
    requires OwnedPairs(rest, w, ovf, events) && first.1 == Slot(ovf, events, first.0) < |ovf|
    requires LessLeast(v, w, first.0)
    ensures OwnedPairs([first] + rest, v, ovf, events)
    ensures forall k: nat :: Has([first] + rest, k) <==> k == first.0 || Has(rest, k)
  {
    forall k: nat ensures Has([first] + rest, k) <==> k == first.0 || Has(rest, k) {
      HasFirst(first, rest, k);
    }
  }

  lemma {:induction false} LeastIsLess(v: nat)
    requires v > 0
    ensures Ffs(v) > 0 && LessLeast(v, Xor(v, Pow2(Ffs(v) - 1)), Ffs(v) - 1)
  {
    WithoutLeast(v, 0);
    forall k: nat
      ensures Bit(Xor(v, Pow2(Ffs(v) - 1)), k) <==> Bit(v, k) && Ffs(v) - 1 < k
      ensures Bit(v, k) ==> Ffs(v) - 1 <= k
    {
      WithoutLeast(v, k);
    }
  }

  /** Every bit of v belongs to an entry. */
  ghost predicate AllOwned(v: nat, ovf: seq<OvfEntry>, events: seq<EventInfo>)
    requires forall i :: 0 <= i < |ovf| ==> 0 <= ovf[i].index < |events|
  {
    forall k: nat :: Bit(v, k) ==> Owned(ovf, events, k)
  }

  lemma {:induction false} VisitsOneMore(v: nat, w: nat, first: (nat, nat), rest: seq<(nat, nat)>,
                                         ovf: seq<OvfEntry>, events: seq<EventInfo>)
    requires forall i :: 0 <= i < |ovf| ==> 0 <= ovf[i].index < |events|
    requires VisitsOwned(rest, w, ovf, events) && first.1 == Slot(ovf, events, first.0) < |ovf|
    requires LessLeast(v, w, first.0)
    ensures VisitsOwned([first] + rest, v, ovf, events)
  {
    FirstPairs(v, w, first, rest, ovf, events);
    forall k: nat ensures OwnedUpTo(v, ovf, events, k) <==> k == first.0 || OwnedUpTo(w, ovf, events, k) {
      OwnedPast(v, w, first.0, ovf, events, k);
    }
  }

  lemma {:induction false} VisitsNone(v: nat, w: nat, k0: nat, ovf: seq<OvfEntry>, events: seq<EventInfo>)
    requires forall i :: 0 <= i < |ovf| ==> 0 <= ovf[i].index < |events|
    requires LessLeast(v, w, k0) && !Owned(ovf, events, k0)
    ensures VisitsOwned([], v, ovf, events) && !AllOwned(v, ovf, events)
  {}

  /** For any vector: the drain goes through its bits up to the first that belongs to no entry, and
      gets to the end exactly if there is none. */
  lemma {:induction false} DrainExactly(v: nat, ovf: seq<OvfEntry>, events: seq<EventInfo>)
    requires forall i :: 0 <= i < |ovf| ==> 0 <= ovf[i].index < |events|
    ensures Drain(v, ovf, events).0 <==> AllOwned(v, ovf, events)
    ensures VisitsOwned(Drain(v, ovf, events).1, v, ovf, events)
    decreases v
  {
    if v == 0 {
      forall k: nat ensures !Bit(v, k) { ZeroBit(k); }
    } else {
      ClearLeast(v);
      var k0 := Ffs(v) - 1;
      var w := Xor(v, Pow2(k0));
      LeastIsLess(v);
      if Owned(ovf, events, k0) {
        DrainExactly(w, ovf, events);
        VisitsOneMore(v, w, (k0, Slot(ovf, events, k0)), Drain(w, ovf, events).1, ovf, events);
      } else {
        VisitsNone(v, w, k0, ovf, events);
      }
    }
  }

  // ---------------------------------------------------------------- the handler

  /** The samples of a drain: over is the excess of a software overflow, 0 for hardware. */
  function Samples(d: seq<(nat, nat)>, ovf: seq<OvfEntry>, latest: seq<int>, hardware: bool): (r: seq<Sample>)
    requires forall i :: 0 <= i < |ovf| ==> 0 <= ovf[i].index < |latest|
    requires forall m :: 0 <= m < |d| ==> d[m].1 < |ovf|
    ensures |r| == |d| && forall m :: 0 <= m < |d| ==> r[m].pos == d[m].0 && r[m].slot == d[m].1
  {
    seq(|d|, m requires 0 <= m < |d| =>
      Sample(d[m].0, d[m].1, if hardware then 0 else Excess(ovf[d[m].1], latest)))
  }

  /** What the scan leaves in temp for an entry. */
  function Excess(e: OvfEntry, latest: seq<int>): int
    requires 0 <= e.index < |latest|
  {
    if Fired(e, latest) then latest[e.index] - e.deadline else -1
  }

  /** Each position is paired with its slot. */
  ghost predicate InSlots(d: seq<(nat, nat)>, ovf: seq<OvfEntry>, events: seq<EventInfo>)
    requires forall i :: 0 <= i < |ovf| ==> 0 <= ovf[i].index < |events|
  {
    forall m :: 0 <= m < |d| ==> d[m].1 == Slot(ovf, events, d[m].0)
  }

  /** The drain pairs positions with existing slots, whether or not it gets to the end. */
  lemma {:induction false} DrainSlots(v: nat, ovf: seq<OvfEntry>, events: seq<EventInfo>)
    requires forall i :: 0 <= i < |ovf| ==> 0 <= ovf[i].index < |events|
    ensures forall m :: 0 <= m < |Drain(v, ovf, events).1| ==> Drain(v, ovf, events).1[m].1 < |ovf|
    ensures InSlots(Drain(v, ovf, events).1, ovf, events)
    decreases v
  {
    if v != 0 {
      ClearLeast(v);
      DrainSlots(Xor(v, Pow2(Ffs(v) - 1)), ovf, events);
    }
  }

  /** _papi_hwi_dispatch_overflow_signal for a running event set.  latest is what the counters
      read; hwVector is the overflow vector the component passes in when it has one. */
  ghost function SignalSpec(s: Tables, events: seq<EventInfo>, latest: seq<int>, hwVector: nat): (int, Tables, Outcome)
    requires Registered(s.ovf, events, latest)
  {
    if !s.overflowing then (PAPI_OK, s, Ignored)
    else
      var hw := s.ovfFlags.hardware;
      var v := if hw then hwVector else FiredVector(s.ovf, events, latest);
      var s' := if hw then s else s.(ovf := Ticked(s.ovf, latest));
      if !hw && !AnyFired(s.ovf, latest) then (PAPI_OK, s', Ignored)
      else if !s.profiling then (PAPI_OK, s', HandlerCalled(v))
      else
        var (ok, d) := Drain(v, s.ovf, events);
        DrainSlots(v, s.ovf, events);
        (if ok then PAPI_OK else PAPI_EBUG, s', Sampled(Samples(d, s.ovf, latest, hw)))
  }

  /** The sample is for a fired entry: its first counter, its own slot, its own excess. */
  ghost predicate OwnSample(x: Sample, ovf: seq<OvfEntry>, events: seq<EventInfo>, latest: seq<int>)
    requires Registered(ovf, events, latest)
  {
    && x.slot < |ovf| && Fired(ovf[x.slot], latest)
    && x.pos == events[ovf[x.slot].index].pos[0]
    && x.over == latest[ovf[x.slot].index] - ovf[x.slot].deadline >= 0
  }

  /** Each fired entry has a sample of its own; the positions ascend, so it has no second one. */
  ghost predicate OnePerFired(xs: seq<Sample>, ovf: seq<OvfEntry>, events: seq<EventInfo>, latest: seq<int>)
    requires Registered(ovf, events, latest)
  {
    && (forall m :: 0 <= m < |xs| ==> OwnSample(xs[m], ovf, events, latest))
    && (forall m, n :: 0 <= m < n < |xs| ==> xs[m].pos < xs[n].pos)
    && (forall i :: 0 <= i < |ovf| && Fired(ovf[i], latest) ==> exists m :: 0 <= m < |xs| && xs[m].slot == i)
  }

  /** What one software signal on a profiling set samples. */
  ghost function FiredSamples(ovf: seq<OvfEntry>, events: seq<EventInfo>, latest: seq<int>): seq<Sample>
    requires Registered(ovf, events, latest)
  {
    var d := Drain(FiredVector(ovf, events, latest), ovf, events).1;
    DrainSlots(FiredVector(ovf, events, latest), ovf, events);
    Samples(d, ovf, latest, false)
  }

  // ---------------------------------------------------------------- who gets which sample

  /** Each fired entry is the first with a term on its own first counter. */
  ghost predicate OwnSlots(ovf: seq<OvfEntry>, events: seq<EventInfo>, latest: seq<int>)
    requires Registered(ovf, events, latest)
  {
    forall i: nat :: i < |ovf| && Fired(ovf[i], latest) ==> Slot(ovf, events, FirstCounter(ovf[i], events)) == i
  }

  /** The same for all entries, fired or not: no earlier entry has a term there. */
  ghost predicate OwnCounters(ovf: seq<OvfEntry>, events: seq<EventInfo>)
    requires Placed(ovf, events)
  {
    forall i, j :: 0 <= i < j < |ovf| ==> !HasPos(events[ovf[i].index], FirstCounter(ovf[j], events))
  }

  /** A software overflow vector never holds a bit that belongs to no entry. */
  lemma {:induction false} SoftwareDrainEnds(ovf: seq<OvfEntry>, events: seq<EventInfo>, latest: seq<int>)
    requires Registered(ovf, events, latest)
    ensures var v := FiredVector(ovf, events, latest);
      Drain(v, ovf, events).0 && Visits(Drain(v, ovf, events).1, v, ovf, events)
  {
    var v := FiredVector(ovf, events, latest);
    forall k: nat | Bit(v, k) ensures Slot(ovf, events, k) < |ovf| {
      BitIsFired(ovf, events, latest, k);
      var i :| 0 <= i < |ovf| && Fired(ovf[i], latest) && FirstCounter(ovf[i], events) == k;
      assert HasPos(events[ovf[i].index], k);
    }
    DrainVisits(v, ovf, events);
  }

  lemma {:induction false} SlotsApart(ovf: seq<OvfEntry>, events: seq<EventInfo>, latest: seq<int>)
    requires Registered(ovf, events, latest) && OwnSlots(ovf, events, latest)
    ensures FiredApart(ovf, events, latest)
  {
    forall i: nat, j: nat | i < j < |ovf| && Fired(ovf[i], latest) && Fired(ovf[j], latest)
      ensures FirstCounter(ovf[i], events) != FirstCounter(ovf[j], events)
    {
      assert Slot(ovf, events, FirstCounter(ovf[i], events)) == i;
      assert Slot(ovf, events, FirstCounter(ovf[j], events)) == j;
    }
  }

  /** The slot of a bit of the vector is the fired entry that set it. */
  lemma {:induction false} OwnerFired(ovf: seq<OvfEntry>, events: seq<EventInfo>, latest: seq<int>, k: nat)
    requires Registered(ovf, events, latest) && OwnSlots(ovf, events, latest)
    requires Bit(FiredVector(ovf, events, latest), k)
    ensures var j := Slot(ovf, events, k);
      j < |ovf| && Fired(ovf[j], latest) && FirstCounter(ovf[j], events) == k
  {
    BitIsFired(ovf, events, latest, k);
    var i: nat :| i < |ovf| && Fired(ovf[i], latest) && FirstCounter(ovf[i], events) == k;
    assert Slot(ovf, events, FirstCounter(ovf[i], events)) == i;
  }

  lemma {:induction false} FiredIsVisited(d: seq<(nat, nat)>, ovf: seq<OvfEntry>, events: seq<EventInfo>,
                                          latest: seq<int>, i: nat)
    requires Registered(ovf, events, latest) && OwnSlots(ovf, events, latest)
    requires Visits(d, FiredVector(ovf, events, latest), ovf, events)
    requires i < |ovf| && Fired(ovf[i], latest)
    ensures exists m :: 0 <= m < |d| && d[m].1 == i
  {
    SlotsApart(ovf, events, latest);
    FiredBits(ovf, events, latest, i);
    var m :| 0 <= m < |d| && d[m].0 == FirstCounter(ovf[i], events);
    assert d[m].1 == i;
  }

  lemma {:induction false} OwnSlotsSample(ovf: seq<OvfEntry>, events: seq<EventInfo>, latest: seq<int>)
    requires Registered(ovf, events, latest) && OwnSlots(ovf, events, latest)
    ensures OnePerFired(FiredSamples(ovf, events, latest), ovf, events, latest)
  {
    var d := Drain(FiredVector(ovf, events, latest), ovf, events).1;
    var xs := FiredSamples(ovf, events, latest);
    SoftwareDrainEnds(ovf, events, latest);
    forall m | 0 <= m < |xs| ensures OwnSample(xs[m], ovf, events, latest) {
      OwnerFired(ovf, events, latest, d[m].0);
    }
    forall i: nat | i < |ovf| && Fired(ovf[i], latest) ensures exists m :: 0 <= m < |xs| && xs[m].slot == i {
      FiredIsVisited(d, ovf, events, latest, i);
      var m :| 0 <= m < |d| && d[m].1 == i;
      assert xs[m].slot == i;
    }
  }

  lemma {:induction false} SampleOwnsSlot(ovf: seq<OvfEntry>, events: seq<EventInfo>, latest: seq<int>)
    requires Registered(ovf, events, latest)
    requires OnePerFired(FiredSamples(ovf, events, latest), ovf, events, latest)
    ensures OwnSlots(ovf, events, latest)
  {
    var v := FiredVector(ovf, events, latest);
    var xs := FiredSamples(ovf, events, latest);
    DrainSlots(v, ovf, events);
    var d := Drain(v, ovf, events).1;
    forall i: nat | i < |ovf| && Fired(ovf[i], latest)
      ensures Slot(ovf, events, FirstCounter(ovf[i], events)) == i
    {
      var m :| 0 <= m < |xs| && xs[m].slot == i;
      assert OwnSample(xs[m], ovf, events, latest);
      assert d[m].1 == Slot(ovf, events, d[m].0);
    }
  }

  /** One software signal samples each entry past its deadline exactly once, with its own excess,
      exactly when each of them is the first entry with a term on its own first counter. */
  lemma {:induction false} SamplesExactly(ovf: seq<OvfEntry>, events: seq<EventInfo>, latest: seq<int>)
    requires Registered(ovf, events, latest)
    ensures Drain(FiredVector(ovf, events, latest), ovf, events).0
    ensures OnePerFired(FiredSamples(ovf, events, latest), ovf, events, latest) <==> OwnSlots(ovf, events, latest)
  {
    SoftwareDrainEnds(ovf, events, latest);
    if OwnSlots(ovf, events, latest) {
      OwnSlotsSample(ovf, events, latest);
    } else if OnePerFired(FiredSamples(ovf, events, latest), ovf, events, latest) {
      SampleOwnsSlot(ovf, events, latest);
    }
  }

  /** One entry owns its first counter's slot exactly when no earlier entry has a term there. */
  lemma {:induction false} OwnSlotMeans(ovf: seq<OvfEntry>, events: seq<EventInfo>, j: nat)
    requires Placed(ovf, events) && j < |ovf|
    ensures Slot(ovf, events, FirstCounter(ovf[j], events)) == j <==>
            forall i :: 0 <= i < j ==> !HasPos(events[ovf[i].index], FirstCounter(ovf[j], events))
  {
    assert HasPos(events[ovf[j].index], FirstCounter(ovf[j], events));
    if forall i :: 0 <= i < j ==> !HasPos(events[ovf[i].index], FirstCounter(ovf[j], events)) {
      SlotIs(ovf, events, FirstCounter(ovf[j], events), j);
    }
  }

  ghost predicate AlwaysSamples(ovf: seq<OvfEntry>, events: seq<EventInfo>)
    requires Placed(ovf, events)
  {
    forall latest: seq<int> :: |latest| == |events| ==>
      OnePerFired(FiredSamples(ovf, events, latest), ovf, events, latest)
  }

  /** A table samples correctly whatever the counters read exactly when no entry has a term on the
      first counter of a later entry. */
  lemma {:induction false} TableSamplesExactly(ovf: seq<OvfEntry>, events: seq<EventInfo>)
    requires Placed(ovf, events)
    ensures AlwaysSamples(ovf, events) <==> OwnCounters(ovf, events)
  {
    if OwnCounters(ovf, events) {
      forall latest: seq<int> | |latest| == |events|
        ensures OnePerFired(FiredSamples(ovf, events, latest), ovf, events, latest)
      {
        forall j: nat | j < |ovf| && Fired(ovf[j], latest)
          ensures Slot(ovf, events, FirstCounter(ovf[j], events)) == j
        {
          OwnSlotMeans(ovf, events, j);
        }
        SamplesExactly(ovf, events, latest);
      }
    } else {
      var i: nat, j: nat :| i < j < |ovf| && HasPos(events[ovf[i].index], FirstCounter(ovf[j], events));
      ForeignTermSpoils(ovf, events, i, j);
    }
  }

  /** An entry with a term on a later entry's first counter spoils the first signal on which the
      later one fires: it gets that sample itself, or the bits cancel. */
  lemma {:induction false} ForeignTermSpoils(ovf: seq<OvfEntry>, events: seq<EventInfo>, i: nat, j: nat)
    requires Placed(ovf, events) && i < j < |ovf|
    requires HasPos(events[ovf[i].index], FirstCounter(ovf[j], events))
    ensures !AlwaysSamples(ovf, events)
  {
    var latest := seq(|events|, _ => ovf[j].deadline);
    assert Fired(ovf[j], latest);
    OwnSlotMeans(ovf, events, j);
    SamplesExactly(ovf, events, latest);
  }

  /** A software overflow signal on tables in lock step dispatches each entry past its deadline
      exactly once, with its own excess and in increasing counter position, if and only if each of
      them owns its first counter's slot.  Whether or not, it does not end in PAPI_EBUG, every
      sample goes to the profile slot of the same event as its overflow slot, and the deadlines
      that passed are moved. */
  lemma {:induction false} SoftwareSignal(cmp: Component, s: Tables, events: seq<EventInfo>, latest: seq<int>)
    requires InStep(cmp, events, s) && s.profiling && !s.ovfFlags.hardware
    requires Registered(s.ovf, events, latest) && AnyFired(s.ovf, latest)
    ensures var (ret, s', out) := SignalSpec(s, events, latest, 0);
      && ret == PAPI_OK && out.Sampled?
      && (OnePerFired(out.samples, s.ovf, events, latest) <==> OwnSlots(s.ovf, events, latest))
      && (forall m :: 0 <= m < |out.samples| ==>
            out.samples[m].slot < |s.prof| && s.prof[out.samples[m].slot].code == s.ovf[out.samples[m].slot].code)
      && s' == s.(ovf := Ticked(s.ovf, latest))
  {
    SamplesExactly(s.ovf, events, latest);
    DrainSlots(FiredVector(s.ovf, events, latest), s.ovf, events);
  }

  /** What becomes of a signal otherwise.  A set that does not overflow ignores it, as does one in
      software none of whose entries is past its deadline; one that does not profile hands its
      handler the vector: the bits of the entries past their deadline, or what the hardware says,
      in which case no deadline moves. */
  lemma {:induction false} OtherSignals(s: Tables, events: seq<EventInfo>, latest: seq<int>, hwVector: nat)
    requires Registered(s.ovf, events, latest)
    ensures var (ret, s', out) := SignalSpec(s, events, latest, hwVector);
      && (!s.overflowing ==> ret == PAPI_OK && s' == s && out == Ignored)
      && (s.overflowing && s.ovfFlags.hardware ==> s' == s)
      && (s.overflowing && !s.ovfFlags.hardware ==> s' == s.(ovf := Ticked(s.ovf, latest)))
      && (s.overflowing && !s.ovfFlags.hardware && !AnyFired(s.ovf, latest) ==> ret == PAPI_OK && out == Ignored)
      && (s.overflowing && s.ovfFlags.hardware && !s.profiling ==> ret == PAPI_OK && out == HandlerCalled(hwVector))
      && (s.overflowing && !s.ovfFlags.hardware && AnyFired(s.ovf, latest) && !s.profiling ==>
            ret == PAPI_OK && out.HandlerCalled?
            && forall k: nat :: Bit(out.vector, k) <==> FiredOn(s.ovf, events, latest, k) % 2 == 1)
  {
    forall k: nat ensures Bit(FiredVector(s.ovf, events, latest), k) <==> FiredOn(s.ovf, events, latest, k) % 2 == 1 {
      BitIsParity(s.ovf, events, latest, k);
    }
  }

  /** A hardware signal on a profiling set samples, without excess and in ascending order, the bits
      of its vector up to the first one that belongs to no entry, each into its slot, and ends in
      PAPI_EBUG exactly if there is such a bit. */
  lemma {:induction false} HardwareSignal(s: Tables, events: seq<EventInfo>, latest: seq<int>, hwVector: nat)
    requires Registered(s.ovf, events, latest) && s.overflowing && s.profiling && s.ovfFlags.hardware
    ensures var (ret, s', out) := SignalSpec(s, events, latest, hwVector);
      && s' == s && out.Sampled? && ret in {PAPI_OK, PAPI_EBUG}
      && (ret == PAPI_OK <==> AllOwned(hwVector, s.ovf, events))
      && VisitsOwned(Pairs(out.samples), hwVector, s.ovf, events)
      && forall m :: 0 <= m < |out.samples| ==> out.samples[m].over == 0
  {
    DrainExactly(hwVector, s.ovf, events);
    DrainSlots(hwVector, s.ovf, events);
    var d := Drain(hwVector, s.ovf, events).1;
    assert Pairs(Samples(d, s.ovf, latest, true)) == d;
  }

  function Pairs(xs: seq<Sample>): (d: seq<(nat, nat)>)
    ensures |d| == |xs| && forall m :: 0 <= m < |d| ==> d[m] == (xs[m].pos, xs[m].slot)
  {
    seq(|xs|, m requires 0 <= m < |xs| => (xs[m].pos, xs[m].slot))
  }

  /** In particular entries that share no counter at all are always sampled correctly. */
  lemma {:induction false} DisjointIsEnough(ovf: seq<OvfEntry>, events: seq<EventInfo>)
    requires Placed(ovf, events)
    requires forall i, j, k | 0 <= i < |ovf| && 0 <= j < |ovf| && i != j ::
      HasPos(events[ovf[i].index], k) ==> !HasPos(events[ovf[j].index], k)
    ensures AlwaysSamples(ovf, events)
  {
    forall i, j | 0 <= i < j < |ovf| ensures !HasPos(events[ovf[i].index], FirstCounter(ovf[j], events)) {
      assert HasPos(events[ovf[j].index], FirstCounter(ovf[j], events));
    }
    TableSamplesExactly(ovf, events);
  }

  /** One way to fail: two fired entries with the same first counter cancel each other in the
      vector, and a profiling set takes no sample for either. */
  lemma {:induction false} SharedPositionCancels(s: Tables, events: seq<EventInfo>, latest: seq<int>)
    requires Registered(s.ovf, events, latest) && |s.ovf| == 2
    requires s.overflowing && s.profiling && !s.ovfFlags.hardware
    requires Fired(s.ovf[0], latest) && Fired(s.ovf[1], latest)
    requires FirstCounter(s.ovf[0], events) == FirstCounter(s.ovf[1], events)
    ensures SignalSpec(s, events, latest, 0).2 == Outcome.Sampled([])
  {
    var p := Pow2(FirstCounter(s.ovf[0], events));
    var one := s.ovf[..1];
    assert one[..0] == [] && one[0] == s.ovf[0];
    assert FiredVector(one[..0], events, latest) == 0;
    XorZero(p);
    assert FiredVector(one, events, latest) == p;
    XorSelf(p);
    assert FiredVector(s.ovf, events, latest) == 0;
    assert Drain(0, s.ovf, events) == (true, []);
    assert Samples([], s.ovf, latest, false) == [];
  }

  /** The other: of two entries, only the second fires, and the first has a later term on its
      counter.  The sample goes to the first, which has not fired, with an excess of -1. */
  lemma {:induction false} ForeignTermTakesSample(s: Tables, events: seq<EventInfo>, latest: seq<int>)
    requires Registered(s.ovf, events, latest) && |s.ovf| == 2
    requires s.overflowing && s.profiling && !s.ovfFlags.hardware
    requires !Fired(s.ovf[0], latest) && Fired(s.ovf[1], latest)
    requires HasPos(events[s.ovf[0].index], FirstCounter(s.ovf[1], events))
    ensures SignalSpec(s, events, latest, 0).2 == Outcome.Sampled([Sample(FirstCounter(s.ovf[1], events), 0, -1)])
  {
    var k: nat := FirstCounter(s.ovf[1], events);
    var one := s.ovf[..1];
    assert one[..0] == [] && one[0] == s.ovf[0];
    assert FiredVector(one, events, latest) == 0;
    XorZero(Pow2(k));
    SlotIs(s.ovf, events, k, 0);
    DrainOne(s.ovf, events, k);
    assert Samples([(k, 0)], s.ovf, latest, false) == [Sample(k, 0, -1)];
  }

  lemma {:induction false} DrainOne(ovf: seq<OvfEntry>, events: seq<EventInfo>, k: nat)
    requires forall i :: 0 <= i < |ovf| ==> 0 <= ovf[i].index < |events|
    requires Slot(ovf, events, k) < |ovf|
    ensures Drain(Pow2(k), ovf, events) == (true, [(k, Slot(ovf, events, k))])
  {
    FfsPow2(k);
    XorSelf(Pow2(k));
    assert Drain(0, ovf, events) == (true, []);
    var pair := (k, Slot(ovf, events, k));
    assert Drain(Pow2(k), ovf, events) == (true, [pair] + []);
    assert [pair] + [] == [pair];
  }

  lemma {:induction false} SlotIs(ovf: seq<OvfEntry>, events: seq<EventInfo>, k: int, j: nat)
    requires forall i :: 0 <= i < |ovf| ==> 0 <= ovf[i].index < |events|
    requires j <= |ovf| && (j < |ovf| ==> HasPos(events[ovf[j].index], k))
    requires forall i :: 0 <= i < j ==> !HasPos(events[ovf[i].index], k)
    ensures Slot(ovf, events, k) == j
  {
    var s := Slot(ovf, events, k);
    assert !(s < j) && !(j < s);
  }

  // ---------------------------------------------------------------- runs of ticks

  predicate Covers(ovf: seq<OvfEntry>, latest: seq<int>) {
    forall i :: 0 <= i < |ovf| ==> 0 <= ovf[i].index < |latest|
  }

  ghost predicate Readable(ovf: seq<OvfEntry>, rs: seq<seq<int>>) {
    forall n :: 0 <= n < |rs| ==> Covers(ovf, rs[n])
  }

  /** The table after a software tick for each of a sequence of counter readings. */
  function AfterTicks(ovf: seq<OvfEntry>, rs: seq<seq<int>>): (r: seq<OvfEntry>)
    requires Readable(ovf, rs)
    ensures |r| == |ovf|
    ensures forall i :: 0 <= i < |r| ==> r[i].index == ovf[i].index && r[i].threshold == ovf[i].threshold
  {
    if rs == [] then ovf else Ticked(AfterTicks(ovf, rs[..|rs| - 1]), rs[|rs| - 1])
  }

  /** How often entry i has fired. */
  function Firings(ovf: seq<OvfEntry>, rs: seq<seq<int>>, i: nat): nat
    requires Readable(ovf, rs) && i < |ovf|
  {
    if rs == [] then 0 else
      var before := rs[..|rs| - 1];
      Firings(ovf, before, i) + if Fired(AfterTicks(ovf, before)[i], rs[|rs| - 1]) then 1 else 0
  }

  predicate CountIn(r: seq<int>, index: int) {
    InReading(r, index) && r[index] >= 0
  }

  /** A counter that starts at zero or above and never decreases. */
  ghost predicate Counts(rs: seq<seq<int>>, index: int) {
    && (forall n :: 0 <= n < |rs| ==> CountIn(rs[n], index))
    && (forall m, n :: 0 <= m < n < |rs| ==>
          CountIn(rs[m], index) && CountIn(rs[n], index) && rs[m][index] <= rs[n][index])
  }

  lemma {:induction false} CountsPrefix(rs: seq<seq<int>>, index: int)
    requires rs != [] && Counts(rs, index)
    ensures var n := |rs| - 1;
      && Counts(rs[..n], index) && CountIn(rs[n], index)
      && (n > 0 ==> rs[..n][n - 1][index] <= rs[n][index])
  {}

  lemma {:induction false} AfterOneMore(ovf: seq<OvfEntry>, rs: seq<seq<int>>, i: nat)
    requires Readable(ovf, rs) && i < |ovf| && rs != []
    ensures var n := |rs| - 1;
      && Readable(ovf, rs[..n]) && Covers(ovf, rs[n])
      && AfterTicks(ovf, rs)[i] == TickedEntry(AfterTicks(ovf, rs[..n])[i], rs[n])
      && Firings(ovf, rs, i) == Firings(ovf, rs[..n], i) + if Fired(AfterTicks(ovf, rs[..n])[i], rs[n]) then 1 else 0
  {}

  /** One tick: f firings so far, threshold t, deadline d, count x. */
  lemma {:induction false} WarrantStep(f: nat, t: int, d: int, x: int)
    requires t > 0 && (f + 1) * t <= d <= x
    ensures (f + 2) * t <= x + t && (f + 1) * t <= x
  {
    assert (f + 2) * t == (f + 1) * t + t;
  }

  /** Between registration and any later tick, an entry fires no more often than its count
      warrants, and after every tick its deadline lies strictly ahead of the count. */
  lemma {:induction false} FiringsAreWarranted(ovf: seq<OvfEntry>, rs: seq<seq<int>>, i: nat)
    requires Readable(ovf, rs) && i < |ovf| && Counts(rs, ovf[i].index)
    requires ovf[i].deadline == ovf[i].threshold > 0
    ensures var d := AfterTicks(ovf, rs)[i].deadline;
      && (Firings(ovf, rs, i) + 1) * ovf[i].threshold <= d
      && (rs != [] ==> rs[|rs| - 1][ovf[i].index] < d
                       && Firings(ovf, rs, i) * ovf[i].threshold <= rs[|rs| - 1][ovf[i].index])
  {
    if rs != [] {
      var n := |rs| - 1;
      CountsPrefix(rs, ovf[i].index);
      AfterOneMore(ovf, rs, i);
      FiringsAreWarranted(ovf, rs[..n], i);
      var d, x := AfterTicks(ovf, rs[..n])[i].deadline, rs[n][ovf[i].index];
      if x >= d {
        WarrantStep(Firings(ovf, rs[..n], i), ovf[i].threshold, d, x);
      }
    }
  }

  predicate InReading(r: seq<int>, index: int) {
    0 <= index < |r|
  }

  /** One event's counts in a sequence of readings. */
  function CountsOf(rs: seq<seq<int>>, index: int): (xs: seq<int>)
    requires forall n :: 0 <= n < |rs| ==> InReading(rs[n], index)
    ensures |xs| == |rs| && forall n :: 0 <= n < |xs| ==> InReading(rs[n], index) && xs[n] == rs[n][index]
  {
    seq(|rs|, n requires 0 <= n < |rs| && InReading(rs[n], index) => rs[n][index])
  }

  /** The count from which the next firing is measured: 0 at first, and the count itself each time
      it is a threshold or more ahead. */
  function Base(threshold: int, xs: seq<int>): int {
    if xs == [] then 0 else
      var b, x := Base(threshold, xs[..|xs| - 1]), xs[|xs| - 1];
      if x - b >= threshold then x else b
  }

  /** How often it is. */
  function Renewals(threshold: int, xs: seq<int>): nat {
    if xs == [] then 0 else
      Renewals(threshold, xs[..|xs| - 1]) +
      if xs[|xs| - 1] - Base(threshold, xs[..|xs| - 1]) >= threshold then 1 else 0
  }

  /** Over any run of ticks an entry fires exactly when its count has come a threshold or more ahead
      of the count at its last firing, and its deadline is always one threshold ahead of that. */
  lemma {:induction false} FiringsExactly(ovf: seq<OvfEntry>, rs: seq<seq<int>>, i: nat)
    requires Readable(ovf, rs) && i < |ovf| && ovf[i].deadline == ovf[i].threshold
    requires forall n :: 0 <= n < |rs| ==> InReading(rs[n], ovf[i].index)
    ensures var xs := CountsOf(rs, ovf[i].index);
      && AfterTicks(ovf, rs)[i].deadline == Base(ovf[i].threshold, xs) + ovf[i].threshold
      && Firings(ovf, rs, i) == Renewals(ovf[i].threshold, xs)
  {
    if rs != [] {
      var n := |rs| - 1;
      AfterOneMore(ovf, rs, i);
      FiringsExactly(ovf, rs[..n], i);
      assert CountsOf(rs, ovf[i].index)[..n] == CountsOf(rs[..n], ovf[i].index);
    }
  }

  /** The entry a PAPI_overflow call has made or replaced fires like that from its first tick on:
      exactly as often as its count comes a threshold ahead, and so no more often than warranted. */
  lemma {:induction false} OverflowThenTicks(cmp: Component, events: seq<EventInfo>, s: Tables, c: OvfCall,
                                             rs: seq<seq<int>>)
    requires Distinct(OvfCodes(s.ovf)) && OverflowChecks(cmp, events, s, c) == PAPI_OK && c.threshold > 0
    requires Readable(OverflowSpec(cmp, events, s, c).1.ovf, rs)
    requires Counts(rs, IndexOfCode(events, c.code))
    ensures var ovf := OverflowSpec(cmp, events, s, c).1.ovf;
      var i := FindCode(OvfCodes(ovf), c.code);
      var xs := CountsOf(rs, IndexOfCode(events, c.code));
      && i < |ovf| && ovf[i].code == c.code
      && AfterTicks(ovf, rs)[i].deadline == Base(c.threshold, xs) + c.threshold
      && Firings(ovf, rs, i) == Renewals(c.threshold, xs)
      && (rs != [] ==> Firings(ovf, rs, i) * c.threshold <= xs[|rs| - 1] < AfterTicks(ovf, rs)[i].deadline)
  {
    OverflowLeaves(cmp, events, s, c, c.code);
    var ovf := OverflowSpec(cmp, events, s, c).1.ovf;
    var i := FindCode(OvfCodes(ovf), c.code);
    FiringsExactly(ovf, rs, i);
    FiringsAreWarranted(ovf, rs, i);
  }
}
