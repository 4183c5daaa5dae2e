/** The recursive counter allocator of src/papi_bipartite.h.

    An event is the pair of fields the allocator's helpers work on: the set of counters it
    may live on (ra_selector, a bit set in C) and its rank.  The helpers are those of
    src/components/perfctr/perfctr-x86.c without the Pentium 4 escr and pebs fields. */
module BipartiteAlloc {
  import opened Assignments
  import opened Counting

  datatype RegAlloc = RegAlloc(selector: set<nat>, rank: nat)

  predicate MapAvail(dst: RegAlloc, ctr: nat) { ctr in dst.selector }

  function MapSet(dst: RegAlloc, ctr: nat): RegAlloc { RegAlloc({ctr}, 1) }

  predicate MapExclusive(dst: RegAlloc) { dst.rank == 1 }

  predicate MapShared(dst: RegAlloc, src: RegAlloc) { dst.selector * src.selector != {} }

  function MapPreempt(dst: RegAlloc, src: RegAlloc): RegAlloc {
    var s := dst.selector - src.selector;
    RegAlloc(s, |s|)
  }

  /** Copies the selector only: the rank of dst is left as it was. */
  function MapUpdate(dst: RegAlloc, src: RegAlloc): RegAlloc { dst.(selector := src.selector) }

  function Sels(es: seq<RegAlloc>): (s: seq<set<nat>>)
    ensures |s| == |es| && forall i :: 0 <= i < |es| ==> s[i] == es[i].selector
  {
    seq(|es|, i requires 0 <= i < |es| => es[i].selector)
  }

  /** Each rank is the number of counters the event can still live on. */
  ghost predicate WellRanked(es: seq<RegAlloc>) {
    forall i :: 0 <= i < |es| ==> es[i].rank == |es[i].selector|
  }

  ghost predicate InRange(es: seq<RegAlloc>, numCntrs: nat) {
    forall i, c :: 0 <= i < |es| && c in es[i].selector ==> c < numCntrs
  }

  /** The least assignment of s exists and t is what it leaves of each event's set. */
  ghost predicate Allocated(s: seq<set<nat>>, t: seq<set<nat>>) {
    exists a :: IsLeast(a, s) && CutTo(a, t)
  }

  /** What an allocation is: every event is left with one counter of its own set, no two events
      with the same one, and no other list of sets is an allocation of the same input. */
  lemma {:induction false} AllocatedMeans(s: seq<set<nat>>, t: seq<set<nat>>, u: seq<set<nat>>)
    requires Allocated(s, t)
    ensures |t| == |s| && forall i :: 0 <= i < |t| ==> |t[i]| == 1 && t[i] <= s[i]
    ensures forall i, j :: 0 <= i < j < |t| ==> t[i] * t[j] == {}
    ensures Allocated(s, u) <==> u == t
  {
    var a :| IsLeast(a, s) && CutTo(a, t);
    if Allocated(s, u) {
      var b :| IsLeast(b, s) && CutTo(b, u);
      LeastUnique(a, b, s);
    }
  }

  /** es1 is es0 with counters taken away that no assignment uses. */
  ghost predicate Narrowed(es0: seq<RegAlloc>, es1: seq<RegAlloc>) {
    && |es0| == |es1|
    && (forall i :: 0 <= i < |es0| ==> es1[i].selector <= es0[i].selector)
    && (forall i :: 0 <= i < |es0| && MapExclusive(es0[i]) ==> MapExclusive(es1[i]))
    && SameAssignments(Sels(es0), Sels(es1))
  }

  /** The events not confined to one counter; their number bounds the depth of recursion. */
  ghost function Undecided(es: seq<RegAlloc>): set<nat> {
    set i: nat | i < |es| && !MapExclusive(es[i])
  }

  // ---------------------------------------------------------------- the work queue

  /** The queue holds exactly the events with one counter, each once. */
  ghost predicate Queued(es: seq<RegAlloc>, q: seq<int>) {
    && (forall k :: 0 <= k < |q| ==> 0 <= q[k] < |es|)
    && Distinct(q)
    && (forall i :: 0 <= i < |es| ==> (MapExclusive(es[i]) <==> i in q))
  }

  /** The counter of event p is in no other event's set, for the first i events. */
  ghost predicate ClearedUpTo(es: seq<RegAlloc>, p: int, i: nat)
    requires 0 <= p < |es| && i <= |es|
  {
    forall j :: 0 <= j < i && j != p ==> !MapShared(es[j], es[p])
  }

  /** The first h queued events have been dealt with. */
  ghost predicate Propagated(es: seq<RegAlloc>, q: seq<int>, h: nat) {
    && WellRanked(es)
    && Queued(es, q)
    && h <= |q|
    && forall k :: 0 <= k < h ==> ClearedUpTo(es, q[k], |es|)
  }

  // ---------------------------------------------------------------- one propagation step

  /** The queue after event i was narrowed: i joins it if one counter is left. */
  function Enqueue(q: seq<int>, e: RegAlloc, i: int): seq<int> {
    if MapExclusive(e) then q + [i] else q
  }

  /** What the preempted event loses no assignment uses. */
  lemma {:induction false} PreemptNarrows(es: seq<RegAlloc>, p: nat, i: nat)
    requires WellRanked(es) && p < |es| && i < |es| && i != p
    requires MapExclusive(es[p]) && !MapExclusive(es[i])
    ensures Narrowed(es, es[i := MapPreempt(es[i], es[p])])
  {
    var es' := es[i := MapPreempt(es[i], es[p])];
    assert Sels(es') == Sels(es)[i := Sels(es)[i] - Sels(es)[p]];
    StrikeKeeps(Sels(es), i, p);
  }

  lemma {:induction false} PreemptQueues(es: seq<RegAlloc>, q: seq<int>, i: nat, e: RegAlloc)
    requires Queued(es, q) && i < |es| && !MapExclusive(es[i])
    ensures i !in q && Queued(es[i := e], Enqueue(q, e, i))
  {
    assert i !in q;
    var q', es' := Enqueue(q, e, i), es[i := e];
    assert forall k :: k in q ==> k in q';
    forall j | 0 <= j < |es'| ensures MapExclusive(es'[j]) <==> j in q' {
      if j != i { assert j in q' <==> j in q; }
    }
  }

  lemma {:induction false} ShrinkCleared(es: seq<RegAlloc>, p: int, n: nat, i: nat, e: RegAlloc)
    requires 0 <= p < |es| && i < |es| && i != p && n <= |es| && ClearedUpTo(es, p, n)
    requires e.selector <= es[i].selector
    ensures ClearedUpTo(es[i := e], p, n)
  {
    var es' := es[i := e];
    forall j | 0 <= j < n && j != p ensures !MapShared(es'[j], es'[p]) {
      assert !MapShared(es[j], es[p]);
      assert es'[j].selector * es'[p].selector <= es[j].selector * es[p].selector;
    }
  }

  lemma {:induction false} PreemptStep(es: seq<RegAlloc>, q: seq<int>, h: nat, i: nat)
    requires Propagated(es, q, h) && h < |q| && i < |es| && i != q[h]
    requires ClearedUpTo(es, q[h], i)
    requires !MapExclusive(es[i])
    ensures var e := MapPreempt(es[i], es[q[h]]);
            && Propagated(es[i := e], Enqueue(q, e, i), h)
            && ClearedUpTo(es[i := e], q[h], i + 1)
            && |q| < |es|
  {
    var p := q[h];
    var e := MapPreempt(es[i], es[p]);
    var es' := es[i := e];
    PreemptQueues(es, q, i, e);
    DistinctBelow(q, |es|);
    assert i in UpTo(|es|);
    forall k | 0 <= k < h ensures ClearedUpTo(es', q[k], |es'|) {
      assert q[k] in q;
      ShrinkCleared(es, q[k], |es|, i, e);
    }
    ShrinkCleared(es, p, i, i, e);
    assert e.selector * es[p].selector == {};
  }

  lemma {:induction false} NarrowedTrans(a: seq<RegAlloc>, b: seq<RegAlloc>, c: seq<RegAlloc>)
    requires Narrowed(a, b) && Narrowed(b, c)
    ensures Narrowed(a, c)
  {}

  lemma {:induction false} NarrowedInfeasible(a: seq<RegAlloc>, b: seq<RegAlloc>)
    requires Narrowed(a, b)
    ensures Feasible(Sels(a)) <==> Feasible(Sels(b))
  {
    assert forall x :: IsAssignment(x, Sels(a)) <==> IsAssignment(x, Sels(b));
  }

  /** The scan for the event at position head of the queue has passed the first i events. */
  ghost predicate Scanned(es0: seq<RegAlloc>, es: seq<RegAlloc>, q: seq<int>, head: nat, i: nat) {
    && head < |q| && i <= |es| && Propagated(es, q, head)
    && ClearedUpTo(es, q[head], i) && Narrowed(es0, es)
  }

  lemma {:induction false} ScanPast(es0: seq<RegAlloc>, es: seq<RegAlloc>, q: seq<int>, head: nat, i: nat)
    requires Scanned(es0, es, q, head, i) && i < |es|
    requires i == q[head] || !MapShared(es[i], es[q[head]])
    ensures Scanned(es0, es, q, head, i + 1)
  {}

  lemma {:induction false} ScanPreempt(es0: seq<RegAlloc>, es: seq<RegAlloc>, q: seq<int>, head: nat, i: nat)
    requires Scanned(es0, es, q, head, i) && i < |es| && i != q[head] && !MapExclusive(es[i])
    ensures var e := MapPreempt(es[i], es[q[head]]);
      Scanned(es0, es[i := e], Enqueue(q, e, i), head, i + 1) && |q| < |es|
  {
    PreemptStep(es, q, head, i);
    PreemptNarrows(es, q[head], i);
    NarrowedTrans(es0, es, es[i := MapPreempt(es[i], es[q[head]])]);
  }

  lemma {:induction false} ScanClash(es0: seq<RegAlloc>, es: seq<RegAlloc>, q: seq<int>, head: nat, i: nat)
    requires Scanned(es0, es, q, head, i) && i < |es| && i != q[head]
    requires MapShared(es[i], es[q[head]]) && MapExclusive(es[i])
    ensures !Feasible(Sels(es0))
  {
    ClashInfeasible(Sels(es), i, q[head]);
    NarrowedInfeasible(es0, es);
  }

  lemma {:induction false} ScanDone(es0: seq<RegAlloc>, es: seq<RegAlloc>, q: seq<int>, head: nat)
    requires Scanned(es0, es, q, head, |es|)
    ensures Propagated(es, q, head + 1) && Narrowed(es0, es)
  {}

  /** The scan over all events for the one at the head of the queue. */
  method ScanHead(eventList: array<RegAlloc>, count: nat, idxQ: array<int>, head: nat, tail0: nat)
    returns (ok: bool, tail: nat)
    requires count <= eventList.Length && idxQ.Length == count && head < tail0 <= count
    requires Propagated(eventList[..count], idxQ[..tail0], head)
    modifies eventList, idxQ
    ensures tail0 <= tail <= count && idxQ[..tail0] == old(idxQ[..tail0])
    ensures eventList[count..] == old(eventList[count..])
    ensures ok ==> Propagated(eventList[..count], idxQ[..tail], head + 1)
    ensures ok ==> Narrowed(old(eventList[..count]), eventList[..count])
    ensures !ok ==> !Feasible(Sels(old(eventList[..count])))
  {
    tail := tail0;
    ghost var es0 := eventList[..count];
    for i := 0 to count
      invariant tail0 <= tail <= count && idxQ[..tail0] == old(idxQ[..tail0])
      invariant eventList[count..] == old(eventList[count..])
      invariant Scanned(es0, eventList[..count], idxQ[..tail], head, i)
    {
      ghost var before := tail;
      ok, tail := ScanEvent(eventList, count, idxQ, head, tail, i, es0);
      assert idxQ[..tail0] == idxQ[..before][..tail0];
      if !ok {
        return;
      }
    }
    ScanDone(es0, eventList[..count], idxQ[..tail], head);
    ok := true;
  }

  /** One event of the scan. */
  method ScanEvent(eventList: array<RegAlloc>, count: nat, idxQ: array<int>, head: nat, tail0: nat, i: nat,
                   ghost es0: seq<RegAlloc>)
    returns (ok: bool, tail: nat)
    requires i < count <= eventList.Length && idxQ.Length == count && head < tail0 <= count
    requires Scanned(es0, eventList[..count], idxQ[..tail0], head, i)
    modifies eventList, idxQ
    ensures tail0 <= tail <= count && idxQ[..tail0] == old(idxQ[..tail0])
    ensures eventList[count..] == old(eventList[count..])
    ensures ok ==> Scanned(es0, eventList[..count], idxQ[..tail], head, i + 1)
    ensures !ok ==> !Feasible(Sels(es0))
  {
    ghost var es, q := eventList[..count], idxQ[..tail0];
    var p := idxQ[head];
    assert p == q[head] && eventList[i] == es[i] && eventList[p] == es[p];
    if i != p && MapShared(eventList[i], eventList[p]) {
      if MapExclusive(eventList[i]) {
        ScanClash(es0, es, q, head, i);
        return false, tail0;
      }
      ScanPreempt(es0, es, q, head, i);
      tail := Preempt(eventList, count, idxQ, tail0, i, p);
    } else {
      ScanPast(es0, es, q, head, i);
      tail := tail0;
    }
    ok := true;
  }

  /** Takes event p's counter from event i, which joins the queue if one counter is left. */
  method Preempt(eventList: array<RegAlloc>, count: nat, idxQ: array<int>, tail0: nat, i: nat, p: nat)
    returns (tail: nat)
    requires i < count <= eventList.Length && p < count && tail0 < idxQ.Length == count
    modifies eventList, idxQ
    ensures var e := MapPreempt(old(eventList[i]), old(eventList[p]));
      && eventList[..count] == old(eventList[..count])[i := e]
      && tail0 <= tail <= count && idxQ[..tail] == Enqueue(old(idxQ[..tail0]), e, i)
    ensures idxQ[..tail0] == old(idxQ[..tail0]) && eventList[count..] == old(eventList[count..])
  {
    tail := tail0;
    eventList[i] := MapPreempt(eventList[i], eventList[p]);
    if MapExclusive(eventList[i]) {
      idxQ[tail] := i;
      tail := tail + 1;
    }
  }

  // ---------------------------------------------------------------- the whole propagation

  /** Collects the events that start out with one counter. */
  method BuildQueue(eventList: array<RegAlloc>, count: nat, idxQ: array<int>, mapQ: array<int>)
    returns (tail: nat)
    requires count <= eventList.Length && idxQ.Length == mapQ.Length == count && idxQ != mapQ
    modifies idxQ, mapQ
    ensures tail <= count && Queued(eventList[..count], idxQ[..tail])
    ensures forall i :: 0 <= i < count ==> mapQ[i] == 0
  {
    tail := 0;
    for i := 0 to count
      invariant tail <= i
      invariant forall j :: 0 <= j < i ==> mapQ[j] == 0
      invariant Queued(eventList[..i], idxQ[..tail])
    {
      mapQ[i] := 0;
      ghost var q := idxQ[..tail];
      QueueNext(eventList[..count], q, i);
      if MapExclusive(eventList[i]) {
        idxQ[tail] := i;
        tail := tail + 1;
        assert idxQ[..tail] == q + [i];
      }
      assert eventList[..i + 1] == eventList[..i] + [eventList[i]];
    }
  }

  lemma {:induction false} QueueNext(es: seq<RegAlloc>, q: seq<int>, i: nat)
    requires i < |es| && Queued(es[..i], q)
    ensures Queued(es[..i] + [es[i]], Enqueue(q, es[i], i))
  {
    var q' := Enqueue(q, es[i], i);
    forall j | 0 <= j < i + 1 ensures MapExclusive(es[j]) <==> j in q' {
      if j < i {
        assert es[..i][j] == es[j] && (j in q' <==> j in q);
      } else {
        assert i !in q;
      }
    }
  }

  /** An event is marked when its queue entry has been taken. */
  ghost predicate Marked(m: seq<int>, q: seq<int>) {
    forall i :: 0 <= i < |m| ==> (m[i] != 0 <==> i in q)
  }

  /** Runs the queue dry.  Afterwards every event with one counter is marked and nobody else
      can use that counter; the assignments possible are the same as before. */
  method Propagate(eventList: array<RegAlloc>, count: nat, idxQ: array<int>, mapQ: array<int>)
    returns (ok: bool, tail: nat)
    requires count <= eventList.Length && idxQ.Length == mapQ.Length == count && idxQ != mapQ
    requires WellRanked(eventList[..count])
    modifies eventList, idxQ, mapQ
    ensures eventList[count..] == old(eventList[count..]) && tail <= count
    ensures ok ==> Propagated(eventList[..count], idxQ[..tail], tail)
    ensures ok ==> Marked(mapQ[..], idxQ[..tail])
    ensures ok ==> Narrowed(old(eventList[..count]), eventList[..count])
    ensures !ok ==> !Feasible(Sels(old(eventList[..count])))
  {
    tail := BuildQueue(eventList, count, idxQ, mapQ);
    ghost var es0 := eventList[..count];
    var head := 0;
    while head < tail
      invariant head <= tail <= count
      invariant eventList[count..] == old(eventList[count..])
      invariant Dequeued(es0, eventList[..count], idxQ[..tail], mapQ[..], head)
      decreases count - head
    {
      ok, tail := TakeHead(eventList, count, idxQ, mapQ, head, tail, es0);
      if !ok {
        return;
      }
      head := head + 1;
    }
    assert idxQ[..tail][..tail] == idxQ[..tail];
    ok := true;
  }

  /** The first head entries of the queue have been taken and marked. */
  ghost predicate Dequeued(es0: seq<RegAlloc>, es: seq<RegAlloc>, q: seq<int>, m: seq<int>, head: nat) {
    Propagated(es, q, head) && Marked(m, q[..head]) && Narrowed(es0, es)
  }

  lemma {:induction false} DequeueOne(es0: seq<RegAlloc>, es: seq<RegAlloc>, after: seq<RegAlloc>,
                                      q: seq<int>, q': seq<int>, m: seq<int>, head: nat)
    requires Dequeued(es0, es, q, m, head) && head < |q| <= |q'| && q'[..|q|] == q
    requires Propagated(after, q', head + 1) && Narrowed(es, after)
    requires 0 <= q[head] < |m|
    ensures Dequeued(es0, after, q', m[q[head] := 1], head + 1)
  {
    NarrowedTrans(es0, es, after);
    assert q'[head] == q'[..|q|][head];
    assert q'[..head] == q'[..|q|][..head];
    assert q'[..head + 1] == q[..head] + [q[head]];
  }

  /** One turn of the queue: the scan for the event at the head, which is then marked. */
  method TakeHead(eventList: array<RegAlloc>, count: nat, idxQ: array<int>, mapQ: array<int>, head: nat, tail0: nat,
                  ghost es0: seq<RegAlloc>)
    returns (ok: bool, tail: nat)
    requires count <= eventList.Length && idxQ.Length == mapQ.Length == count && idxQ != mapQ
    requires head < tail0 <= count && Dequeued(es0, eventList[..count], idxQ[..tail0], mapQ[..], head)
    modifies eventList, idxQ, mapQ
    ensures tail0 <= tail <= count && eventList[count..] == old(eventList[count..])
    ensures ok ==> Dequeued(es0, eventList[..count], idxQ[..tail], mapQ[..], head + 1)
    ensures !ok ==> !Feasible(Sels(es0))
  {
    ghost var es, q, m := eventList[..count], idxQ[..tail0], mapQ[..];
    ok, tail := ScanHead(eventList, count, idxQ, head, tail0);
    if !ok {
      NarrowedInfeasible(es0, es);
      return;
    }
    assert idxQ[..tail][..tail0] == q && idxQ[head] == q[head];
    DequeueOne(es0, es, eventList[..count], q, idxQ[..tail], m, head);
    mapQ[idxQ[head]] := 1;
  }

  // ---------------------------------------------------------------- after propagation

  /** The marked events hold one counter each, and the others can do without them. */
  lemma {:induction false} MarkedAreForced(es: seq<RegAlloc>, q: seq<int>, m: seq<int>) returns (f: seq<nat>)
    requires Propagated(es, q, |q|) && Marked(m, q) && |m| == |es|
    ensures Forced(m, f, Sels(es))
    ensures forall i :: 0 <= i < |m| ==> (m[i] != 0 <==> MapExclusive(es[i]))
  {
    f := seq(|es|, i requires 0 <= i < |es| => SomeCounter(es[i].selector));
    forall i | 0 <= i < |m| && m[i] != 0 ensures Sels(es)[i] == {f[i]} {
      assert MapExclusive(es[i]);
      OnlyMember(es[i].selector, f[i]);
    }
    forall i, j | 0 <= i < |m| && 0 <= j < |m| && m[i] != 0 && i != j ensures f[i] !in Sels(es)[j] {
      var k :| 0 <= k < |q| && q[k] == i;
      assert ClearedUpTo(es, q[k], |es|) && f[i] in es[i].selector;
      assert !MapShared(es[j], es[i]);
      assert f[i] !in es[j].selector * es[i].selector;
    }
  }

  ghost function SomeCounter(s: set<nat>): (c: nat)
    ensures |s| == 1 ==> c in s
  {
    if s == {} then 0 else var c :| c in s; c
  }

  /** The queue holds every event exactly when no event is left unmapped. */
  lemma {:induction false} QueueFull(es: seq<RegAlloc>, q: seq<int>, m: seq<int>)
    requires Queued(es, q) && Marked(m, q) && |m| == |es|
    ensures |q| == |es| <==> Unmapped(m) == []
  {
    DistinctBelow(q, |es|);
    if Unmapped(m) == [] {
      forall i | 0 <= i < |m| ensures i in q {
        if m[i] == 0 { UnmappedAt(m, i); }
      }
      assert UpTo(|es|) <= Elements(q);
    } else {
      assert Unmapped(m)[0] in UpTo(|es|) && Unmapped(m)[0] !in q;
    }
  }

  /** Copies the unmapped events, in order, to the front of a scratch list. */
  method CopyUnmapped(eventList: array<RegAlloc>, count: nat, mapQ: array<int>, dst: array<RegAlloc>)
    returns (j: nat)
    requires count <= eventList.Length && mapQ.Length == count <= dst.Length && dst != eventList
    modifies dst
    ensures j == |Unmapped(mapQ[..])|
    ensures dst[..j] == Pick(eventList[..count], Unmapped(mapQ[..]))
  {
    j := 0;
    for i := 0 to count
      invariant j == |Unmapped(mapQ[..i])| <= i
      invariant dst[..j] == Pick(eventList[..count], Unmapped(mapQ[..i]))
    {
      assert mapQ[..i + 1][..i] == mapQ[..i];
      if mapQ[i] == 0 {
        dst[j] := eventList[i];
        j := j + 1;
      }
    }
    assert mapQ[..count] == mapQ[..];
  }

  method CopyPrefix(dst: array<RegAlloc>, src: array<RegAlloc>, n: nat)
    requires dst != src && n <= dst.Length && n <= src.Length
    modifies dst
    ensures dst[..n] == src[..n]
  {
    forall i | 0 <= i < n { dst[i] := src[i]; }
  }

  /** The first i events have their merged selectors, the others are as they were. */
  ghost predicate MergedTo(es0: seq<RegAlloc>, es: seq<RegAlloc>, m: seq<int>, rest: seq<RegAlloc>, i: nat)
    requires i <= |m| <= |es0| && |Unmapped(m)| <= |rest|
  {
    && |es| == |es0|
    && (forall k :: 0 <= k < |es| && !(k < i && m[k] == 0) ==> es[k] == es0[k])
    && (forall k :: 0 <= k < i && m[k] == 0 ==> MergedAt(es, m, rest, k))
  }

  ghost predicate MergedAt(es: seq<RegAlloc>, m: seq<int>, rest: seq<RegAlloc>, k: nat)
    requires k < |m| <= |es|
  {
    |Unmapped(m[..k])| < |rest| && es[k].selector == rest[|Unmapped(m[..k])|].selector
  }

  lemma {:induction false} MergeOne(es0: seq<RegAlloc>, es: seq<RegAlloc>, m: seq<int>, rest: seq<RegAlloc>, i: nat)
    requires i < |m| <= |es0| && |Unmapped(m)| <= |rest| && MergedTo(es0, es, m, rest, i)
    ensures m[i] != 0 ==> MergedTo(es0, es, m, rest, i + 1) && Unmapped(m[..i + 1]) == Unmapped(m[..i])
    ensures m[i] == 0 ==>
      var j := |Unmapped(m[..i])|;
      j < |rest| && |Unmapped(m[..i + 1])| == j + 1
      && MergedTo(es0, es[i := MapUpdate(es[i], rest[j])], m, rest, i + 1)
  {
    assert m[..i + 1][..i] == m[..i];
    if m[i] == 0 {
      UnmappedAt(m, i);
      var es' := es[i := MapUpdate(es[i], rest[|Unmapped(m[..i])|])];
      forall k | 0 <= k < i && m[k] == 0 ensures MergedAt(es', m, rest, k) {
        assert MergedAt(es, m, rest, k);
      }
      assert MergedAt(es', m, rest, i);
    }
  }

  lemma {:induction false} MergedAll(es0: seq<RegAlloc>, es: seq<RegAlloc>, m: seq<int>, rest: seq<RegAlloc>)
    requires |m| <= |es0| && |Unmapped(m)| <= |rest| && MergedTo(es0, es, m, rest, |m|)
    ensures Pick(Sels(es[..|m|]), Unmapped(m)) == Sels(rest[..|Unmapped(m)|])
  {
    forall k | 0 <= k < |Unmapped(m)| ensures es[Unmapped(m)[k]].selector == rest[k].selector {
      MergeAt(m, k);
      assert MergedAt(es, m, rest, Unmapped(m)[k]);
    }
  }

  /** Gives each unmapped event the mapping found for it. */
  method MergeBack(eventList: array<RegAlloc>, count: nat, mapQ: array<int>, rest: array<RegAlloc>)
    requires count <= eventList.Length && mapQ.Length == count && rest != eventList
    requires |Unmapped(mapQ[..])| <= rest.Length
    modifies eventList
    ensures eventList[count..] == old(eventList[count..])
    ensures forall i :: 0 <= i < count && mapQ[i] != 0 ==> eventList[i] == old(eventList[i])
    ensures Pick(Sels(eventList[..count]), Unmapped(mapQ[..])) == Sels(rest[..|Unmapped(mapQ[..])|])
  {
    ghost var es0, m := eventList[..], mapQ[..];
    var j := 0;
    for i := 0 to count
      invariant j == |Unmapped(m[..i])|
      invariant MergedTo(es0, eventList[..], m, rest[..], i)
    {
      ghost var es := eventList[..];
      MergeOne(es0, es, m, rest[..], i);
      if mapQ[i] == 0 {
        eventList[i] := MapUpdate(eventList[i], rest[j]);
        assert eventList[..] == es[i := MapUpdate(es[i], rest[j])];
        j := j + 1;
      }
    }
    MergedAll(es0, eventList[..], m, rest[..]);
    assert eventList[..][..count] == eventList[..count];
    assert rest[..][..|Unmapped(m)|] == rest[..|Unmapped(m)|];
  }

  /** A least mapping of the unmapped events completes the forced ones to a least mapping. */
  lemma {:induction false} MergedIsAllocated(es: seq<RegAlloc>, m: seq<int>, f: seq<nat>, restSels: seq<set<nat>>,
                                             out: seq<set<nat>>)
    requires Forced(m, f, Sels(es)) && |out| == |es|
    requires Allocated(Pick(Sels(es), Unmapped(m)), restSels)
    requires Pick(out, Unmapped(m)) == restSels
    requires forall i :: 0 <= i < |m| && m[i] != 0 ==> out[i] == es[i].selector
    ensures Allocated(Sels(es), out)
  {
    var b :| IsLeast(b, Pick(Sels(es), Unmapped(m))) && CutTo(b, restSels);
    var a := Merge(m, f, b);
    LeastJoins(a, m, f, b, Sels(es));
    forall i | 0 <= i < |a| ensures out[i] == {a[i]} {
      if m[i] == 0 { PickedAt(a, m, i, b); }
    }
    assert CutTo(a, out);
  }

  lemma {:induction false} RestInfeasible(es: seq<RegAlloc>, m: seq<int>, f: seq<nat>)
    requires Forced(m, f, Sels(es)) && !Feasible(Pick(Sels(es), Unmapped(m)))
    ensures !Feasible(Sels(es))
  {
    forall a ensures !IsAssignment(a, Sels(es)) {
      if IsAssignment(a, Sels(es)) {
        SplitAssignment(a, m, f, Sels(es));
        assert false;
      }
    }
  }

  lemma {:induction false} AllocatedFeasible(s: seq<set<nat>>, t: seq<set<nat>>)
    requires Allocated(s, t)
    ensures Feasible(s)
  {}

  lemma {:induction false} NarrowedAllocated(a: seq<RegAlloc>, b: seq<RegAlloc>, t: seq<set<nat>>)
    requires Narrowed(a, b) && Allocated(Sels(b), t)
    ensures Allocated(Sels(a), t)
  {
    var x :| IsLeast(x, Sels(b)) && CutTo(x, t);
    assert IsAssignment(x, Sels(a));
    assert forall y :: IsAssignment(y, Sels(a)) ==> IsAssignment(y, Sels(b));
    assert IsLeast(x, Sels(a));
  }

  /** An event after counter ctr was taken from it, if it had it. */
  function Struck(e: RegAlloc, ctr: nat): RegAlloc {
    if ctr in e.selector then MapPreempt(e, RegAlloc({ctr}, 1)) else e
  }

  /** The first event is on ctr, which has been taken from the others before event j. */
  ghost predicate StruckTo(es0: seq<RegAlloc>, es: seq<RegAlloc>, ctr: nat, j: nat) {
    && |es| == |es0| > 0 && es[0] == RegAlloc({ctr}, 1)
    && forall k :: 1 <= k < |es| ==> es[k] == if k < j then Struck(es0[k], ctr) else es0[k]
  }

  lemma {:induction false} SharedMeansStruck(e: RegAlloc, ctr: nat)
    ensures MapShared(e, RegAlloc({ctr}, 1)) <==> ctr in e.selector
  {
    if ctr in e.selector { assert ctr in e.selector * {ctr}; }
  }

  lemma {:induction false} StruckAll(es0: seq<RegAlloc>, es: seq<RegAlloc>, ctr: nat)
    requires WellRanked(es0) && StruckTo(es0, es, ctr, |es0|)
    ensures Sels(es) == Choose(Sels(es0), ctr) && WellRanked(es) && MapExclusive(es[0])
  {
    forall k | 1 <= k < |es| ensures es[k].selector == es0[k].selector - {ctr} && es[k].rank == |es[k].selector| {
      assert es[k] == Struck(es0[k], ctr);
    }
  }

  /** Tentatively maps the first unmapped event to counter ctr and takes ctr from the rest. */
  method ChooseFirst(rest: array<RegAlloc>, remainder: nat, ctr: nat)
    requires 0 < remainder <= rest.Length && WellRanked(rest[..remainder])
    modifies rest
    ensures Sels(rest[..remainder]) == Choose(Sels(old(rest[..remainder])), ctr)
    ensures WellRanked(rest[..remainder]) && MapExclusive(rest[0])
  {
    ghost var es0 := rest[..remainder];
    rest[0] := MapSet(rest[0], ctr);
    for j := 1 to remainder
      invariant StruckTo(es0, rest[..remainder], ctr, j)
    {
      ghost var es := rest[..remainder];
      assert rest[j] == es[j] == es0[j] && rest[0] == es[0];
      SharedMeansStruck(rest[j], ctr);
      if MapShared(rest[j], rest[0]) {
        rest[j] := MapPreempt(rest[j], rest[0]);
      }
      assert rest[..remainder] == es[j := Struck(es0[j], ctr)];
    }
    StruckAll(es0, rest[..remainder], ctr);
    assert rest[0] == rest[..remainder][0];
  }

  // ---------------------------------------------------------------- the recursion

  /** Tries every counter for the first unmapped event, restoring the backup after a failure.
      Returns the counter that worked, or numCntrs. */
  method TryCounters(rest: array<RegAlloc>, copy: array<RegAlloc>, remainder: nat, numCntrs: nat)
    returns (i: nat)
    requires rest != copy && 0 < remainder <= numCntrs
    requires remainder <= rest.Length && remainder <= copy.Length
    requires rest[..remainder] == copy[..remainder]
    requires WellRanked(copy[..remainder]) && InRange(copy[..remainder], numCntrs)
    modifies rest
    ensures i <= numCntrs
    ensures i < numCntrs ==> Allocated(Sels(copy[..remainder]), Sels(rest[..remainder]))
    ensures i == numCntrs ==> !Feasible(Sels(copy[..remainder]))
    decreases remainder, 0
  {
    ghost var backup := copy[..remainder];
    ghost var sels := Sels(backup);
    FirstInRange(backup, numCntrs);
    i := 0;
    while i < numCntrs
      invariant i <= numCntrs && rest[..remainder] == backup == copy[..remainder]
      invariant forall a :: IsAssignment(a, sels) ==> a[0] >= i
    {
      assert rest[0] == backup[0];
      if MapAvail(rest[0], i) {
        ChooseFirst(rest, remainder, i);
        ghost var chosen := rest[..remainder];
        ChosenStaysInRange(backup, chosen, i, numCntrs);
        FewerUndecided(chosen);
        var found := BipartiteAlloc(rest, remainder, numCntrs);
        if found == 1 {
          ChoiceIsAllocated(backup, i, Sels(rest[..remainder]));
          return;
        }
        ChoiceFails(sels, i);
        CopyPrefix(rest, copy, remainder);
      }
      i := i + 1;
    }
  }

  lemma {:induction false} FirstInRange(es: seq<RegAlloc>, numCntrs: nat)
    requires |es| > 0 && InRange(es, numCntrs)
    ensures forall a :: IsAssignment(a, Sels(es)) ==> a[0] in Sels(es)[0] && a[0] < numCntrs
  {
    forall a | IsAssignment(a, Sels(es)) ensures a[0] < numCntrs {
      assert a[0] in es[0].selector;
    }
  }

  lemma {:induction false} ChosenStaysInRange(es: seq<RegAlloc>, chosen: seq<RegAlloc>, c: nat, numCntrs: nat)
    requires |es| > 0 && |chosen| == |es| && InRange(es, numCntrs) && c < numCntrs
    requires Sels(chosen) == Choose(Sels(es), c)
    ensures InRange(chosen, numCntrs)
  {
    forall i, d | 0 <= i < |chosen| && d in chosen[i].selector ensures d < numCntrs {
      assert d in Choose(Sels(es), c)[i];
    }
  }

  lemma {:induction false} FewerUndecided(es: seq<RegAlloc>)
    requires |es| > 0 && MapExclusive(es[0])
    ensures |Undecided(es)| < |es|
  {
    assert Undecided(es) <= UpTo(|es|) - {0};
    SubsetSize(Undecided(es), UpTo(|es|) - {0});
  }

  lemma {:induction false} ChoiceIsAllocated(es: seq<RegAlloc>, c: nat, out: seq<set<nat>>)
    requires |es| > 0 && c in es[0].selector
    requires Allocated(Choose(Sels(es), c), out)
    requires forall a :: IsAssignment(a, Sels(es)) ==> a[0] >= c
    ensures Allocated(Sels(es), out)
  {
    var a :| IsLeast(a, Choose(Sels(es), c)) && CutTo(a, out);
    LeastChoice(a, Sels(es), c);
  }

  lemma {:induction false} ChoiceFails(sels: seq<set<nat>>, c: nat)
    requires |sels| > 0 && c in sels[0] && !Feasible(Choose(sels, c))
    requires forall a :: IsAssignment(a, sels) ==> a[0] >= c
    ensures forall a :: IsAssignment(a, sels) ==> a[0] >= c + 1
  {
    forall a | IsAssignment(a, sels) ensures a[0] >= c + 1 {
      ChosenAssignments(a, sels, c);
      assert !IsAssignment(a, Choose(sels, c));
    }
  }

  /** Propagation leaves exactly the unmapped events undecided. */
  lemma {:induction false} UnmappedCount(es0: seq<RegAlloc>, es: seq<RegAlloc>, m: seq<int>)
    requires Narrowed(es0, es) && |m| == |es|
    requires forall i :: 0 <= i < |m| ==> (m[i] != 0 <==> MapExclusive(es[i]))
    ensures |Unmapped(m)| <= |Undecided(es0)|
  {
    var p := Unmapped(m);
    SizeOfDistinct(p);
    assert Elements(p) <= Undecided(es0);
    SubsetSize(Elements(p), Undecided(es0));
  }

  lemma {:induction false} PickSels(es: seq<RegAlloc>, p: seq<nat>)
    requires forall k :: 0 <= k < |p| ==> p[k] < |es|
    ensures Sels(Pick(es, p)) == Pick(Sels(es), p)
  {}

  /** src/papi_bipartite.h: returns 1 exactly when pairwise distinct counters can be drawn from
      the events' sets, and then leaves each event with its counter in the least such choice. */
  method BipartiteAlloc(eventList: array<RegAlloc>, count: nat, numCntrs: nat) returns (r: int)
    requires count <= eventList.Length && count <= numCntrs
    requires WellRanked(eventList[..count]) && InRange(eventList[..count], numCntrs)
    modifies eventList
    ensures r == 0 || r == 1
    ensures r == 1 <==> Feasible(Sels(old(eventList[..count])))
    ensures r == 1 ==> Allocated(Sels(old(eventList[..count])), Sels(eventList[..count]))
    ensures eventList[count..] == old(eventList[count..])
    decreases |Undecided(eventList[..count])|, 2
  {
    ghost var es0 := eventList[..count];
    var idxQ := new int[count];
    var mapQ := new int[count];
    var ok, tail := Propagate(eventList, count, idxQ, mapQ);
    if !ok {
      return 0;
    }
    ghost var es, m := eventList[..count], mapQ[..];
    ghost var f := MarkedAreForced(es, idxQ[..tail], m);
    QueueFull(es, idxQ[..tail], m);
    if tail == count {
      AllForced(m, f, Sels(es));
      NarrowedAllocated(es0, es, Sels(es));
      return 1;
    }
    UnmappedCount(es0, es, m);
    r := AllocRest(eventList, count, mapQ, numCntrs, f);
    NarrowedInfeasible(es0, es);
    if r == 1 {
      NarrowedAllocated(es0, es, Sels(eventList[..count]));
    }
  }

  /** The part after propagation: scratch list, backup, search and merge. */
  method AllocRest(eventList: array<RegAlloc>, count: nat, mapQ: array<int>, numCntrs: nat, ghost f: seq<nat>)
    returns (r: int)
    requires count <= eventList.Length && mapQ.Length == count <= numCntrs
    requires WellRanked(eventList[..count]) && InRange(eventList[..count], numCntrs)
    requires Forced(mapQ[..], f, Sels(eventList[..count])) && Unmapped(mapQ[..]) != []
    modifies eventList
    ensures r == 0 || r == 1
    ensures r == 1 <==> Feasible(Sels(old(eventList[..count])))
    ensures r == 1 ==> Allocated(Sels(old(eventList[..count])), Sels(eventList[..count]))
    ensures eventList[count..] == old(eventList[count..])
    decreases |Unmapped(mapQ[..])|, 1
  {
    ghost var es, m := eventList[..count], mapQ[..];
    var rest := new RegAlloc[numCntrs](_ => RegAlloc({}, 0));
    var copy := new RegAlloc[numCntrs](_ => RegAlloc({}, 0));
    var remainder := CopyUnmapped(eventList, count, mapQ, copy);
    CopyPrefix(rest, copy, remainder);
    PickSels(es, Unmapped(m));
    var i := TryCounters(rest, copy, remainder, numCntrs);
    if i == numCntrs {
      RestInfeasible(es, m, f);
      return 0;
    }
    MergeBack(eventList, count, mapQ, rest);
    ghost var out := Sels(eventList[..count]);
    MergedIsAllocated(es, m, f, Sels(rest[..remainder]), out);
    AllocatedFeasible(Sels(es), out);
    return 1;
  }
}
