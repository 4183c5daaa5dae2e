/** Choosing a POWER counter group (src/aix.c, do_counter_allocation): the least group whose bit is
    common to all events, and what that means for the groups the vendor library listed. */
module PowerChoice {
  import opened Words
  import opened PowerTables

  /** One requested event while it is being placed. */
  datatype RegAlloc = RegAlloc(position: int, group: seq<nat>, cmd: seq<int>)

  /** In group g, counter j counts the named event. */
  predicate CountsOn(lists: seq<seq<PmEvent>>, name: string, g: Group, j: int) {
    0 <= j < |g.events| && IdOn(lists, name, j) == Id(g.events[j])
  }

  predicate Contains(lists: seq<seq<PmEvent>>, name: string, g: Group) {
    exists j :: 0 <= j < |g.events| && CountsOn(lists, name, g, j)
  }

  predicate ContainsAll(lists: seq<seq<PmEvent>>, names: seq<string>, g: Group) {
    forall i :: 0 <= i < |names| ==> Contains(lists, names[i], g)
  }

  ghost predicate UniqueIds(groups: seq<Group>) {
    forall m, n :: 0 <= m < n < |groups| ==> groups[m].id != groups[n].id
  }

  /** On each counter different events have different ids, none negative. */
  ghost predicate DistinctIds(lists: seq<seq<PmEvent>>) {
    && (forall j, name :: 0 <= j && IdOn(lists, name, j).Id? ==> IdOn(lists, name, j).id >= 0)
    && (forall j, a, b | 0 <= j && IdOn(lists, a, j).Id? && IdOn(lists, a, j) == IdOn(lists, b, j) :: a == b)
  }

  /** n is the least-numbered group that contains all the events. */
  ghost predicate Least(lists: seq<seq<PmEvent>>, groups: seq<Group>, names: seq<string>, n: nat) {
    && n < |groups| && ContainsAll(lists, names, groups[n])
    && forall m :: 0 <= m < |groups| && ContainsAll(lists, names, groups[m]) ==> groups[n].id <= groups[m].id
  }

  // ---------------------------------------------------------------- bits and groups

  /** A finished entry has the bit of a group exactly when the group contains its event. */
  lemma {:induction false} BitMeansContains(row: NativeEntry, lists: seq<seq<PmEvent>>, groups: seq<Group>,
                                            lim: Limits, n: nat)
    requires RowFor(row, lists, lim) && RowMarked(row, groups, lim) && UniqueIds(groups) && n < |groups|
    ensures Bit(row.group[groups[n].id / 32], groups[n].id % 32) <==> Contains(lists, row.name, groups[n])
  {
    var w, k := groups[n].id / 32, groups[n].id % 32;
    assert MarkedTo(row, groups, lim, lim.counters, 0, w, k) <==> Bit(row.group[w], k);
    if MarkedTo(row, groups, lim, lim.counters, 0, w, k) {
      var c: nat, m: nat :| c < lim.counters && m < |groups| && MarkedBy(row, groups, lim, c, m, w, k);
      assert groups[m].id == groups[n].id && m == n;
      assert CellFor(row, lists, c) && CountsOn(lists, row.name, groups[n], c);
    }
    if Contains(lists, row.name, groups[n]) {
      var j :| 0 <= j < |groups[n].events| && CountsOn(lists, row.name, groups[n], j);
      assert CellFor(row, lists, j) && MarkedBy(row, groups, lim, j, n, w, k);
    }
  }

  /** No bit is set for a number that is no group's. */
  lemma {:induction false} BitHasGroup(row: NativeEntry, groups: seq<Group>, lim: Limits, id: nat)
    requires RowMarked(row, groups, lim) && id < 32 * lim.groupInts && Bit(row.group[id / 32], id % 32)
    ensures exists n :: 0 <= n < |groups| && groups[n].id == id
  {
    var w, k := id / 32, id % 32;
    assert MarkedTo(row, groups, lim, lim.counters, 0, w, k);
    var c: nat, m: nat :| c < lim.counters && m < |groups| && MarkedBy(row, groups, lim, c, m, w, k);
    assert groups[m].id == id;
  }

  // ---------------------------------------------------------------- the choice

  predicate Sized(evs: seq<RegAlloc>, lim: Limits) {
    forall i :: 0 <= i < |evs| ==> |evs[i].group| == lim.groupInts && |evs[i].cmd| == lim.counters
  }

  predicate HasBit(e: RegAlloc, id: nat)
    requires id / 32 < |e.group|
  {
    Bit(e.group[id / 32], id % 32)
  }

  /** All events have the bit of this group. */
  predicate Common(evs: seq<RegAlloc>, lim: Limits, id: nat)
    requires Sized(evs, lim) && id < 32 * lim.groupInts
  {
    forall i :: 0 <= i < |evs| ==> HasBit(evs[i], id)
  }

  /** The least common group, or a negative number if there is none. */
  ghost predicate Chosen(evs: seq<RegAlloc>, lim: Limits, group: int)
    requires Sized(evs, lim)
  {
    if group < 0 then forall id: nat :: id < 32 * lim.groupInts ==> !Common(evs, lim, id)
    else && group < 32 * lim.groupInts && Common(evs, lim, group)
         && forall id: nat :: id < group ==> !Common(evs, lim, id)
  }

  /** The last of the first n counters on which the event has a command and the group the same one. */
  function LastMatch(cmd: seq<int>, groupCmd: seq<int>, n: nat): (j: int)
    requires n <= |cmd| == |groupCmd|
    ensures -1 <= j < n
    ensures j >= 0 ==> cmd[j] == groupCmd[j] >= 0
    ensures forall k :: j < k < n ==> !(cmd[k] == groupCmd[k] >= 0)
  {
    if n == 0 then -1
    else if cmd[n - 1] == groupCmd[n - 1] >= 0 then n - 1
    else LastMatch(cmd, groupCmd, n - 1)
  }

  /** The tables are those of the vendor's lists and groups. */
  ghost predicate Built(rows: seq<NativeEntry>, total: nat, nameMap: seq<int>, groupMap: seq<seq<int>>,
                        lists: seq<seq<PmEvent>>, groups: seq<Group>, lim: Limits) {
    && TableFor(rows, total, lists, lim) && GroupsOk(groups, lim) && UniqueIds(groups)
    && (forall i :: 0 <= i < total ==> RowMarked(rows[i], groups, lim))
    && |nameMap| == |rows| && (forall i :: 0 <= i < |nameMap| ==> nameMap[i] == if i < total then i else -1)
    && |groupMap| == 32 * lim.groupInts
    && (forall id :: 0 <= id < |groupMap| ==> |groupMap[id]| == lim.counters)
    && (forall n :: 0 <= n < |groups| ==> groupMap[groups[n].id] == groups[n].events)
  }

  /** The request: one table entry for each event. */
  ghost predicate Requested(evs: seq<RegAlloc>, rows: seq<NativeEntry>, total: nat, wanted: seq<nat>) {
    && |evs| == |wanted| && total <= |rows|
    && forall i :: 0 <= i < |wanted| ==>
         wanted[i] < total && evs[i].group == rows[wanted[i]].group && evs[i].cmd == rows[wanted[i]].cmd
  }

  function WantedNames(rows: seq<NativeEntry>, wanted: seq<nat>): (names: seq<string>)
    requires forall i :: 0 <= i < |wanted| ==> wanted[i] < |rows|
    ensures |names| == |wanted| && forall i :: 0 <= i < |names| ==> names[i] == rows[wanted[i]].name
  {
    seq(|wanted|, i requires 0 <= i < |wanted| => rows[wanted[i]].name)
  }

  /** A group's bit is common exactly when the group contains all the events. */
  lemma {:induction false} CommonMeansContainsAll(rows: seq<NativeEntry>, total: nat, nameMap: seq<int>,
                                                  groupMap: seq<seq<int>>, lists: seq<seq<PmEvent>>,
                                                  groups: seq<Group>, lim: Limits,
                                                  evs: seq<RegAlloc>, wanted: seq<nat>, n: nat)
    requires Built(rows, total, nameMap, groupMap, lists, groups, lim) && Sized(evs, lim)
    requires Requested(evs, rows, total, wanted) && n < |groups|
    ensures Common(evs, lim, groups[n].id) <==> ContainsAll(lists, WantedNames(rows, wanted), groups[n])
  {
    var names := WantedNames(rows, wanted);
    forall i | 0 <= i < |wanted| ensures HasBit(evs[i], groups[n].id) <==> Contains(lists, names[i], groups[n]) {
      BitMeansContains(rows[wanted[i]], lists, groups, lim, n);
    }
  }

  /** The chosen number is the least group that contains every requested event, and there is none
      if no number is chosen. */
  lemma {:induction false} ChosenIsLeast(rows: seq<NativeEntry>, total: nat, nameMap: seq<int>,
                                         groupMap: seq<seq<int>>, lists: seq<seq<PmEvent>>,
                                         groups: seq<Group>, lim: Limits,
                                         evs: seq<RegAlloc>, wanted: seq<nat>, group: int)
    requires Built(rows, total, nameMap, groupMap, lists, groups, lim) && Sized(evs, lim)
    requires Requested(evs, rows, total, wanted) && wanted != [] && Chosen(evs, lim, group)
    ensures var names := WantedNames(rows, wanted);
      if group < 0 then forall n :: 0 <= n < |groups| ==> !ContainsAll(lists, names, groups[n])
      else exists n :: 0 <= n < |groups| && groups[n].id == group && Least(lists, groups, names, n)
  {
    var names := WantedNames(rows, wanted);
    forall n | 0 <= n < |groups|
      ensures Common(evs, lim, groups[n].id) <==> ContainsAll(lists, names, groups[n])
    {
      CommonMeansContainsAll(rows, total, nameMap, groupMap, lists, groups, lim, evs, wanted, n);
    }
    if group >= 0 {
      assert HasBit(evs[0], group);
      BitHasGroup(rows[wanted[0]], groups, lim, group);
      var n :| 0 <= n < |groups| && groups[n].id == group;
      assert Least(lists, groups, names, n);
    }
  }

  /** The position found for an event counts it in that group. */
  lemma {:induction false} PositionCounts(row: NativeEntry, lists: seq<seq<PmEvent>>, lim: Limits, g: Group)
    requires RowFor(row, lists, lim) && DistinctIds(lists) && |g.events| == lim.counters
    requires Contains(lists, row.name, g)
    ensures CountsOn(lists, row.name, g, LastMatch(row.cmd, g.events, lim.counters))
  {
    var p := LastMatch(row.cmd, g.events, lim.counters);
    var j :| 0 <= j < |g.events| && CountsOn(lists, row.name, g, j);
    assert CellFor(row, lists, j);
    assert p >= 0 && CellFor(row, lists, p);
  }

  /** Two different events never share a counter of a group. */
  lemma {:induction false} NoSharedCounter(lists: seq<seq<PmEvent>>, g: Group, a: string, b: string, j: int)
    requires DistinctIds(lists) && CountsOn(lists, a, g, j) && CountsOn(lists, b, g, j)
    ensures a == b
  {
    assert IdOn(lists, a, j) == IdOn(lists, b, j);
  }

  // ---------------------------------------------------------------- intersecting the bits

  /** The words common to the first n events. */
  ghost predicate AndOf(common: seq<nat>, evs: seq<RegAlloc>, n: nat, lim: Limits)
    requires Sized(evs, lim)
  {
    && |common| == lim.groupInts && n <= |evs|
    && forall w: nat, k: nat | w < lim.groupInts ::
         Bit(common[w], k) <==> forall i :: 0 <= i < n ==> Bit(evs[i].group[w], k)
  }

  lemma {:induction false} AndOne(common: seq<nat>, after: seq<nat>, evs: seq<RegAlloc>, n: nat, lim: Limits)
    requires Sized(evs, lim) && n < |evs| && AndOf(common, evs, n, lim) && |after| == |common|
    requires forall w :: 0 <= w < lim.groupInts ==> after[w] == And(common[w], evs[n].group[w])
    ensures AndOf(after, evs, n + 1, lim)
  {
    forall w: nat, k: nat | w < lim.groupInts
      ensures Bit(after[w], k) <==> forall i :: 0 <= i < n + 1 ==> Bit(evs[i].group[w], k)
    {
      BitAnd(common[w], evs[n].group[w], k);
    }
  }

  lemma {:induction false} FirstInWord(lim: Limits, common: seq<nat>, evs: seq<RegAlloc>, i: nat)
    requires Sized(evs, lim) && evs != [] && AndOf(common, evs, |evs|, lim) && i < lim.groupInts && common[i] != 0
    requires forall w: nat, k: nat | w < lim.groupInts :: Bit(evs[0].group[w], k) ==> k < 32
    requires forall id: nat :: id < 32 * i ==> !Common(evs, lim, id)
    ensures Ffs(common[i]) > 0 && Chosen(evs, lim, Ffs(common[i]) - 1 + i * 32)
  {
    FfsLeast(common[i]);
    var b := Ffs(common[i]) - 1;
    assert Bit(common[i], b) && Bit(evs[0].group[i], b);
    CommonBit(lim, common, evs, i, b);
    forall id: nat | id < b + i * 32 ensures !Common(evs, lim, id) {
      if id >= 32 * i { CommonBit(lim, common, evs, i, id - 32 * i); }
    }
  }

  lemma {:induction false} NoneInWord(lim: Limits, common: seq<nat>, evs: seq<RegAlloc>, i: nat)
    requires Sized(evs, lim) && AndOf(common, evs, |evs|, lim) && i < lim.groupInts && common[i] == 0
    requires forall id: nat :: id < 32 * i ==> !Common(evs, lim, id)
    ensures forall id: nat :: id < 32 * (i + 1) ==> !Common(evs, lim, id)
  {
    forall id: nat | 32 * i <= id < 32 * (i + 1) ensures !Common(evs, lim, id) {
      CommonBit(lim, common, evs, i, id - 32 * i);
      ZeroBit(id - 32 * i);
    }
  }

  lemma {:induction false} CommonBit(lim: Limits, common: seq<nat>, evs: seq<RegAlloc>, w: nat, k: nat)
    requires Sized(evs, lim) && AndOf(common, evs, |evs|, lim) && w < lim.groupInts && k < 32
    ensures Common(evs, lim, 32 * w + k) <==> Bit(common[w], k)
  {
    assert (32 * w + k) / 32 == w && (32 * w + k) % 32 == k;
  }

  /** The events with the positions found for them. */
  function Placed(e: RegAlloc, groupCmd: seq<int>): RegAlloc
    requires |e.cmd| == |groupCmd|
  {
    e.(position := LastMatch(e.cmd, groupCmd, |e.cmd|))
  }
}
