/** The tables behind POWER counter groups (src/aix.c): which event lives on which counter under
    which id, and which groups hold it. */
module PowerTables {
  import opened Counting
  import opened Words

  /** An event as the vendor library lists it for one counter; the same event has the same name
      on every counter, but usually another id. */
  datatype PmEvent = PmEvent(name: string, id: int)

  /** A counter group: what it makes each counter count. */
  datatype Group = Group(id: nat, events: seq<int>)

  /** The compile-time sizes MAX_COUNTERS, GROUP_INTS and PAPI_MAX_NATIVE_EVENTS. */
  datatype Limits = Limits(counters: nat, groupInts: nat, natives: nat)

  /** One entry of native_table. */
  datatype NativeEntry = NativeEntry(name: string, selector: nat, cmd: seq<int>, group: seq<nat>)

  datatype Id = NoId | Id(id: int)

  /** The id of the last event of this name in one counter's list. */
  function LastIn(list: seq<PmEvent>, name: string): Id {
    if list == [] then NoId
    else if list[|list| - 1].name == name then Id(list[|list| - 1].id)
    else LastIn(list[..|list| - 1], name)
  }

  /** The id that counts the named event on counter j. */
  function IdOn(lists: seq<seq<PmEvent>>, name: string, j: nat): Id {
    if j < |lists| then LastIn(lists[j], name) else NoId
  }

  ghost predicate Named(lists: seq<seq<PmEvent>>, name: string) {
    exists j: nat :: IdOn(lists, name, j).Id?
  }

  lemma {:induction false} LastInIsMember(list: seq<PmEvent>, name: string)
    ensures LastIn(list, name).Id? <==> exists e :: e in list && e.name == name
    ensures LastIn(list, name).Id? ==> PmEvent(name, LastIn(list, name).id) in list
  {
    if list != [] {
      var n := |list| - 1;
      assert list == list[..n] + [list[n]];
      LastInIsMember(list[..n], name);
    }
  }

  /** The id is that of the last occurrence: no later one has the name. */
  lemma {:induction false} LastInIsLast(list: seq<PmEvent>, name: string, k: nat)
    requires k < |list| && list[k].name == name
    requires forall m :: k < m < |list| ==> list[m].name != name
    ensures LastIn(list, name) == Id(list[k].id)
  {
    if k < |list| - 1 { LastInIsLast(list[..|list| - 1], name, k); }
  }

  // ---------------------------------------------------------------- native_table

  /** An entry agrees with the lists seen so far. */
  ghost predicate RowFor(row: NativeEntry, lists: seq<seq<PmEvent>>, lim: Limits) {
    && |row.cmd| == lim.counters && |row.group| == lim.groupInts
    && forall j: nat :: j < lim.counters ==> CellFor(row, lists, j)
  }

  ghost predicate CellFor(row: NativeEntry, lists: seq<seq<PmEvent>>, j: nat)
    requires j < |row.cmd|
  {
    match IdOn(lists, row.name, j)
    case NoId => !Bit(row.selector, j) && row.cmd[j] == -1
    case Id(id) => Bit(row.selector, j) && row.cmd[j] == id
  }

  ghost predicate Blank(row: NativeEntry, lim: Limits) {
    && row.selector == 0 && |row.cmd| == lim.counters && |row.group| == lim.groupInts
    && (forall j :: 0 <= j < lim.counters ==> row.cmd[j] == -1)
    && (forall w :: 0 <= w < lim.groupInts ==> row.group[w] == 0)
  }

  function Names(rows: seq<NativeEntry>): (r: seq<string>)
    ensures |r| == |rows| && forall i :: 0 <= i < |r| ==> r[i] == rows[i].name
  {
    seq(|rows|, i requires 0 <= i < |rows| => rows[i].name)
  }

  /** The first index rows are the events of the lists, each once; the rest are blank. */
  ghost predicate TableFor(rows: seq<NativeEntry>, index: nat, lists: seq<seq<PmEvent>>, lim: Limits) {
    && index <= |rows|
    && (forall i :: 0 <= i < index ==> RowFor(rows[i], lists, lim) && Named(lists, rows[i].name))
    && Distinct(Names(rows[..index]))
    && (forall name :: Named(lists, name) ==> name in Names(rows[..index]))
    && (forall i :: index <= i < |rows| ==> Blank(rows[i], lim))
  }

  /** No entry has a group bit yet. */
  ghost predicate Ungrouped(rows: seq<NativeEntry>) {
    forall i, w :: 0 <= i < |rows| && 0 <= w < |rows[i].group| ==> rows[i].group[w] == 0
  }

  /** What recording one event in an entry does. */
  function Record(row: NativeEntry, pmc: nat, e: PmEvent): NativeEntry
    requires pmc < |row.cmd|
  {
    row.(name := e.name, selector := Or(row.selector, Pow2(pmc)), cmd := row.cmd[pmc := e.id])
  }

  /** One more event has been seen on counter pmc, the last one so far. */
  ghost predicate OneMore(before: seq<seq<PmEvent>>, after: seq<seq<PmEvent>>, pmc: nat, e: PmEvent) {
    && |before| == |after| == pmc + 1
    && before[..pmc] == after[..pmc] && after[pmc] == before[pmc] + [e]
  }

  lemma {:induction false} IdAfter(before: seq<seq<PmEvent>>, after: seq<seq<PmEvent>>, pmc: nat, e: PmEvent,
                                   name: string, j: nat)
    requires OneMore(before, after, pmc, e)
    ensures IdOn(after, name, j) == if j == pmc && name == e.name then Id(e.id) else IdOn(before, name, j)
  {
    if j < pmc {
      assert before[..pmc][j] == after[..pmc][j];
    } else if j == pmc {
      assert after[pmc][..|after[pmc]| - 1] == before[pmc];
    }
  }

  lemma {:induction false} NamedAfter(before: seq<seq<PmEvent>>, after: seq<seq<PmEvent>>, pmc: nat, e: PmEvent,
                                      name: string)
    requires OneMore(before, after, pmc, e)
    ensures Named(after, name) <==> Named(before, name) || name == e.name
  {
    IdAfter(before, after, pmc, e, name, pmc);
    if j: nat :| IdOn(before, name, j).Id? {
      IdAfter(before, after, pmc, e, name, j);
      assert IdOn(after, name, j).Id?;
    }
    if j: nat :| IdOn(after, name, j).Id? {
      IdAfter(before, after, pmc, e, name, j);
    }
  }

  lemma {:induction false} RowRecorded(row: NativeEntry, lim: Limits, before: seq<seq<PmEvent>>,
                                       after: seq<seq<PmEvent>>, pmc: nat, e: PmEvent)
    requires OneMore(before, after, pmc, e) && pmc < lim.counters
    requires row.name == e.name && RowFor(row, before, lim)
    ensures RowFor(Record(row, pmc, e), after, lim)
  {
    forall j: nat | j < lim.counters ensures CellFor(Record(row, pmc, e), after, j) {
      assert CellFor(row, before, j);
      IdAfter(before, after, pmc, e, e.name, j);
      BitOr(row.selector, Pow2(pmc), j);
      BitPow2(pmc, j);
    }
  }

  lemma {:induction false} RowUntouched(row: NativeEntry, lim: Limits, before: seq<seq<PmEvent>>,
                                        after: seq<seq<PmEvent>>, pmc: nat, e: PmEvent)
    requires OneMore(before, after, pmc, e)
    requires row.name != e.name && RowFor(row, before, lim)
    ensures RowFor(row, after, lim)
  {
    forall j: nat | j < lim.counters ensures CellFor(row, after, j) {
      assert CellFor(row, before, j);
      IdAfter(before, after, pmc, e, row.name, j);
    }
  }

  /** A blank entry agrees with any lists that do not have its name. */
  lemma {:induction false} BlankRow(row: NativeEntry, name: string, lists: seq<seq<PmEvent>>, lim: Limits)
    requires Blank(row, lim) && !Named(lists, name)
    ensures RowFor(row.(name := name), lists, lim)
  {
    forall j: nat | j < lim.counters ensures CellFor(row.(name := name), lists, j) {
      assert IdOn(lists, name, j) == NoId;
      ZeroBit(j);
    }
  }

  /** The entry an event belongs to: the one with its name, or the first blank one. */
  ghost predicate EntryOf(rows: seq<NativeEntry>, index: nat, name: string, i: nat) {
    && i <= index < |rows| + 1
    && (i < index ==> rows[i].name == name)
    && (i == index ==> name !in Names(rows[..index]))
  }

  lemma {:induction false} OtherRow(rows: seq<NativeEntry>, index: nat, lim: Limits, before: seq<seq<PmEvent>>,
                                    after: seq<seq<PmEvent>>, pmc: nat, e: PmEvent, i: nat, k: nat)
    requires TableFor(rows, index, before, lim) && OneMore(before, after, pmc, e)
    requires EntryOf(rows, index, e.name, i) && i < |rows| && pmc < |rows[i].cmd| && k < index && k != i
    ensures RowFor(rows[k], after, lim) && Named(before, rows[k].name) && rows[k].name != e.name
  {
    NamesAfter(rows, index, pmc, e, i);
    assert Names(rows[..index])[k] == rows[k].name;
    RowUntouched(rows[k], lim, before, after, pmc, e);
  }

  /** Recording an event in its entry keeps the table in agreement. */
  lemma {:induction false} EventRecorded(rows: seq<NativeEntry>, index: nat, lim: Limits,
                                         before: seq<seq<PmEvent>>, after: seq<seq<PmEvent>>,
                                         pmc: nat, e: PmEvent, i: nat)
    requires TableFor(rows, index, before, lim) && OneMore(before, after, pmc, e) && pmc < lim.counters
    requires EntryOf(rows, index, e.name, i) && i < |rows| && |rows[i].cmd| == lim.counters
    ensures TableFor(rows[i := Record(rows[i], pmc, e)], if i == index then index + 1 else index, after, lim)
  {
    var rows' := rows[i := Record(rows[i], pmc, e)];
    var index' := if i == index then index + 1 else index;
    if i == index {
      BlankRow(rows[i], e.name, before, lim);
      RowRecorded(rows[i].(name := e.name), lim, before, after, pmc, e);
    } else {
      RowRecorded(rows[i], lim, before, after, pmc, e);
    }
    NamesAfter(rows, index, pmc, e, i);
    forall k: nat | k < index' ensures RowFor(rows'[k], after, lim) && Named(after, rows'[k].name) {
      NamedAfter(before, after, pmc, e, rows'[k].name);
      if k != i { OtherRow(rows, index, lim, before, after, pmc, e, i, k); }
    }
    forall name | Named(after, name) ensures name in Names(rows'[..index']) {
      NamedAfter(before, after, pmc, e, name);
    }
  }

  lemma {:induction false} NamesAfter(rows: seq<NativeEntry>, index: nat, pmc: nat, e: PmEvent, i: nat)
    requires EntryOf(rows, index, e.name, i) && i < |rows| && pmc < |rows[i].cmd|
    ensures Names(rows[i := Record(rows[i], pmc, e)][..if i == index then index + 1 else index]) ==
            if i == index then Names(rows[..index]) + [e.name] else Names(rows[..index])
    ensures e.name in (if i == index then Names(rows[..index]) + [e.name] else Names(rows[..index]))
    ensures forall k :: 0 <= k < index && k != i && Distinct(Names(rows[..index])) ==> rows[k].name != e.name
  {
    if i < index { assert Names(rows[..index])[i] == e.name; }
    forall k | 0 <= k < index && k != i && Distinct(Names(rows[..index])) ensures rows[k].name != e.name {
      assert Names(rows[..index])[k] == rows[k].name;
    }
  }

  // ---------------------------------------------------------------- group bits

  /** Counter j of group g counts what the entry counts there. */
  predicate Contributes(row: NativeEntry, g: Group, j: nat)
    requires j < |row.cmd| && j < |g.events|
  {
    Bit(row.selector, j) && row.cmd[j] == g.events[j]
  }

  ghost predicate GroupsOk(groups: seq<Group>, lim: Limits) {
    forall n :: 0 <= n < |groups| ==> |groups[n].events| == lim.counters && groups[n].id < 32 * lim.groupInts
  }

  /** Group bit k of word w comes from counter j and group n. */
  ghost predicate MarkedBy(row: NativeEntry, groups: seq<Group>, lim: Limits, j: nat, n: nat, w: nat, k: nat)
    requires |row.cmd| == lim.counters && GroupsOk(groups, lim) && j < lim.counters && n < |groups|
  {
    k < 32 && groups[n].id == 32 * w + k && Contributes(row, groups[n], j)
  }

  /** One of the first counters, or one of the first n groups on counter j, sets the bit. */
  ghost predicate MarkedTo(row: NativeEntry, groups: seq<Group>, lim: Limits, j: nat, n: nat, w: nat, k: nat)
    requires |row.cmd| == lim.counters && GroupsOk(groups, lim)
  {
    exists c: nat, m: nat | c < lim.counters && m < |groups| && (c < j || (c == j && m < n)) ::
      MarkedBy(row, groups, lim, c, m, w, k)
  }

  ghost predicate RowMarkedTo(row: NativeEntry, groups: seq<Group>, lim: Limits, j: nat, n: nat)
    requires |row.cmd| == lim.counters && |row.group| == lim.groupInts && GroupsOk(groups, lim)
  {
    forall w: nat, k: nat | w < lim.groupInts :: Bit(row.group[w], k) <==> MarkedTo(row, groups, lim, j, n, w, k)
  }

  /** The finished entry: its group bits are those of the groups that count it somewhere. */
  ghost predicate RowMarked(row: NativeEntry, groups: seq<Group>, lim: Limits) {
    && |row.cmd| == lim.counters && |row.group| == lim.groupInts && GroupsOk(groups, lim)
    && RowMarkedTo(row, groups, lim, lim.counters, 0)
  }

  function SetBit(row: NativeEntry, id: nat): NativeEntry
    requires id / 32 < |row.group|
  {
    row.(group := row.group[id / 32 := Or(row.group[id / 32], Pow2(id % 32))])
  }

  lemma {:induction false} BitIsSet(row: NativeEntry, id: nat, w: nat, k: nat)
    requires id / 32 < |row.group| && w < |row.group|
    ensures Bit(SetBit(row, id).group[w], k) <==> Bit(row.group[w], k) || (k < 32 && id == 32 * w + k)
  {
    BitOr(row.group[id / 32], Pow2(id % 32), k);
    BitPow2(id % 32, k);
  }

  lemma {:induction false} OneMoreGroup(row: NativeEntry, groups: seq<Group>, lim: Limits, j: nat, n: nat,
                                        w: nat, k: nat)
    requires |row.cmd| == lim.counters && GroupsOk(groups, lim) && j < lim.counters && n < |groups|
    ensures MarkedTo(row, groups, lim, j, n + 1, w, k) <==>
            MarkedTo(row, groups, lim, j, n, w, k) || MarkedBy(row, groups, lim, j, n, w, k)
  {}

  /** The mark depends on selector and commands only. */
  lemma {:induction false} SameMarks(row: NativeEntry, other: NativeEntry, groups: seq<Group>, lim: Limits,
                                     j: nat, n: nat, w: nat, k: nat)
    requires |row.cmd| == lim.counters && GroupsOk(groups, lim)
    requires other.cmd == row.cmd && other.selector == row.selector
    ensures MarkedTo(other, groups, lim, j, n, w, k) <==> MarkedTo(row, groups, lim, j, n, w, k)
  {
    if MarkedTo(row, groups, lim, j, n, w, k) {
      var c: nat, m: nat :| c < lim.counters && m < |groups| && (c < j || (c == j && m < n)) &&
                            MarkedBy(row, groups, lim, c, m, w, k);
      assert MarkedBy(other, groups, lim, c, m, w, k);
    }
    if MarkedTo(other, groups, lim, j, n, w, k) {
      var c: nat, m: nat :| c < lim.counters && m < |groups| && (c < j || (c == j && m < n)) &&
                            MarkedBy(other, groups, lim, c, m, w, k);
      assert MarkedBy(row, groups, lim, c, m, w, k);
    }
  }

  /** The loop body over groups: set the bit, or not. */
  function MarkGroup(row: NativeEntry, g: Group, j: nat): NativeEntry
    requires j < |row.cmd| && j < |g.events| && g.id / 32 < |row.group|
  {
    if row.cmd[j] == g.events[j] then SetBit(row, g.id) else row
  }

  lemma {:induction false} GroupMarked(row: NativeEntry, groups: seq<Group>, lim: Limits, j: nat, n: nat)
    requires |row.cmd| == lim.counters && |row.group| == lim.groupInts && GroupsOk(groups, lim)
    requires j < lim.counters && n < |groups| && Bit(row.selector, j)
    requires RowMarkedTo(row, groups, lim, j, n)
    ensures RowMarkedTo(MarkGroup(row, groups[n], j), groups, lim, j, n + 1)
  {
    var row' := MarkGroup(row, groups[n], j);
    forall w: nat, k: nat | w < lim.groupInts
      ensures Bit(row'.group[w], k) <==> MarkedTo(row', groups, lim, j, n + 1, w, k)
    {
      SameMarks(row, row', groups, lim, j, n + 1, w, k);
      OneMoreGroup(row, groups, lim, j, n, w, k);
      BitIsSet(row, groups[n].id, w, k);
    }
  }

  /** Counter j is done: all groups have been looked at, or the entry is not on it. */
  lemma {:induction false} CounterDone(row: NativeEntry, groups: seq<Group>, lim: Limits, j: nat)
    requires |row.cmd| == lim.counters && |row.group| == lim.groupInts && GroupsOk(groups, lim)
    requires j < lim.counters
    requires RowMarkedTo(row, groups, lim, j, if Bit(row.selector, j) then |groups| else 0)
    ensures RowMarkedTo(row, groups, lim, j + 1, 0)
  {
    var n := if Bit(row.selector, j) then |groups| else 0;
    forall w: nat, k: nat | w < lim.groupInts
      ensures MarkedTo(row, groups, lim, j + 1, 0, w, k) <==> MarkedTo(row, groups, lim, j, n, w, k)
    {
      if MarkedTo(row, groups, lim, j + 1, 0, w, k) {
        var c: nat, m: nat :| c < lim.counters && m < |groups| && c < j + 1 && MarkedBy(row, groups, lim, c, m, w, k);
        assert c < j || (c == j && m < n);
      }
    }
  }

  /** Before anything is marked. */
  lemma {:induction false} NothingMarked(row: NativeEntry, groups: seq<Group>, lim: Limits)
    requires |row.cmd| == lim.counters && |row.group| == lim.groupInts && GroupsOk(groups, lim)
    requires forall w :: 0 <= w < |row.group| ==> row.group[w] == 0
    ensures RowMarkedTo(row, groups, lim, 0, 0)
  {
    forall w: nat, k: nat | w < lim.groupInts ensures !Bit(row.group[w], k) { ZeroBit(k); }
  }
}
