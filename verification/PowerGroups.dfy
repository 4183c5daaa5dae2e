/** The POWER code of src/aix.c over its global tables. */
module PowerGroups {
  import opened PapiCodes
  import opened Counting
  import opened Words
  import opened PowerTables
  import opened PowerChoice

  /** One native event of an event set: its entry in native_table and the counter it is put on. */
  datatype NativeInfo = NativeInfo(event: nat, position: int)

  lemma {:induction false} AndPow2(w: nat, k: nat)
    ensures And(w, Pow2(k)) != 0 <==> Bit(w, k)
  {
    var a := And(w, Pow2(k));
    forall m: nat ensures Bit(a, m) <==> m == k && Bit(w, k) {
      BitAnd(w, Pow2(k), m);
      BitPow2(k, m);
    }
    if a == 0 { ZeroBit(k); } else { FfsLeast(a); }
  }

  /** There is room for one more name as long as not all of them have been entered. */
  lemma {:induction false} RoomLeft(names: seq<string>, all: set<string>, name: string)
    requires Distinct(names) && name !in names && name in all
    requires forall i :: 0 <= i < |names| ==> names[i] in all
    ensures |names| < |all|
  {
    SizeOfDistinct(names);
    assert Elements(names) <= all - {name};
    SubsetSize(Elements(names), all - {name});
  }

  ghost function AllNames(lists: seq<seq<PmEvent>>): set<string> {
    set j, k | 0 <= j < |lists| && 0 <= k < |lists[j]| :: lists[j][k].name
  }

  /** The part of the lists that has been read: all of the first pmc, and ev events of the next. */
  ghost function Read(lists: seq<seq<PmEvent>>, pmc: nat, ev: nat): seq<seq<PmEvent>>
    requires pmc < |lists| && ev <= |lists[pmc]|
  {
    lists[..pmc] + [lists[pmc][..ev]]
  }

  lemma {:induction false} ReadOne(lists: seq<seq<PmEvent>>, pmc: nat, ev: nat)
    requires pmc < |lists| && ev < |lists[pmc]|
    ensures OneMore(Read(lists, pmc, ev), Read(lists, pmc, ev + 1), pmc, lists[pmc][ev])
  {
    assert Read(lists, pmc, ev)[..pmc] == lists[..pmc] == Read(lists, pmc, ev + 1)[..pmc];
    assert lists[pmc][..ev + 1] == lists[pmc][..ev] + [lists[pmc][ev]];
  }

  lemma {:induction false} NamedIsListed(lists: seq<seq<PmEvent>>, pmc: nat, ev: nat, name: string)
    requires pmc < |lists| && ev <= |lists[pmc]| && Named(Read(lists, pmc, ev), name)
    ensures name in AllNames(lists)
  {
    var j: nat :| IdOn(Read(lists, pmc, ev), name, j).Id?;
    var list := Read(lists, pmc, ev)[j];
    LastInIsMember(list, name);
    var e :| e in list && e.name == name;
    assert e in lists[j];
    var k :| 0 <= k < |lists[j]| && lists[j][k] == e;
    assert lists[j][k].name == name;
  }

  /** A list none of whose events have been read yet adds nothing. */
  lemma {:induction false} SameIds(a: seq<seq<PmEvent>>, rows: seq<NativeEntry>, index: nat, lim: Limits)
    requires TableFor(rows, index, a, lim)
    ensures TableFor(rows, index, a + [[]], lim)
  {
    forall name: string, j: nat ensures IdOn(a + [[]], name, j) == IdOn(a, name, j) {}
    forall name: string ensures Named(a + [[]], name) <==> Named(a, name) {
      if j: nat :| IdOn(a, name, j).Id? { assert IdOn(a + [[]], name, j).Id?; }
      if j: nat :| IdOn(a + [[]], name, j).Id? { assert IdOn(a, name, j).Id?; }
    }
    forall i | 0 <= i < index ensures RowFor(rows[i], a + [[]], lim) {
      forall j: nat | j < lim.counters ensures CellFor(rows[i], a + [[]], j) { assert CellFor(rows[i], a, j); }
    }
  }

  class PowerComponent {
    const lim: Limits
    const nativeTable: array<NativeEntry>
    const nameMap: array<int>
    const groupMap: array<seq<int>>

    ghost predicate Valid() {
      && nativeTable.Length == nameMap.Length == lim.natives
      && groupMap.Length == 32 * lim.groupInts
    }

    ghost predicate GroupMapSized()
      reads groupMap
    {
      forall id :: 0 <= id < groupMap.Length ==> |groupMap[id]| == lim.counters
    }

    /** What a finished setup leaves behind. */
    ghost predicate Ready(total: nat, lists: seq<seq<PmEvent>>, groups: seq<Group>)
      reads nativeTable, nameMap, groupMap
    {
      Valid() && Built(nativeTable[..], total, nameMap[..], groupMap[..], lists, groups, lim)
    }

    constructor (lim: Limits)
      ensures Valid() && this.lim == lim && fresh(nativeTable) && fresh(nameMap) && fresh(groupMap)
      ensures GroupMapSized()
    {
      this.lim := lim;
      var zeros := seq(lim.groupInts, _ => 0);
      nativeTable := new NativeEntry[lim.natives](_ => NativeEntry("", 0, seq(lim.counters, _ => 0), zeros));
      nameMap := new int[lim.natives](_ => 0);
      groupMap := new seq<int>[32 * lim.groupInts](_ => seq(lim.counters, _ => 0));
    }

    /** src/aix.c, aix_initialize_native_table. */
    method InitializeNativeTable()
      requires Valid()
      modifies nativeTable, nameMap
      ensures forall i :: 0 <= i < nativeTable.Length ==> Blank(nativeTable[i], lim)
      ensures forall i :: 0 <= i < nameMap.Length ==> nameMap[i] == -1
    {
      for i := 0 to nativeTable.Length
        invariant forall k :: 0 <= k < i ==> Blank(nativeTable[k], lim)
        invariant forall k :: 0 <= k < i ==> nameMap[k] == -1
      {
        nameMap[i] := -1;
        nativeTable[i] := NativeEntry("", 0, seq(lim.counters, _ => -1), seq(lim.groupInts, _ => 0));
      }
    }

    /** The search through the entries for one name. */
    method FindName(name: string, index: nat) returns (i: nat)
      requires index <= nativeTable.Length
      ensures EntryOf(nativeTable[..], index, name, i)
    {
      i := 0;
      while i < index && name != nativeTable[i].name
        invariant i <= index
        invariant forall k :: 0 <= k < i ==> nativeTable[k].name != name
      {
        i := i + 1;
      }
    }

    /** Enters one event of counter pmc. */
    method EnterEvent(e: PmEvent, pmc: nat, index: nat, ghost before: seq<seq<PmEvent>>, ghost after: seq<seq<PmEvent>>)
      returns (index': nat)
      requires Valid() && TableFor(nativeTable[..], index, before, lim) && OneMore(before, after, pmc, e)
      requires pmc < lim.counters && Ungrouped(nativeTable[..])
      requires e.name !in Names(nativeTable[..index]) ==> index < nativeTable.Length
      requires Numbered(index)
      modifies nativeTable, nameMap
      ensures TableFor(nativeTable[..], index', after, lim) && Ungrouped(nativeTable[..])
      ensures Numbered(index')
    {
      ghost var rows := nativeTable[..];
      var i := FindName(e.name, index);
      assert rows[..index] == nativeTable[..index];
      EventRecorded(rows, index, lim, before, after, pmc, e, i);
      index' := index;
      nativeTable[i] := Record(nativeTable[i], pmc, e);
      assert nativeTable[..] == rows[i := Record(rows[i], pmc, e)];
      if i == index {
        nameMap[i] := i;
        index' := index + 1;
      }
    }

    /** The first index entries have names, and the map has their numbers. */
    ghost predicate Numbered(index: nat)
      reads nameMap
    {
      forall k :: 0 <= k < nameMap.Length ==> nameMap[k] == if k < index then k else -1
    }

    /** The loop over the events of counter pmc. */
    method EnterCounter(lists: seq<seq<PmEvent>>, pmc: nat, index0: nat) returns (index: nat)
      requires Valid() && pmc < |lists| <= lim.counters && |AllNames(lists)| <= lim.natives
      requires TableFor(nativeTable[..], index0, lists[..pmc], lim) && Ungrouped(nativeTable[..]) && Numbered(index0)
      modifies nativeTable, nameMap
      ensures TableFor(nativeTable[..], index, lists[..pmc + 1], lim) && Ungrouped(nativeTable[..]) && Numbered(index)
    {
      SameIds(lists[..pmc], nativeTable[..], index0, lim);
      index := index0;
      assert Read(lists, pmc, 0) == lists[..pmc] + [[]];
      for ev := 0 to |lists[pmc]|
        invariant TableFor(nativeTable[..], index, Read(lists, pmc, ev), lim)
        invariant Ungrouped(nativeTable[..]) && Numbered(index)
      {
        ReadOne(lists, pmc, ev);
        ghost var names, e := Names(nativeTable[..index]), lists[pmc][ev];
        if e.name !in names {
          EnteredAreListed(lists, pmc, ev, nativeTable[..], index);
          assert e.name in AllNames(lists);
          RoomLeft(names, AllNames(lists), e.name);
        }
        index := EnterEvent(lists[pmc][ev], pmc, index, Read(lists, pmc, ev), Read(lists, pmc, ev + 1));
      }
      assert lists[pmc][..|lists[pmc]|] == lists[pmc];
      assert Read(lists, pmc, |lists[pmc]|) == lists[..pmc + 1];
    }

    lemma {:induction false} EnteredAreListed(lists: seq<seq<PmEvent>>, pmc: nat, ev: nat,
                                              rows: seq<NativeEntry>, index: nat)
      requires pmc < |lists| && ev <= |lists[pmc]| && TableFor(rows, index, Read(lists, pmc, ev), lim)
      ensures forall i :: 0 <= i < index ==> Names(rows[..index])[i] in AllNames(lists)
    {
      forall i | 0 <= i < index ensures Names(rows[..index])[i] in AllNames(lists) {
        NamedIsListed(lists, pmc, ev, rows[i].name);
      }
    }

    /** src/aix.c, aix_ppc64_setup_native_table: enters every event of every counter, then marks
        the groups. */
    method SetupNativeTable(lists: seq<seq<PmEvent>>, groups: seq<Group>) returns (index: nat)
      requires Valid() && |lists| <= lim.counters && |AllNames(lists)| <= lim.natives
      requires GroupsOk(groups, lim) && UniqueIds(groups)
      requires GroupMapSized()
      modifies nativeTable, nameMap, groupMap
      ensures Ready(index, lists, groups)
    {
      InitializeNativeTable();
      index := 0;
      NothingNamed();
      assert lists[..0] == [];
      for pmc := 0 to |lists|
        invariant TableFor(nativeTable[..], index, lists[..pmc], lim)
        invariant Ungrouped(nativeTable[..]) && Numbered(index) && GroupMapSized()
      {
        index := EnterCounter(lists, pmc, index);
      }
      assert lists[..|lists|] == lists;
      SetupGroups(index, lists, groups);
    }

    lemma {:induction false} NothingNamed()
      ensures forall name: string :: !Named([], name)
    {}

    /** src/aix.c, aix_ppc64_setup_gps: the group bits of every entry, then the table of groups. */
    method SetupGroups(total: nat, ghost lists: seq<seq<PmEvent>>, groups: seq<Group>)
      requires Valid() && GroupsOk(groups, lim) && UniqueIds(groups) && total <= nativeTable.Length
      requires TableFor(nativeTable[..], total, lists, lim) && Ungrouped(nativeTable[..]) && Numbered(total)
      requires GroupMapSized()
      modifies nativeTable, groupMap
      ensures Ready(total, lists, groups)
    {
      for i := 0 to total
        invariant TableFor(nativeTable[..], total, lists, lim)
        invariant forall k :: 0 <= k < i ==> RowMarked(nativeTable[k], groups, lim)
        invariant forall k :: i <= k < nativeTable.Length ==> nativeTable[k] == old(nativeTable[k])
        invariant GroupMapSized()
      {
        assert RowFor(nativeTable[..][i], lists, lim);
        assert Ungrouped(old(nativeTable[..])) && old(nativeTable[..])[i] == nativeTable[i];
        ghost var rows := nativeTable[..];
        MarkEntry(i, groups);
        TableKept(rows, nativeTable[..], total, lists, i);
      }
      FillGroupMap(groups);
    }

    /** Changing the group bits of one entry does not disturb the rest. */
    lemma {:induction false} TableKept(rows: seq<NativeEntry>, after: seq<NativeEntry>, total: nat,
                                       lists: seq<seq<PmEvent>>, i: nat)
      requires TableFor(rows, total, lists, lim) && i < total
      requires |after| == |rows| && |after[i].group| == |rows[i].group| && after[i] == rows[i].(group := after[i].group)
      requires forall k :: 0 <= k < |rows| && k != i ==> after[k] == rows[k]
      ensures TableFor(after, total, lists, lim)
    {
      assert Names(after[..total]) == Names(rows[..total]);
      assert forall j: nat :: j < lim.counters && CellFor(rows[i], lists, j) ==> CellFor(after[i], lists, j);
    }

    /** All counters of one entry. */
    method MarkEntry(i: nat, groups: seq<Group>)
      requires i < nativeTable.Length && GroupsOk(groups, lim)
      requires |nativeTable[i].cmd| == lim.counters && |nativeTable[i].group| == lim.groupInts
      requires forall w :: 0 <= w < lim.groupInts ==> nativeTable[i].group[w] == 0
      modifies nativeTable
      ensures forall k :: 0 <= k < nativeTable.Length && k != i ==> nativeTable[k] == old(nativeTable[k])
      ensures nativeTable[i] == old(nativeTable[i]).(group := nativeTable[i].group)
      ensures RowMarked(nativeTable[i], groups, lim)
    {
      NothingMarked(nativeTable[i], groups, lim);
      for j := 0 to lim.counters
        invariant forall k :: 0 <= k < nativeTable.Length && k != i ==> nativeTable[k] == old(nativeTable[k])
        invariant nativeTable[i] == old(nativeTable[i]).(group := nativeTable[i].group)
        invariant |nativeTable[i].group| == lim.groupInts
        invariant RowMarkedTo(nativeTable[i], groups, lim, j, 0)
      {
        AndPow2(nativeTable[i].selector, j);
        if And(nativeTable[i].selector, Pow2(j)) != 0 {
          MarkCounter(i, j, groups);
        }
        CounterDone(nativeTable[i], groups, lim, j);
      }
    }

    /** All groups for one counter of one entry. */
    method MarkCounter(i: nat, j: nat, groups: seq<Group>)
      requires i < nativeTable.Length && GroupsOk(groups, lim) && j < lim.counters
      requires |nativeTable[i].cmd| == lim.counters && |nativeTable[i].group| == lim.groupInts
      requires Bit(nativeTable[i].selector, j) && RowMarkedTo(nativeTable[i], groups, lim, j, 0)
      modifies nativeTable
      ensures forall k :: 0 <= k < nativeTable.Length && k != i ==> nativeTable[k] == old(nativeTable[k])
      ensures nativeTable[i] == old(nativeTable[i]).(group := nativeTable[i].group)
      ensures |nativeTable[i].group| == lim.groupInts
      ensures RowMarkedTo(nativeTable[i], groups, lim, j, |groups|)
    {
      for gnum := 0 to |groups|
        invariant forall k :: 0 <= k < nativeTable.Length && k != i ==> nativeTable[k] == old(nativeTable[k])
        invariant nativeTable[i] == old(nativeTable[i]).(group := nativeTable[i].group)
        invariant |nativeTable[i].group| == lim.groupInts
        invariant RowMarkedTo(nativeTable[i], groups, lim, j, gnum)
      {
        GroupMarked(nativeTable[i], groups, lim, j, gnum);
        if nativeTable[i].cmd[j] == groups[gnum].events[j] {
          nativeTable[i] := SetBit(nativeTable[i], groups[gnum].id);
        }
      }
    }

    /** The second half: what each group makes each counter count. */
    method FillGroupMap(groups: seq<Group>)
      requires GroupsOk(groups, lim) && UniqueIds(groups) && groupMap.Length == 32 * lim.groupInts
      requires GroupMapSized()
      modifies groupMap
      ensures GroupMapSized()
      ensures forall n :: 0 <= n < |groups| ==> groupMap[groups[n].id] == groups[n].events
    {
      for gnum := 0 to |groups|
        invariant GroupMapSized()
        invariant forall n :: 0 <= n < gnum ==> groupMap[groups[n].id] == groups[n].events
      {
        CopyGroup(groups[gnum]);
      }
    }

    method CopyGroup(g: Group)
      requires |g.events| == lim.counters && g.id < groupMap.Length
      requires GroupMapSized()
      modifies groupMap
      ensures groupMap[g.id] == g.events
      ensures forall id :: 0 <= id < groupMap.Length && id != g.id ==> groupMap[id] == old(groupMap[id])
    {
      for i := 0 to lim.counters
        invariant |groupMap[g.id]| == lim.counters && groupMap[g.id][..i] == g.events[..i]
        invariant forall id :: 0 <= id < groupMap.Length && id != g.id ==> groupMap[id] == old(groupMap[id])
      {
        if g.id >= groupMap.Length { continue; }
        groupMap[g.id] := groupMap[g.id][i := g.events[i]];
      }
    }

    // -------------------------------------------------------------- allocation

    /** The words of one more event are put into the common. */
    method AndInto(common: array<nat>, e: RegAlloc)
      requires common.Length == |e.group|
      modifies common
      ensures forall w :: 0 <= w < common.Length ==> common[w] == And(old(common[w]), e.group[w])
    {
      for j := 0 to common.Length
        invariant forall w :: 0 <= w < j ==> common[w] == And(old(common[w]), e.group[w])
        invariant forall w :: j <= w < common.Length ==> common[w] == old(common[w])
      {
        common[j] := And(common[j], e.group[j]);
      }
    }

    method IntersectGroups(eventList: array<RegAlloc>, size: nat) returns (common: array<nat>)
      requires 0 < size <= eventList.Length && Sized(eventList[..size], lim)
      ensures fresh(common) && AndOf(common[..], eventList[..size], size, lim)
    {
      ghost var evs := eventList[..size];
      common := new nat[lim.groupInts](_ => 0);
      for i := 0 to lim.groupInts
        invariant forall w :: 0 <= w < i ==> common[w] == evs[0].group[w]
      {
        assert |evs[0].group| == lim.groupInts;
        common[i] := eventList[0].group[i];
      }
      assert AndOf(common[..], evs, 1, lim);
      for i := 1 to size
        invariant AndOf(common[..], evs, i, lim)
      {
        ghost var before := common[..];
        assert evs[i] == eventList[i];
        AndInto(common, eventList[i]);
        AndOne(before, common[..], evs, i, lim);
      }
    }

    /** The first set bit of the first word that has one. */
    method FirstGroup(common: array<nat>, ghost evs: seq<RegAlloc>) returns (group: int)
      requires Sized(evs, lim) && evs != [] && AndOf(common[..], evs, |evs|, lim)
      requires forall w: nat, k: nat | w < lim.groupInts :: Bit(evs[0].group[w], k) ==> k < 32
      ensures Chosen(evs, lim, group)
    {
      group := -1;
      var i := 0;
      while i < lim.groupInts
        invariant i <= lim.groupInts
        invariant forall id: nat :: id < 32 * i ==> !Common(evs, lim, id)
      {
        if common[i] != 0 {
          FirstInWord(lim, common[..], evs, i);
          return Ffs(common[i]) - 1 + i * 32;
        }
        NoneInWord(lim, common[..], evs, i);
        i := i + 1;
      }
    }

    /** The loops that look for each event's counter; a later match overwrites an earlier one. */
    method PlaceEvents(eventList: array<RegAlloc>, size: nat, groupCmd: seq<int>)
      requires size <= eventList.Length && |groupCmd| == lim.counters
      requires forall i :: 0 <= i < size ==> |eventList[i].cmd| == lim.counters && eventList[i].position == -1
      modifies eventList
      ensures forall i :: 0 <= i < size ==> eventList[i] == Placed(old(eventList[i]), groupCmd)
    {
      for i := 0 to size
        invariant forall k :: 0 <= k < i ==> eventList[k] == Placed(old(eventList[k]), groupCmd)
        invariant forall k :: i <= k < size ==> eventList[k] == old(eventList[k])
      {
        for j := 0 to lim.counters
          invariant forall k :: 0 <= k < i ==> eventList[k] == Placed(old(eventList[k]), groupCmd)
          invariant forall k :: i < k < size ==> eventList[k] == old(eventList[k])
          invariant eventList[i] == old(eventList[i]).(position := LastMatch(old(eventList[i]).cmd, groupCmd, j))
        {
          if eventList[i].cmd[j] >= 0 && eventList[i].cmd[j] == groupCmd[j] {
            eventList[i] := eventList[i].(position := j);
          }
        }
      }
    }

    /** src/aix.c, do_counter_allocation. */
    method DoCounterAllocation(eventList: array<RegAlloc>, size: nat) returns (group: int)
      requires Valid() && GroupMapSized() && 0 < size <= eventList.Length && Sized(eventList[..size], lim)
      requires forall i :: 0 <= i < size ==> eventList[i].position == -1
      requires forall w: nat, k: nat | w < lim.groupInts :: Bit(eventList[0].group[w], k) ==> k < 32
      modifies eventList
      ensures Chosen(old(eventList[..size]), lim, group)
      ensures group >= 0 ==> group < groupMap.Length
      ensures group >= 0 ==> forall i :: 0 <= i < size ==> eventList[i] == Placed(old(eventList[i]), groupMap[group])
    {
      ghost var evs := eventList[..size];
      var common := IntersectGroups(eventList, size);
      assert evs[0] == eventList[0];
      group := FirstGroup(common, evs);
      if group >= 0 {
        assert forall i :: 0 <= i < size ==> evs[i] == eventList[i];
        PlaceEvents(eventList, size, groupMap[group]);
      }
    }

    /** Copies the entries of the requested events; fails if one of them has no entry. */
    method GatherEvents(natives: array<NativeInfo>, natNum: nat, eventList: array<RegAlloc>, ghost total: nat)
      returns (ok: bool)
      requires Valid() && natNum <= natives.Length && natNum <= eventList.Length && total <= nativeTable.Length
      requires forall i :: 0 <= i < natNum ==> natives[i].event < lim.natives
      requires Numbered(total)
      modifies eventList
      ensures ok <==> forall i :: 0 <= i < natNum ==> natives[i].event < total
      ensures ok ==> forall i :: 0 <= i < natNum ==> eventList[i] == FromEntry(nativeTable[natives[i].event])
    {
      for i := 0 to natNum
        invariant forall k :: 0 <= k < i ==> natives[k].event < total
        invariant forall k :: 0 <= k < i ==> eventList[k] == FromEntry(nativeTable[natives[k].event])
      {
        var index := nameMap[natives[i].event];
        if index < 0 { return false; }
        eventList[i] := FromEntry(nativeTable[index]);
      }
      return true;
    }

    /** src/aix.c, _aix_allocate_registers: places the events of a set in the least group that has
        them all. */
    method AllocateRegisters(natives: array<NativeInfo>, natNum: nat, ghost total: nat,
                             ghost lists: seq<seq<PmEvent>>, ghost groups: seq<Group>)
      returns (ret: int, group: int)
      requires Ready(total, lists, groups) && DistinctIds(lists)
      requires 0 < natNum <= natives.Length && natNum <= lim.counters
      requires forall i :: 0 <= i < natNum ==> natives[i].event < lim.natives
      modifies natives
      ensures forall i :: 0 <= i < natNum ==> natives[i].event == old(natives[i].event)
      ensures ret == PAPI_OK || (ret == PAPI_ECNFLCT && natives[..] == old(natives[..]))
      ensures var wanted := Wanted(old(natives[..natNum]));
        if exists i :: 0 <= i < natNum && wanted[i] >= total then ret == PAPI_ECNFLCT
        else Outcome(ret, group, natives[..natNum], WantedNames(nativeTable[..], wanted), lists, groups)
    {
      ghost var wanted, rows := Wanted(natives[..natNum]), nativeTable[..];
      var eventList := new RegAlloc[lim.counters](_ => RegAlloc(-1, [], []));
      group := -1;
      var ok := GatherEvents(natives, natNum, eventList, total);
      if !ok { return PAPI_ECNFLCT, group; }
      ghost var evs := eventList[..natNum];
      EventsFit(rows, total, lists, groups, lim, evs, wanted, nameMap[..], groupMap[..]);
      assert evs[0] == eventList[0];
      assert forall i :: 0 <= i < natNum ==> evs[i] == eventList[i];
      group := DoCounterAllocation(eventList, natNum);
      ChosenIsLeast(rows, total, nameMap[..], groupMap[..], lists, groups, lim, evs, wanted, group);
      if group < 0 {
        return PAPI_ECNFLCT, group;
      }
      CopyPositions(natives, natNum, eventList);
      PositionsCount(rows, total, nameMap[..], groupMap[..], lists, groups, lim, evs, wanted, group, natives[..natNum]);
      return PAPI_OK, group;
    }

    /** Copies the positions back into the event set. */
    method CopyPositions(natives: array<NativeInfo>, natNum: nat, eventList: array<RegAlloc>)
      requires natNum <= natives.Length && natNum <= eventList.Length
      modifies natives
      ensures forall i :: 0 <= i < natNum ==> natives[i] == old(natives[i]).(position := eventList[i].position)
    {
      for i := 0 to natNum
        invariant forall k :: 0 <= k < i ==> natives[k] == old(natives[k]).(position := eventList[k].position)
        invariant forall k :: i <= k < natNum ==> natives[k] == old(natives[k])
      {
        natives[i] := natives[i].(position := eventList[i].position);
      }
    }
  }

  function FromEntry(row: NativeEntry): RegAlloc {
    RegAlloc(-1, row.group, row.cmd)
  }

  function Wanted(natives: seq<NativeInfo>): (r: seq<nat>)
    ensures |r| == |natives| && forall i :: 0 <= i < |r| ==> r[i] == natives[i].event
  {
    seq(|natives|, i requires 0 <= i < |natives| => natives[i].event)
  }

  /** Success: the least group that contains all events, each event on a counter that counts it
      there, different events on different counters.  Failure: no group contains them all. */
  ghost predicate Outcome(ret: int, group: int, natives: seq<NativeInfo>, names: seq<string>,
                          lists: seq<seq<PmEvent>>, groups: seq<Group>)
    requires |natives| == |names|
  {
    if ret == PAPI_OK then
      && (exists n :: 0 <= n < |groups| && groups[n].id == group && Least(lists, groups, names, n)
                      && AllCount(natives, names, lists, groups[n]))
      && (forall i, j :: 0 <= i < j < |names| && names[i] != names[j] ==> natives[i].position != natives[j].position)
    else
      ret == PAPI_ECNFLCT && forall n :: 0 <= n < |groups| ==> !ContainsAll(lists, names, groups[n])
  }

  predicate AllCount(natives: seq<NativeInfo>, names: seq<string>, lists: seq<seq<PmEvent>>, g: Group)
    requires |natives| == |names|
  {
    forall i :: 0 <= i < |names| ==> CountsOn(lists, names[i], g, natives[i].position)
  }

  lemma {:induction false} EventsFit(rows: seq<NativeEntry>, total: nat, lists: seq<seq<PmEvent>>, groups: seq<Group>,
                                     lim: Limits, evs: seq<RegAlloc>, wanted: seq<nat>,
                                     nameMap: seq<int>, groupMap: seq<seq<int>>)
    requires Built(rows, total, nameMap, groupMap, lists, groups, lim) && |evs| == |wanted| && wanted != []
    requires forall i :: 0 <= i < |wanted| ==> wanted[i] < total && evs[i] == FromEntry(rows[wanted[i]])
    ensures Sized(evs, lim) && Requested(evs, rows, total, wanted)
    ensures forall w: nat, k: nat | w < lim.groupInts :: Bit(evs[0].group[w], k) ==> k < 32
  {
    assert RowFor(rows[wanted[0]], lists, lim) && RowMarked(rows[wanted[0]], groups, lim);
    forall w: nat, k: nat | w < lim.groupInts && Bit(evs[0].group[w], k) ensures k < 32 {
      assert MarkedTo(rows[wanted[0]], groups, lim, lim.counters, 0, w, k);
    }
  }

  lemma {:induction false} PositionsCount(rows: seq<NativeEntry>, total: nat, nameMap: seq<int>,
                                          groupMap: seq<seq<int>>, lists: seq<seq<PmEvent>>,
                                          groups: seq<Group>, lim: Limits, evs: seq<RegAlloc>, wanted: seq<nat>,
                                          group: nat, natives: seq<NativeInfo>)
    requires Built(rows, total, nameMap, groupMap, lists, groups, lim) && DistinctIds(lists)
    requires Sized(evs, lim) && Requested(evs, rows, total, wanted) && |natives| == |wanted|
    requires exists n :: 0 <= n < |groups| && groups[n].id == group &&
                         Least(lists, groups, WantedNames(rows, wanted), n)
    requires group < |groupMap|
    requires forall i :: 0 <= i < |wanted| ==> natives[i].position == Placed(evs[i], groupMap[group]).position
    ensures Outcome(PAPI_OK, group, natives, WantedNames(rows, wanted), lists, groups)
  {
    var names := WantedNames(rows, wanted);
    var n :| 0 <= n < |groups| && groups[n].id == group && Least(lists, groups, names, n);
    forall i | 0 <= i < |names| ensures CountsOn(lists, names[i], groups[n], natives[i].position) {
      assert Contains(lists, names[i], groups[n]);
      PositionCounts(rows[wanted[i]], lists, lim, groups[n]);
    }
    forall i, j | 0 <= i < j < |names| && natives[i].position == natives[j].position ensures names[i] == names[j] {
      NoSharedCounter(lists, groups[n], names[i], names[j], natives[i].position);
    }
    assert AllCount(natives, names, lists, groups[n]);
  }
}
