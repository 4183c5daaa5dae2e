/** The tables of an event set as the library keeps them: parallel arrays, compacted in place. */
module EventSets {
  import opened PapiCodes
  import opened OverflowTables

  /** The first position of a code is determined by what it says. */
  lemma {:induction false} FindIs(codes: seq<int>, code: int, i: nat)
    requires i <= |codes| && (i < |codes| ==> codes[i] == code)
    requires forall k :: 0 <= k < i ==> codes[k] != code
    ensures FindCode(codes, code) == i
  {
    if i > 0 {
      assert codes[0] != code;
      FindIs(codes[1..], code, i - 1);
    }
  }

  /** a is was with the elements after i moved down by one as far as j. */
  ghost predicate MovedDown<T>(a: seq<T>, was: seq<T>, i: nat, j: nat) {
    && |a| == |was| && i <= j < |a|
    && (forall k :: 0 <= k < i ==> a[k] == was[k])
    && (forall k :: i <= k < j ==> a[k] == was[k + 1])
    && (forall k :: j <= k < |a| ==> a[k] == was[k])
  }

  /** Moves the elements of one array after position i down by one; the last becomes d. */
  method Compact<T>(a: array<T>, i: nat, n: nat, d: T)
    requires i < n <= a.Length
    modifies a
    ensures forall k :: 0 <= k < i ==> a[k] == old(a[k])
    ensures forall k :: i <= k < n - 1 ==> a[k] == old(a[k + 1])
    ensures a[n - 1] == d
  {
    var j := i;
    while j < n - 1
      invariant i <= j <= n - 1
      invariant MovedDown(a[..], old(a[..]), i, j)
    {
      ghost var was := a[..];
      a[j] := a[j + 1];
      assert a[..] == was[j := was[j + 1]];
      j := j + 1;
    }
    a[j] := d;
  }

  class OverflowInfo {
    var flags: OvfFlags
    var eventCounter: nat
    var handler: Handler
    const deadline: array<int>
    const threshold: array<int>
    const eventIndex: array<int>
    const eventCode: array<int>

    ghost function Arrays(): set<object> { {deadline as object, threshold, eventIndex, eventCode} }

    ghost predicate Valid()
      reads this
    {
      && deadline != threshold && deadline != eventIndex && deadline != eventCode
      && threshold != eventIndex && threshold != eventCode && eventIndex != eventCode
      && deadline.Length == threshold.Length == eventIndex.Length == eventCode.Length
      && eventCounter <= deadline.Length
    }

    ghost function Entries(): (es: seq<OvfEntry>)
      requires Valid()
      reads this, deadline, threshold, eventIndex, eventCode
      ensures |es| == eventCounter
    {
      seq(eventCounter, i requires 0 <= i < eventCounter && Valid()
                          reads this, deadline, threshold, eventIndex, eventCode =>
        OvfEntry(eventCode[i], eventIndex[i], threshold[i], deadline[i]))
    }

    constructor (max: nat)
      ensures Valid() && Entries() == [] && deadline.Length == max
      ensures flags == OvfFlags(false, false) && handler == NoHandler
      ensures fresh(deadline) && fresh(threshold) && fresh(eventIndex) && fresh(eventCode)
    {
      flags, eventCounter, handler := OvfFlags(false, false), 0, NoHandler;
      deadline, threshold := new int[max], new int[max];
      eventIndex, eventCode := new int[max], new int[max];
    }

    method Find(code: int) returns (i: nat)
      requires Valid()
      ensures i == FindCode(OvfCodes(Entries()), code)
    {
      i := 0;
      while i < eventCounter && eventCode[i] != code
        invariant i <= eventCounter
        invariant forall k :: 0 <= k < i ==> eventCode[k] != code
      {
        i := i + 1;
      }
      FindIs(OvfCodes(Entries()), code, i);
    }

    method Remove(i: nat)
      requires Valid() && i < eventCounter
      modifies this`eventCounter, deadline, threshold, eventIndex, eventCode
      ensures Valid() && Entries() == Drop(old(Entries()), i)
    {
      Compact(deadline, i, eventCounter, 0);
      Compact(threshold, i, eventCounter, 0);
      Compact(eventIndex, i, eventCounter, 0);
      Compact(eventCode, i, eventCounter, 0);
      eventCounter := eventCounter - 1;
    }

    method Store(i: nat, code: int, index: int, thresh: int)
      requires Valid() && i <= eventCounter && i < deadline.Length
      requires i < eventCounter ==> eventCode[i] == code
      modifies this`eventCounter, deadline, threshold, eventIndex, eventCode
      ensures Valid() && Entries() == Put(old(Entries()), i, OvfEntry(code, index, thresh, thresh))
    {
      if i == eventCounter {
        eventCode[i] := code;
        eventCounter := eventCounter + 1;
      }
      deadline[i] := thresh;
      threshold[i] := thresh;
      eventIndex[i] := index;
    }

    /** The part of PAPI_overflow that searches the table and changes it. */
    method Edit(c: OvfCall, index: int) returns (ret: int)
      requires Valid() && c.threshold >= 0
      requires c.threshold > 0 ==> eventCounter < deadline.Length
      modifies this, deadline, threshold, eventIndex, eventCode
      ensures Valid() && ret == EditRefusal(old(Entries()), old(flags), c)
      ensures ret != PAPI_OK ==> Entries() == old(Entries()) && flags == old(flags) && handler == old(handler)
      ensures ret == PAPI_OK ==> Entries() == EditedOvf(old(Entries()), index, c) && handler == c.handler
      ensures ret == PAPI_OK ==> flags == if c.threshold == 0 then old(flags) else c.flags
    {
      if c.threshold != 0 && eventCounter > 0 {
        if c.flags.forceSw && flags.hardware { return PAPI_ECNFLCT; }
        if !c.flags.forceSw && flags.forceSw { return PAPI_ECNFLCT; }
      }
      var i := Find(c.code);
      if c.threshold == 0 {
        if i == eventCounter { return PAPI_EINVAL; }
        Remove(i);
      } else {
        assert i < eventCounter ==> OvfCodes(Entries())[i] == eventCode[i];
        Store(i, c.code, index, c.threshold);
        flags := c.flags;
      }
      handler := c.handler;
      return PAPI_OK;
    }
  }

  class ProfileInfo {
    var flags: set<ProfFlag>
    var eventCounter: nat
    const prof: array<seq<Region>>
    const threshold: array<int>
    const eventIndex: array<int>
    const eventCode: array<int>

    ghost function Arrays(): set<object> { {prof as object, threshold, eventIndex, eventCode} }

    ghost predicate Valid()
      reads this
    {
      && threshold != eventIndex && threshold != eventCode && eventIndex != eventCode
      && prof.Length == threshold.Length == eventIndex.Length == eventCode.Length
      && eventCounter <= prof.Length
    }

    ghost function Entries(): (es: seq<ProfEntry>)
      requires Valid()
      reads this, prof, threshold, eventIndex, eventCode
      ensures |es| == eventCounter
    {
      seq(eventCounter, i requires 0 <= i < eventCounter && Valid()
                          reads this, prof, threshold, eventIndex, eventCode =>
        ProfEntry(eventCode[i], eventIndex[i], threshold[i], prof[i]))
    }

    constructor (max: nat)
      ensures Valid() && Entries() == [] && prof.Length == max && flags == {}
      ensures fresh(prof) && fresh(threshold) && fresh(eventIndex) && fresh(eventCode)
    {
      flags, eventCounter := {}, 0;
      prof, threshold := new seq<Region>[max](_ => []), new int[max];
      eventIndex, eventCode := new int[max], new int[max];
    }

    method Find(code: int) returns (i: nat)
      requires Valid()
      ensures i == FindCode(ProfCodes(Entries()), code)
    {
      i := 0;
      while i < eventCounter && eventCode[i] != code
        invariant i <= eventCounter
        invariant forall k :: 0 <= k < i ==> eventCode[k] != code
      {
        i := i + 1;
      }
      FindIs(ProfCodes(Entries()), code, i);
    }

    method Remove(i: nat)
      requires Valid() && i < eventCounter
      modifies this`eventCounter, prof, threshold, eventIndex, eventCode
      ensures Valid() && Entries() == Drop(old(Entries()), i)
    {
      Compact(prof, i, eventCounter, []);
      Compact(threshold, i, eventCounter, 0);
      Compact(eventIndex, i, eventCounter, 0);
      Compact(eventCode, i, eventCounter, 0);
      eventCounter := eventCounter - 1;
    }

    method Store(i: nat, code: int, index: int, thresh: int, regions: seq<Region>)
      requires Valid() && i <= eventCounter && i < prof.Length
      requires i < eventCounter ==> eventCode[i] == code
      modifies this`eventCounter, prof, threshold, eventIndex, eventCode
      ensures Valid() && Entries() == Put(old(Entries()), i, ProfEntry(code, index, thresh, regions))
    {
      if i == eventCounter {
        eventCounter := eventCounter + 1;
        eventCode[i] := code;
      }
      prof[i] := regions;
      threshold[i] := thresh;
      eventIndex[i] := index;
    }

    /** The part of PAPI_sprofil that searches the table and changes it. */
    method Edit(c: ProfCall, index: int) returns (ret: int)
      requires Valid() && c.threshold >= 0
      requires c.threshold > 0 ==> eventCounter < prof.Length
      modifies this, prof, threshold, eventIndex, eventCode
      ensures Valid() && flags == old(flags)
      ensures ret == ProfilRefusal(old(Entries()), flags, c)
      ensures Entries() == if ret == PAPI_OK then EditedProf(old(Entries()), index, c) else old(Entries())
    {
      if c.threshold != 0 && eventCounter > 0 {
        if ForceSw in c.flags && ForceSw !in flags { return PAPI_ECNFLCT; }
        if ForceSw !in c.flags && ForceSw in flags { return PAPI_ECNFLCT; }
      }
      var i := Find(c.code);
      if c.threshold == 0 {
        if i == eventCounter { return PAPI_EINVAL; }
        Remove(i);
      } else {
        assert i < eventCounter ==> ProfCodes(Entries())[i] == eventCode[i];
        Store(i, c.code, index, c.threshold, c.prof);
      }
      return PAPI_OK;
    }
  }

  /** An EventSetInfo_t as far as overflow and profiling go; its component and its added events
      are fixed. */
  class EventSet {
    const cmp: Component
    const events: seq<EventInfo>
    const overflow: OverflowInfo
    const profile: ProfileInfo
    var stopped: bool
    var attached: bool
    var cpuAttached: bool
    var overflowing: bool
    var profiling: bool
    var paused: bool

    ghost function Repr(): set<object> {
      {this, overflow, profile} + overflow.Arrays() + profile.Arrays()
    }

    ghost predicate Valid()
      reads Repr()
    {
      && overflow.Valid() && profile.Valid()
      && overflow.Arrays() !! profile.Arrays()
      && cmp.numCntrs <= overflow.deadline.Length && cmp.numCntrs <= profile.prof.Length
      && overflow.eventCounter <= cmp.numCntrs && profile.eventCounter <= cmp.numCntrs
    }

    ghost function Abs(): Tables
      requires Valid()
      reads Repr()
    {
      Tables(stopped, attached, cpuAttached, overflowing, profiling,
             overflow.Entries(), overflow.flags, overflow.handler,
             profile.Entries(), profile.flags)
    }

    constructor (cmp: Component, events: seq<EventInfo>, max: nat)
      requires cmp.numCntrs <= max
      ensures Valid() && Abs() == FRESH && this.cmp == cmp && this.events == events
    {
      this.cmp, this.events := cmp, events;
      overflow := new OverflowInfo(max);
      profile := new ProfileInfo(max);
      stopped, attached, cpuAttached, overflowing, profiling := true, false, false, false, false;
      paused := false;
    }

    /** src/papi.c, PAPI_overflow. */
    method Overflow(c: OvfCall) returns (ret: int)
      requires Valid()
      modifies Repr()
      ensures Valid() && (ret, Abs()) == OverflowSpec(cmp, events, old(Abs()), c)
      ensures paused == old(paused)
      ensures profiling == old(profiling) && profile.flags == old(profile.flags)
      ensures profile.eventCounter == old(profile.eventCounter)
    {
      ghost var s := Abs();
      if !stopped { return PAPI_EISRUN; }
      if attached { return PAPI_EINVAL; }
      if cpuAttached { return PAPI_EINVAL; }
      var index := IndexOfCode(events, c.code);
      if index < 0 { return PAPI_ENOEVNT; }
      if c.threshold < 0 { return PAPI_EINVAL; }
      if !c.flags.forceSw && c.threshold != 0 && IsDerived(events[index]) { return PAPI_EINVAL; }
      if !overflowing {
        if c.handler == NoHandler { return PAPI_EINVAL; }
        if c.threshold == 0 { return PAPI_EINVAL; }
      }
      if c.threshold > 0 && overflow.eventCounter >= cmp.numCntrs { return PAPI_ECNFLCT; }
      ret := overflow.Edit(c, index);
      if ret != PAPI_OK {
        assert Abs() == s;
        return;
      }
      assert Abs() == OverflowEdit(events, s, c);
      ret := FinishOverflow(c.hwRet);
    }

    method FinishOverflow(hwRet: int) returns (ret: int)
      requires Valid()
      modifies this`overflowing, overflow`flags, overflow`handler
      ensures Valid() && (ret, Abs()) == OverflowFinish(cmp, old(Abs()), hwRet)
    {
      if cmp.hardwareIntr && !overflow.flags.forceSw {
        if hwRet != PAPI_OK { return hwRet; }
        overflow.flags := overflow.flags.(hardware := true);
      } else {
        overflow.flags := overflow.flags.(hardware := false);
      }
      if overflow.eventCounter >= 1 {
        overflowing := true;
      } else {
        overflowing := !overflowing;
        overflow.flags := OvfFlags(false, false);
        overflow.handler := NoHandler;
      }
      assert overflow.Entries() == old(overflow.Entries());
      return PAPI_OK;
    }

    /** src/papi.c, PAPI_sprofil. */
    method Sprofil(c: ProfCall) returns (ret: int)
      requires Valid()
      modifies Repr()
      ensures Valid() && (ret, Abs()) == ProfilSpec(cmp, events, old(Abs()), c)
      ensures paused == old(paused)
    {
      ghost var s := Abs();
      if !stopped { return PAPI_EISRUN; }
      if attached { return PAPI_EINVAL; }
      if cpuAttached { return PAPI_EINVAL; }
      var index := IndexOfCode(events, c.code);
      if index < 0 { return PAPI_ENOEVNT; }
      if IsDerived(events[index]) && ForceSw !in c.flags { return PAPI_EINVAL; }
      for i := 0 to |c.prof|
        invariant forall k :: 0 <= k < i ==> ScaleOk(c.prof[k].scale)
      {
        if !ScaleOk(c.prof[i].scale) { return PAPI_EINVAL; }
      }
      if c.threshold < 0 { return PAPI_EINVAL; }
      if !profiling && c.threshold == 0 { return PAPI_EINVAL; }
      if c.threshold > 0 && profile.eventCounter >= cmp.numCntrs { return PAPI_ECNFLCT; }
      ret := profile.Edit(c, index);
      if ret != PAPI_OK {
        assert Abs() == s;
        return;
      }
      assert Abs() == ProfilEdit(events, s, c);
      ret := SwitchProfiling(c);
    }

    /** The part of PAPI_sprofil after its table has been edited. */
    method SwitchProfiling(c: ProfCall) returns (ret: int)
      requires Valid()
      modifies Repr()
      ensures Valid() && (ret, Abs()) == ProfilSwitch(cmp, events, old(Abs()), c)
      ensures paused == old(paused)
    {
      var flags := c.flags;
      if c.threshold == 0 { flags := flags + profile.flags; }
      if !FlagsOk(flags) { return PAPI_EINVAL; }
      SetProfilFlags(flags);
      ret := RequestProfil(c, flags);
      if ret < PAPI_OK { return; }
      FinishProfil();
      ret := PAPI_OK;
    }

    method SetProfilFlags(flags: set<ProfFlag>)
      requires Valid()
      modifies profile`flags
      ensures Valid() && Abs() == old(Abs()).(profFlags := WithBucket(flags))
    {
      profile.flags := if flags * BUCKETS == {} then flags + {Bucket16} else flags;
      assert profile.Entries() == old(profile.Entries());
    }

    method RequestProfil(c: ProfCall, flags: set<ProfFlag>) returns (ret: int)
      requires Valid()
      modifies Repr()
      ensures Valid() && (ret, Abs()) == ProfilRequest(cmp, events, old(Abs()), c, flags)
      ensures paused == old(paused)
    {
      if cmp.kernelProfile && ForceSw !in flags {
        ret := c.hwRet;
        if ret == PAPI_OK && c.threshold > 0 {
          overflowing := true;
          overflow.flags := overflow.flags.(hardware := true);
        }
        assert overflow.Entries() == old(overflow.Entries());
      } else {
        var forceSw := ForceSw in flags && !cmp.kernelProfile;
        ret := Overflow(OvfCall(c.code, c.threshold, OvfFlags(forceSw, false), DummyHandler, c.hwRet));
      }
    }

    method FinishProfil()
      requires Valid()
      modifies this`profiling, profile`flags
      ensures Valid() && Abs() == ProfilFinish(old(Abs()))
    {
      if profile.eventCounter >= 1 {
        profiling := true;
      } else {
        profiling := !profiling;
        profile.flags := {};
      }
      assert profile.Entries() == old(profile.Entries());
    }
  }
}
