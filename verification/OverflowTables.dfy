/** The overflow and profile tables of an event set as values, and what PAPI_overflow and
    PAPI_sprofil of src/papi.c do to them. */
module OverflowTables {
  import opened PapiCodes
  import opened Counting

  datatype OvfEntry = OvfEntry(code: int, index: int, threshold: int, deadline: int)

  /** prof stands for the caller's array of regions, and its length for count. */
  datatype ProfEntry = ProfEntry(code: int, index: int, threshold: int, prof: seq<Region>)

  /** The two bits of ESI->overflow.flags: PAPI_OVERFLOW_FORCE_SW and PAPI_OVERFLOW_HARDWARE. */
  datatype OvfFlags = OvfFlags(forceSw: bool, hardware: bool)

  /** The bits of the PAPI_PROFIL_ flags; Other is any bit that is not one of them. */
  datatype ProfFlag =
    | Random | Weighted | Compress | Bucket16 | Bucket32 | Bucket64
    | ForceSw | DataEar | InstEar | Other(bit: nat)

  datatype Handler = NoHandler | DummyHandler | UserHandler(fn: nat)

  /** The part of an EventSetInfo_t the two calls read and write. */
  datatype Tables = Tables(
    stopped: bool, attached: bool, cpuAttached: bool, overflowing: bool, profiling: bool,
    ovf: seq<OvfEntry>, ovfFlags: OvfFlags, handler: Handler,
    prof: seq<ProfEntry>, profFlags: set<ProfFlag>)

  datatype Component = Component(numCntrs: nat, kernelProfile: bool, hardwareIntr: bool)

  /** hwRet is what the component's set_overflow (or set_profile) answers if it is asked. */
  datatype OvfCall = OvfCall(code: int, threshold: int, flags: OvfFlags, handler: Handler, hwRet: int)
  datatype ProfCall = ProfCall(code: int, threshold: int, flags: set<ProfFlag>, prof: seq<Region>, hwRet: int)

  // ---------------------------------------------------------------- lookups

  /** Position of the first event with this code, or -1. */
  function IndexOfCode(events: seq<EventInfo>, code: int): (i: int)
    ensures -1 <= i < |events|
    ensures i >= 0 ==> events[i].code == code
    ensures i == -1 ==> forall k :: 0 <= k < |events| ==> events[k].code != code
  {
    if events == [] then -1
    else if events[0].code == code then 0
    else
      var r := IndexOfCode(events[1..], code);
      if r == -1 then -1 else r + 1
  }

  function OvfCodes(es: seq<OvfEntry>): (r: seq<int>)
    ensures |r| == |es| && forall i :: 0 <= i < |es| ==> r[i] == es[i].code
  {
    seq(|es|, i requires 0 <= i < |es| => es[i].code)
  }

  function ProfCodes(es: seq<ProfEntry>): (r: seq<int>)
    ensures |r| == |es| && forall i :: 0 <= i < |es| ==> r[i] == es[i].code
  {
    seq(|es|, i requires 0 <= i < |es| => es[i].code)
  }

  /** Position of the first entry for this code, or the length of the table. */
  function FindCode(codes: seq<int>, code: int): (i: nat)
    ensures i <= |codes| && (i < |codes| ==> codes[i] == code)
    ensures forall k :: 0 <= k < i ==> codes[k] != code
  {
    if codes == [] || codes[0] == code then 0 else 1 + FindCode(codes[1..], code)
  }

  function Drop<T>(es: seq<T>, i: nat): (r: seq<T>)
    requires i < |es|
    ensures |r| == |es| - 1 && forall k :: 0 <= k < |r| ==> r[k] == es[if k < i then k else k + 1]
  {
    es[..i] + es[i + 1..]
  }

  function Put<T>(es: seq<T>, i: nat, e: T): (r: seq<T>)
    requires i <= |es|
    ensures |r| == (if i < |es| then |es| else |es| + 1) && r[i] == e
    ensures forall k :: 0 <= k < |es| && k != i ==> r[k] == es[k]
  {
    if i < |es| then es[i := e] else es + [e]
  }

  // ---------------------------------------------------------------- PAPI_overflow

  /** The checks made before anything is changed. */
  function OverflowChecks(cmp: Component, events: seq<EventInfo>, s: Tables, c: OvfCall): int {
    var index := IndexOfCode(events, c.code);
    if !s.stopped then PAPI_EISRUN
    else if s.attached || s.cpuAttached then PAPI_EINVAL
    else if index < 0 then PAPI_ENOEVNT
    else if c.threshold < 0 then PAPI_EINVAL
    else if !c.flags.forceSw && c.threshold != 0 && IsDerived(events[index]) then PAPI_EINVAL
    else if !s.overflowing && (c.handler == NoHandler || c.threshold == 0) then PAPI_EINVAL
    else if c.threshold > 0 && |s.ovf| >= cmp.numCntrs then PAPI_ECNFLCT
    else EditRefusal(s.ovf, s.ovfFlags, c)
  }

  /** An unknown code to remove, or forced software mixed with other overflow. */
  function EditRefusal(ovf: seq<OvfEntry>, flags: OvfFlags, c: OvfCall): int {
    if c.threshold == 0 then
      if FindCode(OvfCodes(ovf), c.code) == |ovf| then PAPI_EINVAL else PAPI_OK
    else if |ovf| > 0 && c.flags.forceSw && flags.hardware then PAPI_ECNFLCT
    else if |ovf| > 0 && !c.flags.forceSw && flags.forceSw then PAPI_ECNFLCT
    else PAPI_OK
  }

  /** The table after an accepted call: an entry taken out, or put in or replaced. */
  function EditedOvf(ovf: seq<OvfEntry>, index: int, c: OvfCall): seq<OvfEntry>
    requires c.threshold == 0 ==> FindCode(OvfCodes(ovf), c.code) < |ovf|
  {
    var i := FindCode(OvfCodes(ovf), c.code);
    if c.threshold == 0 then Drop(ovf, i)
    else Put(ovf, i, OvfEntry(c.code, index, c.threshold, c.threshold))
  }

  function OverflowEdit(events: seq<EventInfo>, s: Tables, c: OvfCall): Tables
    requires c.threshold == 0 ==> FindCode(OvfCodes(s.ovf), c.code) < |s.ovf|
  {
    s.(ovf := EditedOvf(s.ovf, IndexOfCode(events, c.code), c),
       ovfFlags := if c.threshold == 0 then s.ovfFlags else c.flags,
       handler := c.handler)
  }

  /** Asks the component for hardware overflow where it can, and sets the state bit. */
  function OverflowFinish(cmp: Component, s: Tables, hwRet: int): (int, Tables) {
    var useHw := cmp.hardwareIntr && !s.ovfFlags.forceSw;
    if useHw && hwRet != PAPI_OK then (hwRet, s)
    else if |s.ovf| >= 1 then
      (PAPI_OK, s.(overflowing := true, ovfFlags := s.ovfFlags.(hardware := useHw)))
    else
      (PAPI_OK, s.(overflowing := !s.overflowing, ovfFlags := OvfFlags(false, false), handler := NoHandler))
  }

  function OverflowSpec(cmp: Component, events: seq<EventInfo>, s: Tables, c: OvfCall): (int, Tables) {
    var ret := OverflowChecks(cmp, events, s, c);
    if ret != PAPI_OK then (ret, s)
    else OverflowFinish(cmp, OverflowEdit(events, s, c), c.hwRet)
  }

  // ---------------------------------------------------------------- PAPI_sprofil

  function ProfilChecks(cmp: Component, events: seq<EventInfo>, s: Tables, c: ProfCall): int {
    var index := IndexOfCode(events, c.code);
    if !s.stopped then PAPI_EISRUN
    else if s.attached || s.cpuAttached then PAPI_EINVAL
    else if index < 0 then PAPI_ENOEVNT
    else if IsDerived(events[index]) && ForceSw !in c.flags then PAPI_EINVAL
    else if exists k :: 0 <= k < |c.prof| && !ScaleOk(c.prof[k].scale) then PAPI_EINVAL
    else if c.threshold < 0 then PAPI_EINVAL
    else if !s.profiling && c.threshold == 0 then PAPI_EINVAL
    else if c.threshold > 0 && |s.prof| >= cmp.numCntrs then PAPI_ECNFLCT
    else ProfilRefusal(s.prof, s.profFlags, c)
  }

  function ProfilRefusal(prof: seq<ProfEntry>, flags: set<ProfFlag>, c: ProfCall): int {
    if c.threshold == 0 then
      if FindCode(ProfCodes(prof), c.code) == |prof| then PAPI_EINVAL else PAPI_OK
    else if |prof| > 0 && (ForceSw in c.flags) != (ForceSw in flags) then PAPI_ECNFLCT
    else PAPI_OK
  }

  function EditedProf(prof: seq<ProfEntry>, index: int, c: ProfCall): seq<ProfEntry>
    requires c.threshold == 0 ==> FindCode(ProfCodes(prof), c.code) < |prof|
  {
    var i := FindCode(ProfCodes(prof), c.code);
    if c.threshold == 0 then Drop(prof, i)
    else Put(prof, i, ProfEntry(c.code, index, c.threshold, c.prof))
  }

  function ProfilEdit(events: seq<EventInfo>, s: Tables, c: ProfCall): Tables
    requires c.threshold == 0 ==> FindCode(ProfCodes(s.prof), c.code) < |s.prof|
  {
    s.(prof := EditedProf(s.prof, IndexOfCode(events, c.code), c))
  }

  /** The flags a call ends up with: a removal adds those already set. */
  function EffectiveFlags(s: Tables, c: ProfCall): set<ProfFlag> {
    if c.threshold == 0 then c.flags + s.profFlags else c.flags
  }

  const BUCKETS := {Bucket16, Bucket32, Bucket64}

  /** No unknown bit, and at most one bucket size. */
  predicate FlagsOk(flags: set<ProfFlag>) {
    && (forall f :: f in flags ==> !f.Other?)
    && (flags * BUCKETS == {} || flags * BUCKETS == {Bucket16}
        || flags * BUCKETS == {Bucket32} || flags * BUCKETS == {Bucket64})
  }

  /** 16-bit buckets if no size was asked for. */
  function WithBucket(flags: set<ProfFlag>): set<ProfFlag> {
    if flags * BUCKETS == {} then flags + {Bucket16} else flags
  }

  /** The call PAPI_sprofil makes to PAPI_overflow. */
  function Overflowing(cmp: Component, c: ProfCall, flags: set<ProfFlag>): OvfCall {
    OvfCall(c.code, c.threshold, OvfFlags(ForceSw in flags && !cmp.kernelProfile, false), DummyHandler, c.hwRet)
  }

  function ProfilFinish(s: Tables): Tables {
    if |s.prof| >= 1 then s.(profiling := true)
    else s.(profiling := !s.profiling, profFlags := {})
  }

  /** Asks the component for kernel profiling, or PAPI_overflow for its signals. */
  function ProfilRequest(cmp: Component, events: seq<EventInfo>, s2: Tables, c: ProfCall, flags: set<ProfFlag>)
    : (int, Tables)
  {
    if cmp.kernelProfile && ForceSw !in flags then
      if c.hwRet == PAPI_OK && c.threshold > 0 then
        (c.hwRet, s2.(overflowing := true, ovfFlags := s2.ovfFlags.(hardware := true)))
      else (c.hwRet, s2)
    else
      OverflowSpec(cmp, events, s2, Overflowing(cmp, c, flags))
  }

  /** What PAPI_sprofil does once its own table has been edited. */
  function ProfilSwitch(cmp: Component, events: seq<EventInfo>, s1: Tables, c: ProfCall): (int, Tables) {
    var flags := EffectiveFlags(s1, c);
    if !FlagsOk(flags) then (PAPI_EINVAL, s1)
    else
      var s2 := s1.(profFlags := WithBucket(flags));
      var (ret, s3) := ProfilRequest(cmp, events, s2, c, flags);
      if ret < PAPI_OK then (ret, s3) else (PAPI_OK, ProfilFinish(s3))
  }

  function ProfilSpec(cmp: Component, events: seq<EventInfo>, s: Tables, c: ProfCall): (int, Tables) {
    var ret := ProfilChecks(cmp, events, s, c);
    if ret != PAPI_OK then (ret, s)
    else ProfilSwitch(cmp, events, ProfilEdit(events, s, c), c)
  }

  // ---------------------------------------------------------------- the cap on entries

  /** Neither table has more entries than the component has counters. */
  predicate Capped(cmp: Component, s: Tables) {
    |s.ovf| <= cmp.numCntrs && |s.prof| <= cmp.numCntrs
  }

  lemma {:induction false} OverflowKeepsCap(cmp: Component, events: seq<EventInfo>, s: Tables, c: OvfCall)
    requires Capped(cmp, s)
    ensures Capped(cmp, OverflowSpec(cmp, events, s, c).1)
  {}

  lemma {:induction false} ProfilKeepsCap(cmp: Component, events: seq<EventInfo>, s: Tables, c: ProfCall)
    requires Capped(cmp, s)
    ensures Capped(cmp, ProfilSpec(cmp, events, s, c).1)
  {
    if ProfilChecks(cmp, events, s, c) == PAPI_OK {
      var s1 := ProfilEdit(events, s, c);
      var flags := EffectiveFlags(s1, c);
      OverflowKeepsCap(cmp, events, s1.(profFlags := WithBucket(flags)), Overflowing(cmp, c, flags));
    }
  }

  /** An event set nothing has been registered on. */
  const FRESH := Tables(true, false, false, false, false, [], OvfFlags(false, false), NoHandler, [], {})

  datatype TableCall = OverflowCall(ovfCall: OvfCall) | ProfilCall(profCall: ProfCall)

  function AfterCall(cmp: Component, events: seq<EventInfo>, s: Tables, call: TableCall): Tables {
    match call
    case OverflowCall(c) => OverflowSpec(cmp, events, s, c).1
    case ProfilCall(c) => ProfilSpec(cmp, events, s, c).1
  }

  /** The tables after a run of calls of both kinds. */
  function MixedRun(cmp: Component, events: seq<EventInfo>, calls: seq<TableCall>): Tables {
    if calls == [] then FRESH
    else
      AfterCall(cmp, events, MixedRun(cmp, events, calls[..|calls| - 1]), calls[|calls| - 1])
  }

  /** No run of calls of either kind, with any handlers, flags and answers of the component, fills
      a table beyond the number of counters: the handler's scratch array is large enough. */
  lemma {:induction false} RunKeepsCap(cmp: Component, events: seq<EventInfo>, calls: seq<TableCall>)
    ensures Capped(cmp, MixedRun(cmp, events, calls))
    decreases |calls|
  {
    if calls != [] {
      RunKeepsCap(cmp, events, calls[..|calls| - 1]);
      var s := MixedRun(cmp, events, calls[..|calls| - 1]);
      match calls[|calls| - 1] {
        case OverflowCall(c) => OverflowKeepsCap(cmp, events, s, c);
        case ProfilCall(c) => ProfilKeepsCap(cmp, events, s, c);
      }
    }
  }

  // ---------------------------------------------------------------- lock step

  /** Both tables speak of the same events, in the same order, with the same thresholds. */
  ghost predicate SameKeys(ovf: seq<OvfEntry>, prof: seq<ProfEntry>) {
    && |ovf| == |prof|
    && forall i :: 0 <= i < |ovf| ==>
         ovf[i].code == prof[i].code && ovf[i].index == prof[i].index && ovf[i].threshold == prof[i].threshold
  }

  /** Each entry is for an event of the set, with a positive threshold. */
  ghost predicate Indexed(events: seq<EventInfo>, ovf: seq<OvfEntry>) {
    forall i :: 0 <= i < |ovf| ==> ovf[i].index == IndexOfCode(events, ovf[i].code) >= 0 && ovf[i].threshold > 0
  }

  /** The tables are in lock step and the bits and flags agree with them. */
  ghost predicate InStep(cmp: Component, events: seq<EventInfo>, s: Tables) {
    && SameKeys(s.ovf, s.prof)
    && |s.ovf| <= cmp.numCntrs
    && Distinct(OvfCodes(s.ovf))
    && Indexed(events, s.ovf)
    && s.profiling == s.overflowing == (|s.prof| > 0)
    && (|s.prof| > 0 && s.ovfFlags.forceSw ==> ForceSw in s.profFlags)
    && (|s.prof| > 0 && s.ovfFlags.hardware ==> cmp.hardwareIntr && !s.ovfFlags.forceSw)
  }

  /** The entry for this code would be new, or gone, or have another threshold. */
  predicate ChangesKeys(s: Tables, c: ProfCall) {
    var i := FindCode(ProfCodes(s.prof), c.code);
    c.threshold == 0 || i == |s.prof| || s.prof[i].threshold != c.threshold
  }

  /** The calls that edit the profile table and are then turned down: because of their flags, or
      because PAPI_overflow will not mix forced software with hardware overflow. */
  predicate LateRefusal(cmp: Component, events: seq<EventInfo>, s: Tables, c: ProfCall) {
    && ProfilChecks(cmp, events, s, c) == PAPI_OK
    && (|| !FlagsOk(EffectiveFlags(s, c))
        || (c.threshold > 0 && |s.prof| > 0 && ForceSw in c.flags && s.ovfFlags.hardware))
  }

  lemma {:induction false} SameCodes(ovf: seq<OvfEntry>, prof: seq<ProfEntry>)
    requires SameKeys(ovf, prof)
    ensures OvfCodes(ovf) == ProfCodes(prof)
  {}

  lemma {:induction false} DropDistinct(es: seq<OvfEntry>, i: nat)
    requires i < |es| && Distinct(OvfCodes(es))
    ensures Distinct(OvfCodes(Drop(es, i)))
  {
    var r := Drop(es, i);
    forall k, l | 0 <= k < |r| && 0 <= l < |r| && k != l ensures OvfCodes(r)[k] != OvfCodes(r)[l] {
      var k', l' := if k < i then k else k + 1, if l < i then l else l + 1;
      assert OvfCodes(es)[k'] != OvfCodes(es)[l'];
    }
  }

  lemma {:induction false} PutDistinct(es: seq<OvfEntry>, e: OvfEntry)
    requires Distinct(OvfCodes(es))
    ensures Distinct(OvfCodes(Put(es, FindCode(OvfCodes(es), e.code), e)))
  {
    var i := FindCode(OvfCodes(es), e.code);
    var r := Put(es, i, e);
    assert forall k :: 0 <= k < |es| ==> OvfCodes(r)[k] == OvfCodes(es)[k];
  }

  /** A refused call that had edited the profile table has broken the step, if the edit shows. */
  lemma {:induction false} RefusedEdit(cmp: Component, events: seq<EventInfo>, s: Tables, c: ProfCall)
    requires InStep(cmp, events, s) && ProfilChecks(cmp, events, s, c) == PAPI_OK
    ensures InStep(cmp, events, ProfilEdit(events, s, c)) <==> !ChangesKeys(s, c)
  {
    SameCodes(s.ovf, s.prof);
    var i := FindCode(ProfCodes(s.prof), c.code);
    var s1 := ProfilEdit(events, s, c);
    if !ChangesKeys(s, c) {
      assert s.ovf[i].index == IndexOfCode(events, s.ovf[i].code);
      assert SameKeys(s1.ovf, s1.prof);
    } else if |s1.prof| == |s.prof| {
      assert s1.prof[i].threshold != s1.ovf[i].threshold;
    }
  }

  /** Whether PAPI_overflow, called by PAPI_sprofil, refuses. */
  lemma {:induction false} InnerRefusal(cmp: Component, events: seq<EventInfo>, s: Tables, c: ProfCall)
    requires InStep(cmp, events, s) && !cmp.kernelProfile
    requires ProfilChecks(cmp, events, s, c) == PAPI_OK
    ensures var flags := EffectiveFlags(s, c);
      var s2 := ProfilEdit(events, s, c).(profFlags := WithBucket(flags));
      var ret := OverflowChecks(cmp, events, s2, Overflowing(cmp, c, flags));
      if c.threshold > 0 && |s.prof| > 0 && ForceSw in c.flags && s.ovfFlags.hardware
      then ret == PAPI_ECNFLCT else ret == PAPI_OK
  {
    SameCodes(s.ovf, s.prof);
  }

  /** The state a successful call leaves. */
  lemma {:induction false} AcceptedState(cmp: Component, events: seq<EventInfo>, s: Tables, c: ProfCall)
    requires InStep(cmp, events, s) && !cmp.kernelProfile
    requires cmp.hardwareIntr ==> c.hwRet == PAPI_OK
    requires ProfilChecks(cmp, events, s, c) == PAPI_OK && !LateRefusal(cmp, events, s, c)
    ensures var s' := ProfilSpec(cmp, events, s, c).1;
      var flags, index := EffectiveFlags(s, c), IndexOfCode(events, c.code);
      && index >= 0 && c.threshold >= 0
      && FindCode(OvfCodes(s.ovf), c.code) == FindCode(ProfCodes(s.prof), c.code)
      && (c.threshold == 0 ==> FindCode(ProfCodes(s.prof), c.code) < |s.prof|)
      && (c.threshold > 0 ==> |s.prof| < cmp.numCntrs)
      && s'.ovf == EditedOvf(s.ovf, index, Overflowing(cmp, c, flags))
      && s'.prof == EditedProf(s.prof, index, c)
      && s'.profiling == s'.overflowing == (|s'.prof| > 0)
      && (|s'.prof| > 0 ==>
            && s'.profFlags == WithBucket(flags)
            && (s'.ovfFlags.forceSw ==> ForceSw in flags)
            && (s'.ovfFlags.hardware ==> cmp.hardwareIntr && !s'.ovfFlags.forceSw))
  {
    InnerRefusal(cmp, events, s, c);
    SameCodes(s.ovf, s.prof);
  }

  lemma {:induction false} DropKeys(events: seq<EventInfo>, ovf: seq<OvfEntry>, prof: seq<ProfEntry>, i: nat)
    requires SameKeys(ovf, prof) && Indexed(events, ovf) && i < |ovf|
    ensures SameKeys(Drop(ovf, i), Drop(prof, i)) && Indexed(events, Drop(ovf, i))
  {}

  lemma {:induction false} AcceptedRemoval(cmp: Component, events: seq<EventInfo>, s: Tables, c: ProfCall)
    requires InStep(cmp, events, s) && !cmp.kernelProfile && c.threshold == 0
    requires cmp.hardwareIntr ==> c.hwRet == PAPI_OK
    requires ProfilChecks(cmp, events, s, c) == PAPI_OK && !LateRefusal(cmp, events, s, c)
    ensures InStep(cmp, events, ProfilSpec(cmp, events, s, c).1)
  {
    AcceptedState(cmp, events, s, c);
    SameCodes(s.ovf, s.prof);
    var i := FindCode(ProfCodes(s.prof), c.code);
    DropDistinct(s.ovf, i);
    DropKeys(events, s.ovf, s.prof, i);
  }

  lemma {:induction false} AcceptedEntry(cmp: Component, events: seq<EventInfo>, s: Tables, c: ProfCall)
    requires InStep(cmp, events, s) && !cmp.kernelProfile && c.threshold > 0
    requires cmp.hardwareIntr ==> c.hwRet == PAPI_OK
    requires ProfilChecks(cmp, events, s, c) == PAPI_OK && !LateRefusal(cmp, events, s, c)
    ensures InStep(cmp, events, ProfilSpec(cmp, events, s, c).1)
  {
    AcceptedState(cmp, events, s, c);
    PutDistinct(s.ovf, OvfEntry(c.code, IndexOfCode(events, c.code), c.threshold, c.threshold));
  }

  /** One PAPI_sprofil call on a component without kernel profiling keeps the tables in step,
      exactly unless it is refused after an edit that shows. */
  lemma {:induction false} StaysInStep(cmp: Component, events: seq<EventInfo>, s: Tables, c: ProfCall)
    requires InStep(cmp, events, s) && !cmp.kernelProfile
    requires cmp.hardwareIntr ==> c.hwRet == PAPI_OK
    ensures InStep(cmp, events, ProfilSpec(cmp, events, s, c).1)
            <==> !(LateRefusal(cmp, events, s, c) && ChangesKeys(s, c))
  {
    if ProfilChecks(cmp, events, s, c) == PAPI_OK {
      RefusedEdit(cmp, events, s, c);
      InnerRefusal(cmp, events, s, c);
      if LateRefusal(cmp, events, s, c) {
        RefusedState(cmp, events, s, c);
      } else if c.threshold == 0 {
        AcceptedRemoval(cmp, events, s, c);
      } else {
        AcceptedEntry(cmp, events, s, c);
      }
    }
  }

  /** The state a late refusal leaves behind: the edited profile table, and possibly new flags
      that allow forced software, which InStep tolerates. */
  lemma {:induction false} RefusedState(cmp: Component, events: seq<EventInfo>, s: Tables, c: ProfCall)
    requires InStep(cmp, events, s) && !cmp.kernelProfile && LateRefusal(cmp, events, s, c)
    ensures var s1 := ProfilEdit(events, s, c);
      InStep(cmp, events, ProfilSpec(cmp, events, s, c).1) <==> InStep(cmp, events, s1)
  {
    InnerRefusal(cmp, events, s, c);
  }

  // ---------------------------------------------------------------- runs of calls

  lemma {:induction false} FreshInStep(cmp: Component, events: seq<EventInfo>)
    ensures InStep(cmp, events, FRESH)
  {}

  function ProfilRun(cmp: Component, events: seq<EventInfo>, s: Tables, cs: seq<ProfCall>): Tables
    decreases |cs|
  {
    if cs == [] then s else ProfilRun(cmp, events, ProfilSpec(cmp, events, s, cs[0]).1, cs[1..])
  }

  /** Each call's flags, with those in force where they are added, are acceptable. */
  predicate FlagsPass(cmp: Component, events: seq<EventInfo>, s: Tables, cs: seq<ProfCall>)
    decreases |cs|
  {
    cs == [] ||
    (FlagsOk(EffectiveFlags(s, cs[0])) && FlagsPass(cmp, events, ProfilSpec(cmp, events, s, cs[0]).1, cs[1..]))
  }

  /** On a component with neither kernel profiling nor overflow interrupts the tables stay in
      step over any run of calls whose flags pass, whether the calls succeed or not. */
  lemma {:induction false} RunStaysInStep(cmp: Component, events: seq<EventInfo>, s: Tables, cs: seq<ProfCall>)
    requires InStep(cmp, events, s) && !cmp.kernelProfile && !cmp.hardwareIntr
    requires FlagsPass(cmp, events, s, cs)
    ensures InStep(cmp, events, ProfilRun(cmp, events, s, cs))
    decreases |cs|
  {
    if cs != [] {
      StaysInStep(cmp, events, s, cs[0]);
      RunStaysInStep(cmp, events, ProfilSpec(cmp, events, s, cs[0]).1, cs[1..]);
    }
  }

  /** Flags pass in particular when every call uses the same acceptable flags. */
  lemma {:induction false} UniformFlagsPass(cmp: Component, events: seq<EventInfo>, s: Tables, cs: seq<ProfCall>,
                                            flags: set<ProfFlag>)
    requires FlagsOk(flags) && !cmp.kernelProfile
    requires s.profFlags == {} || s.profFlags == WithBucket(flags)
    requires forall i :: 0 <= i < |cs| ==> cs[i].flags == flags
    ensures FlagsPass(cmp, events, s, cs)
    decreases |cs|
  {
    if cs != [] {
      UniformStep(cmp, events, s, cs[0], flags);
      UniformFlagsPass(cmp, events, ProfilSpec(cmp, events, s, cs[0]).1, cs[1..], flags);
    }
  }

  lemma {:induction false} UniformStep(cmp: Component, events: seq<EventInfo>, s: Tables, c: ProfCall,
                                       flags: set<ProfFlag>)
    requires FlagsOk(flags) && !cmp.kernelProfile && c.flags == flags
    requires s.profFlags == {} || s.profFlags == WithBucket(flags)
    ensures FlagsOk(EffectiveFlags(s, c))
    ensures var s' := ProfilSpec(cmp, events, s, c).1;
      s'.profFlags == {} || s'.profFlags == WithBucket(flags)
  {
    ProfFlagsAfter(cmp, events, s, c);
    UniformEffective(s.profFlags, flags);
  }

  lemma {:induction false} UniformEffective(was: set<ProfFlag>, flags: set<ProfFlag>)
    requires FlagsOk(flags) && (was == {} || was == WithBucket(flags))
    ensures FlagsOk(flags + was) && WithBucket(flags + was) == WithBucket(flags)
  {
    if was == {} {
      assert flags + was == flags;
    } else {
      assert flags + was == WithBucket(flags);
      if flags * BUCKETS == {} { assert WithBucket(flags) * BUCKETS == {Bucket16}; }
    }
  }

  /** The flags in force change only to none or to the call's. */
  lemma {:induction false} ProfFlagsAfter(cmp: Component, events: seq<EventInfo>, s: Tables, c: ProfCall)
    ensures ProfilSpec(cmp, events, s, c).1.profFlags
            in {s.profFlags, {}, WithBucket(EffectiveFlags(s, c))}
  {}

  // ---------------------------------------------------------------- runs of both kinds of calls

  /** An accepted PAPI_overflow call for a profiling set shows: it removes the entry or adds one, or
      gives one another threshold, or forces software overflow where profiling did not. */
  predicate Disturbs(s: Tables, c: OvfCall) {
    var i := FindCode(OvfCodes(s.ovf), c.code);
    || c.threshold == 0 || i == |s.ovf| || s.ovf[i].threshold != c.threshold
    || (c.flags.forceSw && ForceSw !in s.profFlags)
  }

  lemma {:induction false} OverflowEditStep(cmp: Component, events: seq<EventInfo>, s: Tables, c: OvfCall)
    requires InStep(cmp, events, s) && OverflowChecks(cmp, events, s, c) == PAPI_OK
    requires cmp.hardwareIntr ==> c.hwRet == PAPI_OK
    ensures SameKeys(EditedOvf(s.ovf, IndexOfCode(events, c.code), c), s.prof) <==>
            !(c.threshold == 0 || FindCode(OvfCodes(s.ovf), c.code) == |s.ovf|
              || s.ovf[FindCode(OvfCodes(s.ovf), c.code)].threshold != c.threshold)
  {
    var i := FindCode(OvfCodes(s.ovf), c.code);
    var after := EditedOvf(s.ovf, IndexOfCode(events, c.code), c);
    if c.threshold == 0 || i == |s.ovf| {
      assert |after| != |s.prof|;
    } else {
      assert after[i].threshold == c.threshold && s.ovf[i].threshold == s.prof[i].threshold;
    }
  }

  /** One PAPI_overflow call on a profiling set keeps the tables in step exactly unless it is
      accepted and shows. */
  lemma {:induction false} OverflowStaysInStep(cmp: Component, events: seq<EventInfo>, s: Tables, c: OvfCall)
    requires InStep(cmp, events, s)
    requires cmp.hardwareIntr ==> c.hwRet == PAPI_OK
    ensures InStep(cmp, events, OverflowSpec(cmp, events, s, c).1)
            <==> !(OverflowChecks(cmp, events, s, c) == PAPI_OK && Disturbs(s, c))
  {
    if OverflowChecks(cmp, events, s, c) == PAPI_OK {
      OverflowEditStep(cmp, events, s, c);
      if !Disturbs(s, c) {
        var i := FindCode(OvfCodes(s.ovf), c.code);
        PutDistinct(s.ovf, OvfEntry(c.code, IndexOfCode(events, c.code), c.threshold, c.threshold));
        assert s.ovf[i].code == c.code;
      }
    }
  }

  /** What a call must not do: show in one table only. */
  predicate CallFits(cmp: Component, events: seq<EventInfo>, s: Tables, call: TableCall) {
    match call
    case OverflowCall(c) => !(OverflowChecks(cmp, events, s, c) == PAPI_OK && Disturbs(s, c))
    case ProfilCall(c) => !(LateRefusal(cmp, events, s, c) && ChangesKeys(s, c))
  }

  predicate Accepting(cmp: Component, call: TableCall) {
    cmp.hardwareIntr ==> (if call.OverflowCall? then call.ovfCall.hwRet else call.profCall.hwRet) == PAPI_OK
  }

  lemma {:induction false} CallStaysInStep(cmp: Component, events: seq<EventInfo>, s: Tables, call: TableCall)
    requires InStep(cmp, events, s) && !cmp.kernelProfile && Accepting(cmp, call)
    ensures InStep(cmp, events, AfterCall(cmp, events, s, call)) <==> CallFits(cmp, events, s, call)
  {
    match call
    case OverflowCall(c) => OverflowStaysInStep(cmp, events, s, c);
    case ProfilCall(c) => StaysInStep(cmp, events, s, c);
  }

  /** The tables after the first n calls. */
  function Prefix(cmp: Component, events: seq<EventInfo>, calls: seq<TableCall>, n: nat): Tables
    requires n <= |calls|
  {
    MixedRun(cmp, events, calls[..n])
  }

  lemma {:induction false} PrefixNext(cmp: Component, events: seq<EventInfo>, calls: seq<TableCall>, n: nat)
    requires n < |calls|
    ensures Prefix(cmp, events, calls, n + 1) == AfterCall(cmp, events, Prefix(cmp, events, calls, n), calls[n])
  {
    assert calls[..n + 1][..n] == calls[..n];
  }

  lemma {:induction false} FittingPrefix(cmp: Component, events: seq<EventInfo>, calls: seq<TableCall>, n: nat)
    requires !cmp.kernelProfile && n <= |calls|
    requires forall k :: 0 <= k < |calls| ==> Accepting(cmp, calls[k])
    requires forall k :: 0 <= k < |calls| ==> CallFits(cmp, events, Prefix(cmp, events, calls, k), calls[k])
    ensures InStep(cmp, events, Prefix(cmp, events, calls, n))
  {
    if n > 0 {
      FittingPrefix(cmp, events, calls, n - 1);
      PrefixNext(cmp, events, calls, n - 1);
      CallStaysInStep(cmp, events, Prefix(cmp, events, calls, n - 1), calls[n - 1]);
    }
  }

  /** Over any run of calls of both kinds, from an event set nothing has been registered on, the
      tables are in step after every call exactly if no call shows in one table only. */
  lemma {:induction false} MixedRunStaysInStep(cmp: Component, events: seq<EventInfo>, calls: seq<TableCall>)
    requires !cmp.kernelProfile
    requires forall k :: 0 <= k < |calls| ==> Accepting(cmp, calls[k])
    ensures (forall n :: 0 <= n <= |calls| ==> InStep(cmp, events, Prefix(cmp, events, calls, n))) <==>
            (forall k :: 0 <= k < |calls| ==> CallFits(cmp, events, Prefix(cmp, events, calls, k), calls[k]))
  {
    if forall k :: 0 <= k < |calls| ==> CallFits(cmp, events, Prefix(cmp, events, calls, k), calls[k]) {
      forall n | 0 <= n <= |calls| ensures InStep(cmp, events, Prefix(cmp, events, calls, n)) {
        FittingPrefix(cmp, events, calls, n);
      }
    }
    if forall n :: 0 <= n <= |calls| ==> InStep(cmp, events, Prefix(cmp, events, calls, n)) {
      forall k | 0 <= k < |calls| ensures CallFits(cmp, events, Prefix(cmp, events, calls, k), calls[k]) {
        assert InStep(cmp, events, Prefix(cmp, events, calls, k));
        assert InStep(cmp, events, Prefix(cmp, events, calls, k + 1));
        PrefixNext(cmp, events, calls, k);
        CallStaysInStep(cmp, events, Prefix(cmp, events, calls, k), calls[k]);
      }
    }
  }

  // ---------------------------------------------------------------- what a call leaves

  lemma {:induction false} ProfAfter(cmp: Component, events: seq<EventInfo>, s: Tables, c: ProfCall)
    ensures ProfilChecks(cmp, events, s, c) == PAPI_OK ==>
      ProfilSpec(cmp, events, s, c).1.prof == EditedProf(s.prof, IndexOfCode(events, c.code), c)
    ensures ProfilChecks(cmp, events, s, c) != PAPI_OK ==> ProfilSpec(cmp, events, s, c).1.prof == s.prof
  {}

  /** The entry of a code, if it has one. */
  function OvfFor(ovf: seq<OvfEntry>, code: int): Option<OvfEntry> {
    var i := FindCode(OvfCodes(ovf), code);
    if i < |ovf| then Some(ovf[i]) else None
  }

  function ProfFor(prof: seq<ProfEntry>, code: int): Option<ProfEntry> {
    var i := FindCode(ProfCodes(prof), code);
    if i < |prof| then Some(prof[i]) else None
  }

  lemma {:induction false} OvfAt(ovf: seq<OvfEntry>, k: nat)
    requires Distinct(OvfCodes(ovf)) && k < |ovf|
    ensures FindCode(OvfCodes(ovf), ovf[k].code) == k && OvfFor(ovf, ovf[k].code) == Some(ovf[k])
  {
    var i := FindCode(OvfCodes(ovf), ovf[k].code);
    assert OvfCodes(ovf)[k] == ovf[k].code;
    assert !(k < i);
    assert OvfCodes(ovf)[i] == OvfCodes(ovf)[k];
  }

  lemma {:induction false} ProfAt(prof: seq<ProfEntry>, k: nat)
    requires Distinct(ProfCodes(prof)) && k < |prof|
    ensures FindCode(ProfCodes(prof), prof[k].code) == k && ProfFor(prof, prof[k].code) == Some(prof[k])
  {
    var i := FindCode(ProfCodes(prof), prof[k].code);
    assert ProfCodes(prof)[k] == prof[k].code;
    assert !(k < i);
    assert ProfCodes(prof)[i] == ProfCodes(prof)[k];
  }

  lemma {:induction false} DropOvf(ovf: seq<OvfEntry>, i: nat, code: int)
    requires Distinct(OvfCodes(ovf)) && i < |ovf|
    ensures Distinct(OvfCodes(Drop(ovf, i)))
    ensures OvfFor(Drop(ovf, i), code) == if code == ovf[i].code then None else OvfFor(ovf, code)
  {
    DropDistinct(ovf, i);
    var r, k, j := Drop(ovf, i), FindCode(OvfCodes(Drop(ovf, i)), code), FindCode(OvfCodes(ovf), code);
    if j < |ovf| && j != i { assert OvfCodes(r)[if j < i then j else j - 1] == OvfCodes(ovf)[j]; }
    if k < |r| {
      OvfAt(ovf, if k < i then k else k + 1);
      OvfAt(ovf, i);
    }
  }

  lemma {:induction false} PutOvf(ovf: seq<OvfEntry>, e: OvfEntry, code: int)
    requires Distinct(OvfCodes(ovf))
    ensures var r := Put(ovf, FindCode(OvfCodes(ovf), e.code), e);
      && Distinct(OvfCodes(r))
      && OvfFor(r, code) == if code == e.code then Some(e) else OvfFor(ovf, code)
  {
    PutDistinct(ovf, e);
    var i := FindCode(OvfCodes(ovf), e.code);
    var r := Put(ovf, i, e);
    OvfAt(r, i);
    var j, k := FindCode(OvfCodes(ovf), code), FindCode(OvfCodes(r), code);
    if code != e.code {
      if j < |ovf| { OvfAt(r, j); }
      if k < |r| { assert OvfCodes(r)[k] == code && r[k] == ovf[k]; OvfAt(ovf, k); }
    }
  }

  lemma {:induction false} DropProfDistinct(prof: seq<ProfEntry>, i: nat)
    requires Distinct(ProfCodes(prof)) && i < |prof|
    ensures Distinct(ProfCodes(Drop(prof, i)))
  {
    var r := Drop(prof, i);
    forall a, b | 0 <= a < |r| && 0 <= b < |r| && a != b ensures ProfCodes(r)[a] != ProfCodes(r)[b] {
      assert ProfCodes(prof)[if a < i then a else a + 1] != ProfCodes(prof)[if b < i then b else b + 1];
    }
  }

  lemma {:induction false} DropProf(prof: seq<ProfEntry>, i: nat, code: int)
    requires Distinct(ProfCodes(prof)) && i < |prof|
    ensures Distinct(ProfCodes(Drop(prof, i)))
    ensures ProfFor(Drop(prof, i), code) == if code == prof[i].code then None else ProfFor(prof, code)
  {
    var r, k, j := Drop(prof, i), FindCode(ProfCodes(Drop(prof, i)), code), FindCode(ProfCodes(prof), code);
    if j < |prof| && j != i { assert ProfCodes(r)[if j < i then j else j - 1] == ProfCodes(prof)[j]; }
    DropProfDistinct(prof, i);
    if k < |r| {
      ProfAt(prof, if k < i then k else k + 1);
      ProfAt(prof, i);
    }
  }

  lemma {:induction false} PutProf(prof: seq<ProfEntry>, e: ProfEntry, code: int)
    requires Distinct(ProfCodes(prof))
    ensures var r := Put(prof, FindCode(ProfCodes(prof), e.code), e);
      && Distinct(ProfCodes(r))
      && ProfFor(r, code) == if code == e.code then Some(e) else ProfFor(prof, code)
  {
    var i := FindCode(ProfCodes(prof), e.code);
    var r := Put(prof, i, e);
    forall a, b | 0 <= a < |r| && 0 <= b < |r| && a != b ensures ProfCodes(r)[a] != ProfCodes(r)[b] {
      if a != i && b != i { assert ProfCodes(prof)[a] != ProfCodes(prof)[b]; }
      if a < |prof| && a != i { assert ProfCodes(prof)[a] != e.code by { NotTwice(ProfCodes(prof), e.code, a); } }
      if b < |prof| && b != i { assert ProfCodes(prof)[b] != e.code by { NotTwice(ProfCodes(prof), e.code, b); } }
    }
    ProfAt(r, i);
    var j, k := FindCode(ProfCodes(prof), code), FindCode(ProfCodes(r), code);
    if code != e.code {
      if j < |prof| { ProfAt(r, j); }
      if k < |r| { assert ProfCodes(r)[k] == code && r[k] == prof[k]; ProfAt(prof, k); }
    }
  }

  lemma {:induction false} NotTwice(codes: seq<int>, code: int, k: nat)
    requires Distinct(codes) && k < |codes| && k != FindCode(codes, code)
    ensures codes[k] != code
  {}

  /** The set is stopped and attached to nothing, and has an event with this code. */
  ghost predicate Ready(events: seq<EventInfo>, s: Tables, code: int) {
    s.stopped && !s.attached && !s.cpuAttached && exists k :: 0 <= k < |events| && events[k].code == code
  }

  /** The event with this code is not derived, or compound. */
  ghost predicate Underived(events: seq<EventInfo>, code: int) {
    var i := IndexOfCode(events, code);
    i >= 0 ==> events[i].derived == NOT_DERIVED || events[i].derived == DERIVED_CMPD
  }

  /** Exactly when the checks of PAPI_overflow pass. */
  lemma {:induction false} OverflowAccepts(cmp: Component, events: seq<EventInfo>, s: Tables, c: OvfCall)
    ensures OverflowChecks(cmp, events, s, c) == PAPI_OK <==>
      && Ready(events, s, c.code) && c.threshold >= 0
      && (s.overflowing || (c.handler != NoHandler && c.threshold > 0))
      && (c.threshold == 0 ==> exists k :: 0 <= k < |s.ovf| && s.ovf[k].code == c.code)
      && (c.threshold > 0 ==>
            && (c.flags.forceSw || Underived(events, c.code))
            && |s.ovf| < cmp.numCntrs
            && (s.ovf != [] && c.flags.forceSw ==> !s.ovfFlags.hardware)
            && (s.ovf != [] && s.ovfFlags.forceSw ==> c.flags.forceSw))
  {
    var i := FindCode(OvfCodes(s.ovf), c.code);
    assert forall k :: 0 <= k < i ==> OvfCodes(s.ovf)[k] == s.ovf[k].code;
  }

  /** What comes back otherwise, with nothing changed. */
  lemma {:induction false} OverflowRefuses(cmp: Component, events: seq<EventInfo>, s: Tables, c: OvfCall)
    requires OverflowChecks(cmp, events, s, c) != PAPI_OK
    ensures var (ret, s') := OverflowSpec(cmp, events, s, c);
      && s' == s && ret in {PAPI_EISRUN, PAPI_ENOEVNT, PAPI_EINVAL, PAPI_ECNFLCT}
      && (ret == PAPI_EISRUN <==> !s.stopped)
      && (ret == PAPI_ENOEVNT <==> s.stopped && !s.attached && !s.cpuAttached && !Ready(events, s, c.code))
      && (ret == PAPI_ECNFLCT <==>
            && Ready(events, s, c.code) && c.threshold > 0
            && (c.flags.forceSw || Underived(events, c.code))
            && (s.overflowing || c.handler != NoHandler))
  {
    OverflowAccepts(cmp, events, s, c);
  }

  /** What an accepted PAPI_overflow call leaves besides the entries: the call's handler in force
      and OVERFLOWING set, in hardware where the component interrupts and nothing forces software;
      or everything cleared if no entry is left.  If the component declines, its answer comes back
      and OVERFLOWING is as it was. */
  lemma {:induction false} OverflowSwitches(cmp: Component, events: seq<EventInfo>, s: Tables, c: OvfCall)
    requires OverflowChecks(cmp, events, s, c) == PAPI_OK
    ensures var (ret, s') := OverflowSpec(cmp, events, s, c);
      var forced := if c.threshold == 0 then s.ovfFlags.forceSw else c.flags.forceSw;
      var asked := cmp.hardwareIntr && !forced;
      && ret == (if asked then c.hwRet else PAPI_OK)
      && (ret == PAPI_OK && s'.ovf != [] ==>
            s'.overflowing && s'.handler == c.handler && s'.ovfFlags == OvfFlags(forced, asked))
      && (ret == PAPI_OK && s'.ovf == [] ==>
            s'.overflowing == !s.overflowing && s'.handler == NoHandler && s'.ovfFlags == OvfFlags(false, false))
      && (ret != PAPI_OK ==>
            && s'.overflowing == s.overflowing && s'.handler == c.handler
            && s'.ovfFlags == if c.threshold == 0 then s.ovfFlags else c.flags)
      && s'.stopped == s.stopped && s'.profiling == s.profiling && s'.profFlags == s.profFlags
  {}

  /** Exactly when the first checks of PAPI_sprofil pass. */
  lemma {:induction false} ProfilAccepts(cmp: Component, events: seq<EventInfo>, s: Tables, c: ProfCall)
    ensures ProfilChecks(cmp, events, s, c) == PAPI_OK <==>
      && Ready(events, s, c.code) && c.threshold >= 0
      && (ForceSw in c.flags || Underived(events, c.code))
      && (forall k :: 0 <= k < |c.prof| ==> c.prof[k].scale == 131072 || 2 <= c.prof[k].scale <= 65536)
      && (c.threshold == 0 ==> s.profiling && exists k :: 0 <= k < |s.prof| && s.prof[k].code == c.code)
      && (c.threshold > 0 ==>
            |s.prof| < cmp.numCntrs && (s.prof != [] ==> (ForceSw in c.flags <==> ForceSw in s.profFlags)))
  {
    var i := FindCode(ProfCodes(s.prof), c.code);
    assert forall k :: 0 <= k < i ==> ProfCodes(s.prof)[k] == s.prof[k].code;
  }

  /** What comes back otherwise, with nothing changed. */
  lemma {:induction false} ProfilRefuses(cmp: Component, events: seq<EventInfo>, s: Tables, c: ProfCall)
    requires ProfilChecks(cmp, events, s, c) != PAPI_OK
    ensures var (ret, s') := ProfilSpec(cmp, events, s, c);
      && s' == s && ret in {PAPI_EISRUN, PAPI_ENOEVNT, PAPI_EINVAL, PAPI_ECNFLCT}
      && (ret == PAPI_EISRUN <==> !s.stopped)
      && (ret == PAPI_ENOEVNT <==> s.stopped && !s.attached && !s.cpuAttached && !Ready(events, s, c.code))
      && (ret == PAPI_ECNFLCT <==>
            && Ready(events, s, c.code) && c.threshold > 0
            && (ForceSw in c.flags || Underived(events, c.code))
            && (forall k :: 0 <= k < |c.prof| ==> c.prof[k].scale == 131072 || 2 <= c.prof[k].scale <= 65536))
  {
    ProfilAccepts(cmp, events, s, c);
  }

  /** Flags that name no unknown bit and no two bucket sizes. */
  lemma {:induction false} FlagsOkMeans(flags: set<ProfFlag>)
    ensures FlagsOk(flags) <==>
      && (forall f :: f in flags ==> !f.Other?)
      && !(Bucket16 in flags && Bucket32 in flags) && !(Bucket16 in flags && Bucket64 in flags)
      && !(Bucket32 in flags && Bucket64 in flags)
    ensures Bucket16 in WithBucket(flags) <==> Bucket16 in flags || (Bucket32 !in flags && Bucket64 !in flags)
    ensures forall f :: f != Bucket16 ==> (f in WithBucket(flags) <==> f in flags)
  {
    var b := flags * BUCKETS;
    assert forall f :: f in b <==> f in flags && (f == Bucket16 || f == Bucket32 || f == Bucket64);
    if FlagsOk(flags) {
      assert b == {} || b == {Bucket16} || b == {Bucket32} || b == {Bucket64};
    } else if forall f :: f in flags ==> !f.Other? {
      assert b != {} && b != {Bucket16} && b != {Bucket32} && b != {Bucket64};
    }
  }

  lemma {:induction false} RequestKeepsProf(cmp: Component, events: seq<EventInfo>, s: Tables, c: ProfCall,
                                            flags: set<ProfFlag>)
    ensures var s' := ProfilRequest(cmp, events, s, c, flags).1;
      s'.prof == s.prof && s'.profFlags == s.profFlags && s'.profiling == s.profiling
  {}

  /** What a PAPI_sprofil call leaves besides the entries when it succeeds: the flags named, with
      those in force before if it is a removal, and PROFILING set; or both cleared if no entry is
      left.  It succeeds exactly if its flags are acceptable and the call it makes succeeds. */
  lemma {:induction false} ProfilSwitches(cmp: Component, events: seq<EventInfo>, s: Tables, c: ProfCall)
    requires ProfilChecks(cmp, events, s, c) == PAPI_OK
    ensures var (ret, s') := ProfilSpec(cmp, events, s, c);
      var flags := if c.threshold == 0 then c.flags + s.profFlags else c.flags;
      && (!FlagsOk(flags) ==>
            ret == PAPI_EINVAL && s'.profFlags == s.profFlags && s'.profiling == s.profiling && s'.ovf == s.ovf)
      && (FlagsOk(flags) ==>
            var edited := ProfilEdit(events, s, c).(profFlags := WithBucket(flags));
            var (inner, t) := ProfilRequest(cmp, events, edited, c, flags);
            && (inner < PAPI_OK ==> ret == inner && s' == t)
            && (inner >= PAPI_OK ==> ret == PAPI_OK && s'.ovf == t.ovf && s'.overflowing == t.overflowing)
            && (inner >= PAPI_OK && s'.prof != [] ==> s'.profiling && s'.profFlags == WithBucket(flags))
            && (inner >= PAPI_OK && s'.prof == [] ==> s'.profiling == !s.profiling && s'.profFlags == {}))
  {
    var s1 := ProfilEdit(events, s, c);
    var flags := EffectiveFlags(s1, c);
    RequestKeepsProf(cmp, events, s1.(profFlags := WithBucket(flags)), c, flags);
  }

  /** What that call is: the component's kernel profiling where it has any and software is not
      forced, and otherwise PAPI_overflow with the library's own handler, in forced software only on
      a component without kernel profiling. */
  lemma {:induction false} ProfilAsks(cmp: Component, events: seq<EventInfo>, s: Tables, c: ProfCall,
                                      flags: set<ProfFlag>)
    ensures cmp.kernelProfile && ForceSw !in flags ==>
      var (ret, s') := ProfilRequest(cmp, events, s, c, flags);
      && ret == c.hwRet && s'.ovf == s.ovf && s'.prof == s.prof
      && (ret == PAPI_OK && c.threshold > 0 ==> s'.overflowing && s'.ovfFlags.hardware)
      && (ret != PAPI_OK || c.threshold <= 0 ==> s' == s)
    ensures !(cmp.kernelProfile && ForceSw !in flags) ==>
      ProfilRequest(cmp, events, s, c, flags) ==
      OverflowSpec(cmp, events, s, OvfCall(c.code, c.threshold, OvfFlags(!cmp.kernelProfile && ForceSw in flags, false),
                                           DummyHandler, c.hwRet))
  {}

  /** After a PAPI_overflow call whose checks pass, the code has an entry for its event with the
      call's threshold, and a first deadline one threshold away, or no entry if the threshold is 0;
      all other codes have the entries they had, as they do after a refused call. */
  lemma {:induction false} OverflowLeaves(cmp: Component, events: seq<EventInfo>, s: Tables, c: OvfCall, code: int)
    requires Distinct(OvfCodes(s.ovf))
    ensures var s' := OverflowSpec(cmp, events, s, c).1;
      && Distinct(OvfCodes(s'.ovf)) && s'.prof == s.prof
      && OvfFor(s'.ovf, code) ==
         if OverflowChecks(cmp, events, s, c) != PAPI_OK || code != c.code then OvfFor(s.ovf, code)
         else if c.threshold == 0 then None
         else Some(OvfEntry(c.code, IndexOfCode(events, c.code), c.threshold, c.threshold))
  {
    if OverflowChecks(cmp, events, s, c) == PAPI_OK {
      var i := FindCode(OvfCodes(s.ovf), c.code);
      if c.threshold == 0 {
        DropOvf(s.ovf, i, code);
      } else {
        PutOvf(s.ovf, OvfEntry(c.code, IndexOfCode(events, c.code), c.threshold, c.threshold), code);
      }
    }
  }

  /** After a PAPI_sprofil call whose first checks pass, later refusals included, the code has an
      entry for its event with the call's threshold and all of the call's regions, or none if the
      threshold is 0; all other codes keep their entries, as they do after a refused call. */
  lemma {:induction false} ProfilLeaves(cmp: Component, events: seq<EventInfo>, s: Tables, c: ProfCall, code: int)
    requires Distinct(ProfCodes(s.prof))
    ensures var s' := ProfilSpec(cmp, events, s, c).1;
      && Distinct(ProfCodes(s'.prof))
      && ProfFor(s'.prof, code) ==
         if ProfilChecks(cmp, events, s, c) != PAPI_OK || code != c.code then ProfFor(s.prof, code)
         else if c.threshold == 0 then None
         else Some(ProfEntry(c.code, IndexOfCode(events, c.code), c.threshold, c.prof))
  {
    ProfAfter(cmp, events, s, c);
    if ProfilChecks(cmp, events, s, c) == PAPI_OK {
      var i := FindCode(ProfCodes(s.prof), c.code);
      if c.threshold == 0 {
        DropProf(s.prof, i, code);
      } else {
        PutProf(s.prof, ProfEntry(c.code, IndexOfCode(events, c.code), c.threshold, c.prof), code);
      }
    }
  }

  /** The last PAPI_sprofil call of a run for this code that changed the profile table. */
  function LastProfile(cmp: Component, events: seq<EventInfo>, calls: seq<TableCall>, code: int): Option<ProfCall> {
    if calls == [] then None
    else
      var before, last := calls[..|calls| - 1], calls[|calls| - 1];
      if last.ProfilCall? && last.profCall.code == code &&
         ProfilChecks(cmp, events, MixedRun(cmp, events, before), last.profCall) == PAPI_OK
      then Some(last.profCall)
      else LastProfile(cmp, events, before, code)
  }

  /** Over any run of both kinds of calls, a code is profiled exactly if the last call that changed
      its entry did not remove it, and then with that call's threshold and regions. */
  lemma {:induction false} RunLeavesProfiles(cmp: Component, events: seq<EventInfo>, calls: seq<TableCall>, code: int)
    ensures Distinct(ProfCodes(MixedRun(cmp, events, calls).prof))
    ensures ProfFor(MixedRun(cmp, events, calls).prof, code) ==
      match LastProfile(cmp, events, calls, code)
      case None => None
      case Some(c) =>
        if c.threshold == 0 then None else Some(ProfEntry(code, IndexOfCode(events, code), c.threshold, c.prof))
    decreases |calls|
  {
    if calls != [] {
      var before, last := calls[..|calls| - 1], calls[|calls| - 1];
      RunLeavesProfiles(cmp, events, before, code);
      match last {
        case OverflowCall(c) => OverflowKeepsProf(cmp, events, MixedRun(cmp, events, before), c);
        case ProfilCall(c) => ProfilLeaves(cmp, events, MixedRun(cmp, events, before), c, code);
      }
    }
  }

  lemma {:induction false} OverflowKeepsProf(cmp: Component, events: seq<EventInfo>, s: Tables, c: OvfCall)
    ensures OverflowSpec(cmp, events, s, c).1.prof == s.prof
  {}

  // ---------------------------------------------------------------- regions

  /** Each profile entry has a region for its samples. */
  predicate HaveRegions(prof: seq<ProfEntry>) {
    forall i :: 0 <= i < |prof| ==> prof[i].prof != []
  }

  /** A PAPI_sprofil call leaves every entry with a region exactly unless it enters one without. */
  lemma {:induction false} ProfilKeepsRegions(cmp: Component, events: seq<EventInfo>, s: Tables, c: ProfCall)
    requires HaveRegions(s.prof)
    ensures HaveRegions(ProfilSpec(cmp, events, s, c).1.prof) <==>
            !(ProfilChecks(cmp, events, s, c) == PAPI_OK && c.threshold > 0 && c.prof == [])
  {
    ProfAfter(cmp, events, s, c);
    if ProfilChecks(cmp, events, s, c) == PAPI_OK && c.threshold > 0 {
      var i := FindCode(ProfCodes(s.prof), c.code);
      var e := ProfEntry(c.code, IndexOfCode(events, c.code), c.threshold, c.prof);
      assert Put(s.prof, i, e)[i] == e;
    }
  }

  /** Over any run of calls in which those that register a profile bring regions, every entry keeps
      at least one: the handler always has a region to choose. */
  lemma {:induction false} RunKeepsRegions(cmp: Component, events: seq<EventInfo>, calls: seq<TableCall>)
    requires forall k :: 0 <= k < |calls| && calls[k].ProfilCall? && calls[k].profCall.threshold > 0 ==>
      calls[k].profCall.prof != []
    ensures HaveRegions(MixedRun(cmp, events, calls).prof)
    decreases |calls|
  {
    if calls != [] {
      RunKeepsRegions(cmp, events, calls[..|calls| - 1]);
      if calls[|calls| - 1].ProfilCall? {
        ProfilKeepsRegions(cmp, events, MixedRun(cmp, events, calls[..|calls| - 1]), calls[|calls| - 1].profCall);
      }
    }
  }

  const ONE_EVENT := [EventInfo(7, [0], 0)]

  /** Its tables once it is registered on a component without overflow interrupts. */
  const SOFTWARE_REGISTERED :=
    Tables(true, false, false, true, true, [OvfEntry(7, 0, 1000, 1000)], OvfFlags(false, false), DummyHandler,
           [ProfEntry(7, 0, 1000, [])], {Bucket16})

  lemma {:induction false} RegisterOne(cmp: Component)
    requires cmp == Component(4, false, false)
    ensures ProfilSpec(cmp, ONE_EVENT, FRESH, ProfCall(7, 1000, {}, [], PAPI_OK)) == (PAPI_OK, SOFTWARE_REGISTERED)
  {
    assert IndexOfCode(ONE_EVENT, 7) == 0;
    var s := ProfilSpec(cmp, ONE_EVENT, FRESH, ProfCall(7, 1000, {}, [], PAPI_OK)).1;
    assert s.profFlags == {Bucket16} && s.ovf == SOFTWARE_REGISTERED.ovf && s.prof == SOFTWARE_REGISTERED.prof;
  }

  /** The failing call: a profile without regions is accepted. */
  lemma {:induction false} NoRegionsAreAccepted()
    ensures var cmp, c := Component(4, false, false), ProfCall(7, 1000, {}, [], PAPI_OK);
      var (ret, s) := ProfilSpec(cmp, ONE_EVENT, FRESH, c);
      ret == PAPI_OK && !HaveRegions(s.prof)
  {
    RegisterOne(Component(4, false, false));
    assert SOFTWARE_REGISTERED.prof[0].prof == [];
  }

  lemma {:induction false} TwoBuckets()
    ensures !FlagsOk({Bucket32} + {Bucket16})
  {
    assert ({Bucket32} + {Bucket16}) * BUCKETS == {Bucket16, Bucket32};
    assert Bucket16 in {Bucket16, Bucket32} && Bucket32 in {Bucket16, Bucket32};
  }

  /** Removing a profile with another bucket size than it was made with is refused too late: the
      profile entry is gone, the overflow entry and both state bits remain. */
  lemma {:induction false} RemovalWithOtherBucketDesyncs()
    ensures
      var cmp := Component(4, false, false);
      var s := ProfilSpec(cmp, ONE_EVENT, FRESH, ProfCall(7, 1000, {}, [], PAPI_OK)).1;
      ProfilSpec(cmp, ONE_EVENT, s, ProfCall(7, 0, {Bucket32}, [], PAPI_OK)) ==
      (PAPI_EINVAL, SOFTWARE_REGISTERED.(prof := []))
  {
    RegisterOne(Component(4, false, false));
    TwoBuckets();
    assert IndexOfCode(ONE_EVENT, 7) == 0 && FindCode(ProfCodes(SOFTWARE_REGISTERED.prof), 7) == 0;
    var c := ProfCall(7, 0, {Bucket32}, [], PAPI_OK);
    assert EffectiveFlags(SOFTWARE_REGISTERED, c) == {Bucket32} + {Bucket16};
    assert Drop(SOFTWARE_REGISTERED.prof, 0) == [];
    assert ProfilEdit(ONE_EVENT, SOFTWARE_REGISTERED, c) == SOFTWARE_REGISTERED.(prof := []);
  }

  const TWO_EVENTS := [EventInfo(7, [0], 0), EventInfo(8, [1], 0)]

  /** The tables once both events are registered on a component with overflow interrupts. */
  const TWO_REGISTERED :=
    Tables(true, false, false, true, true,
           [OvfEntry(7, 0, 1000, 1000), OvfEntry(8, 1, 1000, 1000)], OvfFlags(false, true), DummyHandler,
           [ProfEntry(7, 0, 1000, []), ProfEntry(8, 1, 1000, [])], {Bucket16})

  lemma {:induction false} TwoIndexes()
    ensures IndexOfCode(TWO_EVENTS, 7) == 0 && IndexOfCode(TWO_EVENTS, 8) == 1
  {
    assert TWO_EVENTS[1..] == [EventInfo(8, [1], 0)];
    assert IndexOfCode(TWO_EVENTS[1..], 8) == 0;
  }

  const ONE_REGISTERED := TWO_REGISTERED.(ovf := [OvfEntry(7, 0, 1000, 1000)], prof := [ProfEntry(7, 0, 1000, [])])

  lemma {:induction false} RegisterFirst(cmp: Component)
    requires cmp == Component(4, false, true)
    ensures ProfilSpec(cmp, TWO_EVENTS, FRESH, ProfCall(7, 1000, {}, [], PAPI_OK)) == (PAPI_OK, ONE_REGISTERED)
  {
    TwoIndexes();
    var s' := ProfilSpec(cmp, TWO_EVENTS, FRESH, ProfCall(7, 1000, {}, [], PAPI_OK)).1;
    assert s'.profFlags == {Bucket16} && s'.ovf == ONE_REGISTERED.ovf && s'.prof == ONE_REGISTERED.prof;
  }

  lemma {:induction false} RegisterSecond(cmp: Component)
    requires cmp == Component(4, false, true)
    ensures ProfilSpec(cmp, TWO_EVENTS, ONE_REGISTERED, ProfCall(8, 1000, {}, [], PAPI_OK)) == (PAPI_OK, TWO_REGISTERED)
  {
    TwoIndexes();
    assert OvfCodes(ONE_REGISTERED.ovf) == [7] && ProfCodes(ONE_REGISTERED.prof) == [7];
    assert FindCode([7], 8) == 1;
    var s' := ProfilSpec(cmp, TWO_EVENTS, ONE_REGISTERED, ProfCall(8, 1000, {}, [], PAPI_OK)).1;
    assert s'.profFlags == {Bucket16} && s'.ovf == TWO_REGISTERED.ovf && s'.prof == TWO_REGISTERED.prof;
  }

  const TWO_CALLS := [ProfCall(7, 1000, {}, [], PAPI_OK), ProfCall(8, 1000, {}, [], PAPI_OK)]

  lemma {:induction false} BothRegister(cmp: Component)
    requires cmp == Component(4, false, true)
    ensures ProfilRun(cmp, TWO_EVENTS, FRESH, TWO_CALLS) == TWO_REGISTERED
  {
    RegisterFirst(cmp);
    RegisterSecond(cmp);
    assert TWO_CALLS[1..] == [ProfCall(8, 1000, {}, [], PAPI_OK)];
    assert ProfilRun(cmp, TWO_EVENTS, ONE_REGISTERED, TWO_CALLS[1..]) == TWO_REGISTERED;
  }

  /** The tables once the second event is removed with forced software. */
  const ONE_LEFT := ONE_REGISTERED.(profFlags := {ForceSw, Bucket16})

  lemma {:induction false} RemoveForced(cmp: Component)
    requires cmp == Component(4, false, true)
    ensures ProfilSpec(cmp, TWO_EVENTS, TWO_REGISTERED, ProfCall(8, 0, {ForceSw}, [], PAPI_OK)) == (PAPI_OK, ONE_LEFT)
  {
    TwoIndexes();
    assert OvfCodes(TWO_REGISTERED.ovf) == [7, 8] && ProfCodes(TWO_REGISTERED.prof) == [7, 8];
    assert [7, 8][1..] == [8];
    assert FindCode([7, 8], 8) == 1;
    assert ({ForceSw} + {Bucket16}) * BUCKETS == {Bucket16};
    assert {ForceSw} + {Bucket16} == {ForceSw, Bucket16};
    assert Drop(TWO_REGISTERED.ovf, 1) == ONE_LEFT.ovf && Drop(TWO_REGISTERED.prof, 1) == ONE_LEFT.prof;
  }

  lemma {:induction false} AddForced(cmp: Component)
    requires cmp == Component(4, false, true)
    ensures var (ret, s) := ProfilSpec(cmp, TWO_EVENTS, ONE_LEFT, ProfCall(8, 1000, {ForceSw}, [], PAPI_OK));
      ret == PAPI_ECNFLCT && |s.ovf| == 1 && |s.prof| == 2
  {
    TwoIndexes();
    assert OvfCodes(ONE_LEFT.ovf) == [7] && ProfCodes(ONE_LEFT.prof) == [7];
    assert FindCode([7], 8) == 1;
    assert {ForceSw} * BUCKETS == {};
  }

  /** With overflow interrupts, a removal that names forced software lets the next call that
      does so into the profile table, and PAPI_overflow then refuses it. */
  lemma {:induction false} ForcedSoftwareAfterHardwareDesyncs(cmp: Component)
    requires cmp == Component(4, false, true)
    ensures var s2 := ProfilRun(cmp, TWO_EVENTS, FRESH, TWO_CALLS);
      var s3 := ProfilSpec(cmp, TWO_EVENTS, s2, ProfCall(8, 0, {ForceSw}, [], PAPI_OK)).1;
      var (ret, s4) := ProfilSpec(cmp, TWO_EVENTS, s3, ProfCall(8, 1000, {ForceSw}, [], PAPI_OK));
      |s3.ovf| == |s3.prof| == 1 && ret == PAPI_ECNFLCT && |s4.ovf| == 1 && |s4.prof| == 2
  {
    BothRegister(cmp);
    RemoveForced(cmp);
    AddForced(cmp);
  }
}
