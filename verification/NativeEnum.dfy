/** Enumerating native events and their unit masks (_papi_libpfm_ntv_enum_events in
    src/papi_libpfm3_events.c). */
module NativeEnum {
  import opened PapiCodes
  import opened Words
  import opened NativeCode

  datatype Modifier = EnumEvents | EnumFirst | EnumUmasks | EnumUmaskCombos | OtherModifier

  /** The event table: how many unit masks each event has, or Unknown if the lookup fails. */
  datatype MaskCount = Unknown | Masks(n: nat)

  datatype Table = Table(layout: Layout, counts: seq<MaskCount>)

  /** The number of masks of an event as the enumeration sees it. */
  function CappedMasks(t: Table, event: nat): nat
    requires event < |t.counts| && t.counts[event].Masks?
  {
    if t.counts[event].n > PAPI_NATIVE_UMASK_MAX then PAPI_NATIVE_UMASK_MAX else t.counts[event].n
  }

  /** What follows an event and mask, or the reason nothing does. */
  datatype Next = Halt(ret: int) | Go(event: nat, mask: nat)

  function NextPair(t: Table, d: Decoded, modifier: Modifier): Next
    requires d.Event? ==> d.event < |t.counts|
  {
    if d.NoEvent? then Halt(PAPI_ENOEVNT)
    else if t.counts[d.event].Unknown? then Halt(PAPI_ENOEVNT)
    else NextAmong(d.event, d.umask, |t.counts|, CappedMasks(t, d.event), modifier)
  }

  /** The same for an event with n masks out of a number of events. */
  function NextAmong(event: nat, umask: nat, events: nat, n: nat, modifier: Modifier): Next {
    match modifier
    case EnumEvents =>
      if event < events - 1 then Go(event + 1, 0) else Halt(PAPI_ENOEVNT)
    case EnumUmaskCombos =>
      if umask + 1 < Pow2(n) then Go(event, umask + 1) else Halt(PAPI_ENOEVNT)
    case EnumUmasks =>
      var thisbit := Pow2(Ffs(umask));
      if And(thisbit, Ones(n)) != 0 then Go(event, thisbit) else Halt(PAPI_ENOEVNT)
    case _ => Halt(PAPI_EINVAL)
  }

  /** The code that follows code, or the reason there is none. */
  datatype NextCode = Stop(ret: int) | Code(code: nat)

  function Encoded(t: Table, next: Next): NextCode {
    match next
    case Halt(ret) => Stop(ret)
    case Go(event, mask) => Code(EncodeRaw(t.layout, event, mask))
  }

  function Following(t: Table, code: nat, modifier: Modifier): NextCode {
    if modifier == EnumFirst then Code(t.layout.nativeMask)
    else Encoded(t, NextPair(t, Decode(t.layout, |t.counts|, code), modifier))
  }

  /** The enumeration call: updates the caller's code in place, or leaves it alone. */
  method EnumEventCodes(t: Table, eventCode: Box<nat>, modifier: Modifier) returns (ret: int)
    modifies eventCode
    ensures match Following(t, old(eventCode.value), modifier)
      case Code(c) => ret == PAPI_OK && eventCode.value == c
      case Stop(r) => ret == r && eventCode.value == old(eventCode.value)
  {
    if modifier == EnumFirst {
      eventCode.value := t.layout.nativeMask;
      return PAPI_OK;
    }
    var d := Decode(t.layout, |t.counts|, eventCode.value);
    if d.NoEvent? { return PAPI_ENOEVNT; }
    if t.counts[d.event].Unknown? { return PAPI_ENOEVNT; }
    var numMasks := CapMasks(t, d.event);
    var next := NextOf(d.event, d.umask, |t.counts|, numMasks, modifier);
    match next
    case Halt(r) => return r;
    case Go(event, mask) =>
      eventCode.value := EncodeRaw(t.layout, event, mask);
      return PAPI_OK;
  }

  /** The bit above the least one of the mask, and whether the event has it. */
  method BitAfter(umask: nat, numMasks: nat) returns (inRange: bool, thisbit: nat)
    ensures thisbit == Pow2(Ffs(umask)) && inRange == (And(thisbit, Ones(numMasks)) != 0)
  {
    thisbit := Ffs(umask);
    thisbit := Pow2(thisbit);
    OnesIs(numMasks);
    inRange := And(thisbit, Pow2(numMasks) - 1) != 0;
  }

  method CapMasks(t: Table, event: nat) returns (numMasks: nat)
    requires event < |t.counts| && t.counts[event].Masks?
    ensures numMasks == CappedMasks(t, event)
  {
    numMasks := t.counts[event].n;
    if numMasks > PAPI_NATIVE_UMASK_MAX { numMasks := PAPI_NATIVE_UMASK_MAX; }
  }

  /** The branches on the modifier. */
  method NextOf(event: nat, umask: nat, numEvents: nat, numMasks: nat, modifier: Modifier) returns (next: Next)
    requires modifier != EnumFirst
    ensures next == NextAmong(event, umask, numEvents, numMasks, modifier)
  {
    if modifier == EnumEvents {
      return if event < numEvents - 1 then Go(event + 1, 0) else Halt(PAPI_ENOEVNT);
    } else if modifier == EnumUmaskCombos {
      return if umask + 1 < Pow2(numMasks) then Go(event, umask + 1) else Halt(PAPI_ENOEVNT);
    } else if modifier == EnumUmasks {
      var inRange, thisbit := BitAfter(umask, numMasks);
      return if inRange then Go(event, thisbit) else Halt(PAPI_ENOEVNT);
    } else {
      return Halt(PAPI_EINVAL);
    }
  }

  // ---------------------------------------------------------------- whole enumerations

  /** Code i of the list is followed by the next one, or by PAPI_ENOEVNT if it is the last. */
  ghost predicate FollowsAt(t: Table, modifier: Modifier, codes: seq<nat>, i: nat)
    requires i < |codes|
  {
    Following(t, codes[i], modifier) == if i < |codes| - 1 then Code(codes[i + 1]) else Stop(PAPI_ENOEVNT)
  }

  /** codes is what repeated calls produce from the first code until PAPI_ENOEVNT. */
  ghost predicate IsRun(t: Table, modifier: Modifier, codes: seq<nat>) {
    codes != [] && forall i :: 0 <= i < |codes| ==> FollowsAt(t, modifier, codes, i)
  }

  lemma {:induction false} SameSoFar(t: Table, modifier: Modifier, a: seq<nat>, b: seq<nat>, i: nat)
    requires IsRun(t, modifier, a) && IsRun(t, modifier, b) && a[0] == b[0] && i < |a|
    ensures i < |b| && a[i] == b[i]
  {
    if i > 0 {
      SameSoFar(t, modifier, a, b, i - 1);
      assert FollowsAt(t, modifier, a, i - 1) && FollowsAt(t, modifier, b, i - 1);
    }
  }

  /** From one first code there is one run. */
  lemma {:induction false} RunsAgree(t: Table, modifier: Modifier, a: seq<nat>, b: seq<nat>)
    requires IsRun(t, modifier, a) && IsRun(t, modifier, b) && a[0] == b[0]
    ensures a == b
  {
    SameSoFar(t, modifier, a, b, |a| - 1);
    SameSoFar(t, modifier, b, a, |b| - 1);
    forall i | 0 <= i < |a| ensures a[i] == b[i] { SameSoFar(t, modifier, a, b, i); }
  }

  /** Every mask count is known, and the mask field has room for as many masks as are looked at. */
  ghost predicate Known(t: Table) {
    && ValidLayout(t.layout) && PAPI_NATIVE_UMASK_MAX <= t.layout.maskBits
    && t.counts != []
    && forall e :: 0 <= e < |t.counts| ==> t.counts[e].Masks?
  }

  /** Every event number has a code of its own. */
  ghost predicate Fits(t: Table) {
    Known(t) && |t.counts| <= Pow2(t.layout.umaskShift)
  }

  /** A pair that can be encoded. */
  ghost predicate InRange(t: Table, p: (nat, nat)) {
    p.0 < |t.counts| && p.0 < Pow2(t.layout.umaskShift) && p.1 < Pow2(t.layout.maskBits)
  }

  ghost predicate IsCodeOf(t: Table, p: (nat, nat), code: nat) {
    code == EncodeRaw(t.layout, p.0, p.1)
  }

  /** The codes of a list of events and masks. */
  ghost predicate AreCodes(t: Table, ps: seq<(nat, nat)>, codes: seq<nat>) {
    |codes| == |ps| && forall i :: 0 <= i < |ps| ==> IsCodeOf(t, ps[i], codes[i])
  }

  ghost predicate PairFollowsAt(t: Table, modifier: Modifier, ps: seq<(nat, nat)>, i: nat)
    requires i < |ps| && ps[i].0 < |t.counts|
  {
    NextPair(t, Event(ps[i].0, ps[i].1), modifier) ==
    if i < |ps| - 1 then Go(ps[i + 1].0, ps[i + 1].1) else Halt(PAPI_ENOEVNT)
  }

  /** Each pair of the list is followed by the next, and the last by nothing. */
  ghost predicate Chained(t: Table, modifier: Modifier, ps: seq<(nat, nat)>) {
    && ps != []
    && (forall i :: 0 <= i < |ps| ==> InRange(t, ps[i]))
    && (forall i :: 0 <= i < |ps| ==> PairFollowsAt(t, modifier, ps, i))
  }

  lemma {:induction false} CodeFollows(t: Table, modifier: Modifier, p: (nat, nat), code: nat)
    requires ValidLayout(t.layout) && InRange(t, p) && IsCodeOf(t, p, code) && modifier != EnumFirst
    ensures Following(t, code, modifier) == Encoded(t, NextPair(t, Event(p.0, p.1), modifier))
  {
    RoundTrip(t.layout, |t.counts|, p.0, p.1);
  }

  lemma {:induction false} NextFollows(t: Table, modifier: Modifier, ps: seq<(nat, nat)>, codes: seq<nat>, i: nat)
    requires ValidLayout(t.layout) && modifier != EnumFirst
    requires Chained(t, modifier, ps) && AreCodes(t, ps, codes) && i < |ps|
    ensures FollowsAt(t, modifier, codes, i)
  {
    assert PairFollowsAt(t, modifier, ps, i);
    CodeFollows(t, modifier, ps[i], codes[i]);
    if i < |ps| - 1 {
      assert IsCodeOf(t, ps[i + 1], codes[i + 1]);
    }
  }

  /** A run that starts where a chain starts goes through the codes of the chain, and only them. */
  lemma {:induction false} RunIsChain(t: Table, modifier: Modifier, ps: seq<(nat, nat)>, codes: seq<nat>)
    requires ValidLayout(t.layout) && Chained(t, modifier, ps) && modifier != EnumFirst
    ensures IsRun(t, modifier, codes) && IsCodeOf(t, ps[0], codes[0]) <==> AreCodes(t, ps, codes)
  {
    var all := CodesOf(t, ps);
    ChainRuns(t, modifier, ps, all);
    if AreCodes(t, ps, codes) {
      ChainRuns(t, modifier, ps, codes);
      assert IsCodeOf(t, ps[0], codes[0]);
    } else if IsRun(t, modifier, codes) && IsCodeOf(t, ps[0], codes[0]) {
      assert IsCodeOf(t, ps[0], all[0]);
      RunsAgree(t, modifier, codes, all);
    }
  }

  ghost function CodesOf(t: Table, ps: seq<(nat, nat)>): (codes: seq<nat>)
    ensures AreCodes(t, ps, codes)
  {
    seq(|ps|, i requires 0 <= i < |ps| => EncodeRaw(t.layout, ps[i].0, ps[i].1))
  }

  lemma {:induction false} ChainRuns(t: Table, modifier: Modifier, ps: seq<(nat, nat)>, codes: seq<nat>)
    requires ValidLayout(t.layout) && modifier != EnumFirst
    requires Chained(t, modifier, ps) && AreCodes(t, ps, codes)
    ensures IsRun(t, modifier, codes)
  {
    forall i: nat | i < |ps| ensures FollowsAt(t, modifier, codes, i) {
      NextFollows(t, modifier, ps, codes, i);
    }
  }

  /** No code comes twice. */
  ghost predicate Different<T>(codes: seq<T>) {
    forall i, j :: 0 <= i < j < |codes| ==> codes[i] != codes[j]
  }

  lemma {:induction false} CodesDiffer(t: Table, p: (nat, nat), q: (nat, nat), c: nat, d: nat)
    requires ValidLayout(t.layout) && InRange(t, p) && InRange(t, q) && p != q
    requires IsCodeOf(t, p, c) && IsCodeOf(t, q, d)
    ensures c != d
  {
    if c == d { EncodeInjective(t.layout, p.0, p.1, q.0, q.1); }
  }

  /** A run along a chain of different pairs goes through its codes, shows none twice and ends. */
  lemma {:induction false} RunShows(t: Table, modifier: Modifier, ps: seq<(nat, nat)>, codes: seq<nat>)
    requires ValidLayout(t.layout) && Chained(t, modifier, ps) && modifier != EnumFirst && Different(ps)
    ensures IsRun(t, modifier, codes) && IsCodeOf(t, ps[0], codes[0]) <==> AreCodes(t, ps, codes)
    ensures AreCodes(t, ps, codes) ==> Different(codes)
  {
    RunIsChain(t, modifier, ps, codes);
    if AreCodes(t, ps, codes) {
      forall i: nat, j: nat | i < j < |codes| ensures codes[i] != codes[j] {
        CodesDiffer(t, ps[i], ps[j], codes[i], codes[j]);
      }
    }
  }

  // ---------------------------------------------------------------- the three enumerations

  /** An event with a mask, then every later event number with no mask. */
  function EventsFrom(event: nat, mask: nat, total: nat): (r: seq<(nat, nat)>)
    requires event < total
    ensures |r| == total - event && r[0] == (event, mask)
    ensures forall i :: 0 < i < |r| ==> r[i] == (event + i, 0)
  {
    seq(total - event, i requires 0 <= i => (event + i, if i == 0 then mask else 0))
  }

  /** A mask, then every greater one below 2^n. */
  function MasksFrom(event: nat, mask: nat, n: nat): (r: seq<(nat, nat)>)
    ensures |r| == (if mask < Pow2(n) then Pow2(n) - mask else 1)
    ensures forall i :: 0 <= i < |r| ==> r[i] == (event, mask + i)
  {
    seq(if mask < Pow2(n) then Pow2(n) - mask else 1, i requires 0 <= i => (event, mask + i))
  }

  /** A mask, then each single bit below n that is above the least bit of the mask. */
  function SinglesFrom(event: nat, mask: nat, n: nat): (r: seq<(nat, nat)>)
    ensures |r| == (if Ffs(mask) < n then n - Ffs(mask) + 1 else 1) && r[0] == (event, mask)
    ensures forall i :: 0 < i < |r| ==> r[i] == (event, Pow2(Ffs(mask) + i - 1))
  {
    seq(if Ffs(mask) < n then n - Ffs(mask) + 1 else 1, i requires 0 <= i => (event, SingleAfter(mask, i)))
  }

  function SingleAfter(mask: nat, i: nat): nat {
    if i == 0 then mask else Pow2(Ffs(mask) + i - 1)
  }

  lemma {:induction false} FirstCode(l: Layout)
    ensures EncodeRaw(l, 0, 0) == l.nativeMask
  {
    ShlOfZero(l.umaskShift);
    OrZero(0);
    OrZero(l.nativeMask);
  }

  /** From any code, enumerating events goes through every later event number once, in order, with
      no mask, and then stops; from the first code that is all of them. */
  lemma {:induction false} EnumeratesEvents(t: Table, event: nat, mask: nat, codes: seq<nat>)
    requires Fits(t) && event < |t.counts| && mask < Pow2(t.layout.maskBits)
    ensures Following(t, 0, EnumFirst) == Code(EncodeRaw(t.layout, 0, 0))
    ensures IsRun(t, EnumEvents, codes) && IsCodeOf(t, (event, mask), codes[0]) <==>
            AreCodes(t, EventsFrom(event, mask, |t.counts|), codes)
    ensures AreCodes(t, EventsFrom(event, mask, |t.counts|), codes) ==> Different(codes)
  {
    FirstCode(t.layout);
    RunShows(t, EnumEvents, EventsFrom(event, mask, |t.counts|), codes);
  }

  /** In a table with more events than the event field holds, every code is followed by another. */
  lemma {:induction false} NeverStops(t: Table, code: nat)
    requires Known(t) && |t.counts| > Pow2(t.layout.umaskShift)
    ensures Following(t, code, EnumEvents).Code?
  {
    DecodedFits(t.layout, code);
  }

  lemma {:induction false} NoRun(t: Table, codes: seq<nat>)
    requires Known(t) && |t.counts| > Pow2(t.layout.umaskShift)
    ensures !IsRun(t, EnumEvents, codes)
  {
    if codes != [] {
      NeverStops(t, codes[|codes| - 1]);
      assert !FollowsAt(t, EnumEvents, codes, |codes| - 1);
    }
  }

  /** Enumerating the events from the first code comes to an end exactly when the event field is
      wide enough for all of them. */
  lemma {:induction false} EventsEndExactly(t: Table)
    requires Known(t)
    ensures (exists codes :: IsRun(t, EnumEvents, codes) && IsCodeOf(t, (0, 0), codes[0])) <==>
            |t.counts| <= Pow2(t.layout.umaskShift)
  {
    if |t.counts| <= Pow2(t.layout.umaskShift) {
      var codes := CodesOf(t, EventsFrom(0, 0, |t.counts|));
      EnumeratesEvents(t, 0, 0, codes);
      assert IsRun(t, EnumEvents, codes) && IsCodeOf(t, (0, 0), codes[0]);
    } else {
      forall codes: seq<nat> ensures !IsRun(t, EnumEvents, codes) { NoRun(t, codes); }
    }
  }

  /** The first event number that does not fit is taken for event 0 with unit mask 1: from there
      the enumeration goes round. */
  lemma {:induction false} FirstTooLargeIsEventZero(t: Table)
    requires Known(t) && |t.counts| > Pow2(t.layout.umaskShift)
    ensures Decode(t.layout, |t.counts|, EncodeRaw(t.layout, Pow2(t.layout.umaskShift), 0)) == Event(0, 1)
    ensures Following(t, EncodeRaw(t.layout, Pow2(t.layout.umaskShift), 0), EnumEvents) ==
            Code(EncodeRaw(t.layout, 1, 0))
  {
    var s := t.layout.umaskShift;
    var code := EncodeRaw(t.layout, Pow2(s), 0);
    var d := Decode(t.layout, EventField(t.layout, code) + 1, code);
    forall k: nat
      ensures Bit(EventField(t.layout, code), k) <==> Bit(0, k)
      ensures Bit(d.umask, k) <==> Bit(1, k)
    {
      TooLargeBits(t.layout, k);
    }
    SameBits(EventField(t.layout, code), 0);
    SameBits(d.umask, 1);
  }

  lemma {:induction false} TooLargeBits(l: Layout, k: nat)
    requires ValidLayout(l) && l.maskBits > 0
    ensures var code := EncodeRaw(l, Pow2(l.umaskShift), 0);
      && !Bit(EventField(l, code), k) && !Bit(0, k)
      && (Bit(Decode(l, EventField(l, code) + 1, code).umask, k) <==> k == 0)
      && (Bit(1, k) <==> k == 0)
  {
    var s := l.umaskShift;
    DecodedBits(l, EncodeRaw(l, Pow2(s), 0), k);
    EncodedBit(l, Pow2(s), 0, k);
    EncodedBit(l, Pow2(s), 0, s + k);
    BitPow2(s, k);
    BitPow2(s, s + k);
    ZeroBit(k);
    if k >= s { ZeroBit(k - s); }
    if k > 0 { ZeroBit(k - 1); }
  }

  lemma {:induction false} Pow2MonoLe(a: nat, b: nat)
    requires a <= b
    ensures Pow2(a) <= Pow2(b)
  {
    if a < b { Pow2Mono(a, b); }
  }

  /** The event has c unit masks in the table, of which n are enumerated: all up to 16. */
  ghost predicate Enumerated(t: Table, event: nat, c: nat, n: nat) {
    && Known(t) && event < |t.counts| && event < Pow2(t.layout.umaskShift)
    && t.counts[event] == Masks(c) && n == (if c <= 16 then c else 16)
  }

  lemma {:induction false} MasksChain(t: Table, event: nat, c: nat, n: nat, mask: nat, i: nat)
    requires Enumerated(t, event, c, n) && mask < Pow2(t.layout.maskBits)
    requires i < |MasksFrom(event, mask, n)|
    ensures InRange(t, MasksFrom(event, mask, n)[i])
    ensures PairFollowsAt(t, EnumUmaskCombos, MasksFrom(event, mask, n), i)
  {
    Pow2MonoLe(n, t.layout.maskBits);
    assert CappedMasks(t, event) == n;
  }

  /** From any code, enumerating combinations goes through every greater mask below 2^n once, in
      order, and then stops; from the base code of the event that is all of them. */
  lemma {:induction false} EnumeratesCombos(t: Table, event: nat, c: nat, n: nat, mask: nat, codes: seq<nat>)
    requires Enumerated(t, event, c, n) && mask < Pow2(t.layout.maskBits)
    ensures IsRun(t, EnumUmaskCombos, codes) && IsCodeOf(t, (event, mask), codes[0]) <==>
            AreCodes(t, MasksFrom(event, mask, n), codes)
    ensures AreCodes(t, MasksFrom(event, mask, n), codes) ==> Different(codes)
  {
    var ps := MasksFrom(event, mask, n);
    forall i: nat | i < |ps| ensures InRange(t, ps[i]) && PairFollowsAt(t, EnumUmaskCombos, ps, i) {
      MasksChain(t, event, c, n, mask, i);
    }
    RunShows(t, EnumUmaskCombos, ps, codes);
  }

  lemma {:induction false} BitInRange(k: nat, n: nat)
    ensures And(Pow2(k), Ones(n)) != 0 <==> k < n
  {
    var a := And(Pow2(k), Ones(n));
    forall m: nat ensures Bit(a, m) <==> m == k && k < n {
      BitAnd(Pow2(k), Ones(n), m);
      BitPow2(k, m);
      BitOnes(n, m);
    }
    if k < n {
      assert Bit(a, k);
      if a == 0 { ZeroBit(k); }
    } else if a > 0 {
      FfsLeast(a);
    }
  }

  lemma {:induction false} AfterMask(t: Table, event: nat, c: nat, n: nat, mask: nat)
    requires Enumerated(t, event, c, n)
    ensures NextPair(t, Event(event, mask), EnumUmasks) ==
            if Ffs(mask) < n then Go(event, Pow2(Ffs(mask))) else Halt(PAPI_ENOEVNT)
  {
    BitInRange(Ffs(mask), n);
  }

  lemma {:induction false} SinglesChain(t: Table, event: nat, c: nat, n: nat, mask: nat, i: nat)
    requires Enumerated(t, event, c, n) && mask < Pow2(t.layout.maskBits)
    requires i < |SinglesFrom(event, mask, n)|
    ensures InRange(t, SinglesFrom(event, mask, n)[i])
    ensures PairFollowsAt(t, EnumUmasks, SinglesFrom(event, mask, n), i)
  {
    var k := Ffs(mask) + i;
    if i > 0 {
      Pow2Mono(k - 1, t.layout.maskBits);
      FfsPow2(k - 1);
    }
    AfterMask(t, event, c, n, SinglesFrom(event, mask, n)[i].1);
  }

  lemma {:induction false} SinglesDiffer(event: nat, mask: nat, n: nat)
    ensures Different(SinglesFrom(event, mask, n))
  {
    var ps := SinglesFrom(event, mask, n);
    forall i: nat, j: nat | i < j < |ps| ensures ps[i] != ps[j] {
      var k := Ffs(mask) + j - 1;
      FfsPow2(k);
      if i > 0 { Pow2Mono(Ffs(mask) + i - 1, k); }
    }
  }

  /** From any code, enumerating single masks goes through exactly the single-bit masks below 2^n
      above the least bit of the code's mask, in order, and then stops; from the base code that is
      all n of them. */
  lemma {:induction false} EnumeratesUmasks(t: Table, event: nat, c: nat, n: nat, mask: nat, codes: seq<nat>)
    requires Enumerated(t, event, c, n) && mask < Pow2(t.layout.maskBits)
    ensures IsRun(t, EnumUmasks, codes) && IsCodeOf(t, (event, mask), codes[0]) <==>
            AreCodes(t, SinglesFrom(event, mask, n), codes)
    ensures AreCodes(t, SinglesFrom(event, mask, n), codes) ==> Different(codes)
  {
    var ps := SinglesFrom(event, mask, n);
    forall i: nat | i < |ps| ensures InRange(t, ps[i]) && PairFollowsAt(t, EnumUmasks, ps, i) {
      SinglesChain(t, event, c, n, mask, i);
    }
    SinglesDiffer(event, mask, n);
    RunShows(t, EnumUmasks, ps, codes);
  }

  /** No code is shown whose mask has an index from 16 on, whatever the event has. */
  lemma {:induction false} IndexesBelowSixteen(t: Table, event: nat, c: nat, n: nat)
    requires Enumerated(t, event, c, n)
    ensures forall i :: 0 <= i < |MasksFrom(event, 0, n)| ==> MasksFrom(event, 0, n)[i].1 < Pow2(16)
    ensures forall i :: 0 <= i < |SinglesFrom(event, 0, n)| ==> SinglesFrom(event, 0, n)[i].1 < Pow2(16)
  {
    Pow2MonoLe(n, 16);
    forall i | 0 < i < |SinglesFrom(event, 0, n)| ensures SinglesFrom(event, 0, n)[i].1 < Pow2(16) {
      Pow2Mono(i - 1, 16);
    }
    Pow2MonoLe(0, 16);
  }

  /** What else may come back: an event number the table does not have, or one whose masks are not
      known, is PAPI_ENOEVNT for every modifier but the first, and for a known one any other
      modifier is PAPI_EINVAL. */
  lemma {:induction false} NothingFollows(t: Table, code: nat, modifier: Modifier)
    requires modifier != EnumFirst
    ensures EventField(t.layout, code) >= |t.counts| || t.counts[EventField(t.layout, code)] == Unknown ==>
      Following(t, code, modifier) == Stop(PAPI_ENOEVNT)
    ensures Following(t, code, modifier) == Stop(PAPI_EINVAL) <==>
      && EventField(t.layout, code) < |t.counts| && t.counts[EventField(t.layout, code)].Masks?
      && modifier == OtherModifier
  {}
}
