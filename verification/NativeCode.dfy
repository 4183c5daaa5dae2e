/** Native event codes (src/papi_libpfm3_events.c): an event number and a unit mask packed into
    one word, taken apart again, and enumerated. */
module NativeCode {
  import opened Words

  const PAPI_NATIVE_MASK: nat := 0x4000_0000
  const PAPI_NATIVE_AND_MASK: nat := 0xBFFF_FFFF
  const PAPI_NATIVE_UMASK_MAX: nat := 16

  /** The three variables that describe the fields, the width of the mask field they imply, and
      the two constants for the native flag. */
  datatype Layout = Layout(eventAndMask: nat, umaskAndMask: nat, umaskShift: nat, maskBits: nat,
                           nativeMask: nat, nativeAndMask: nat)

  const DEFAULT_LAYOUT := Layout(0x0000_03ff, 0x03ff_fc00, 10, 16, PAPI_NATIVE_MASK, PAPI_NATIVE_AND_MASK)
  const PENTIUM4_LAYOUT := Layout(0x0000_00ff, 0x0fff_ff00, 8, 20, PAPI_NATIVE_MASK, PAPI_NATIVE_AND_MASK)
  const ITANIUM2_LAYOUT := Layout(0x0000_0fff, 0x0fff_f000, 12, 16, PAPI_NATIVE_MASK, PAPI_NATIVE_AND_MASK)

  /** The event field is the low umaskShift bits, the mask field the maskBits above it, and
      both stay below the native flag at bit 30. */
  ghost predicate ValidLayout(l: Layout) {
    && l.eventAndMask == Ones(l.umaskShift)
    && l.umaskAndMask == Shl(Ones(l.maskBits), l.umaskShift)
    && l.umaskShift + l.maskBits <= 30
    && l.nativeMask == PAPI_NATIVE_MASK && l.nativeAndMask == PAPI_NATIVE_AND_MASK
  }

  lemma {:induction false} LayoutsAreValid()
    ensures ValidLayout(DEFAULT_LAYOUT) && ValidLayout(PENTIUM4_LAYOUT) && ValidLayout(ITANIUM2_LAYOUT)
  {}

  // ---------------------------------------------------------------- encode and decode

  /** C's unsigned 32-bit left shift. */
  function Shl32(w: nat, s: nat): nat {
    Low(Shl(w, s), 32)
  }

  function EncodeRaw(l: Layout, event: nat, mask: nat): nat {
    Or(Or(event, Shl32(mask, l.umaskShift)), l.nativeMask)
  }

  datatype Decoded = NoEvent | Event(event: nat, umask: nat)

  function Decode(l: Layout, numEvents: nat, code: nat): Decoded {
    var tevent := And(code, l.nativeAndMask);
    if EventField(l, code) >= numEvents then NoEvent
    else Event(EventField(l, code), Shr(And(tevent, l.umaskAndMask), l.umaskShift))
  }

  lemma {:induction false} FlagIsBit30()
    ensures PAPI_NATIVE_MASK == Pow2(30)
  {
    Pow2At32();
  }

  lemma {:induction false} FlagMaskKeepsLow()
    ensures Low(PAPI_NATIVE_AND_MASK, 30) == Ones(30)
  {
    FlagIsBit30();
    OnesIs(30);
    ShlIsTimes(2, 30);
    SplitField(Ones(30), 2, 30);
  }

  lemma {:induction false} FlagMaskBits(k: nat)
    requires k < 30
    ensures Bit(PAPI_NATIVE_AND_MASK, k)
  {
    FlagMaskKeepsLow();
    BitLow(PAPI_NATIVE_AND_MASK, 30, k);
    BitOnes(30, k);
  }

  lemma {:induction false} BitOfFlags(l: Layout, k: nat)
    requires ValidLayout(l)
    ensures Bit(l.nativeMask, k) <==> k == 30
    ensures k < 30 ==> Bit(l.nativeAndMask, k)
  {
    FlagIsBit30();
    BitPow2(30, k);
    if k < 30 { FlagMaskBits(k); }
  }

  /** Extracting an n-bit field at position s, both below the native flag. */
  lemma {:induction false} FieldOf(l: Layout, code: nat, n: nat, s: nat, k: nat)
    requires ValidLayout(l) && n + s <= 30
    ensures Bit(Shr(And(And(code, l.nativeAndMask), Shl(Ones(n), s)), s), k) <==> k < n && Bit(code, s + k)
  {
    var tevent := And(code, l.nativeAndMask);
    AndField(tevent, n, s);
    BitLow(Shr(tevent, s), n, k);
    BitShr(tevent, s, k);
    BitAnd(code, l.nativeAndMask, s + k);
    if k < n { BitOfFlags(l, s + k); }
  }

  /** The event field of a code. */
  function EventField(l: Layout, code: nat): nat {
    And(And(code, l.nativeAndMask), l.eventAndMask)
  }

  /** What the two fields of a code are, bit by bit. */
  lemma {:induction false} DecodedBits(l: Layout, code: nat, k: nat)
    requires ValidLayout(l)
    ensures var d := Decode(l, EventField(l, code) + 1, code);
      && (Bit(EventField(l, code), k) <==> k < l.umaskShift && Bit(code, k))
      && d == Event(EventField(l, code), d.umask)
      && (Bit(d.umask, k) <==> k < l.maskBits && Bit(code, l.umaskShift + k))
  {
    FieldOf(l, code, l.umaskShift, 0, k);
    FieldOf(l, code, l.maskBits, l.umaskShift, k);
  }

  lemma {:induction false} EncodedBit(l: Layout, event: nat, mask: nat, k: nat)
    requires ValidLayout(l)
    ensures Bit(EncodeRaw(l, event, mask), k) <==>
            || Bit(event, k) || k == 30
            || (k < 32 && k >= l.umaskShift && Bit(mask, k - l.umaskShift))
  {
    var s := l.umaskShift;
    BitOr(Or(event, Shl32(mask, s)), l.nativeMask, k);
    BitOr(event, Shl32(mask, s), k);
    BitLow(Shl(mask, s), 32, k);
    BitShl(mask, s, k);
    BitOfFlags(l, k);
  }

  /** The fields of an encoded pair that fits are the pair. */
  lemma {:induction false} FieldsComeBack(l: Layout, event: nat, mask: nat)
    requires ValidLayout(l) && event < Pow2(l.umaskShift) && mask < Pow2(l.maskBits)
    ensures var code := EncodeRaw(l, event, mask);
      EventField(l, code) == event && Decode(l, event + 1, code) == Event(event, mask)
  {
    var code := EncodeRaw(l, event, mask);
    forall k: nat ensures Bit(EventField(l, code), k) <==> Bit(event, k) {
      DecodedBits(l, code, k);
      EncodedBit(l, event, mask, k);
      if Bit(event, k) { BitBelow(event, l.umaskShift, k); }
    }
    SameBits(EventField(l, code), event);
    var umask := Decode(l, event + 1, code).umask;
    forall k: nat ensures Bit(umask, k) <==> Bit(mask, k) {
      DecodedBits(l, code, k);
      EncodedBit(l, event, mask, l.umaskShift + k);
      if Bit(mask, k) { BitBelow(mask, l.maskBits, k); }
      if Bit(event, l.umaskShift + k) { BitBelow(event, l.umaskShift, l.umaskShift + k); }
    }
    SameBits(umask, mask);
  }

  /** Both decoded fields are as wide as the layout says, whatever the code. */
  lemma {:induction false} DecodedFits(l: Layout, code: nat)
    requires ValidLayout(l)
    ensures EventField(l, code) < Pow2(l.umaskShift)
    ensures Decode(l, EventField(l, code) + 1, code).umask < Pow2(l.maskBits)
  {
    var umask := Decode(l, EventField(l, code) + 1, code).umask;
    forall k: nat
      ensures Bit(EventField(l, code), k) ==> k < l.umaskShift
      ensures Bit(umask, k) ==> k < l.maskBits
    {
      DecodedBits(l, code, k);
    }
    BelowByBits(EventField(l, code), l.umaskShift);
    BelowByBits(umask, l.maskBits);
  }

  /** Decoding an encoded event gives it back exactly when it exists and both parts fit. */
  lemma {:induction false} RoundTrip(l: Layout, numEvents: nat, event: nat, mask: nat)
    requires ValidLayout(l)
    ensures Decode(l, numEvents, EncodeRaw(l, event, mask)) == Event(event, mask) <==>
            event < numEvents && event < Pow2(l.umaskShift) && mask < Pow2(l.maskBits)
  {
    DecodedFits(l, EncodeRaw(l, event, mask));
    if event < Pow2(l.umaskShift) && mask < Pow2(l.maskBits) {
      FieldsComeBack(l, event, mask);
    }
  }

  /** Different events or masks have different codes. */
  lemma {:induction false} EncodeInjective(l: Layout, e: nat, m: nat, e': nat, m': nat)
    requires ValidLayout(l) && e < Pow2(l.umaskShift) && m < Pow2(l.maskBits)
    requires e' < Pow2(l.umaskShift) && m' < Pow2(l.maskBits)
    requires EncodeRaw(l, e, m) == EncodeRaw(l, e', m')
    ensures e == e' && m == m'
  {
    FieldsComeBack(l, e, m);
    FieldsComeBack(l, e', m');
  }

  // ---------------------------------------------------------------- lists of mask indexes

  /** The mask with the listed bits. */
  function MaskOf(values: seq<nat>): nat {
    if values == [] then 0 else Or(MaskOf(values[..|values| - 1]), Pow2(values[|values| - 1]))
  }

  lemma {:induction false} MaskBits(values: seq<nat>, k: nat)
    ensures Bit(MaskOf(values), k) <==> k in values
  {
    if values == [] {
      ZeroBit(k);
    } else {
      var n := |values| - 1;
      assert values == values[..n] + [values[n]];
      MaskBits(values[..n], k);
      BitOr(MaskOf(values[..n]), Pow2(values[n]), k);
      BitPow2(values[n], k);
    }
  }

  lemma {:induction false} MaskFits(values: seq<nat>, n: nat)
    ensures MaskOf(values) < Pow2(n) <==> forall v :: v in values ==> v < n
  {
    forall k: nat ensures Bit(MaskOf(values), k) <==> k in values { MaskBits(values, k); }
    if forall v :: v in values ==> v < n {
      BelowByBits(MaskOf(values), n);
    } else {
      var v :| v in values && v >= n;
      if MaskOf(values) < Pow2(n) { BitBelow(MaskOf(values), n, v); }
    }
  }

  /** One more index sets one more bit of the code. */
  lemma {:induction false} EncodeOneMore(l: Layout, event: nat, mask: nat, v: nat)
    ensures Or(Or(event, Shl32(mask, l.umaskShift)), Shl32(Pow2(v), l.umaskShift)) ==
            Or(event, Shl32(Or(mask, Pow2(v)), l.umaskShift))
  {
    var s := l.umaskShift;
    var a, b := Or(Or(event, Shl32(mask, s)), Shl32(Pow2(v), s)), Or(event, Shl32(Or(mask, Pow2(v)), s));
    forall k: nat ensures Bit(a, k) <==> Bit(b, k) {
      BitOr(Or(event, Shl32(mask, s)), Shl32(Pow2(v), s), k);
      BitOr(event, Shl32(mask, s), k);
      BitOr(event, Shl32(Or(mask, Pow2(v)), s), k);
      BitLow(Shl(mask, s), 32, k); BitLow(Shl(Pow2(v), s), 32, k); BitLow(Shl(Or(mask, Pow2(v)), s), 32, k);
      BitShl(mask, s, k); BitShl(Pow2(v), s, k); BitShl(Or(mask, Pow2(v)), s, k);
      if k >= s { BitOr(mask, Pow2(v), k - s); }
    }
    SameBits(a, b);
  }

  lemma {:induction false} ShlOfZero(s: nat)
    ensures Shl32(0, s) == 0
  {
    forall k: nat ensures Bit(Shl32(0, s), k) <==> Bit(0, k) {
      BitLow(Shl(0, s), 32, k);
      BitShl(0, s, k);
      ZeroBit(k);
      if k >= s { ZeroBit(k - s); }
    }
    SameBits(Shl32(0, s), 0);
  }

  /** encode_native_event: the loop over mask indexes gives the code of the mask with those bits. */
  method EncodeNativeEvent(l: Layout, event: nat, maskValues: seq<nat>) returns (code: nat)
    requires forall i :: 0 <= i < |maskValues| ==> maskValues[i] < 32
    ensures code == EncodeRaw(l, event, MaskOf(maskValues))
  {
    var tmp := event;
    ShlOfZero(l.umaskShift);
    OrZero(event);
    for i := 0 to |maskValues|
      invariant tmp == Or(event, Shl32(MaskOf(maskValues[..i]), l.umaskShift))
    {
      assert maskValues[..i + 1][..i] == maskValues[..i];
      EncodeOneMore(l, event, MaskOf(maskValues[..i]), maskValues[i]);
      tmp := Or(tmp, Shl32(Pow2(maskValues[i]), l.umaskShift));
    }
    assert maskValues[..|maskValues|] == maskValues;
    return Or(tmp, l.nativeMask);
  }

  /** The bit numbers of a mask, in the order prepare_umask finds them. */
  function Prepared(mask: nat): seq<nat> {
    if mask == 0 then [] else
      ClearLeast(mask);
      [Ffs(mask) - 1] + Prepared(Xor(mask, Pow2(Ffs(mask) - 1)))
  }

  ghost predicate Ascending(s: seq<nat>) {
    forall i, j :: 0 <= i < j < |s| ==> s[i] < s[j]
  }

  lemma {:induction false} PreparedIs(mask: nat)
    ensures Ascending(Prepared(mask))
    ensures forall k: nat :: k in Prepared(mask) <==> Bit(mask, k)
    decreases mask
  {
    if mask == 0 {
      forall k: nat ensures !Bit(mask, k) { ZeroBit(k); }
    } else {
      ClearLeast(mask);
      FfsLeast(mask);
      var b := Ffs(mask) - 1;
      var rest := Xor(mask, Pow2(b));
      PreparedIs(rest);
      forall k: nat ensures Bit(rest, k) <==> Bit(mask, k) && k != b {
        BitXor(mask, Pow2(b), k);
        BitPow2(b, k);
      }
      forall j | 0 <= j < |Prepared(rest)| ensures b < Prepared(rest)[j] {
        assert Prepared(rest)[j] in Prepared(rest);
      }
    }
  }

  /** prepare_umask: writes the indexes of the set bits and returns how many there are. */
  method PrepareUmask(foo: nat, values: array<nat>) returns (j: nat)
    requires |Prepared(foo)| <= values.Length
    modifies values
    ensures j == |Prepared(foo)| && values[..j] == Prepared(foo)
    ensures values[j..] == old(values[|Prepared(foo)|..])
  {
    ghost var was, all := values[..], Prepared(foo);
    var tmp: nat := foo;
    j := 0;
    while tmp != 0
      invariant j <= |all| && all == values[..j] + Prepared(tmp)
      invariant values[j..] == was[j..]
      decreases tmp
    {
      ClearLeast(tmp);
      var i := Ffs(tmp);
      ghost var rest := Prepared(Xor(tmp, Pow2(i - 1)));
      assert all == values[..j] + [i - 1] + rest;
      tmp := Xor(tmp, Pow2(i - 1));
      values[j] := i - 1;
      j := j + 1;
      assert all == values[..j] + rest;
    }
  }

  /** Encoding a list of mask indexes, decoding it, and listing the bits of the mask gives the
      same indexes in ascending order without duplicates, exactly when all of them fit. */
  lemma {:induction false} ListRoundTrip(l: Layout, numEvents: nat, event: nat, values: seq<nat>)
    requires ValidLayout(l) && event < numEvents && event < Pow2(l.umaskShift)
    ensures var d := Decode(l, numEvents, EncodeRaw(l, event, MaskOf(values)));
      (d.Event? && d.event == event && Ascending(Prepared(d.umask))
       && forall k: nat :: k in Prepared(d.umask) <==> k in values)
      <==> forall v :: v in values ==> v < l.maskBits
  {
    var code := EncodeRaw(l, event, MaskOf(values));
    var d := Decode(l, numEvents, code);
    MaskFits(values, l.maskBits);
    RoundTrip(l, numEvents, event, MaskOf(values));
    DecodedFits(l, code);
    forall k: nat ensures Bit(MaskOf(values), k) <==> k in values { MaskBits(values, k); }
    if d.Event? {
      PreparedIs(d.umask);
      forall k: nat ensures Bit(d.umask, k) ==> k < l.maskBits { DecodedBits(l, code, k); }
    }
  }

  /** The test made on mask indexes before they are encoded. */
  predicate Admitted(values: seq<nat>) {
    |values| <= PAPI_NATIVE_UMASK_MAX && forall i :: 0 <= i < |values| ==> values[i] <= PAPI_NATIVE_UMASK_MAX
  }

  /** It lets index 16 through, which the default layout has no room for: the index is lost. */
  lemma {:induction false} IndexSixteenIsLost()
    ensures Admitted([PAPI_NATIVE_UMASK_MAX])
    ensures Decode(DEFAULT_LAYOUT, 1, EncodeRaw(DEFAULT_LAYOUT, 0, MaskOf([PAPI_NATIVE_UMASK_MAX]))) !=
            Event(0, MaskOf([PAPI_NATIVE_UMASK_MAX]))
  {
    LayoutsAreValid();
    RoundTrip(DEFAULT_LAYOUT, 1, 0, MaskOf([PAPI_NATIVE_UMASK_MAX]));
    MaskFits([PAPI_NATIVE_UMASK_MAX], 16);
    assert PAPI_NATIVE_UMASK_MAX in [PAPI_NATIVE_UMASK_MAX];
  }
}
