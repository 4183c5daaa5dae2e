/** The repository's own ffsll (src/extras.c), built from ffs on the two halves of a long long. */
module FirstSet {
  import opened Words

  type longlong = x: int | -0x8000_0000_0000_0000 <= x < 0x8000_0000_0000_0000

  /** The bit pattern of a long long. */
  function ToWord(x: longlong): (w: nat)
    ensures w < 0x1_0000_0000_0000_0000
  {
    if x < 0 then x + 0x1_0000_0000_0000_0000 else x
  }

  /** The long long with a given bit pattern. */
  function FromWord(w: nat): (x: longlong)
    requires w < 0x1_0000_0000_0000_0000
    ensures ToWord(x) == w
  {
    if w < 0x8000_0000_0000_0000 then w else w - 0x1_0000_0000_0000_0000
  }

  /** Arithmetic right shift by 32, then left shift by 32: the value without its low half. */
  function HighPart(x: longlong): longlong {
    x / 0x1_0000_0000 * 0x1_0000_0000
  }

  lemma {:induction false} FfsSplit(lo: nat, hi: nat, s: nat)
    requires lo < Pow2(s)
    ensures Ffs(lo + Shl(hi, s)) ==
            if lo != 0 then Ffs(lo) else if hi == 0 then 0 else s + Ffs(hi)
    decreases s
  {
    if s > 0 {
      var w := lo + Shl(hi, s);
      assert w / 2 == lo / 2 + Shl(hi, s - 1) && w % 2 == lo % 2;
      FfsSplit(lo / 2, hi, s - 1);
    }
  }

  lemma {:induction false} ShlIs32(w: nat)
    ensures Shl(w, 32) == w * 0x1_0000_0000
  {
    Pow2At32();
    ShlIsTimes(w, 32);
  }

  lemma {:induction false} Halves(x: longlong)
    ensures ToWord(x) % 0x1_0000_0000 == x % 0x1_0000_0000
    ensures ToWord(x) / 0x1_0000_0000 ==
            x / 0x1_0000_0000 + if x < 0 then 0x1_0000_0000 else 0
  {}

  lemma {:induction false} HighHalf(x: longlong)
    ensures ToWord(HighPart(x)) == ToWord(x) / 0x1_0000_0000 * 0x1_0000_0000
  {
    Halves(x);
    Halves(HighPart(x));
  }

  /** The exclusive or in the loop leaves exactly the low half. */
  lemma {:induction false} LowHalfOf(x: longlong)
    ensures Xor(ToWord(HighPart(x)), ToWord(x)) == ToWord(x) % 0x1_0000_0000
  {
    var h, lo := ToWord(x) / 0x1_0000_0000, ToWord(x) % 0x1_0000_0000;
    HighHalf(x);
    ShlIs32(h);
    Pow2At32();
    XorHigh(h, lo, 32);
  }

  /** Shifting right arithmetically brings the high half down, whatever the sign. */
  lemma {:induction false} ShiftedHalf(x: longlong)
    ensures ToWord(x / 0x1_0000_0000) % 0x1_0000_0000 == ToWord(x) / 0x1_0000_0000
  {
    Halves(x);
    Halves(x / 0x1_0000_0000);
  }

  lemma {:induction false} FfsOfHalves(x: longlong)
    ensures var lo, hi := ToWord(x) % 0x1_0000_0000, ToWord(x) / 0x1_0000_0000;
      Ffs(ToWord(x)) == if lo != 0 then Ffs(lo) else if hi == 0 then 0 else 32 + Ffs(hi)
  {
    var lo, hi := ToWord(x) % 0x1_0000_0000, ToWord(x) / 0x1_0000_0000;
    ShlIs32(hi);
    Pow2At32();
    FfsSplit(lo, hi, 32);
  }

  lemma {:induction false} FfsPositive(w: nat)
    ensures Ffs(w) == 0 <==> w == 0
  {
    if w > 0 && w % 2 == 0 { FfsPositive(w / 2); }
  }

  /** The loop body: ffs of the low half, cut out with shifts and an exclusive or. */
  method FfsLow(lli: longlong) returns (t: int)
    ensures t == Ffs(ToWord(lli) % 0x1_0000_0000)
    ensures t == 0 <==> ToWord(lli) % 0x1_0000_0000 == 0
  {
    LowHalfOf(lli);
    var tmpint := Xor(ToWord(HighPart(lli)), ToWord(lli)) % 0x1_0000_0000;
    FfsPositive(tmpint);
    t := Ffs(tmpint);
  }

  /** One plus the position of the least significant set bit, or 0; negative values included. */
  method Ffsll(x: longlong) returns (r: int)
    ensures r == Ffs(ToWord(x))
  {
    ghost var lo, hi := ToWord(x) % 0x1_0000_0000, ToWord(x) / 0x1_0000_0000;
    FfsOfHalves(x);
    ShiftedHalf(x);
    var lli: longlong := x;
    var i := 0;
    while i < 2
      invariant 0 <= i <= 2
      invariant i == 0 ==> lli == x
      invariant i > 0 ==> lo == 0
      invariant i == 1 ==> lli == x / 0x1_0000_0000
      invariant i == 2 ==> hi == 0
    {
      var t := FfsLow(lli);
      if t != 0 {
        return t + i * 32;
      }
      lli := lli / 0x1_0000_0000;
      i := i + 1;
    }
    return 0;
  }
}
