/** Machine words as natural numbers, with the bit operators of C defined digit by digit.

    A word of width n is a number below Pow2(n); two's complement values are mapped
    to words by ToWord.  Bit positions count from the least significant bit. */
module Words {

  function Pow2(k: nat): (p: nat)
    ensures p > 0
  {
    if k == 0 then 1 else 2 * Pow2(k - 1)
  }

  predicate Bit(w: nat, k: nat) {
    if k == 0 then w % 2 == 1 else Bit(w / 2, k - 1)
  }

  function And(a: nat, b: nat): nat
    decreases a + b
  {
    if a == 0 && b == 0 then 0
    else (if a % 2 == 1 && b % 2 == 1 then 1 else 0) + 2 * And(a / 2, b / 2)
  }

  function Or(a: nat, b: nat): nat
    decreases a + b
  {
    if a == 0 && b == 0 then 0
    else (if a % 2 == 1 || b % 2 == 1 then 1 else 0) + 2 * Or(a / 2, b / 2)
  }

  function Xor(a: nat, b: nat): nat
    decreases a + b
  {
    if a == 0 && b == 0 then 0 else (a + b) % 2 + 2 * Xor(a / 2, b / 2)
  }

  /** The C library's ffs: one plus the position of the least significant set bit, or 0. */
  function Ffs(w: nat): nat {
    if w == 0 then 0 else if w % 2 == 1 then 1 else 1 + Ffs(w / 2)
  }

  // ---------------------------------------------------------------- single bits

  lemma {:induction false} BitHalf(w: nat, k: nat)
    requires k > 0
    ensures Bit(w, k) <==> Bit(w / 2, k - 1)
  {}

  lemma {:induction false} DigitAndRest(lo: nat, rest: nat)
    requires lo < 2
    ensures (lo + 2 * rest) / 2 == rest && (lo + 2 * rest) % 2 == lo
  {}

  lemma {:induction false} AndHalves(a: nat, b: nat)
    ensures And(a, b) / 2 == And(a / 2, b / 2)
    ensures And(a, b) % 2 == 1 <==> a % 2 == 1 && b % 2 == 1
  {
    DigitAndRest(if a % 2 == 1 && b % 2 == 1 then 1 else 0, And(a / 2, b / 2));
  }

  lemma {:induction false} OrHalves(a: nat, b: nat)
    ensures Or(a, b) / 2 == Or(a / 2, b / 2)
    ensures Or(a, b) % 2 == 1 <==> a % 2 == 1 || b % 2 == 1
  {
    DigitAndRest(if a % 2 == 1 || b % 2 == 1 then 1 else 0, Or(a / 2, b / 2));
  }

  lemma {:induction false} SumDigit(a: nat, b: nat)
    ensures (a + b) % 2 == if a % 2 != b % 2 then 1 else 0
  {}

  lemma {:induction false} XorHalves(a: nat, b: nat)
    ensures Xor(a, b) / 2 == Xor(a / 2, b / 2)
    ensures Xor(a, b) % 2 == 1 <==> a % 2 != b % 2
  {
    SumDigit(a, b);
    DigitAndRest((a + b) % 2, Xor(a / 2, b / 2));
  }

  lemma {:induction false} BitAnd(a: nat, b: nat, k: nat)
    ensures Bit(And(a, b), k) <==> Bit(a, k) && Bit(b, k)
    decreases k
  {
    AndHalves(a, b);
    if k > 0 {
      BitHalf(And(a, b), k);
      BitAnd(a / 2, b / 2, k - 1);
    }
  }

  lemma {:induction false} BitOr(a: nat, b: nat, k: nat)
    ensures Bit(Or(a, b), k) <==> Bit(a, k) || Bit(b, k)
    decreases k
  {
    OrHalves(a, b);
    if k > 0 {
      BitHalf(Or(a, b), k);
      BitOr(a / 2, b / 2, k - 1);
    }
  }

  lemma {:induction false} BitXor(a: nat, b: nat, k: nat)
    ensures Bit(Xor(a, b), k) <==> Bit(a, k) != Bit(b, k)
    decreases k
  {
    XorHalves(a, b);
    if k > 0 {
      BitHalf(Xor(a, b), k);
      BitXor(a / 2, b / 2, k - 1);
    }
  }

  lemma {:induction false} BitPow2(k: nat, m: nat)
    ensures Bit(Pow2(k), m) <==> m == k
    decreases m
  {
    if m == 0 {
    } else if k == 0 {
      ZeroBit(m - 1);
    } else {
      BitPow2(k - 1, m - 1);
    }
  }

  lemma {:induction false} ZeroBit(k: nat)
    ensures !Bit(0, k)
    decreases k
  {
    if k > 0 { ZeroBit(k - 1); }
  }

  /** A number below Pow2(n) has no bit at n or above. */
  lemma {:induction false} BitBelow(w: nat, n: nat, k: nat)
    requires w < Pow2(n) && Bit(w, k)
    ensures k < n
    decreases n
  {
    if n == 0 {
      ZeroBit(k);
    } else if k > 0 {
      BitBelow(w / 2, n - 1, k - 1);
    }
  }

  /** Numbers with the same bits are equal. */
  lemma {:induction false} SameBits(a: nat, b: nat)
    requires forall k: nat :: Bit(a, k) <==> Bit(b, k)
    ensures a == b
    decreases a + b
  {
    if a == 0 && b == 0 {
    } else {
      assert Bit(a, 0) <==> Bit(b, 0);
      forall k: nat ensures Bit(a / 2, k) <==> Bit(b / 2, k) {
        assert Bit(a, k + 1) <==> Bit(b, k + 1);
      }
      SameBits(a / 2, b / 2);
    }
  }

  // ---------------------------------------------------------------- widths

  lemma {:induction false} OrBound(a: nat, b: nat, n: nat)
    requires a < Pow2(n) && b < Pow2(n)
    ensures Or(a, b) < Pow2(n)
    decreases n
  {
    if n > 0 { OrBound(a / 2, b / 2, n - 1); }
  }

  lemma {:induction false} XorBound(a: nat, b: nat, n: nat)
    requires a < Pow2(n) && b < Pow2(n)
    ensures Xor(a, b) < Pow2(n)
    decreases n
  {
    if n > 0 { XorBound(a / 2, b / 2, n - 1); }
  }

  lemma {:induction false} Pow2Mono(a: nat, b: nat)
    requires a < b
    ensures Pow2(a) < Pow2(b)
  {
    if a + 1 < b { Pow2Mono(a, b - 1); }
  }

  lemma {:induction false} Pow2Plus4(k: nat)
    ensures Pow2(k + 4) == 16 * Pow2(k)
  {
    assert Pow2(k + 2) == 4 * Pow2(k);
  }

  lemma {:induction false} Pow2At32()
    ensures Pow2(32) == 0x1_0000_0000
  {
    Pow2Plus4(0); Pow2Plus4(4); Pow2Plus4(8); Pow2Plus4(12);
    Pow2Plus4(16); Pow2Plus4(20); Pow2Plus4(24); Pow2Plus4(28);
  }

  /** One more than the largest 64-bit word. */
  const WORD64 := 0x1_0000_0000_0000_0000

  lemma {:induction false} Pow2At64()
    ensures Pow2(64) == WORD64
  {
    Pow2At32();
    Pow2Plus4(32); Pow2Plus4(36); Pow2Plus4(40); Pow2Plus4(44);
    Pow2Plus4(48); Pow2Plus4(52); Pow2Plus4(56); Pow2Plus4(60);
  }

  lemma {:induction false} Pow2Fits(k: nat)
    requires k < 64
    ensures Pow2(k) < WORD64
  {
    Pow2Mono(k, 64);
    Pow2At64();
  }

  // ---------------------------------------------------------------- fields

  /** Shl and Shr are C's shifts of an unsigned value (Shl before truncation); Low keeps the
      low n bits, which is truncation to an n-bit type; Ones is a mask of n ones. */
  function Shl(w: nat, s: nat): nat {
    if s == 0 then w else 2 * Shl(w, s - 1)
  }

  function Shr(w: nat, s: nat): nat {
    if s == 0 then w else Shr(w / 2, s - 1)
  }

  function Low(w: nat, n: nat): nat {
    if n == 0 then 0 else w % 2 + 2 * Low(w / 2, n - 1)
  }

  function Ones(n: nat): nat {
    if n == 0 then 0 else 1 + 2 * Ones(n - 1)
  }

  /** Bit k of a word shifted right by s is bit s + k of the word. */
  lemma {:induction false} BitShr(w: nat, s: nat, k: nat)
    ensures Bit(Shr(w, s), k) <==> Bit(w, s + k)
    decreases s
  {
    if s > 0 { BitShr(w / 2, s - 1, k); }
  }

  lemma {:induction false} BitShl(w: nat, s: nat, k: nat)
    ensures Bit(Shl(w, s), k) <==> k >= s && Bit(w, k - s)
    decreases s
  {
    if s > 0 && k > 0 { BitShl(w, s - 1, k - 1); }
  }

  lemma {:induction false} BitOnes(n: nat, k: nat)
    ensures Bit(Ones(n), k) <==> k < n
    decreases n
  {
    if n == 0 {
      ZeroBit(k);
    } else if k > 0 {
      BitOnes(n - 1, k - 1);
    }
  }

  lemma {:induction false} OnesIs(n: nat)
    ensures Ones(n) == Pow2(n) - 1
  {
    if n > 0 { OnesIs(n - 1); }
  }

  /** A word all of whose bits are below n is below Pow2(n). */
  lemma {:induction false} BelowByBits(w: nat, n: nat)
    requires forall k: nat :: Bit(w, k) ==> k < n
    ensures w < Pow2(n)
  {
    forall k: nat ensures Bit(w, k) <==> Bit(Low(w, n), k) { BitLow(w, n, k); }
    SameBits(w, Low(w, n));
    LowBound(w, n);
  }

  lemma {:induction false} BitLow(w: nat, n: nat, k: nat)
    ensures Bit(Low(w, n), k) <==> k < n && Bit(w, k)
    decreases n
  {
    if n == 0 {
      ZeroBit(k);
    } else if k > 0 {
      assert Low(w, n) / 2 == Low(w / 2, n - 1);
      BitLow(w / 2, n - 1, k - 1);
    }
  }

  lemma {:induction false} LowBound(w: nat, n: nat)
    ensures Low(w, n) < Pow2(n)
  {
    if n > 0 { LowBound(w / 2, n - 1); }
  }

  lemma {:induction false} ShlIsTimes(w: nat, s: nat)
    ensures Shl(w, s) == w * Pow2(s)
  {
    if s > 0 {
      ShlIsTimes(w, s - 1);
      TimesTwice(w, Pow2(s - 1));
    }
  }

  lemma {:induction false} TimesTwice(w: nat, p: nat)
    ensures 2 * (w * p) == w * (2 * p)
  {}

  /** A field put above position s leaves the low s bits free: the two do not mix. */
  lemma {:induction false} OrDisjoint(lo: nat, hi: nat, s: nat)
    requires lo < Pow2(s)
    ensures Or(lo, Shl(hi, s)) == lo + Shl(hi, s)
    decreases s
  {
    if s == 0 {
      OrZero(hi);
    } else {
      OrDisjoint(lo / 2, hi, s - 1);
    }
  }

  lemma {:induction false} OrZero(a: nat)
    ensures Or(0, a) == a && Or(a, 0) == a
  {
    if a > 0 { OrZero(a / 2); }
  }

  /** Taking a word apart at position s. */
  lemma {:induction false} SplitField(lo: nat, hi: nat, s: nat)
    requires lo < Pow2(s)
    ensures Shr(lo + Shl(hi, s), s) == hi
    ensures Low(lo + Shl(hi, s), s) == lo
    decreases s
  {
    if s > 0 {
      var w := lo + Shl(hi, s);
      assert w / 2 == lo / 2 + Shl(hi, s - 1) && w % 2 == lo % 2;
      SplitField(lo / 2, hi, s - 1);
    }
  }

  /** Masking with n ones at position s and shifting down by s extracts that field. */
  lemma {:induction false} AndField(w: nat, n: nat, s: nat)
    ensures Shr(And(w, Shl(Ones(n), s)), s) == Low(Shr(w, s), n)
    decreases s
  {
    if s == 0 {
      AndOnes(w, n);
    } else {
      AndField(w / 2, n, s - 1);
      assert And(w, Shl(Ones(n), s)) / 2 == And(w / 2, Shl(Ones(n), s - 1));
    }
  }

  lemma {:induction false} AndOnes(w: nat, n: nat)
    ensures And(w, Ones(n)) == Low(w, n)
    decreases n
  {
    if n == 0 {
      AndZero(w);
    } else {
      AndOnes(w / 2, n - 1);
    }
  }

  lemma {:induction false} AndZero(a: nat)
    ensures And(a, 0) == 0
  {
    if a > 0 { AndZero(a / 2); }
  }

  /** Two words that agree above position s differ only below it. */
  lemma {:induction false} XorHigh(h: nat, lo: nat, s: nat)
    requires lo < Pow2(s)
    ensures Xor(Shl(h, s), Shl(h, s) + lo) == lo
    decreases s
  {
    if s == 0 {
      XorSelf(h);
    } else {
      XorHigh(h, lo / 2, s - 1);
    }
  }

  lemma {:induction false} XorSelf(a: nat)
    ensures Xor(a, a) == 0
  {
    if a > 0 { XorSelf(a / 2); }
  }

  // ---------------------------------------------------------------- first set bit

  /** Ffs finds the least set bit. */
  lemma {:induction false} FfsLeast(w: nat)
    requires w > 0
    ensures Ffs(w) > 0 && Bit(w, Ffs(w) - 1)
    ensures forall k: nat :: k < Ffs(w) - 1 ==> !Bit(w, k)
  {
    if w % 2 == 0 {
      FfsLeast(w / 2);
      forall k: nat | k < Ffs(w) - 1 ensures !Bit(w, k) {
        if k > 0 { assert !Bit(w / 2, k - 1); }
      }
    }
  }

  /** Clearing the least set bit with an exclusive or makes the word smaller. */
  lemma {:induction false} ClearLeast(w: nat)
    requires w > 0
    ensures Ffs(w) > 0 && Xor(w, Pow2(Ffs(w) - 1)) < w
  {
    if w % 2 == 1 {
      XorOne(w);
    } else {
      ClearLeast(w / 2);
    }
  }

  lemma {:induction false} XorOne(w: nat)
    requires w % 2 == 1
    ensures Xor(w, 1) == w - 1
  {
    XorZero(w / 2);
  }

  lemma {:induction false} XorZero(a: nat)
    ensures Xor(a, 0) == a && Xor(0, a) == a
  {
    if a > 0 { XorZero(a / 2); }
  }

  lemma {:induction false} FfsPow2(k: nat)
    ensures Ffs(Pow2(k)) == k + 1
  {
    if k > 0 { FfsPow2(k - 1); }
  }
}
