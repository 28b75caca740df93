/** The word-level instructions SAR, SIGNEXTEND and BYTE compute their mathematical meaning. */
module WordLaws {
  import opened Words
  import opened Analysis
  import opened Arithmetic

  // ---------- powers of two ----------

  lemma {:induction false} Pow2Add(m: nat, n: nat)
    ensures Pow2(m + n) == Pow2(m) * Pow2(n)
  {
    if m > 0 {
      Pow2Add(m - 1, n);
      assert Pow2(m + n) == 2 * (Pow2(m - 1) * Pow2(n));
      assert 2 * (Pow2(m - 1) * Pow2(n)) == (2 * Pow2(m - 1)) * Pow2(n);
    }
  }

  lemma {:induction false} Pow2Monotone(m: nat, n: nat)
    requires m <= n
    ensures Pow2(m) <= Pow2(n)
  {
    if m < n {
      Pow2Monotone(m, n - 1);
    }
  }

  lemma Pow2Word()
    ensures Pow2(256) == WORD_MODULUS && Pow2(255) == SIGN_BIT
  {
    Pow2Bytes(32);
    Power256();
  }

  lemma {:induction false} ShiftDownDivides(x: Word, n: nat)
    ensures ShiftDown(x, n) == x / Pow2(n)
  {
    if n > 0 {
      ShiftDownDivides(x / 2, n - 1);
      DivideTwice(x, 2, Pow2(n - 1));
    }
  }

  // ---------- masks ----------

  /** Masking with 2^n - 1 keeps the low n bits. */
  lemma {:induction false} BitAndLowMask(x: nat, n: nat)
    ensures BitAnd(x, Pow2(n) - 1) == x % Pow2(n)
    decreases n
  {
    hide Pow2, BitAnd;
    if n == 0 {
      EmptyMask(x);
    } else {
      Pow2Double(n - 1);
      BitAndLowMask(x / 2, n - 1);
      BitAndStep(x, Pow2(n - 1));
      RemainderHalves(x, Pow2(n - 1));
    }
  }

  lemma EmptyMask(x: nat)
    ensures Pow2(0) == 1 && BitAnd(x, 0) == 0 && x % 1 == 0
  {
  }

  lemma Pow2Double(n: nat)
    ensures Pow2(n + 1) == 2 * Pow2(n)
  {
  }

  lemma RemainderHalves(x: nat, p: nat)
    requires p > 0
    ensures x % (2 * p) == x % 2 + 2 * (x / 2 % p)
  {
    DivideTwice(x, 2, p);
  }

  lemma BitAndStep(x: nat, m: nat)
    requires m > 0
    ensures BitAnd(x, 2 * m - 1) == x % 2 + 2 * BitAnd(x / 2, m - 1)
  {
    var y := 2 * m - 1;
    assert y % 2 == 1 && y / 2 == m - 1;
  }

  /** A single-bit mask tests that bit. */
  lemma {:induction false} BitAndSingleBit(x: nat, n: nat)
    ensures BitAnd(x, Pow2(n)) == if x / Pow2(n) % 2 == 1 then Pow2(n) else 0
    decreases n
  {
    hide Pow2, BitAnd;
    if n == 0 {
      LowestBit(x);
    } else {
      Pow2Double(n - 1);
      BitAndSingleBit(x / 2, n - 1);
      BitAndEven(x, Pow2(n - 1));
      DivideTwice(x, 2, Pow2(n - 1));
    }
  }

  lemma LowestBit(x: nat)
    ensures Pow2(0) == 1 && BitAnd(x, 1) == x % 2 && x / 1 == x
  {
    assert BitAnd(x / 2, 0) == 0;
  }

  lemma BitAndEven(x: nat, half: nat)
    ensures BitAnd(x, 2 * half) == 2 * BitAnd(x / 2, half)
  {
    assert (2 * half) / 2 == half && (2 * half) % 2 == 0;
  }

  lemma {:induction false} BitOrAllOnes(x: nat, m: nat)
    requires x < Pow2(m)
    ensures BitOr(x, Pow2(m) - 1) == Pow2(m) - 1
    decreases m
  {
    if m > 0 && x != 0 {
      BitOrAllOnes(x / 2, m - 1);
      assert (Pow2(m) - 1) / 2 == Pow2(m - 1) - 1;
    }
  }

  /** The low bit of a combination with an even number. */
  lemma BitOrEven(x: nat, half: nat)
    ensures BitOr(x, 2 * half) == x % 2 + 2 * BitOr(x / 2, half)
  {
    assert (2 * half) / 2 == half && (2 * half) % 2 == 0;
  }

  /** m ones above n zeros. */
  function HighOnes(m: nat, n: nat): nat {
    if n == 0 then Pow2(m) - 1 else 2 * HighOnes(m, n - 1)
  }

  lemma {:induction false} HighOnesValue(m: nat, n: nat)
    ensures HighOnes(m, n) == Pow2(m + n) - Pow2(n)
  {
    if n > 0 {
      HighOnesValue(m, n - 1);
    }
  }

  /** Setting m bits from position n up, in a number of m + n bits. */
  lemma {:induction false} BitOrHighMask(x: nat, m: nat, n: nat)
    requires x < Pow2(m + n)
    ensures BitOr(x, HighOnes(m, n)) == HighOnes(m, n) + x % Pow2(n)
    decreases n
  {
    if n == 0 {
      BitOrAllOnes(x, m);
    } else {
      assert Pow2(n) == 2 * Pow2(n - 1) && Pow2(m + n) == 2 * Pow2(m + n - 1);
      assert HighOnes(m, n) == 2 * HighOnes(m, n - 1);
      hide Pow2, BitOr, HighOnes;
      BitOrHighMask(x / 2, m, n - 1);
      BitOrEven(x, HighOnes(m, n - 1));
      DivideTwice(x, 2, Pow2(n - 1));
    }
  }

  // ---------- SAR ----------

  /** All ones shifted left by n leave 256 - n ones above n zeros. */
  lemma HighMask(n: nat)
    requires n < 256
    ensures 0 < Pow2(n) <= SIGN_BIT
    ensures HighOnes(256 - n, n) == WORD_MODULUS - Pow2(n) == ShiftLeft(WORD_MODULUS - 1, n)
  {
    Pow2Word();
    HighOnesValue(256 - n, n);
    Pow2Monotone(n, 255);
    hide Pow2, HighOnes;
    var p := Pow2(n);
    QuotientUnique((WORD_MODULUS - 1) * p, WORD_MODULUS, p - 1, WORD_MODULUS - p);
  }

  /** The top limb holds the sign. */
  lemma TopLimbSign(x: Word)
    ensures Limb(x, 3) >= 0x8000000000000000 <==> x >= SIGN_BIT
  {
  }

  /** SAR is the floor of the signed value divided by 2^y, for every shift count. */
  lemma SarIsFloorDivision(y: Word, x: Word)
    ensures Signed(ArithmeticShiftRight(y, x)) == Signed(x) / Pow2(y)
  {
    hide Signed, ArithmeticShiftRight, Pow2;
    if y >= 256 {
      SarBeyondWord(y, x);
    } else if x < SIGN_BIT {
      SarPositive(y, x);
    } else {
      SarNegative(y, x);
    }
  }

  lemma SarPositive(y: Word, x: Word)
    requires y < 256 && x < SIGN_BIT
    ensures Signed(ArithmeticShiftRight(y, x)) == Signed(x) / Pow2(y)
  {
    hide Pow2, ShiftDown, BitOr, Limb, ShiftLeft;
    TopLimbSign(x);
    LowLimb(y);
    ShiftDownDivides(x, y);
    ShiftZero(256 - y);
    BitOrZero(ShiftDown(x, y));
  }

  lemma ShiftZero(n: int)
    ensures n >= 0 ==> ShiftLeft(0, n) == 0
  {
  }

  lemma BitOrZero(x: nat)
    ensures BitOr(x, 0) == x && BitOr(0, x) == x
  {
  }

  lemma SarNegative(y: Word, x: Word)
    requires y < 256 && x >= SIGN_BIT
    ensures Signed(ArithmeticShiftRight(y, x)) == Signed(x) / Pow2(y)
  {
    hide Pow2, ShiftDown, BitOr, Limb, ShiftLeft, OrWord;
    TopLimbSign(x);
    LowLimb(y);
    ShiftDownDivides(x, y);
    var n, d, s := 256 - y, Pow2(y), x - WORD_MODULUS;
    NegativeQuotient(s, d);
    if y == 0 {
      ShiftByZero(x);
    } else {
      HighMask(n);
      QuotientOfSum(x, s, d, n, y);
      OrHigh(x / d, n);
    }
  }

  /** Putting ones above the low n bits. */
  lemma OrHigh(x: Word, n: nat)
    requires n < 256
    ensures 0 < Pow2(n) <= WORD_MODULUS
    ensures OrWord(x, WORD_MODULUS - Pow2(n)) == WORD_MODULUS - Pow2(n) + x % Pow2(n)
    ensures x < Pow2(n) ==> x % Pow2(n) == x
  {
    hide Pow2, BitOr, ToWord, HighOnes;
    HighMask(n);
    Pow2Word();
    BitOrHighMask(x, 256 - n, n);
    LowPart(x, Pow2(n));
    NoWrap(WORD_MODULUS - Pow2(n) + x % Pow2(n));
  }

  lemma LowPart(x: nat, p: nat)
    requires p > 0
    ensures 0 <= x % p < p && (x < p ==> x % p == x)
  {
  }

  lemma NoWrap(v: int)
    requires 0 <= v < WORD_MODULUS
    ensures ToWord(v) == v
  {
  }

  lemma LowLimb(y: Word)
    requires y < 256
    ensures Limb(y, 0) == y
  {
  }

  lemma ShiftByZero(x: Word)
    ensures ShiftDown(x, 0) == x && ShiftLeft(WORD_MODULUS - 1, 256) == 0 && OrWord(x, 0) == x && Pow2(0) == 1
  {
  }

  /** A negative number is its word less 2^256, and so are the quotients. */
  lemma QuotientOfSum(x: int, s: int, d: nat, n: nat, y: nat)
    requires y + n == 256 && d == Pow2(y) && x == s + WORD_MODULUS && s < 0 && s / d < 0
    ensures d > 0 && x / d == Pow2(n) + s / d && x / d < Pow2(n)
  {
    Pow2Word();
    Pow2Add(y, n);
    hide Pow2;
    var p, q, r := Pow2(n), s / d, s % d;
    assert s == d * q + r;
    assert (p + q) * d == d * p + d * q;
    QuotientUnique(x, d, p + q, r);
  }

  lemma SarBeyondWord(y: Word, x: Word)
    requires y >= 256
    ensures Signed(ArithmeticShiftRight(y, x)) == Signed(x) / Pow2(y)
  {
    TopLimbSign(x);
    Pow2Word();
    Pow2Monotone(256, y);
    hide Pow2, Limb, ShiftDown, ShiftLeft;
    var s, d := Signed(x), Pow2(y);
    AllOnesUnshifted();
    if s < 0 {
      QuotientUnique(s, d, -1, s + d);
    } else {
      QuotientUnique(s, d, 0, s);
    }
  }

  lemma AllOnesUnshifted()
    ensures ShiftLeft(WORD_MODULUS - 1, 0) == WORD_MODULUS - 1 && ShiftLeft(0, 0) == 0
  {
  }

  // ---------- SIGNEXTEND ----------

  /** The value of the low bits of x, read as a two's-complement number of that many bits. */
  function SignedLow(x: nat, bits: nat): int
    requires bits > 0
  {
    var v := x % Pow2(bits);
    if v >= Pow2(bits - 1) then v - Pow2(bits) else v
  }

  /** SIGNEXTEND reads the low ext + 1 bytes as a signed number, and keeps the word if it has no more. */
  lemma SignExtendIsTwosComplement(ext: Word, x: Word)
    ensures ext < 31 ==> Signed(SignExtend(ext, x)) == SignedLow(x, 8 * (ext + 1))
    ensures ext >= 31 ==> SignExtend(ext, x) == x
  {
    if ext < 31 {
      hide Pow2, BitAnd, OrWord, ShiftLeft, ToWord;
      var s := ext * 8 + 7;
      var p := Pow2(s);
      MaskShift(s);
      NoWrap(p - 1);
      BitAndSingleBit(x, s);
      BitAndLowMask(x, s);
      LowBits(x, s);
      OrHigh(x, s);
    }
  }

  /** The low s + 1 bits of x, by the topmost of them. */
  lemma LowBits(x: nat, s: nat)
    requires s < 255
    ensures Pow2(s) <= SIGN_BIT && Pow2(s + 1) == 2 * Pow2(s)
    ensures 0 <= x % Pow2(s) < Pow2(s)
    ensures x % Pow2(s + 1) == (if x / Pow2(s) % 2 == 1 then Pow2(s) else 0) + x % Pow2(s)
  {
    hide Pow2;
    Pow2Word();
    Pow2Monotone(s, 255);
    Pow2Double(s);
    LowPart(x, Pow2(s));
    TopBit(x, Pow2(s));
  }

  lemma TopBit(x: nat, p: nat)
    requires p > 0
    ensures x % (2 * p) == (if x / p % 2 == 1 then p else 0) + x % p
  {
    DivideTwice(x, p, 2);
  }

  lemma MaskShift(s: nat)
    requires s < 256
    ensures ShiftLeft(1, s) == Pow2(s) < WORD_MODULUS
  {
    Pow2Word();
    Pow2Monotone(s, 255);
  }

  // ---------- BYTE ----------

  /** BYTE selects byte n of the big-endian word, and zero past its end. */
  lemma ByteIsDigit(n: Word, x: Word)
    ensures n < 32 ==> ByteOf(n, x) == x / Power(256, 31 - n) % 256
    ensures n >= 32 ==> ByteOf(n, x) == 0
  {
    if n < 32 {
      hide Pow2, BitAnd, Limb, ShiftDown, Power, ByteOf;
      var index := 31 - n;
      var k, j := index / 8, index % 8;
      assert 8 * k + j == index;
      ByteOfUnfold(n, x);
      ByteOfLimb(Limb(x, k), j);
      ByteOfWord(x, k, j);
    } else {
      hide Limb, ShiftDown;
    }
  }

  lemma ByteOfUnfold(n: Word, x: Word)
    requires n < 32
    ensures ByteOf(n, x) == BitAnd(ShiftDown(Limb(x, (31 - n) / 8), (31 - n) % 8 * 8), 0xff)
  {
    hide BitAnd, ShiftDown;
    LowLimb(n);
  }

  lemma ByteOfWord(x: Word, k: nat, j: nat)
    requires k < 4 && j < 8
    ensures Limb(x, k) / Power(256, j) % 256 == x / Power(256, 8 * k + j) % 256
  {
    hide Limb, Power;
    LimbIsQuotient(x, k);
    PowerAdd(256, 8 * k, j);
    DigitOfLimb(x, Power(256, 8 * k), Power(256, j), j);
  }

  lemma ByteOfLimb(word: Word, j: nat)
    requires j < 8
    ensures BitAnd(ShiftDown(word, j * 8), 0xff) == word / Power(256, j) % 256
  {
    ShiftDownDivides(word, j * 8);
    Pow2Bytes(j);
    Pow2Bytes(1);
    assert Power(256, 1) == 256;
    BitAndLowMask(word / Power(256, j), 8);
  }

  lemma LimbIsQuotient(x: Word, k: nat)
    requires k < 4
    ensures Power(256, 8 * k) > 0 && Limb(x, k) == x / Power(256, 8 * k) % LIMB
  {
    Power256();
    PowerAdd(256, 16, 8);
    DivideTwice(x, LIMB, LIMB);
    DivideTwice(x, LIMB * LIMB, LIMB);
    assert Power(256, 0) == 1 && x / 1 == x;
  }

  /** The byte of a limb is the byte of the word. */
  lemma DigitOfLimb(x: nat, base: nat, unit: nat, j: nat)
    requires base > 0 && j < 8 && unit == Power(256, j)
    ensures unit > 0 && base * unit > 0
    ensures x / base % LIMB / unit % 256 == x / (base * unit) % 256
  {
    PowerMonotone(256, 0, j);
    DivideTwice(x, base, unit);
    var y, rest := x / base, Power(256, 7 - j);
    PowerMonotone(256, 0, 7 - j);
    Power256();
    PowerAdd(256, j, 8 - j);
    assert Power(256, 8 - j) == 256 * rest;
    hide Power;
    // y % LIMB is unit * (y / unit % (256 * rest)) + y % unit.
    DivideTwice(y, unit, 256 * rest);
    var z := y / unit;
    QuotientUnique(y % LIMB, unit, z % (256 * rest), y % unit);
    DivideTwice(z, 256, rest);
    assert z % (256 * rest) % 256 == z % 256 by {
      QuotientUnique(z % (256 * rest), 256, z / 256 % rest, z % 256);
    }
  }
}
