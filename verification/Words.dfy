/** 256-bit words as natural numbers below 2^256, bytes, and the arithmetic that
    intx::uint256 provides to the instruction implementations. */
module Words {

  const WORD_MODULUS: int := 0x1_0000000000000000_0000000000000000_0000000000000000_0000000000000000
  const SIGN_BIT: int := 0x8000000000000000_0000000000000000_0000000000000000_0000000000000000
  const ADDRESS_MODULUS: int := 0x1_0000000000_0000000000_0000000000_0000000000
  const LIMB: int := 0x1_0000000000000000

  type Word = x: int | 0 <= x < 0x1_0000000000000000_0000000000000000_0000000000000000_0000000000000000
  type Byte = x: int | 0 <= x < 256

  function Min(a: int, b: int): int {
    if a <= b then a else b
  }

  function Max(a: int, b: int): int {
    if a >= b then a else b
  }

  function Pow2(n: nat): (r: nat)
    ensures r >= 1
  {
    if n == 0 then 1 else 2 * Pow2(n - 1)
  }

  function Power(b: nat, e: nat): (r: nat)
    ensures b > 0 ==> r > 0
  {
    if e == 0 then 1 else b * Power(b, e - 1)
  }

  function ToWord(x: int): Word {
    x % WORD_MODULUS
  }

  function FromBool(b: bool): Word {
    if b then 1 else 0
  }

  /** The two's-complement reading of a word. */
  function Signed(x: Word): (r: int)
    ensures -SIGN_BIT <= r < SIGN_BIT
    ensures ToWord(r) == x
  {
    if x < SIGN_BIT then x else x - WORD_MODULUS
  }

  function Magnitude(x: Word): nat {
    if Signed(x) < 0 then -Signed(x) else Signed(x)
  }

  // ---------- bitwise operators on naturals ----------

  function Bit(b: bool): nat {
    if b then 1 else 0
  }

  function BitAnd(x: nat, y: nat): (r: nat)
    ensures r <= x && r <= y
  {
    if x == 0 || y == 0 then 0
    else Bit(x % 2 == 1 && y % 2 == 1) + 2 * BitAnd(x / 2, y / 2)
  }

  function BitOr(x: nat, y: nat): nat
    decreases x + y
  {
    if x == 0 then y else if y == 0 then x
    else Bit(x % 2 == 1 || y % 2 == 1) + 2 * BitOr(x / 2, y / 2)
  }

  function BitXor(x: nat, y: nat): nat
    decreases x + y
  {
    if x == 0 then y else if y == 0 then x
    else Bit(x % 2 != y % 2) + 2 * BitXor(x / 2, y / 2)
  }

  /** Bitwise results of two words are words. */
  function OrWord(x: Word, y: Word): Word {
    ToWord(BitOr(x, y))
  }

  function AndWord(x: Word, y: Word): Word {
    BitAnd(x, y)
  }

  function NotWord(x: Word): Word {
    WORD_MODULUS - 1 - x
  }

  /** uint256 shifts: a count of 256 or more gives zero. */
  function ShiftLeft(x: Word, n: nat): Word {
    if n < 256 then ToWord(x * Pow2(n)) else 0
  }

  function ShiftRight(x: Word, n: nat): Word {
    if n < 256 then ShiftDown(x, n) else 0
  }

  function ShiftDown(x: Word, n: nat): (r: Word)
    ensures r <= x
  {
    if n == 0 then x else ShiftDown(x / 2, n - 1)
  }

  // ---------- instruction-level word functions ----------

  function SignedDivide(x: Word, y: Word): Word {
    if y == 0 then 0
    else
      var q := Magnitude(x) / Magnitude(y);
      ToWord(if (Signed(x) < 0) != (Signed(y) < 0) then -q else q)
  }

  function SignedModulo(x: Word, y: Word): Word {
    if y == 0 then 0
    else
      var r := Magnitude(x) % Magnitude(y);
      ToWord(if Signed(x) < 0 then -r else r)
  }

  /** The 64-bit limb k of a word, least significant first. */
  function Limb(x: Word, k: nat): (r: nat)
    requires k < 4
    ensures r < LIMB
  {
    (if k == 0 then x
     else if k == 1 then x / LIMB
     else if k == 2 then x / LIMB / LIMB
     else x / LIMB / LIMB / LIMB) % LIMB
  }

  function SignExtend(ext: Word, x: Word): Word {
    if ext < 31 then
      var signBit := ext * 8 + 7;
      var signMask := ShiftLeft(1, signBit);
      var valueMask := ToWord(signMask - 1);
      if AndWord(x, signMask) != 0 then OrWord(x, NotWord(valueMask)) else AndWord(x, valueMask)
    else x
  }

  function ByteOf(n: Word, x: Word): Word {
    var byteMask := if n < 32 then 0xff else 0;
    var index := 31 - Limb(n, 0) % 32;
    var word := Limb(x, index / 8);
    BitAnd(ShiftDown(word, (index % 8) * 8), byteMask)
  }

  function ArithmeticShiftRight(y: Word, x: Word): Word {
    var isNegative := Limb(x, 3) >= 0x8000000000000000;
    var signMask := if isNegative then NotWord(0) else 0;
    var maskShift := if y < 256 then 256 - Limb(y, 0) else 0;
    OrWord(ShiftRight(x, y), ShiftLeft(signMask, maskShift))
  }

  /** The number of bytes left after the leading zero bytes are dropped. */
  function SignificantBytes(x: nat): (r: nat)
    ensures x < WORD_MODULUS ==> r <= 32
  {
    SignificantBytesLimited(x, 32)
  }

  function SignificantBytesLimited(x: nat, limit: nat): (r: nat)
    ensures r <= limit
  {
    if x == 0 || limit == 0 then 0 else 1 + SignificantBytesLimited(x / 256, limit - 1)
  }

  // ---------- big-endian byte strings ----------

  function BeLoad(bytes: seq<Byte>): nat {
    if |bytes| == 0 then 0 else BeLoad(bytes[..|bytes| - 1]) * 256 + bytes[|bytes| - 1]
  }

  lemma {:induction false} BeLoadBound(bytes: seq<Byte>)
    ensures BeLoad(bytes) < Power(256, |bytes|)
  {
    if |bytes| != 0 {
      BeLoadBound(bytes[..|bytes| - 1]);
    }
  }

  /** Loading at most 32 bytes gives a word. */
  function LoadWord(bytes: seq<Byte>): Word
    requires |bytes| <= 32
  {
    BeLoadBound(bytes);
    PowerMonotone(256, |bytes|, 32);
    Power256();
    BeLoad(bytes)
  }

  function BeStore(x: nat, n: nat): (r: seq<Byte>)
    ensures |r| == n
  {
    if n == 0 then [] else BeStore(x / 256, n - 1) + [x % 256]
  }

  lemma {:induction false} PowerMonotone(b: nat, m: nat, n: nat)
    requires b >= 1 && m <= n
    ensures 1 <= Power(b, m) <= Power(b, n)
    decreases n
  {
    if m < n {
      PowerMonotone(b, m, n - 1);
    } else if m > 0 {
      PowerMonotone(b, m - 1, n - 1);
    }
  }

  lemma {:induction false} PowerAdd(b: nat, m: nat, n: nat)
    ensures Power(b, m + n) == Power(b, m) * Power(b, n)
  {
    hide Power;
    if m == 0 {
      PowerZero(b);
    } else {
      PowerAdd(b, m - 1, n);
      PowerNext(b, m - 1);
      PowerNext(b, m - 1 + n);
      ProductRegroup(b, Power(b, m - 1), Power(b, n));
    }
  }

  lemma PowerZero(b: nat)
    ensures Power(b, 0) == 1
  {
  }

  lemma PowerNext(b: nat, e: nat)
    ensures Power(b, e + 1) == b * Power(b, e)
  {
  }

  lemma ProductRegroup(x: int, y: int, z: int)
    ensures x * (y * z) == (x * y) * z
  {
  }

  lemma Power256()
    ensures Power(256, 8) == LIMB
    ensures Power(256, 16) == LIMB * LIMB
    ensures Power(256, 32) == WORD_MODULUS
  {
    assert Power(256, 2) == 65536;
    PowerAdd(256, 2, 2);
    PowerAdd(256, 4, 4);
    PowerAdd(256, 8, 8);
    PowerAdd(256, 16, 16);
  }
}
