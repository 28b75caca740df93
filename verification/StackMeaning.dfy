/** What the instructions that only work on the stack push and move: results by opcode with x the top item, said
    by what determines them, and the place of every item. */
module StackMeaning {
  import opened Words
  import opened InstructionTraits
  import opened Machine
  import opened MemoryExpansion
  import opened Instructions
  import opened Arithmetic
  import opened WordLaws
  import opened MemoryMeaning

  /** The instruction pops n items, pushes w, and does nothing else. */
  predicate Computes(c: Context, op: Byte, st: State, n: nat, w: Word)
    requires IsOrdinary(op) && |st.stack| >= StackRequired(op) && n <= |st.stack|
  {
    Ordinary(c, op, st) == Ok(st.(stack := st.stack[..|st.stack| - n] + [w]))
  }

  /** What an instruction has pushed. */
  function Answer(c: Context, op: Byte, st: State): Word
    requires IsOrdinary(op) && |st.stack| >= StackRequired(op)
  {
    var r := Ordinary(c, op, st);
    if r.Ok? && |r.st.stack| > 0 then Peek(r.st, 0) else 0
  }

  lemma BinaryComputes(c: Context, op: Byte, st: State)
    requires IsBinary(op) && |st.stack| >= 2
    ensures StackRequired(op) == 2
    ensures Answer(c, op, st) == BinaryResult(op, Peek(st, 0), Peek(st, 1))
    ensures Computes(c, op, st, 2, Answer(c, op, st))
  {
    hide BinaryResult;
  }

  // ---------- arithmetic ----------

  /** Sums, differences and products are right modulo 2^256; the first operand of SUB is the top. */
  lemma ModularMeaning(c: Context, st: State)
    requires |st.stack| >= 2
    ensures var x, y := Peek(st, 0), Peek(st, 1);
            var sum, difference, product := Answer(c, OP_ADD, st), Answer(c, OP_SUB, st), Answer(c, OP_MUL, st);
            && Computes(c, OP_ADD, st, 2, sum) && (sum - (x + y)) % WORD_MODULUS == 0
            && Computes(c, OP_SUB, st, 2, difference) && (difference + y - x) % WORD_MODULUS == 0
            && Computes(c, OP_MUL, st, 2, product) && (product - x * y) % WORD_MODULUS == 0
  {
    BinaryComputes(c, OP_ADD, st);
    BinaryComputes(c, OP_SUB, st);
    BinaryComputes(c, OP_MUL, st);
    hide Computes, Answer, BinaryResult;
    ModularResults(Peek(st, 0), Peek(st, 1));
  }

  lemma ModularResults(x: Word, y: Word)
    ensures (BinaryResult(OP_ADD, x, y) - (x + y)) % WORD_MODULUS == 0
    ensures (BinaryResult(OP_SUB, x, y) + y - x) % WORD_MODULUS == 0
    ensures (BinaryResult(OP_MUL, x, y) - x * y) % WORD_MODULUS == 0
  {
    hide ToWord;
    ModuloOffset(x + y);
    ModuloOffset(x - y);
    ModuloOffset(x * y);
  }

  lemma ModuloOffset(v: int)
    ensures (ToWord(v) - v) % WORD_MODULUS == 0
  {
  }

  /** DIV and MOD of the top by the item below; both give zero for a zero divisor. */
  lemma DivisionMeaning(c: Context, st: State)
    requires |st.stack| >= 2
    ensures var x, y, q, m := Peek(st, 0), Peek(st, 1), Answer(c, OP_DIV, st), Answer(c, OP_MOD, st);
            && Computes(c, OP_DIV, st, 2, q) && Computes(c, OP_MOD, st, 2, m)
            && (y == 0 ==> q == 0 && m == 0)
            && (y > 0 ==> x == q * y + m && m < y)
  {
    BinaryComputes(c, OP_DIV, st);
    BinaryComputes(c, OP_MOD, st);
    hide Computes, Answer;
  }

  /** The remainder is smaller than the divisor and has the sign of the dividend. Quotient and remainder make up
      the dividend, but for the least number divided by -1, which gives itself. */
  predicate TruncatedDivision(x: Word, y: Word, q: Word, m: Word) {
    && (Signed(y) > 0 ==> -Signed(y) < Signed(m) < Signed(y))
    && (Signed(y) < 0 ==> Signed(y) < Signed(m) < -Signed(y))
    && (Signed(m) < 0 ==> Signed(x) < 0) && (Signed(m) > 0 ==> Signed(x) > 0)
    && (Signed(q) * Signed(y) + Signed(m) == Signed(x)
        || (Signed(x) == -SIGN_BIT && Signed(y) == -1 && q == x && m == 0))
  }

  /** SDIV rounds toward zero and SMOD has the sign of the dividend; only the least number by -1 wraps around. */
  lemma SignedDivisionMeaning(c: Context, st: State)
    requires |st.stack| >= 2
    ensures var x, y, q, m := Peek(st, 0), Peek(st, 1), Answer(c, OP_SDIV, st), Answer(c, OP_SMOD, st);
            && Computes(c, OP_SDIV, st, 2, q) && Computes(c, OP_SMOD, st, 2, m)
            && (y == 0 ==> q == 0 && m == 0)
            && (y != 0 ==> TruncatedDivision(x, y, q, m))
  {
    BinaryComputes(c, OP_SDIV, st);
    BinaryComputes(c, OP_SMOD, st);
    hide Computes, Answer;
    SignedDivision(Peek(st, 0), Peek(st, 1));
  }

  lemma SignedOfWord(v: int)
    requires -SIGN_BIT <= v < SIGN_BIT
    ensures Signed(ToWord(v)) == v
  {
  }

  lemma SignedDivision(x: Word, y: Word)
    ensures y == 0 ==> SignedDivide(x, y) == 0 && SignedModulo(x, y) == 0
    ensures y != 0 ==> TruncatedDivision(x, y, SignedDivide(x, y), SignedModulo(x, y))
  {
    if y != 0 {
      hide Signed, ToWord, Magnitude;
      MagnitudeOfWord(x);
      MagnitudeOfWord(y);
      var a, b := Magnitude(x), Magnitude(y);
      DivisionParts(a, b);
      Truncated(x, y, a / b, a % b);
    }
  }

  lemma DivisionParts(a: nat, b: nat)
    requires b > 0
    ensures a == b * (a / b) + a % b && 0 <= a / b <= a && 0 <= a % b < b
  {
    QuotientBound(a, b);
  }

  lemma Truncated(x: Word, y: Word, q: int, m: int)
    requires y != 0 && Magnitude(x) == Magnitude(y) * q + m && 0 <= q <= Magnitude(x) && 0 <= m < Magnitude(y)
    ensures TruncatedDivision(x, y, ToWord(if (Signed(x) < 0) != (Signed(y) < 0) then -q else q),
                              ToWord(if Signed(x) < 0 then -m else m))
  {
    hide Signed, ToWord, Magnitude;
    MagnitudeOfWord(x);
    MagnitudeOfWord(y);
    SignedOfWord(if Signed(x) < 0 then -m else m);
    SignedQuotient(x, y, q, m);
    SignedOfWord(0);
    MagnitudeOfWord(ToWord(0));
  }

  lemma SignedQuotient(x: Word, y: Word, q: int, m: int)
    requires y != 0 && Magnitude(x) == Magnitude(y) * q + m && 0 <= q <= Magnitude(x) && 0 <= m < Magnitude(y)
    ensures var v := ToWord(if (Signed(x) < 0) != (Signed(y) < 0) then -q else q);
            || Signed(v) * Signed(y) + (if Signed(x) < 0 then -m else m) == Signed(x)
            || (Signed(x) == -SIGN_BIT && Signed(y) == -1 && v == x && m == 0)
  {
    hide Signed, ToWord, Magnitude;
    MagnitudeOfWord(x);
    MagnitudeOfWord(y);
    var signed := if (Signed(x) < 0) != (Signed(y) < 0) then -q else q;
    if signed < SIGN_BIT {
      SignedOfWord(signed);
      SignedProduct(Signed(x), Signed(y), q, m);
    } else {
      OnlyOverflow(Magnitude(x), Magnitude(y), q, m);
      LeastNumber(x);
    }
  }

  lemma MagnitudeOfWord(x: Word)
    ensures Signed(x) == 0 <==> x == 0
    ensures 0 <= Magnitude(x) <= SIGN_BIT
    ensures Magnitude(x) == if Signed(x) < 0 then -Signed(x) else Signed(x)
    ensures -SIGN_BIT <= Signed(x) < SIGN_BIT
  {
  }

  lemma SignedProduct(s: int, t: int, q: int, m: int)
    requires (if s < 0 then -s else s) == (if t < 0 then -t else t) * q + m
    ensures (if (s < 0) != (t < 0) then -q else q) * t + (if s < 0 then -m else m) == s
  {
    assert (-t) * q == -(t * q) && (-q) * t == -(t * q) && q * t == t * q;
  }

  lemma OnlyOverflow(a: nat, b: nat, q: nat, m: nat)
    requires a == b * q + m && b > 0 && q >= SIGN_BIT >= a
    ensures b == 1 && a == q == SIGN_BIT && m == 0
  {
    ProductAtLeast(b, q);
    if b > 1 {
      assert b * q == (b - 1) * q + q;
      ProductAtLeast(b - 1, q);
      assert false;
    }
  }

  lemma LeastNumber(x: Word)
    ensures Signed(x) == -SIGN_BIT ==> ToWord(SIGN_BIT) == x
  {
  }

  // ---------- modular arithmetic of three operands ----------

  /** ADDMOD and MULMOD are not cut off at 2^256 before the division. */
  lemma TernaryMeaning(c: Context, st: State)
    requires |st.stack| >= 3
    ensures var x, y, n, s, p := Peek(st, 0), Peek(st, 1), Peek(st, 2), Answer(c, OP_ADDMOD, st),
                                 Answer(c, OP_MULMOD, st);
            && Computes(c, OP_ADDMOD, st, 3, s) && Computes(c, OP_MULMOD, st, 3, p)
            && (n == 0 ==> s == 0 && p == 0)
            && (n > 0 ==> s < n && p < n && (x + y - s) % n == 0 && (x * y - p) % n == 0)
  {
    TernaryComputes(c, OP_ADDMOD, st);
    TernaryComputes(c, OP_MULMOD, st);
    hide Computes, Answer;
    var n := Peek(st, 2);
    if n > 0 {
      RemainderOffset(Peek(st, 0) + Peek(st, 1), n);
      RemainderOffset(Peek(st, 0) * Peek(st, 1), n);
    }
  }

  lemma TernaryComputes(c: Context, op: Byte, st: State)
    requires IsTernary(op) && |st.stack| >= 3
    ensures StackRequired(op) == 3
    ensures Answer(c, op, st) == TernaryResult(op, Peek(st, 0), Peek(st, 1), Peek(st, 2))
    ensures Computes(c, op, st, 3, Answer(c, op, st))
  {
    hide TernaryResult;
  }

  lemma RemainderOffset(x: nat, n: nat)
    requires n > 0
    ensures 0 <= x % n < n && (x - x % n) % n == 0
  {
    assert x - x % n == (x / n) * n + 0;
    QuotientUnique(x - x % n, n, x / n, 0);
  }

  // ---------- comparisons ----------

  /** The comparisons push 1 if the top is less than, greater than or equal to the item below, and else 0. */
  lemma ComparisonMeaning(c: Context, op: Byte, st: State)
    requires OP_LT <= op <= OP_EQ && |st.stack| >= 2
    ensures var x, y, w := Peek(st, 0), Peek(st, 1), Answer(c, op, st);
            && Computes(c, op, st, 2, w) && w <= 1
            && (op == OP_LT ==> (w == 1 <==> x < y))
            && (op == OP_GT ==> (w == 1 <==> x > y))
            && (op == OP_SLT ==> (w == 1 <==> Signed(x) < Signed(y)))
            && (op == OP_SGT ==> (w == 1 <==> Signed(x) > Signed(y)))
            && (op == OP_EQ ==> (w == 1 <==> x == y))
  {
    BinaryComputes(c, op, st);
    hide Computes, Answer, Signed;
  }

  // ---------- bits ----------

  /** The bit of a number at a place. */
  function BitAt(x: nat, place: nat): nat {
    x / Pow2(place) % 2
  }

  lemma BitOfHalf(x: nat, place: nat)
    ensures BitAt(x, place + 1) == BitAt(x / 2, place) && BitAt(x, 0) == x % 2
  {
    DivideTwice(x, 2, Pow2(place));
    assert x / 1 == x;
  }

  // The lowest bit of a result depends on the lowest bits alone, and the rest on the rest.

  lemma AndHalves(x: nat, y: nat)
    ensures BitAnd(x, y) % 2 == if x % 2 == 1 && y % 2 == 1 then 1 else 0
    ensures BitAnd(x, y) / 2 == BitAnd(x / 2, y / 2)
  {
    if x != 0 && y != 0 {
      Halves(BitAnd(x, y), Bit(x % 2 == 1 && y % 2 == 1), BitAnd(x / 2, y / 2));
    }
  }

  lemma OrHalves(x: nat, y: nat)
    ensures BitOr(x, y) % 2 == if x % 2 == 1 || y % 2 == 1 then 1 else 0
    ensures BitOr(x, y) / 2 == BitOr(x / 2, y / 2)
  {
    if x != 0 && y != 0 {
      Halves(BitOr(x, y), Bit(x % 2 == 1 || y % 2 == 1), BitOr(x / 2, y / 2));
    }
  }

  lemma XorHalves(x: nat, y: nat)
    ensures BitXor(x, y) % 2 == if x % 2 != y % 2 then 1 else 0
    ensures BitXor(x, y) / 2 == BitXor(x / 2, y / 2)
  {
    if x != 0 && y != 0 {
      Halves(BitXor(x, y), Bit(x % 2 != y % 2), BitXor(x / 2, y / 2));
    }
  }

  lemma Halves(w: nat, low: nat, high: nat)
    requires low <= 1 && w == low + 2 * high
    ensures w % 2 == low && w / 2 == high
  {
  }

  /** A bit of the results is set where both bits, one of them or exactly one of them is set. */
  lemma {:induction false} BitwiseAt(x: nat, y: nat, place: nat)
    ensures var a, b := BitAt(x, place), BitAt(y, place);
            && BitAt(BitAnd(x, y), place) == (if a == 1 && b == 1 then 1 else 0)
            && BitAt(BitOr(x, y), place) == (if a == 1 || b == 1 then 1 else 0)
            && BitAt(BitXor(x, y), place) == (if a != b then 1 else 0)
    decreases place
  {
    hide BitAt, BitAnd, BitOr, BitXor;
    var k := if place == 0 then 0 else place - 1;
    AndHalves(x, y);
    OrHalves(x, y);
    XorHalves(x, y);
    BitOfHalf(x, k);
    BitOfHalf(y, k);
    BitOfHalf(BitAnd(x, y), k);
    BitOfHalf(BitOr(x, y), k);
    BitOfHalf(BitXor(x, y), k);
    if place > 0 {
      BitwiseAt(x / 2, y / 2, k);
    }
  }

  lemma {:induction false} BitwiseBound(x: nat, y: nat, n: nat)
    requires x < Pow2(n) && y < Pow2(n)
    ensures BitOr(x, y) < Pow2(n) && BitXor(x, y) < Pow2(n)
    decreases n
  {
    if n > 0 && x != 0 && y != 0 {
      BitwiseBound(x / 2, y / 2, n - 1);
    }
  }

  /** AND, OR and XOR work bit by bit, and NOT takes the complement. */
  lemma BitwiseMeaning(c: Context, op: Byte, st: State)
    requires OP_AND <= op <= OP_NOT && |st.stack| >= 2
    ensures var x, y, w := Peek(st, 0), Peek(st, 1), Answer(c, op, st);
            && Computes(c, op, st, if op == OP_NOT then 1 else 2, w)
            && (op == OP_AND ==> forall k: nat :: BitAt(w, k) == if BitAt(x, k) == 1 && BitAt(y, k) == 1 then 1 else 0)
            && (op == OP_OR ==> forall k: nat :: BitAt(w, k) == if BitAt(x, k) == 1 || BitAt(y, k) == 1 then 1 else 0)
            && (op == OP_XOR ==> forall k: nat :: BitAt(w, k) == if BitAt(x, k) != BitAt(y, k) then 1 else 0)
            && (op == OP_NOT ==> w == WORD_MODULUS - 1 - x)
  {
    if op != OP_NOT {
      BinaryComputes(c, op, st);
      hide Computes, Answer, BitAt, BinaryResult;
      BitwiseResults(Peek(st, 0), Peek(st, 1));
    }
  }

  lemma BitwiseResults(x: Word, y: Word)
    ensures forall k: nat :: BitAt(BinaryResult(OP_AND, x, y), k)
                             == if BitAt(x, k) == 1 && BitAt(y, k) == 1 then 1 else 0
    ensures forall k: nat :: BitAt(BinaryResult(OP_OR, x, y), k)
                             == if BitAt(x, k) == 1 || BitAt(y, k) == 1 then 1 else 0
    ensures forall k: nat :: BitAt(BinaryResult(OP_XOR, x, y), k)
                             == if BitAt(x, k) != BitAt(y, k) then 1 else 0
  {
    BitwiseWords(x, y);
    hide BitAt, BinaryResult, BitAnd, BitOr, BitXor;
    forall k: nat
      ensures BitAt(BinaryResult(OP_AND, x, y), k) == if BitAt(x, k) == 1 && BitAt(y, k) == 1 then 1 else 0
      ensures BitAt(BinaryResult(OP_OR, x, y), k) == if BitAt(x, k) == 1 || BitAt(y, k) == 1 then 1 else 0
      ensures BitAt(BinaryResult(OP_XOR, x, y), k) == if BitAt(x, k) != BitAt(y, k) then 1 else 0
    {
      BitwiseAt(x, y, k);
    }
  }

  /** No bit is lost at the width of a word. */
  lemma BitwiseWords(x: Word, y: Word)
    ensures BinaryResult(OP_AND, x, y) == BitAnd(x, y)
    ensures BinaryResult(OP_OR, x, y) == BitOr(x, y)
    ensures BinaryResult(OP_XOR, x, y) == BitXor(x, y)
  {
    Pow2Word();
    hide BitAnd, BitOr, BitXor, Pow2;
    BitwiseBound(x, y, 256);
  }

  /** ISZERO pushes 1 exactly for zero. CALLDATALOAD pushes the 32 bytes of the zero-extended input that start at
      the operand, the first one as the highest digit. */
  lemma UnaryMeaning(c: Context, st: State)
    requires |st.stack| >= 1
    ensures var x, zero, word := Peek(st, 0), Answer(c, OP_ISZERO, st), Answer(c, OP_CALLDATALOAD, st);
            && Computes(c, OP_ISZERO, st, 1, zero) && zero == (if x == 0 then 1 else 0)
            && Computes(c, OP_CALLDATALOAD, st, 1, word)
            && forall place :: 0 <= place < 32 ==> Digit(word, place) == ByteAt(c.msg.input, x + 31 - place)
  {
    hide Digit, CallDataWord;
    InputDigits(c.msg.input, Peek(st, 0));
  }

  lemma InputDigits(input: seq<Byte>, x: Word)
    ensures forall place :: 0 <= place < 32 ==> Digit(CallDataWord(input, x), place) == ByteAt(input, x + 31 - place)
  {
    hide Digit, LoadWord;
    if |input| < x {
      LoadWordDigits(Zeros(32));
      ZerosLoad();
    } else {
      var end := Min(x + 32, |input|);
      LoadWordDigits(input[x..end] + Zeros(32 - (end - x)));
    }
  }

  lemma ZerosLoad()
    ensures LoadWord(Zeros(32)) == 0
  {
    hide BeLoad;
    ZeroWord(32);
  }

  lemma {:induction false} ZeroWord(n: nat)
    ensures BeLoad(Zeros(n)) == 0
  {
    if n > 0 {
      ZeroWord(n - 1);
      assert Zeros(n)[..n - 1] == Zeros(n - 1);
    }
  }

  // ---------- shifts and bytes ----------

  /** SHL multiplies and SHR divides the second item by 2 to the top; from 256 on nothing is left. */
  lemma ShiftMeaning(c: Context, st: State)
    requires |st.stack| >= 2
    ensures var n, x, left, right := Peek(st, 0), Peek(st, 1), Answer(c, OP_SHL, st), Answer(c, OP_SHR, st);
            && Computes(c, OP_SHL, st, 2, left) && Computes(c, OP_SHR, st, 2, right)
            && (n < 256 ==> left == x * Pow2(n) % Pow2(256) && right == x / Pow2(n))
            && (n >= 256 ==> left == 0 && right == 0)
  {
    BinaryComputes(c, OP_SHL, st);
    BinaryComputes(c, OP_SHR, st);
    hide Computes, Answer, Pow2, BinaryResult;
    ShiftResults(Peek(st, 0), Peek(st, 1));
  }

  lemma ShiftResults(n: Word, x: Word)
    ensures BinaryResult(OP_SHL, n, x) == if n < 256 then x * Pow2(n) % Pow2(256) else 0
    ensures BinaryResult(OP_SHR, n, x) == if n < 256 then x / Pow2(n) else 0
  {
    Pow2Word();
    hide Pow2, ShiftDown;
    if n < 256 {
      ShiftDownDivides(x, n);
    }
  }

  /** SAR divides the signed second item by 2 to the top, rounding down, for every count. */
  lemma SarMeaning(c: Context, st: State)
    requires |st.stack| >= 2
    ensures var n, x, w := Peek(st, 0), Peek(st, 1), Answer(c, OP_SAR, st);
            Computes(c, OP_SAR, st, 2, w) && Signed(w) == Signed(x) / Pow2(n)
  {
    BinaryComputes(c, OP_SAR, st);
    hide Computes, Answer, Pow2, Signed, BinaryResult;
    SarResult(Peek(st, 0), Peek(st, 1));
  }

  lemma SarResult(n: Word, x: Word)
    ensures Signed(BinaryResult(OP_SAR, n, x)) == Signed(x) / Pow2(n)
  {
    hide Pow2, Signed, ArithmeticShiftRight;
    SarIsFloorDivision(n, x);
  }

  /** SIGNEXTEND reads the low bytes of the second item, one more than the top says, as a two's-complement
      number. */
  lemma SignExtendMeaning(c: Context, st: State)
    requires |st.stack| >= 2
    ensures var n, x, w := Peek(st, 0), Peek(st, 1), Answer(c, OP_SIGNEXTEND, st);
            && Computes(c, OP_SIGNEXTEND, st, 2, w)
            && if n < 31 then Signed(w) == SignedLow(x, 8 * (n + 1)) else w == x
  {
    BinaryComputes(c, OP_SIGNEXTEND, st);
    hide Computes, Answer, Signed, SignedLow, BinaryResult;
    ByteResults(Peek(st, 0), Peek(st, 1));
  }

  /** BYTE selects a byte of the second item, counted from the highest. */
  lemma ByteMeaning(c: Context, st: State)
    requires |st.stack| >= 2
    ensures var n, x, w := Peek(st, 0), Peek(st, 1), Answer(c, OP_BYTE, st);
            Computes(c, OP_BYTE, st, 2, w) && w == if n < 32 then Digit(x, 31 - n) else 0
  {
    BinaryComputes(c, OP_BYTE, st);
    hide Computes, Answer, Digit, BinaryResult;
    ByteResults(Peek(st, 0), Peek(st, 1));
  }

  lemma ByteResults(n: Word, x: Word)
    ensures n < 31 ==> Signed(BinaryResult(OP_SIGNEXTEND, n, x)) == SignedLow(x, 8 * (n + 1))
    ensures n >= 31 ==> BinaryResult(OP_SIGNEXTEND, n, x) == x
    ensures BinaryResult(OP_BYTE, n, x) == if n < 32 then Digit(x, 31 - n) else 0
  {
    hide Power, SignedLow, Signed, SignExtend, ByteOf;
    SignExtendIsTwosComplement(n, x);
    ByteIsDigit(n, x);
  }

  // ---------- moving items ----------

  /** POP drops the top, JUMPDEST does nothing, and DUPn pushes a copy of the n-th item from the top. */
  lemma DupMeaning(c: Context, n: nat, st: State)
    requires 1 <= n <= 16 && |st.stack| >= n
    ensures Ordinary(c, OP_POP, st) == Ok(st.(stack := st.stack[..|st.stack| - 1]))
    ensures Ordinary(c, OP_JUMPDEST, st) == Ok(st)
    ensures Ordinary(c, OP_DUP1 + n - 1, st) == Ok(st.(stack := st.stack + [st.stack[|st.stack| - n]]))
  {
  }

  /** SWAPn exchanges the top with the item n below it; all other items stay where they are. */
  lemma SwapMeaning(c: Context, n: nat, st: State)
    requires 1 <= n <= 16 && |st.stack| >= n + 1
    ensures var r, top := Ordinary(c, OP_SWAP1 + n - 1, st), |st.stack| - 1;
            && r.Ok? && |r.st.stack| == |st.stack| && r.st == st.(stack := r.st.stack)
            && r.st.stack[top] == st.stack[top - n] && r.st.stack[top - n] == st.stack[top]
            && forall k :: 0 <= k < top && k != top - n ==> r.st.stack[k] == st.stack[k]
  {
  }

  // ---------- values of the context ----------

  /** The value that a context instruction pushes, by its number. */
  function ContextValue(c: Context, st: State, op: Byte): int {
    match op
    case 0x30 => c.msg.recipient
    case 0x32 => c.tx.origin
    case 0x33 => c.msg.sender
    case 0x34 => c.msg.value
    case 0x36 => |c.msg.input|
    case 0x38 => |c.code|
    case 0x3a => c.tx.gasPrice
    case 0x3d => |st.returnData|
    case 0x41 => c.tx.coinbase
    case 0x42 => c.tx.timestamp
    case 0x43 => c.tx.number
    case 0x44 => c.tx.difficulty
    case 0x45 => c.tx.gasLimit
    case 0x46 => c.tx.chainId
    case 0x48 => c.tx.baseFee
    case 0x59 => |st.mem|
    case _ => 0
  }

  /** Each context instruction pushes its own value; a size of 2^256 or more would wrap around. */
  lemma ContextMeaning(c: Context, op: Byte, st: State)
    requires IsContextRead(op)
    ensures var w := Answer(c, op, st);
            Computes(c, op, st, 0, w) && (w - ContextValue(c, st, op)) % WORD_MODULUS == 0
  {
    ContextPushes(c, op, st);
    hide Computes, Answer;
    ModuloOffset(ContextValue(c, st, op));
  }

  lemma ContextPushes(c: Context, op: Byte, st: State)
    requires IsContextRead(op)
    ensures Computes(c, op, st, 0, ContextWord(c, op, st)) && Answer(c, op, st) == ContextWord(c, op, st)
  {
    hide ContextWord;
  }
}
