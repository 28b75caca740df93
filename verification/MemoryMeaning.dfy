/** What the memory instructions do, said without the functions that define them: which bytes they read and
    write, what they push, and what they cost in numbers. */
module MemoryMeaning {
  import opened Words
  import opened InstructionTraits
  import opened Machine
  import opened MemoryExpansion
  import opened Instructions
  import opened Arithmetic

  // ---------- the price of memory ----------

  /** The number of words that a range touches, counted from the start of the memory. */
  function WordsTouched(offset: nat, size: nat): nat {
    if size == 0 then 0 else (offset + size + 31) / 32
  }

  function GrowthPrice(mem: seq<Byte>, offset: nat, size: nat): int {
    PriceBetween(|mem| / 32, WordsTouched(offset, size))
  }

  /** The memory extended with zeros to hold the range. */
  function Extended(mem: seq<Byte>, offset: nat, size: nat): seq<Byte> {
    var n := 32 * WordsTouched(offset, size);
    if n <= |mem| then mem else mem + seq(n - |mem|, _ => 0)
  }

  /** A range that the 32-bit cap allows. */
  predicate Allowed(offset: nat, size: nat) {
    size == 0 || (offset < 0x1_0000_0000 && size < 0x1_0000_0000)
  }

  /** The bytes of a range of zero-extended data. */
  function Window(data: seq<Byte>, offset: nat, size: nat): (r: seq<Byte>)
    ensures |r| == size
    ensures forall i :: 0 <= i < size ==> r[i] == ByteAt(data, offset + i)
  {
    seq<Byte>(size, i requires 0 <= i < size => ByteAt(data, offset + i))
  }

  /** A range can be used exactly if the cap allows it and the gas covers its growth. What is spent is the
      growth, and the memory holds the range afterwards. */
  lemma CheckMemoryMeaning(st: State, offset: Word, size: Word)
    requires st.gas >= 0 && |st.mem| % 32 == 0
    ensures var r, price := CheckMemory(st, offset, size), GrowthPrice(st.mem, offset, size);
            && price >= 0
            && (r.Ok? <==> Allowed(offset, size) && st.gas >= price)
            && (r.Ok? ==> r.st == st.(gas := st.gas - price, mem := Extended(st.mem, offset, size)))
            && (r.Err? ==> r == Err(OutOfGas, st.trace))
  {
    var words := WordsTouched(offset, size);
    if words > |st.mem| / 32 {
      PriceIsDifference(|st.mem| / 32, words);
    }
    hide MemoryCost, PriceBetween;
    PriceNonNegative(|st.mem| / 32, words);
  }

  lemma PriceNonNegative(a: nat, b: nat)
    ensures PriceBetween(a, b) >= 0 && (b <= a ==> PriceBetween(a, b) == 0)
  {
    if a <= b {
      PriceIsDifference(a, b);
    }
  }

  lemma SmallCheckMeaning(st: State, offset: Word, size: nat)
    requires st.gas >= 0 && |st.mem| % 32 == 0 && 0 < size <= 32
    ensures CheckMemorySmall(st, offset, size) == CheckMemory(st, offset, size)
  {
  }

  lemma ExtendedBytes(mem: seq<Byte>, offset: nat, size: nat)
    ensures |Extended(mem, offset, size)| >= |mem|
    ensures |mem| % 32 == 0 ==> |Extended(mem, offset, size)| % 32 == 0
    ensures size != 0 ==> offset + size <= |Extended(mem, offset, size)|
    ensures forall i: nat :: ByteAt(Extended(mem, offset, size), i) == ByteAt(mem, i)
  {
  }

  // ---------- digits ----------

  /** The digit of a number at a place, in base 256. */
  function Digit(x: nat, place: nat): nat {
    PowerMonotone(256, 0, place);
    x / Power(256, place) % 256
  }

  lemma DigitOfQuotient(x: nat, place: nat)
    ensures Digit(x, place + 1) == Digit(x / 256, place)
  {
    PowerMonotone(256, 0, place);
    DivideTwice(x, 256, Power(256, place));
  }

  lemma LowestDigit(x: nat)
    ensures Digit(x, 0) == x % 256
  {
    assert x / 1 == x;
  }

  /** The k-th byte of a big-endian load, counted from the top, is the digit at its place. */
  lemma {:induction false} LoadDigits(bytes: seq<Byte>, k: nat)
    requires k < |bytes|
    ensures Digit(BeLoad(bytes), |bytes| - 1 - k) == bytes[k]
    decreases |bytes|
  {
    hide Digit;
    var init, last := bytes[..|bytes| - 1], bytes[|bytes| - 1];
    QuotientUnique(BeLoad(bytes), 256, BeLoad(init), last);
    if k == |bytes| - 1 {
      LowestDigit(BeLoad(bytes));
    } else {
      DigitOfQuotient(BeLoad(bytes), |bytes| - 2 - k);
      LoadDigits(init, k);
    }
  }

  lemma {:induction false} StoreDigits(x: nat, n: nat, k: nat)
    requires k < n
    ensures BeStore(x, n)[k] == Digit(x, n - 1 - k)
    decreases n
  {
    hide Digit;
    if k == n - 1 {
      LowestDigit(x);
    } else {
      DigitOfQuotient(x, n - 2 - k);
      StoreDigits(x / 256, n - 1, k);
    }
  }

  lemma LoadWordDigits(bytes: seq<Byte>)
    requires |bytes| == 32
    ensures forall place :: 0 <= place < 32 ==> Digit(LoadWord(bytes), place) == bytes[31 - place]
  {
    forall place | 0 <= place < 32
      ensures Digit(LoadWord(bytes), place) == bytes[31 - place]
    {
      LoadDigits(bytes, 31 - place);
    }
  }

  // ---------- loads and stores ----------

  lemma SliceWindow(mem: seq<Byte>, offset: nat, size: nat)
    ensures var whole := Extended(mem, offset, size);
            (size != 0 ==> offset + size <= |whole|) && Slice(whole, offset, size) == Window(mem, offset, size)
  {
    ExtendedBytes(mem, offset, size);
  }

  /** MLOAD pushes the 32 bytes at the index, the first one as the highest digit. */
  lemma MloadMeaning(c: Context, st: State)
    requires |st.stack| >= 1 && st.gas >= 0 && |st.mem| % 32 == 0
    ensures var i := Peek(st, 0);
            var r, price := Ordinary(c, OP_MLOAD, st), GrowthPrice(st.mem, i, 32);
            && (r.Ok? <==> i < 0x1_0000_0000 && st.gas >= price)
            && (r.Ok? ==>
                  && |r.st.stack| == |st.stack|
                  && r.st == st.(gas := st.gas - price, mem := Extended(st.mem, i, 32),
                                 stack := st.stack[..|st.stack| - 1] + [Peek(r.st, 0)])
                  && forall place :: 0 <= place < 32 ==> Digit(Peek(r.st, 0), place) == ByteAt(st.mem, i + 31 - place))
  {
    hide CheckMemory, CheckMemorySmall, LoadWord, Digit, GrowthPrice, Extended;
    var i := Peek(st, 0);
    CheckMemoryMeaning(st, i, 32);
    SmallCheckMeaning(st, i, 32);
    var r := CheckMemory(st, i, 32);
    if r.Ok? {
      SliceWindow(st.mem, i, 32);
      var bytes := r.st.mem[i..i + 32];
      LoadWordDigits(bytes);
      assert bytes == Window(st.mem, i, 32);
    }
  }

  /** MSTORE writes the 32 digits of the value from the index on, the highest first, and nothing else. */
  lemma MstoreMeaning(c: Context, st: State)
    requires |st.stack| >= 2 && st.gas >= 0 && |st.mem| % 32 == 0
    ensures var i, value := Peek(st, 0), Peek(st, 1);
            var r, price := Ordinary(c, OP_MSTORE, st), GrowthPrice(st.mem, i, 32);
            && (r.Ok? <==> i < 0x1_0000_0000 && st.gas >= price)
            && (r.Ok? ==>
                  && |r.st.mem| == |Extended(st.mem, i, 32)|
                  && r.st == st.(gas := st.gas - price, mem := r.st.mem, stack := st.stack[..|st.stack| - 2])
                  && forall k :: 0 <= k < |r.st.mem| ==>
                       r.st.mem[k] == if i <= k < i + 32 then Digit(value, 31 - (k - i)) else ByteAt(st.mem, k))
  {
    hide CheckMemory, CheckMemorySmall, BeStore, Store, Digit, GrowthPrice, Extended;
    var i, value := Peek(st, 0), Peek(st, 1);
    CheckMemoryMeaning(st, i, 32);
    SmallCheckMeaning(st, i, 32);
    ExtendedBytes(st.mem, i, 32);
    forall k | 0 <= k < 32
      ensures BeStore(value, 32)[k] == Digit(value, 31 - k)
    {
      StoreDigits(value, 32, k);
    }
  }

  lemma Mstore8Meaning(c: Context, st: State)
    requires |st.stack| >= 2 && st.gas >= 0 && |st.mem| % 32 == 0
    ensures var i, value := Peek(st, 0), Peek(st, 1);
            var r, price := Ordinary(c, OP_MSTORE8, st), GrowthPrice(st.mem, i, 1);
            && (r.Ok? <==> i < 0x1_0000_0000 && st.gas >= price)
            && (r.Ok? ==>
                  && |r.st.mem| == |Extended(st.mem, i, 1)|
                  && r.st == st.(gas := st.gas - price, mem := r.st.mem, stack := st.stack[..|st.stack| - 2])
                  && forall k :: 0 <= k < |r.st.mem| ==>
                       r.st.mem[k] == if k == i then value % 256 else ByteAt(st.mem, k))
  {
    hide CheckMemory, CheckMemorySmall, Store, GrowthPrice, Extended;
    CheckMemoryMeaning(st, Peek(st, 0), 1);
    SmallCheckMeaning(st, Peek(st, 0), 1);
    ExtendedBytes(st.mem, Peek(st, 0), 1);
  }

  /** KECCAK256 pushes the hash of the range and costs 6 per word of it. */
  lemma KeccakMeaning(c: Context, st: State)
    requires |st.stack| >= 2 && st.gas >= 0 && |st.mem| % 32 == 0
    ensures var i, size := Peek(st, 0), Peek(st, 1);
            var r, price := Ordinary(c, OP_KECCAK256, st), GrowthPrice(st.mem, i, size) + (size + 31) / 32 * 6;
            && (r.Ok? <==> Allowed(i, size) && st.gas >= price)
            && (r.Ok? ==>
                  r.st == st.(gas := st.gas - price, mem := Extended(st.mem, i, size),
                              stack := st.stack[..|st.stack| - 2] + [c.keccak(Window(st.mem, i, size))]))
  {
    hide CheckMemory, Slice, GrowthPrice, Extended, Window;
    CheckMemoryMeaning(st, Peek(st, 0), Peek(st, 1));
    SliceWindow(st.mem, Peek(st, 0), Peek(st, 1));
  }

  // ---------- exponentiation ----------

  lemma {:induction false} BytesCounted(x: nat, n: nat, limit: nat)
    requires n <= limit && x < Power(256, n) && (n > 0 ==> x >= Power(256, n - 1))
    ensures SignificantBytesLimited(x, limit) == n
    decreases n
  {
    if n > 0 {
      PowerMonotone(256, 0, n - 1);
      if n > 1 {
        assert Power(256, n - 1) == 256 * Power(256, n - 2);
        PowerMonotone(256, 0, n - 2);
      }
      BytesCounted(x / 256, n - 1, limit - 1);
    }
  }

  /** EXP pushes the power modulo 2^256; an exponent of n bytes costs 10 each, from Spurious Dragon on 50. */
  lemma ExpMeaning(c: Context, st: State, n: nat)
    requires |st.stack| >= 2 && n <= 32
    requires Peek(st, 1) < Power(256, n) && (n > 0 ==> Peek(st, 1) >= Power(256, n - 1))
    ensures var r, price := Ordinary(c, OP_EXP, st), n * (if c.rev >= 3 then 50 else 10);
            && (r.Ok? <==> st.gas >= price)
            && (r.Ok? ==>
                  r.st == st.(gas := st.gas - price,
                              stack := st.stack[..|st.stack| - 2]
                                       + [Power(Peek(st, 0), Peek(st, 1)) % WORD_MODULUS]))
  {
    BytesCounted(Peek(st, 1), n, 32);
    hide Power, SignificantBytesLimited;
  }

  // ---------- copies ----------

  /** The bytes of memory after data has been copied to a range of it, zero-extended from an index on. */
  ghost predicate Copied(before: seq<Byte>, after: seq<Byte>, offset: nat, data: seq<Byte>, index: nat, size: nat) {
    && |after| == |Extended(before, offset, size)|
    && forall k :: 0 <= k < |after| ==>
         after[k] == if offset <= k < offset + size then ByteAt(data, index + (k - offset)) else ByteAt(before, k)
  }

  lemma CopyPaddedCopies(source: seq<Byte>, st: State)
    requires |st.stack| >= 3 && st.gas >= 0 && |st.mem| % 32 == 0
    ensures var to, from, size := Peek(st, 0), Peek(st, 1), Peek(st, 2);
            var r, price := CopyPadded(source, st), GrowthPrice(st.mem, to, size) + (size + 31) / 32 * 3;
            && (r.Ok? <==> Allowed(to, size) && st.gas >= price)
            && (r.Ok? ==>
                  && r.st == st.(gas := st.gas - price, mem := r.st.mem, stack := st.stack[..|st.stack| - 3])
                  && Copied(st.mem, r.st.mem, to, source, from, size))
  {
    hide CheckMemory, Store, GrowthPrice, Extended;
    var to, from, size := Peek(st, 0), Peek(st, 1), Peek(st, 2);
    CheckMemoryMeaning(st, to, size);
    ExtendedBytes(st.mem, to, size);
  }

  /** CALLDATACOPY copies from the input and CODECOPY from the code; both cost 3 per word. */
  lemma CopyMeaning(c: Context, op: Byte, st: State)
    requires (op == OP_CALLDATACOPY || op == OP_CODECOPY) && |st.stack| >= 3 && st.gas >= 0 && |st.mem| % 32 == 0
    ensures var to, from, size := Peek(st, 0), Peek(st, 1), Peek(st, 2);
            var r, price := Ordinary(c, op, st), GrowthPrice(st.mem, to, size) + (size + 31) / 32 * 3;
            && (r.Ok? <==> Allowed(to, size) && st.gas >= price)
            && (r.Ok? ==>
                  && r.st == st.(gas := st.gas - price, mem := r.st.mem, stack := st.stack[..|st.stack| - 3])
                  && Copied(st.mem, r.st.mem, to, if op == OP_CODECOPY then c.code else c.msg.input, from, size))
  {
    hide CopyPadded, Copied, GrowthPrice;
    CopyPaddedCopies(if op == OP_CODECOPY then c.code else c.msg.input, st);
  }

  /** RETURNDATACOPY refuses a range that the return data do not hold, and copies it for 3 per word. */
  lemma ReturnDataCopyMeaning(c: Context, st: State)
    requires |st.stack| >= 3 && st.gas >= 0 && |st.mem| % 32 == 0
    ensures var to, from, size := Peek(st, 0), Peek(st, 1), Peek(st, 2);
            var r, price := Ordinary(c, OP_RETURNDATACOPY, st), GrowthPrice(st.mem, to, size) + (size + 31) / 32 * 3;
            && (r.Ok? <==> Allowed(to, size) && from + size <= |st.returnData| && st.gas >= price)
            && (r.Ok? ==>
                  && r.st == st.(gas := st.gas - price, mem := r.st.mem, stack := st.stack[..|st.stack| - 3])
                  && Copied(st.mem, r.st.mem, to, st.returnData, from, size))
  {
    hide CheckMemory, Store, GrowthPrice, Extended;
    var to, from, size := Peek(st, 0), Peek(st, 1), Peek(st, 2);
    CheckMemoryMeaning(st, to, size);
    ExtendedBytes(st.mem, to, size);
  }

  /** Addresses have 20 bytes. */
  lemma AddressWidth()
    ensures ADDRESS_MODULUS == Power(256, 20)
  {
    hide Power;
    Power256();
    PowerAdd(256, 2, 2);
    PowerAdd(256, 4, 16);
    SquareOfByte();
  }

  lemma SquareOfByte()
    ensures Power(256, 2) == 65536
  {
  }

  /** The charge for the first access to an account, from Berlin on. */
  function ColdCharge(c: Context, trace: Trace, a: Address, charge: nat): nat {
    if c.rev >= 8 && c.host.isCold(trace, AccessAccount(a)) then charge else 0
  }

  /** The trace after an account has been accessed. */
  function Accessed(c: Context, trace: Trace, a: Address): Trace {
    if c.rev >= 8 then trace + [AccessAccount(a)] else trace
  }

  /** EXTCODECOPY copies what the host answers, for 3 per word and 2500 for a cold account. */
  lemma ExtCodeCopyMeaning(c: Context, st: State)
    requires |st.stack| >= 4 && st.gas >= 0 && |st.mem| % 32 == 0 && HonestHost(c.host)
    ensures var a, to, from, size := Peek(st, 0) % ADDRESS_MODULUS, Peek(st, 1), Peek(st, 2), Peek(st, 3);
            var request := CopyCode(a, if from < 0xffff_ffff then from else 0xffff_ffff, size);
            var price := GrowthPrice(st.mem, to, size) + (size + 31) / 32 * 3 + ColdCharge(c, st.trace, a, 2500);
            var r := Ordinary(c, OP_EXTCODECOPY, st);
            && (r.Ok? <==> Allowed(to, size) && st.gas >= price)
            && (r.Ok? ==>
                  && r.st == st.(gas := st.gas - price, mem := r.st.mem, stack := st.stack[..|st.stack| - 4],
                                 trace := Accessed(c, st.trace, a) + if size == 0 then [] else [request])
                  && Copied(st.mem, r.st.mem, to, c.host.bytes(Accessed(c, st.trace, a), request), 0, size))
  {
    hide CheckMemory, Store, GrowthPrice, Extended, HonestHost;
    var a, to, from, size := Peek(st, 0) % ADDRESS_MODULUS, Peek(st, 1), Peek(st, 2), Peek(st, 3);
    CheckMemoryMeaning(st, to, size);
    ExtendedBytes(st.mem, to, size);
    BoundedAnswer(c.host, Accessed(c, st.trace, a), a, Min(MAX_BUFFER_SIZE, from), size);
  }

  lemma BoundedAnswer(h: Host, t: Trace, a: Address, offset: nat, size: nat)
    requires HonestHost(h)
    ensures |h.bytes(t, CopyCode(a, offset, size))| <= size
  {
  }
}
