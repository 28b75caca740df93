/** Memory growth and its quadratic cost. */
module MemoryExpansion {
  import opened Words
  import opened Machine

  const MAX_BUFFER_SIZE := 0xffff_ffff

  function NumWords(size: nat): nat {
    (size + 31) / 32
  }

  /** The total cost of a memory of w words. */
  function MemoryCost(w: nat): nat {
    3 * w + w * w / 512
  }

  function Zeros(n: nat): (r: seq<Byte>)
    ensures |r| == n
  {
    seq(n, _ => 0)
  }

  function GrowMemory(st: State, newSize: nat): (r: Outcome)
    requires newSize > |st.mem|
    ensures r.Ok? ==> newSize <= |r.st.mem| == 32 * NumWords(newSize)
  {
    var newWords := NumWords(newSize);
    var cost := MemoryCost(newWords) - MemoryCost(|st.mem| / 32);
    var st :- Charge(st, cost);
    Ok(st.(mem := st.mem + Zeros(newWords * 32 - |st.mem|)))
  }

  /** The total price of w words is 3 per word and the square of w over 512, rounded down. */
  lemma PriceExact(w: nat)
    ensures 512 * (MemoryCost(w) - 3 * w) <= w * w < 512 * (MemoryCost(w) - 3 * w) + 512
  {
  }

  /** The price of extending a memory of a words to b words. */
  function PriceBetween(a: nat, b: nat): int {
    if b <= a then 0 else 3 * (b - a) + (b * b / 512 - a * a / 512)
  }

  lemma PriceIsDifference(a: nat, b: nat)
    requires a <= b
    ensures MemoryCost(b) - MemoryCost(a) == PriceBetween(a, b) >= 0
  {
    MemoryCostMonotone(a, b);
  }

  /** Growth succeeds exactly if the gas covers the price of the new words, which is then spent. The memory keeps
      its contents and ends with zeros up to whole words. */
  lemma GrowMemoryExact(st: State, newSize: nat)
    requires newSize > |st.mem| && |st.mem| % 32 == 0
    ensures var r, price := GrowMemory(st, newSize), PriceBetween(|st.mem| / 32, (newSize + 31) / 32);
            && (r.Ok? <==> st.gas >= price)
            && (r.Ok? ==>
                  && r.st == st.(gas := st.gas - price, mem := r.st.mem)
                  && newSize <= |r.st.mem| < newSize + 32 && |r.st.mem| % 32 == 0
                  && st.mem <= r.st.mem
                  && (forall i :: |st.mem| <= i < |r.st.mem| ==> r.st.mem[i] == 0))
            && (r.Err? ==> r == Fail(OutOfGas, st))
  {
    PriceIsDifference(|st.mem| / 32, NumWords(newSize));
    hide MemoryCost, PriceBetween;
  }

  /** The check used for accesses of a small fixed size. */
  function CheckMemorySmall(st: State, offset: Word, size: nat): (r: Outcome)
    ensures r.Ok? ==> offset + size <= |r.st.mem|
  {
    if offset > MAX_BUFFER_SIZE then Fail(OutOfGas, st)
    else if offset + size > |st.mem| then GrowMemory(st, offset + size)
    else Ok(st)
  }

  /** The check used for accesses whose size is an operand. */
  function CheckMemory(st: State, offset: Word, size: Word): (r: Outcome)
    ensures r.Ok? && size != 0 ==> offset + size <= |r.st.mem|
  {
    if size == 0 then Ok(st)
    else if size > MAX_BUFFER_SIZE then Fail(OutOfGas, st)
    else CheckMemorySmall(st, offset, size)
  }

  /** The bytes read by an access that was checked before. */
  function Slice(mem: seq<Byte>, offset: nat, size: nat): (r: seq<Byte>)
    requires size != 0 ==> offset + size <= |mem|
    ensures |r| == size
  {
    if size == 0 then [] else mem[offset..offset + size]
  }

  /** Overwrites part of the memory. */
  function Store(mem: seq<Byte>, offset: nat, bytes: seq<Byte>): (r: seq<Byte>)
    requires |bytes| != 0 ==> offset + |bytes| <= |mem|
    ensures |r| == |mem|
    ensures forall i :: 0 <= i < |mem| ==>
      r[i] == if offset <= i < offset + |bytes| then bytes[i - offset] else mem[i]
  {
    if |bytes| == 0 then mem else mem[..offset] + bytes + mem[offset + |bytes|..]
  }

  /** The byte at position i of a byte string that is zero past its end. */
  function ByteAt(source: seq<Byte>, i: nat): Byte {
    if i < |source| then source[i] else 0
  }

  // ---------- laws of the cost ----------

  lemma MemoryCostMonotone(a: nat, b: nat)
    requires a <= b
    ensures MemoryCost(a) <= MemoryCost(b)
  {
    SquareMonotone(a, b);
  }

  lemma SquareMonotone(a: nat, b: nat)
    requires a <= b
    ensures a * a <= b * b
    ensures a * a / 512 <= b * b / 512
  {
    assert a * a <= a * b <= b * b;
    DivideMonotone(a * a, b * b);
  }

  lemma DivideMonotone(x: nat, y: nat)
    requires x <= y
    ensures x / 512 <= y / 512
  {
  }

  /** Thanks to the cap no cost of a growth comes near the limits of a 64-bit integer. */
  lemma GrowthInRange(mem: nat, newSize: nat)
    requires mem < newSize <= 2 * MAX_BUFFER_SIZE
    ensures 0 <= MemoryCost(mem / 32) <= MemoryCost(NumWords(newSize)) < 0x1_0000_0000_0000
  {
    var w := NumWords(newSize);
    assert w <= 0x1000_0000;
    MemoryCostMonotone(mem / 32, w);
    MemoryCostMonotone(w, 0x1000_0000);
    assert MemoryCost(0x1000_0000) == 3 * 0x1000_0000 + 0x8000_0000_0000;
  }

  /** Nor does a price per word of a range within the cap. */
  lemma WordPriceInRange(size: nat, perWord: nat)
    requires size <= MAX_BUFFER_SIZE && perWord <= 6
    ensures 0 <= NumWords(size) * perWord < 0x1_0000_0000
  {
    assert NumWords(size) <= 0x800_0000;
    assert NumWords(size) * perWord <= NumWords(size) * 6;
  }
}
