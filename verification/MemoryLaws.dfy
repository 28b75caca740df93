/** Memory: what its growth costs, why the 32-bit cap is harmless, and what copies and stores write. */
module MemoryLaws {
  import opened Words
  import opened Machine
  import opened MemoryExpansion
  import opened Instructions
  import opened InstructionLaws
  import opened TableStructure
  import opened ReachableStates
  import opened RunLaws
  import opened Simulation
  import B = Baseline

  // ---------- growth is path independent ----------

  datatype Access = Access(offset: Word, size: Word)

  /** A sequence of memory accesses, each paying for the growth it needs. */
  function CheckAll(st: State, accesses: seq<Access>): Outcome {
    if |accesses| == 0 then Ok(st)
    else
      var st :- CheckAll(st, accesses[..|accesses| - 1]);
      var last := accesses[|accesses| - 1];
      CheckMemory(st, last.offset, last.size)
  }

  /** The growth charges telescope: whatever the accesses were, the gas spent is the price of the
      memory at the end less the price of the memory at the start. */
  lemma {:induction false} GrowthTelescopes(st: State, accesses: seq<Access>)
    requires |st.mem| % 32 == 0
    ensures var r := CheckAll(st, accesses);
            r.Ok? ==>
              && |r.st.mem| % 32 == 0 && |st.mem| <= |r.st.mem|
              && st.gas - r.st.gas == MemoryCost(|r.st.mem| / 32) - MemoryCost(|st.mem| / 32)
              && r.st.mem == st.mem + Zeros(|r.st.mem| - |st.mem|)
  {
    if |accesses| > 0 {
      GrowthTelescopes(st, accesses[..|accesses| - 1]);
      var before := CheckAll(st, accesses[..|accesses| - 1]);
      if before.Ok? {
        var last := accesses[|accesses| - 1];
        OneGrowth(before.st, last.offset, last.size);
      }
    }
  }

  lemma OneGrowth(st: State, offset: Word, size: Word)
    requires |st.mem| % 32 == 0
    ensures var r := CheckMemory(st, offset, size);
            r.Ok? ==>
              && |r.st.mem| % 32 == 0 && |st.mem| <= |r.st.mem|
              && st.gas - r.st.gas == MemoryCost(|r.st.mem| / 32) - MemoryCost(|st.mem| / 32)
              && r.st.mem == st.mem + Zeros(|r.st.mem| - |st.mem|)
  {
    hide MemoryCost;
    assert st.mem + Zeros(0) == st.mem;
  }

  /** Two sequences of accesses that end with the same size cost the same. */
  lemma GrowthPathIndependent(st: State, xs: seq<Access>, ys: seq<Access>)
    requires |st.mem| % 32 == 0
    requires CheckAll(st, xs).Ok? && CheckAll(st, ys).Ok?
    requires |CheckAll(st, xs).st.mem| == |CheckAll(st, ys).st.mem|
    ensures CheckAll(st, xs).st.gas == CheckAll(st, ys).st.gas
    ensures CheckAll(st, xs).st.mem == CheckAll(st, ys).st.mem
  {
    hide CheckAll, MemoryCost;
    GrowthTelescopes(st, xs);
    GrowthTelescopes(st, ys);
  }

  // ---------- the cap ----------

  /** The check without the limit on offset and size. */
  function UncappedCheck(st: State, offset: Word, size: Word): Outcome {
    if size == 0 then Ok(st)
    else if offset + size > |st.mem| then GrowMemory(st, offset + size)
    else Ok(st)
  }

  /** The price of the first memory size that the cap forbids. */
  const CAP_COST: int := 3 * 0x800_0000 + 0x2000_0000_0000

  lemma CapCost()
    ensures MemoryCost(0x800_0000) == CAP_COST
  {
  }

  /** The cap rejects nothing that the uncapped cost would allow exactly if the gas and the memory
      already paid for are worth less than the first size beyond it. */
  lemma CapSoundExactly(st: State)
    requires st.gas >= 0
    ensures (forall offset: Word, size: Word :: CheckMemory(st, offset, size) == UncappedCheck(st, offset, size))
            <==> MemoryCost(|st.mem| / 32) + st.gas < CAP_COST
  {
    if MemoryCost(|st.mem| / 32) + st.gas < CAP_COST {
      forall offset: Word, size: Word
        ensures CheckMemory(st, offset, size) == UncappedCheck(st, offset, size)
      {
        CapSound(st, offset, size);
      }
    } else {
      CapRejects(st);
      hide CheckMemory, UncappedCheck, MemoryCost;
      assert CheckMemory(st, 0, 0x1_0000_0000) != UncappedCheck(st, 0, 0x1_0000_0000);
    }
  }

  lemma CapSound(st: State, offset: Word, size: Word)
    requires st.gas >= 0 && MemoryCost(|st.mem| / 32) + st.gas < CAP_COST
    ensures CheckMemory(st, offset, size) == UncappedCheck(st, offset, size)
  {
    CapCost();
    if size != 0 && (size > MAX_BUFFER_SIZE || offset > MAX_BUFFER_SIZE) {
      var w := NumWords(offset + size);
      assert w >= 0x800_0000;
      MemoryCostMonotone(0x800_0000, w);
      if |st.mem| / 32 >= 0x800_0000 {
        MemoryCostMonotone(0x800_0000, |st.mem| / 32);
      }
      hide MemoryCost;
      assert offset + size > |st.mem|;
    }
  }

  lemma CapRejects(st: State)
    requires st.gas >= 0 && MemoryCost(|st.mem| / 32) + st.gas >= CAP_COST
    ensures CheckMemory(st, 0, 0x1_0000_0000).Err? && UncappedCheck(st, 0, 0x1_0000_0000).Ok?
  {
    CapCost();
    hide MemoryCost;
    assert NumWords(0x1_0000_0000) == 0x800_0000;
  }

  /** The cap rejects nothing that the uncapped price would allow, at this state and at every state that an
      instruction passes through from there on while it pays for its memory. */
  ghost predicate CapUnnoticed(st: State) {
    forall s: State, offset: Word, size: Word ::
      s.gas >= 0 && PaysForMemory(st, s) ==> CheckMemory(s, offset, size) == UncappedCheck(s, offset, size)
  }

  lemma WithinCap(c: Context, st: State)
    requires MemoryCost(|st.mem| / 32) + st.gas <= c.msg.gas < CAP_COST
    ensures CapUnnoticed(st)
  {
    hide CheckMemory, UncappedCheck;
    forall s: State, offset: Word, size: Word | s.gas >= 0 && PaysForMemory(st, s)
      ensures CheckMemory(s, offset, size) == UncappedCheck(s, offset, size)
    {
      CapSound(s, offset, size);
    }
  }

  /** A message with less gas than that never notices the cap. Every check is made from a state that Baseline
      reaches or, in Advanced, from one that it reaches or, for calls and creations, from that state with
      the pre-charge given back. */
  lemma CapNeverNoticed(c: Context, jumpMap: seq<bool>, padded: seq<Byte>, n: nat)
    requires HonestHost(c.host) && 0 <= c.msg.gas < CAP_COST
    requires B.IsPadded(c.code, padded) && B.IsJumpMap(c.code, jumpMap)
    ensures var b := BaselineAfter(c, jumpMap, padded, n);
            b.Go? ==> CapUnnoticed(b.st)
    ensures var a := AdvancedAfter(c, n);
            a.Go? ==> CapUnnoticed(a.st)
    ensures var a := AdvancedAfter(c, n);
            a.Go? && Addressable(c.code) && Corrects(An(c), a.ip) ==>
              CapUnnoticed(Restored(An(c), a.ip, a.st, a.blockCost))
  {
    hide BaselineAfter, AdvancedAfter, MemoryCost, TraceExtends, B.IsPadded, B.IsJumpMap, HonestHost, CapUnnoticed,
         Addressable, An;
    BaselineStatesWithinMeans(c, jumpMap, padded, n);
    AdvancedStatesWithinMeans(c, n);
    var b, a := BaselineAfter(c, jumpMap, padded, n), AdvancedAfter(c, n);
    if b.Go? {
      WithinCap(c, b.st);
    }
    if a.Go? {
      WithinCap(c, a.st);
      if Addressable(c.code) && Corrects(An(c), a.ip) {
        StatesInRange(c, n);
        WithinCap(c, Restored(An(c), a.ip, a.st, a.blockCost));
      }
    }
  }

  // ---------- what copies write ----------

  /** CALLDATACOPY and CODECOPY write exactly the zero-extended slice of their source, and nothing else. */
  lemma CopyPaddedMeaning(source: seq<Byte>, st: State, i: nat)
    requires |st.stack| >= 3 && CopyPadded(source, st).Ok?
    requires i < |CopyPadded(source, st).st.mem|
    ensures var memIndex, inputIndex, size := Peek(st, 0), Peek(st, 1), Peek(st, 2);
            CopyPadded(source, st).st.mem[i] ==
            if memIndex <= i < memIndex + size then ByteAt(source, inputIndex + (i - memIndex))
            else ByteAt(st.mem, i)
  {
    hide CheckMemory, NumWords, Store;
    var memIndex, inputIndex, size := Peek(st, 0), Peek(st, 1), Peek(st, 2);
    CheckMemoryContents(st, memIndex, size);
    var src := if |source| < inputIndex then |source| else inputIndex;
    var copySize := Min(size, |source| - src);
    PaddedStore(CheckMemory(st, memIndex, size).st.mem, memIndex, source[src..src + copySize], size, i);
  }

  /** Bytes followed by zeros. */
  lemma PaddedStore(mem: seq<Byte>, offset: nat, bytes: seq<Byte>, size: nat, i: nat)
    requires |bytes| <= size && (size != 0 ==> offset + size <= |mem|) && i < |mem|
    ensures var r := Store(Store(mem, offset, bytes), offset + |bytes|, Zeros(size - |bytes|));
            r[i] == if offset <= i < offset + size then ByteAt(bytes, i - offset) else mem[i]
  {
    hide Store;
  }

  lemma CheckMemoryContents(st: State, offset: Word, size: Word)
    ensures var r := CheckMemory(st, offset, size);
            r.Ok? ==> forall i :: 0 <= i < |r.st.mem| ==> r.st.mem[i] == ByteAt(st.mem, i)
  {
    hide MemoryCost;
  }

  // ---------- what is stored can be loaded ----------

  lemma {:induction false} LoadStored(x: nat, n: nat)
    requires x < Power(256, n)
    ensures BeLoad(BeStore(x, n)) == x
  {
    if n > 0 {
      assert x / 256 < Power(256, n - 1);
      LoadStored(x / 256, n - 1);
      var bytes := BeStore(x, n);
      assert bytes[..|bytes| - 1] == BeStore(x / 256, n - 1);
    }
  }

  /** MLOAD after MSTORE at the same index finds the value, at no further cost and without change. */
  lemma StoreThenLoad(st: State)
    requires |st.stack| >= 2 && Mstore(st).Ok?
    ensures var index, value := Peek(st, 0), Peek(st, 1);
            var stored := Mstore(st).st;
            && index + 32 <= |stored.mem|
            && Mload(Push(stored, index)) == Ok(Push(stored, value))
  {
    var index, value := Peek(st, 0), Peek(st, 1);
    Power256();
    LoadStored(value, 32);
    var stored := Mstore(st).st;
    hide BeStore, BeLoad, GrowMemory, Power;
    assert stored.mem[index..index + 32] == BeStore(value, 32);
    assert Drop(Push(stored, index), 1) == stored;
  }
}
