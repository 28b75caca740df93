/** The mutable execution state and the instructions that work on it in place. Each method is tied to
    the instruction's meaning on state values. */
module ExecutionState {
  import opened Words
  import opened InstructionTraits
  import opened Machine
  import opened MemoryExpansion
  import opened Storage
  import I = Instructions

  /** The same outcome with other items on the stack. */
  function WithStack(o: Outcome, items: seq<Word>): Outcome {
    match o
    case Ok(st) => Ok(st.(stack := items))
    case Err(_, _) => o
  }

  lemma SmallCheckIgnoresStack(st: State, items: seq<Word>, offset: Word, size: nat)
    ensures CheckMemorySmall(st.(stack := items), offset, size) == WithStack(CheckMemorySmall(st, offset, size), items)
    ensures CheckMemorySmall(st, offset, size).Ok? ==> CheckMemorySmall(st, offset, size).st.stack == st.stack
  {
    hide MemoryCost;
  }

  lemma CheckIgnoresStack(st: State, items: seq<Word>, offset: Word, size: Word)
    ensures CheckMemory(st.(stack := items), offset, size) == WithStack(CheckMemory(st, offset, size), items)
    ensures CheckMemory(st, offset, size).Ok? ==> CheckMemory(st, offset, size).st.stack == st.stack
  {
    SmallCheckIgnoresStack(st, items, offset, size);
  }

  /** The memory check followed by a charge per word. */
  function PaidRange(st: State, offset: Word, size: Word, perWord: nat): (r: Outcome)
    ensures r.Ok? && size != 0 ==> offset + size <= |r.st.mem|
  {
    var st :- CheckMemory(st, offset, size);
    Charge(st, NumWords(size) * perWord)
  }

  lemma PaidRangeIgnoresStack(st: State, items: seq<Word>, offset: Word, size: Word, perWord: nat)
    ensures PaidRange(st.(stack := items), offset, size, perWord)
              == WithStack(PaidRange(st, offset, size, perWord), items)
    ensures PaidRange(st, offset, size, perWord).Ok? ==>
              var after := PaidRange(st, offset, size, perWord).st;
              after.stack == st.stack && after.returnData == st.returnData && after.trace == st.trace
    ensures PaidRange(st, offset, size, perWord).Err? ==>
              PaidRange(st, offset, size, perWord) == Fail(OutOfGas, st)
  {
    CheckFrame(st, offset, size);
    hide CheckMemory, NumWords;
    CheckIgnoresStack(st, items, offset, size);
  }

  lemma CheckFrame(st: State, offset: Word, size: Word)
    ensures var r := CheckMemory(st, offset, size);
            if r.Ok? then r.st.stack == st.stack && r.st.returnData == st.returnData && r.st.trace == st.trace
            else r == Fail(OutOfGas, st)
  {
    hide MemoryCost;
  }

  function ForeignCodeCopied(c: Context, st: State, a: Address, memIndex: Word, inputIndex: Word, size: Word): State
    requires memIndex + size <= |st.mem|
  {
    var request := CopyCode(a, Min(MAX_BUFFER_SIZE, inputIndex), size);
    var answer := c.host.bytes(st.trace, request);
    var copied := if |answer| <= size then answer else answer[..size];
    var mem := Store(st.mem, memIndex, copied);
    Note(st, request).(mem := Store(mem, memIndex + |copied|, Zeros(size - |copied|)))
  }

  lemma Keccak256Paid(c: Context, st: State)
    requires |st.stack| >= 2
    ensures I.Keccak256(c, st) ==
            match PaidRange(st, Peek(st, 0), Peek(st, 1), 6)
            case Err(status, trace) => Err(status, trace)
            case Ok(s) =>
              if |s.stack| < 2 then Ok(s) else Ok(Replace(s, 2, c.keccak(Slice(s.mem, Peek(st, 0), Peek(st, 1)))))
  {
    hide CheckMemory, NumWords, Slice;
    CheckIgnoresStack(st, [], Peek(st, 0), Peek(st, 1));
  }

  lemma CopyPaddedPaid(source: seq<Byte>, st: State)
    requires |st.stack| >= 3
    ensures var memIndex, inputIndex, size := Peek(st, 0), Peek(st, 1), Peek(st, 2);
            I.CopyPadded(source, st) ==
            match PaidRange(st, memIndex, size, 3)
            case Err(status, trace) => Err(status, trace)
            case Ok(s) =>
              var src := if |source| < inputIndex then |source| else inputIndex;
              var copySize := Min(size, |source| - src);
              var mem := Store(s.mem, memIndex, source[src..src + copySize]);
              Ok(s.(stack := st.stack[..|st.stack| - 3],
                    mem := Store(mem, memIndex + copySize, Zeros(size - copySize))))
  {
    hide CheckMemory, NumWords, Store;
    CheckIgnoresStack(st, [], Peek(st, 0), Peek(st, 2));
  }

  function CopiedAfterTouch(c: Context, st: State, a: Address, memIndex: Word, inputIndex: Word, size: Word): Outcome
    requires size != 0 ==> memIndex + size <= |st.mem|
  {
    TouchIgnoresStack(c, st, [], a, ADDITIONAL_COLD_ACCOUNT_ACCESS_COST);
    var st :- I.TouchAccount(c, st, a, ADDITIONAL_COLD_ACCOUNT_ACCESS_COST);
    Ok(if size == 0 then st else ForeignCodeCopied(c, st, a, memIndex, inputIndex, size))
  }

  lemma ExtCodeCopyPaid(c: Context, st: State)
    requires |st.stack| >= 4
    ensures var a := I.AddressOf(Peek(st, 0));
            var memIndex, inputIndex, size := Peek(st, 1), Peek(st, 2), Peek(st, 3);
            I.ExtCodeCopy(c, st) ==
            match PaidRange(st, memIndex, size, 3)
            case Err(status, trace) => Err(status, trace)
            case Ok(s) =>
              CopiedAfterTouch(c, s.(stack := st.stack[..|st.stack| - 4]), a, memIndex, inputIndex, size)
  {
    hide CheckMemory, NumWords, Store, I.TouchAccount;
    var memIndex, size := Peek(st, 1), Peek(st, 3);
    CheckIgnoresStack(st, [], memIndex, size);
    var r := PaidRange(st, memIndex, size, 3);
    if r.Ok? {
      TouchIgnoresStack(c, r.st, st.stack[..|st.stack| - 4], I.AddressOf(Peek(st, 0)),
                        ADDITIONAL_COLD_ACCOUNT_ACCESS_COST);
    }
  }

  /** The n items at the top of the stack, from the top down. */
  function TopItems(items: seq<Word>, n: nat): seq<Word>
    requires n <= |items|
  {
    seq(n, i requires 0 <= i < n => items[|items| - 1 - i])
  }

  lemma DropTwice(st: State, m: nat, n: nat)
    requires m + n <= |st.stack|
    ensures Drop(Drop(st, m), n) == Drop(st, m + n)
    ensures m == 2 ==> TopItems(Drop(st, 2).stack, n) == I.Topics(st, n)
  {
  }

  lemma TouchIgnoresStack(c: Context, st: State, items: seq<Word>, a: Address, surcharge: nat)
    ensures I.TouchAccount(c, st.(stack := items), a, surcharge)
              == WithStack(I.TouchAccount(c, st, a, surcharge), items)
    ensures I.TouchAccount(c, st, a, surcharge).Ok? ==>
              var after := I.TouchAccount(c, st, a, surcharge).st;
              after.stack == st.stack && after.mem == st.mem && after.returnData == st.returnData
    ensures I.TouchAccount(c, st, a, surcharge).Err? ==> I.TouchAccount(c, st, a, surcharge).status == OutOfGas
  {
  }

  /** What the charges of a call leave alone, and the memory ranges they guarantee. */
  lemma CallChargesFrame(c: Context, op: Byte, a: I.CallArgs, st: State)
    requires I.IsCall(op)
    ensures var r := I.CallCharges(c, op, a, st);
            r.Ok? ==>
              && r.st.stack == st.stack
              && (a.inputSize != 0 ==> a.inputOffset + a.inputSize <= |r.st.mem|)
              && (a.outputSize != 0 ==> a.outputOffset + a.outputSize <= |r.st.mem|)
  {
    hide MemoryCost;
  }

  lemma HostReturns(h: Host, t: Trace, m: Message)
    requires HonestHost(h) && m.gas >= 0
    ensures 0 <= h.call(t, m).gasLeft <= m.gas
  {
  }

  lemma SstoreCostBound(rev: Revision, accessCost: nat, status: StorageStatus)
    requires accessCost <= COLD_SLOAD_COST
    ensures I.SstoreCost(rev, accessCost, status) <= COLD_SLOAD_COST + 20000
  {
  }

  lemma LogOperands(op: Byte)
    requires I.IsLog(op)
    ensures StackRequired(op) == op - OP_LOG0 + 2
  {
  }

  lemma CreateOperands(op: Byte)
    requires I.IsCreate(op)
    ensures StackRequired(op) == if op == OP_CREATE2 then 4 else 3
  {
  }

  lemma CallOperands(op: Byte)
    requires I.IsCall(op)
    ensures StackRequired(op) == if I.HasValueOperand(op) then 7 else 6
  {
  }

  class Execution {
    /** The 64-bit gas counter: every value it takes, negative ones included, fits. */
    var gasLeft: Int64
    const stack: Stack
    const memory: Memory
    var ctx: Context
    var returnData: seq<Byte>

    /** The requests made so far; the host answers in dependence on them. */
    var trace: Trace

    var status: Status
    var outputOffset: nat
    var outputSize: nat

    ghost predicate Valid()
      reads this, stack, memory
    {
      stack.Valid() && memory.Valid() && (stack.storage as object) != memory.data
    }

    ghost function Value(): State
      requires Valid()
      reads this, stack, stack.storage, memory, memory.data
    {
      State(gasLeft, stack.Items(), memory.Contents(), returnData, trace)
    }

    /** The state and status that an instruction with the given meaning leaves behind. */
    ghost predicate Reached(meaning: Outcome, s: Status)
      reads this, stack, stack.storage, memory, memory.data
    {
      && Valid()
      && match meaning
         case Ok(after) => s == Success && Value() == after
         case Err(failure, requests) => s == failure && trace == requests
    }

    // ---------- creation and reuse ----------

    constructor (c: Context)
      requires INT64_MIN <= c.msg.gas <= INT64_MAX
      ensures Valid() && ctx == c && Value() == InitialState(c)
      ensures status == Success && outputOffset == 0 && outputSize == 0
      ensures fresh(stack) && fresh(stack.storage) && fresh(memory) && fresh(memory.data)
    {
      stack := new Stack();
      memory := new Memory();
      gasLeft := c.msg.gas;
      ctx := c;
      returnData, trace := [], [];
      status, outputOffset, outputSize := Success, 0, 0;
    }

    /** Prepares a used state for another message. Stale stack items, stale memory bytes and the capacity
        stay behind, yet the state is worth the same as a new one. */
    method Reset(c: Context)
      requires Valid() && INT64_MIN <= c.msg.gas <= INT64_MAX
      modifies this, stack`size, memory`size
      ensures Valid() && ctx == c && Value() == InitialState(c)
      ensures status == Success && outputOffset == 0 && outputSize == 0
      ensures memory.data == old(memory.data)
    {
      gasLeft := c.msg.gas;
      stack.Clear();
      memory.Clear();
      ctx := c;
      returnData, trace := [], [];
      status, outputOffset, outputSize := Success, 0, 0;
    }

    // ---------- gas and memory ----------

    method GrowMemory(newSize: nat) returns (ok: bool)
      requires Valid() && gasLeft >= 0 && memory.size < newSize <= 2 * MAX_BUFFER_SIZE
      modifies `gasLeft, memory, memory.data
      ensures Valid() && (memory.data == old(memory.data) || fresh(memory.data))
      ensures gasLeft <= old(gasLeft) && (ok ==> gasLeft >= 0)
      ensures MemoryExpansion.GrowMemory(old(Value()), newSize)
                == if ok then Ok(Value()) else Fail(OutOfGas, old(Value()))
      ensures ok <==> old(gasLeft) >= PriceBetween(old(memory.size) / 32, (newSize + 31) / 32)
      ensures ok ==> gasLeft == old(gasLeft) - PriceBetween(old(memory.size) / 32, (newSize + 31) / 32)
    {
      hide MemoryCost, PriceBetween;
      GrowthInRange(memory.size, newSize);
      PriceIsDifference(memory.size / 32, NumWords(newSize));
      var newWords := NumWords(newSize);
      var currentWords := memory.size / 32;
      var cost := MemoryCost(newWords) - MemoryCost(currentWords);
      gasLeft := gasLeft - cost;
      if gasLeft < 0 {
        return false;
      }
      memory.Grow(newWords * 32);
      return true;
    }

    method CheckMemorySmall(offset: Word, size: nat) returns (ok: bool)
      requires Valid() && gasLeft >= 0 && size <= MAX_BUFFER_SIZE
      modifies `gasLeft, memory, memory.data
      ensures Valid() && (memory.data == old(memory.data) || fresh(memory.data))
      ensures gasLeft <= old(gasLeft) && (ok ==> gasLeft >= 0)
      ensures MemoryExpansion.CheckMemorySmall(old(Value()), offset, size)
                == if ok then Ok(Value()) else Fail(OutOfGas, old(Value()))
    {
      if offset > MAX_BUFFER_SIZE {
        return false;
      }
      var newSize := offset + size;
      if newSize > memory.size {
        ok := GrowMemory(newSize);
        return;
      }
      return true;
    }

    method CheckMemory(offset: Word, size: Word) returns (ok: bool)
      requires Valid() && gasLeft >= 0
      modifies `gasLeft, memory, memory.data
      ensures Valid() && (memory.data == old(memory.data) || fresh(memory.data))
      ensures gasLeft <= old(gasLeft) && (ok ==> gasLeft >= 0 && size <= MAX_BUFFER_SIZE)
      ensures MemoryExpansion.CheckMemory(old(Value()), offset, size)
                == if ok then Ok(Value()) else Fail(OutOfGas, old(Value()))
    {
      if size == 0 {
        return true;
      }
      if size > MAX_BUFFER_SIZE {
        return false;
      }
      ok := CheckMemorySmall(offset, size);
    }

    // ---------- operands ----------

    method PopTwo() returns (x: Word, y: Word)
      requires Valid() && stack.size >= 2
      modifies stack`size
      ensures Valid() && Value() == Drop(old(Value()), 2)
      ensures x == Peek(old(Value()), 0) && y == Peek(old(Value()), 1)
    {
      x := stack.Pop();
      y := stack.Pop();
    }

    method PopThree() returns (x: Word, y: Word, z: Word)
      requires Valid() && stack.size >= 3
      modifies stack`size
      ensures Valid() && Value() == Drop(old(Value()), 3)
      ensures x == Peek(old(Value()), 0) && y == Peek(old(Value()), 1) && z == Peek(old(Value()), 2)
    {
      x, y := PopTwo();
      z := stack.Pop();
    }

    /** Checks the memory range and pays a price per word of it. */
    method PayForRange(offset: Word, size: Word, perWord: nat) returns (ok: bool)
      requires Valid() && gasLeft >= 0 && perWord <= 6
      modifies `gasLeft, memory, memory.data
      ensures Valid() && (memory.data == old(memory.data) || fresh(memory.data))
      ensures PaidRange(old(Value()), offset, size, perWord) == if ok then Ok(Value()) else Fail(OutOfGas, old(Value()))
      ensures ok ==> gasLeft >= 0
    {
      hide MemoryExpansion.CheckMemory, NumWords;
      CheckIgnoresStack(Value(), [], offset, size);
      ok := CheckMemory(offset, size);
      if ok {
        WordPriceInRange(size, perWord);
        gasLeft := gasLeft - NumWords(size) * perWord;
        ok := gasLeft >= 0;
      }
    }

    // ---------- memory instructions ----------

    method Mload() returns (s: Status)
      requires Valid() && gasLeft >= 0 && stack.size >= 1
      modifies `gasLeft, stack.storage, memory, memory.data
      ensures Reached(I.Mload(old(Value())), s) && (memory.data == old(memory.data) || fresh(memory.data))
    {
      hide MemoryExpansion.CheckMemorySmall, LoadWord;
      ghost var st := Value();
      var index := stack.At(0);
      SmallCheckIgnoresStack(st, [], index, 32);
      var ok := CheckMemorySmall(index, 32);
      if !ok {
        return OutOfGas;
      }
      var bytes := memory.Read(index, 32);
      stack.Put(0, LoadWord(bytes));
      assert stack.Items() == st.stack[..|st.stack| - 1] + [LoadWord(bytes)];
      return Success;
    }

    method Mstore() returns (s: Status)
      requires Valid() && gasLeft >= 0 && stack.size >= 2
      modifies `gasLeft, stack`size, memory, memory.data
      ensures Reached(I.Mstore(old(Value())), s) && (memory.data == old(memory.data) || fresh(memory.data))
    {
      hide MemoryExpansion.CheckMemorySmall, BeStore, Store;
      ghost var st := Value();
      var index := stack.Pop();
      var value := stack.Pop();
      assert Value() == Drop(st, 2);
      SmallCheckIgnoresStack(st, stack.Items(), index, 32);
      var ok := CheckMemorySmall(index, 32);
      if !ok {
        return OutOfGas;
      }
      memory.Write(index, BeStore(value, 32));
      return Success;
    }

    method Mstore8() returns (s: Status)
      requires Valid() && gasLeft >= 0 && stack.size >= 2
      modifies `gasLeft, stack`size, memory, memory.data
      ensures Reached(I.Mstore8(old(Value())), s) && (memory.data == old(memory.data) || fresh(memory.data))
    {
      hide MemoryExpansion.CheckMemorySmall, Store;
      ghost var st := Value();
      var index := stack.Pop();
      var value := stack.Pop();
      assert Value() == Drop(st, 2);
      SmallCheckIgnoresStack(st, stack.Items(), index, 1);
      var ok := CheckMemorySmall(index, 1);
      if !ok {
        return OutOfGas;
      }
      memory.Write(index, [value % 256]);
      return Success;
    }

    method Keccak256() returns (s: Status)
      requires Valid() && gasLeft >= 0 && stack.size >= 2
      modifies `gasLeft, stack`size, stack.storage, memory, memory.data
      ensures Reached(I.Keccak256(ctx, old(Value())), s) && (memory.data == old(memory.data) || fresh(memory.data))
    {
      hide PaidRange, Slice, I.Keccak256;
      ghost var st := Value();
      var index := stack.Pop();
      var size := stack.At(0);
      assert Value() == Drop(st, 1);
      PaidRangeIgnoresStack(st, stack.Items(), index, size, 6);
      Keccak256Paid(ctx, st);
      var ok := PayForRange(index, size, 6);
      if !ok {
        return OutOfGas;
      }
      var data := memory.Read(index, size);
      stack.Put(0, ctx.keccak(data));
      assert stack.Items() == st.stack[..|st.stack| - 2] + [ctx.keccak(data)];
      return Success;
    }

    method Exp() returns (s: Status)
      requires Valid() && gasLeft >= 0 && stack.size >= 2
      modifies `gasLeft, stack`size, stack.storage
      ensures Reached(I.Exp(ctx, old(Value())), s)
    {
      hide SignificantBytesLimited, Power;
      ghost var st := Value();
      var base := stack.Pop();
      var exponent := stack.At(0);
      var exponentCost := if ctx.rev >= SPURIOUS_DRAGON then 50 else 10;
      gasLeft := gasLeft - SignificantBytes(exponent) * exponentCost;
      if gasLeft < 0 {
        return OutOfGas;
      }
      var result := ToWord(Power(base, exponent));
      stack.Put(0, result);
      assert stack.Items() == st.stack[..|st.stack| - 2] + [result];
      return Success;
    }

    // ---------- copies ----------

    /** CALLDATACOPY and CODECOPY, with the source they copy from. */
    method CopyPadded(source: seq<Byte>) returns (s: Status)
      requires Valid() && gasLeft >= 0 && stack.size >= 3
      modifies `gasLeft, stack`size, memory, memory.data
      ensures Reached(I.CopyPadded(source, old(Value())), s)
      ensures memory.data == old(memory.data) || fresh(memory.data)
    {
      hide PaidRange, Store, I.CopyPadded;
      ghost var st := Value();
      CopyPaddedPaid(source, st);
      var memIndex, inputIndex, size := PopThree();
      PaidRangeIgnoresStack(st, stack.Items(), memIndex, size, 3);
      var ok := PayForRange(memIndex, size, 3);
      if !ok {
        return OutOfGas;
      }
      var src := if |source| < inputIndex then |source| else inputIndex;
      var copySize := Min(size, |source| - src);
      WritePadded(memIndex, source[src..src + copySize], size);
      return Success;
    }

    /** Writes the bytes and clears the rest of the range. */
    method WritePadded(offset: Word, bytes: seq<Byte>, size: Word)
      requires Valid() && |bytes| <= size && (size != 0 ==> offset + size <= memory.size)
      modifies memory.data
      ensures Valid() && Value() == old(Value()).(mem := Store(Store(old(Value()).mem, offset, bytes),
                                                              offset + |bytes|, Zeros(size - |bytes|)))
    {
      hide Store;
      memory.Write(offset, bytes);
      memory.Write(offset + |bytes|, Zeros(size - |bytes|));
    }

    method ReturnDataCopy() returns (s: Status)
      requires Valid() && gasLeft >= 0 && stack.size >= 3
      modifies `gasLeft, stack`size, memory, memory.data
      ensures Reached(I.ReturnDataCopy(old(Value())), s)
      ensures memory.data == old(memory.data) || fresh(memory.data)
    {
      hide MemoryExpansion.CheckMemory, Store;
      ghost var st := Value();
      var memIndex, inputIndex, size := PopThree();
      CheckIgnoresStack(st, stack.Items(), memIndex, size);
      CheckFrame(st, memIndex, size);
      var ok := CheckMemory(memIndex, size);
      if !ok {
        return OutOfGas;
      }
      if |returnData| < inputIndex {
        return InvalidMemoryAccess;
      }
      if inputIndex + size > |returnData| {
        return InvalidMemoryAccess;
      }
      WordPriceInRange(size, 3);
      gasLeft := gasLeft - NumWords(size) * 3;
      if gasLeft < 0 {
        return OutOfGas;
      }
      memory.Write(memIndex, returnData[inputIndex..inputIndex + size]);
      return Success;
    }

    // ---------- questions to the host ----------

    method AskWord(request: HostCall) returns (w: Word)
      modifies `trace
      ensures w == ctx.host.word(old(trace), request) && trace == old(trace) + [request]
    {
      w := ctx.host.word(trace, request);
      trace := trace + [request];
    }

    method TouchAccount(a: Address, surcharge: nat) returns (ok: bool)
      requires Valid() && gasLeft >= 0 && surcharge <= COLD_ACCOUNT_ACCESS_COST
      modifies `gasLeft, `trace
      ensures I.TouchAccount(ctx, old(Value()), a, surcharge) == if ok then Ok(Value()) else Err(OutOfGas, trace)
      ensures gasLeft <= old(gasLeft) && (ok ==> gasLeft >= 0)
    {
      if ctx.rev >= BERLIN {
        var request := AccessAccount(a);
        var cold := ctx.host.isCold(trace, request);
        trace := trace + [request];
        if cold {
          gasLeft := gasLeft - surcharge;
          if gasLeft < 0 {
            return false;
          }
        }
      }
      return true;
    }

    method ExtCodeCopy() returns (s: Status)
      requires Valid() && gasLeft >= 0 && stack.size >= 4
      modifies `gasLeft, `trace, stack`size, memory, memory.data
      ensures Reached(I.ExtCodeCopy(ctx, old(Value())), s)
      ensures memory.data == old(memory.data) || fresh(memory.data)
    {
      hide PaidRange, CopiedAfterTouch, I.ExtCodeCopy;
      ghost var st := Value();
      ExtCodeCopyPaid(ctx, st);
      var addressWord := stack.Pop();
      var memIndex, inputIndex, size := PopThree();
      assert Value() == Drop(st, 4);
      PaidRangeIgnoresStack(st, stack.Items(), memIndex, size, 3);
      var ok := PayForRange(memIndex, size, 3);
      if !ok {
        return OutOfGas;
      }
      s := TouchAndCopy(I.AddressOf(addressWord), memIndex, inputIndex, size);
    }

    method TouchAndCopy(a: Address, memIndex: Word, inputIndex: Word, size: Word) returns (s: Status)
      requires Valid() && gasLeft >= 0 && (size != 0 ==> memIndex + size <= memory.size)
      modifies `gasLeft, `trace, memory.data
      ensures Reached(CopiedAfterTouch(ctx, old(Value()), a, memIndex, inputIndex, size), s)
    {
      hide I.TouchAccount, ForeignCodeCopied;
      TouchIgnoresStack(ctx, Value(), [], a, ADDITIONAL_COLD_ACCOUNT_ACCESS_COST);
      var ok := TouchAccount(a, ADDITIONAL_COLD_ACCOUNT_ACCESS_COST);
      if !ok {
        return OutOfGas;
      }
      if size > 0 {
        CopyForeignCode(a, memIndex, inputIndex, size);
      }
      return Success;
    }

    /** Asks the host for code and clears what it did not supply. */
    method CopyForeignCode(a: Address, memIndex: Word, inputIndex: Word, size: Word)
      requires Valid() && memIndex + size <= memory.size
      modifies `trace, memory.data
      ensures Valid() && Value() == ForeignCodeCopied(ctx, old(Value()), a, memIndex, inputIndex, size)
    {
      hide Store;
      var request := CopyCode(a, Min(MAX_BUFFER_SIZE, inputIndex), size);
      var answer := ctx.host.bytes(trace, request);
      trace := trace + [request];
      var copied := if |answer| <= size then answer else answer[..size];
      WritePadded(memIndex, copied, size);
    }

    method AccountRead(op: Byte) returns (s: Status)
      requires Valid() && gasLeft >= 0 && stack.size >= 1
      modifies `gasLeft, `trace, stack.storage
      ensures Reached(I.AccountRead(ctx, op, old(Value())), s)
    {
      hide I.TouchAccount;
      ghost var st := Value();
      var x := stack.At(0);
      var a := I.AddressOf(x);
      TouchIgnoresStack(ctx, st, st.stack, a, ADDITIONAL_COLD_ACCOUNT_ACCESS_COST);
      var ok := TouchAccount(a, ADDITIONAL_COLD_ACCOUNT_ACCESS_COST);
      if !ok {
        return OutOfGas;
      }
      var request :=
        if op == OP_BALANCE then GetBalance(a)
        else if op == OP_EXTCODESIZE then GetCodeSize(a)
        else GetCodeHash(a);
      var w := AskWord(request);
      stack.Put(0, w);
      assert stack.Items() == st.stack[..|st.stack| - 1] + [w];
      return Success;
    }

    method Sload() returns (s: Status)
      requires Valid() && gasLeft >= 0 && stack.size >= 1
      modifies `gasLeft, `trace, stack.storage
      ensures Reached(I.Sload(ctx, old(Value())), s)
    {
      ghost var st := Value();
      var key := stack.At(0);
      if ctx.rev >= BERLIN {
        var access := AccessStorage(ctx.msg.recipient, key);
        var cold := ctx.host.isCold(trace, access);
        trace := trace + [access];
        if cold {
          gasLeft := gasLeft - (COLD_SLOAD_COST - WARM_STORAGE_READ_COST);
          if gasLeft < 0 {
            return OutOfGas;
          }
        }
      }
      var w := AskWord(GetStorage(ctx.msg.recipient, key));
      stack.Put(0, w);
      assert stack.Items() == st.stack[..|st.stack| - 1] + [w];
      return Success;
    }

    method BlockHash()
      requires Valid() && stack.size >= 1
      modifies `trace, stack.storage
      ensures Valid() && Value() == I.BlockHash(ctx, old(Value()))
    {
      ghost var st := Value();
      var number := stack.At(0);
      var header := 0;
      if Max(ctx.tx.number - 256, 0) <= number < ctx.tx.number {
        header := AskWord(GetBlockHash(number));
      }
      stack.Put(0, header);
      assert stack.Items() == st.stack[..|st.stack| - 1] + [header];
    }

    method SelfBalance()
      requires Valid() && stack.size < STACK_LIMIT
      modifies `trace, stack`size, stack.storage
      ensures Valid() && Value() == I.SelfBalance(ctx, old(Value()))
    {
      var w := AskWord(GetBalance(ctx.msg.recipient));
      stack.Push(w);
    }

    // ---------- instructions on the stack alone ----------

    method Binary(op: Byte)
      requires Valid() && I.IsBinary(op) && stack.size >= 2
      modifies stack`size, stack.storage
      ensures Valid() && Value() == I.Binary(op, old(Value()))
    {
      hide I.BinaryResult;
      ghost var st := Value();
      var x := stack.Pop();
      var y := stack.At(0);
      var w := I.BinaryResult(op, x, y);
      stack.Put(0, w);
      assert stack.Items() == st.stack[..|st.stack| - 2] + [w];
    }

    method Ternary(op: Byte)
      requires Valid() && I.IsTernary(op) && stack.size >= 3
      modifies stack`size, stack.storage
      ensures Valid() && Value() == I.Ternary(op, old(Value()))
    {
      hide I.TernaryResult;
      ghost var st := Value();
      var x := stack.Pop();
      var y := stack.Pop();
      var m := stack.At(0);
      var w := I.TernaryResult(op, x, y, m);
      stack.Put(0, w);
      assert stack.Items() == st.stack[..|st.stack| - 3] + [w];
    }

    /** The loop of CALLDATALOAD: copies what the input holds into a zeroed word. */
    method CallDataWord(index: Word) returns (w: Word)
      ensures w == I.CallDataWord(ctx.msg.input, index)
    {
      var input := ctx.msg.input;
      if |input| < index {
        return 0;
      }
      var end := Min(index + 32, |input|);
      var data := new Byte[32](_ => 0);
      var i: nat := 0;
      while i < end - index
        invariant 0 <= i <= end - index <= 32
        invariant forall k :: 0 <= k < 32 ==> data[k] == if k < i then input[index + k] else 0
      {
        data[i] := input[index + i];
        i := i + 1;
      }
      assert data[..] == input[index..end] + Zeros(32 - (end - index));
      w := LoadWord(data[..]);
    }

    method Unary(op: Byte)
      requires Valid() && I.IsUnary(op) && stack.size >= 1
      modifies stack.storage
      ensures Valid() && Value() == I.Unary(ctx, op, old(Value()))
    {
      hide I.CallDataWord;
      ghost var st := Value();
      var x := stack.At(0);
      var w: Word;
      if op == OP_ISZERO {
        w := FromBool(x == 0);
      } else if op == OP_NOT {
        w := NotWord(x);
      } else {
        w := CallDataWord(x);
      }
      stack.Put(0, w);
      assert stack.Items() == st.stack[..|st.stack| - 1] + [w];
    }

    method ContextRead(op: Byte)
      requires Valid() && I.IsContextRead(op) && stack.size < STACK_LIMIT
      modifies stack`size, stack.storage
      ensures Valid() && Value() == Push(old(Value()), I.ContextWord(ctx, op, old(Value())))
    {
      var w := if op == OP_MSIZE then ToWord(memory.size)
               else I.ContextWord(ctx, op, State(gasLeft, [], [], returnData, trace));
      stack.Push(w);
    }

    method StackOnly(op: Byte)
      requires Valid() && I.IsStackOnly(op) && 0 <= StackRequired(op) <= stack.size
      requires stack.size + StackChange(op) <= STACK_LIMIT
      modifies stack`size, stack.storage
      ensures Valid() && Value() == I.StackOnly(op, old(Value()))
    {
      ghost var st := Value();
      if op == OP_POP {
        stack.Discard(1);
      } else if OP_DUP1 <= op <= OP_DUP16 {
        var w := stack.At(op - OP_DUP1);
        stack.Push(w);
      } else if op >= OP_SWAP1 {
        var n := op - OP_SWAP1 + 1;
        var top := stack.At(0);
        var other := stack.At(n);
        stack.Put(0, other);
        stack.Put(n, top);
      }
    }

    // ---------- logs and storage ----------

    /** Checks the memory range of a log and pays for each byte of it. */
    method PayForData(offset: Word, size: Word) returns (ok: bool)
      requires Valid() && gasLeft >= 0
      modifies `gasLeft, memory, memory.data
      ensures Valid() && (memory.data == old(memory.data) || fresh(memory.data))
      ensures match MemoryExpansion.CheckMemory(old(Value()), offset, size)
              case Err(_, _) => !ok && trace == old(trace)
              case Ok(after) => Value() == after.(gas := after.gas - size * 8) && ok == (gasLeft >= 0)
    {
      hide MemoryExpansion.CheckMemory;
      ok := CheckMemory(offset, size);
      if ok {
        var cost: int := size;
        gasLeft := gasLeft - cost * 8;
        ok := gasLeft >= 0;
      }
    }

    method LogEvent(op: Byte) returns (s: Status)
      requires Valid() && gasLeft >= 0 && I.IsLog(op) && 0 <= StackRequired(op) <= stack.size
      modifies `gasLeft, `trace, stack`size, memory, memory.data
      ensures Reached(I.LogEvent(ctx, op, old(Value())), s)
      ensures memory.data == old(memory.data) || fresh(memory.data)
    {
      hide MemoryExpansion.CheckMemory, Slice, I.Topics, TopItems, StackRequired;
      LogOperands(op);
      if IsStatic(ctx.msg) {
        return StaticModeViolation;
      }
      ghost var st := Value();
      var offset, size := PopTwo();
      CheckIgnoresStack(st, stack.Items(), offset, size);
      CheckFrame(st, offset, size);
      var ok := PayForData(offset, size);
      if !ok {
        return OutOfGas;
      }
      EmitWithTopics(op - OP_LOG0, offset, size);
      DropTwice(st, 2, op - OP_LOG0);
      return Success;
    }

    /** Pops the topics and sends the log. */
    method EmitWithTopics(n: nat, offset: Word, size: Word)
      requires Valid() && n <= stack.size && (size != 0 ==> offset + size <= memory.size)
      modifies `trace, stack`size
      ensures Valid() && Value() == Note(Drop(old(Value()), n), EmitLog(ctx.msg.recipient,
                Slice(old(Value()).mem, offset, size), TopItems(old(Value()).stack, n)))
    {
      var topics := PopTopics(n);
      assert topics == TopItems(old(Value()).stack, n);
      var data := memory.Read(offset, size);
      trace := trace + [EmitLog(ctx.msg.recipient, data, topics)];
    }

    method PopTopics(n: nat) returns (topics: seq<Word>)
      requires Valid() && n <= stack.size
      modifies stack`size
      ensures Valid() && stack.Items() == old(stack.Items())[..old(stack.size) - n]
      ensures |topics| == n
      ensures forall i :: 0 <= i < n ==> topics[i] == old(stack.Items())[old(stack.size) - 1 - i]
    {
      topics := [];
      while |topics| < n
        invariant |topics| <= n && Valid() && stack.size == old(stack.size) - |topics|
        invariant stack.Items() == old(stack.Items())[..old(stack.size) - |topics|]
        invariant forall i :: 0 <= i < |topics| ==> topics[i] == old(stack.Items())[old(stack.size) - 1 - i]
      {
        var topic := stack.Pop();
        topics := topics + [topic];
      }
    }

    method Sstore() returns (s: Status)
      requires Valid() && gasLeft >= 0 && stack.size >= 2
      modifies `gasLeft, `trace, stack`size
      ensures Reached(I.Sstore(ctx, old(Value())), s)
    {
      hide I.SstoreCost;
      if IsStatic(ctx.msg) {
        return StaticModeViolation;
      }
      if ctx.rev >= ISTANBUL && gasLeft <= 2300 {
        return OutOfGas;
      }
      var key, value := PopTwo();
      var accessCost := 0;
      if ctx.rev >= BERLIN {
        var access := AccessStorage(ctx.msg.recipient, key);
        if ctx.host.isCold(trace, access) {
          accessCost := COLD_SLOAD_COST;
        }
        trace := trace + [access];
      }
      var request := SetStorage(ctx.msg.recipient, key, value);
      var storageStatus := ctx.host.status(trace, request);
      trace := trace + [request];
      SstoreCostBound(ctx.rev, accessCost, storageStatus);
      gasLeft := gasLeft - I.SstoreCost(ctx.rev, accessCost, storageStatus);
      if gasLeft < 0 {
        return OutOfGas;
      }
      return Success;
    }

    // ---------- calls ----------

    method PopCallArgs(op: Byte) returns (a: I.CallArgs)
      requires Valid() && I.IsCall(op) && 0 <= StackRequired(op) <= stack.size
      modifies stack`size
      ensures Valid() && a == I.PopCallArgs(op, old(Value()))
      ensures Value() == Drop(old(Value()), StackRequired(op))
    {
      hide StackRequired;
      CallOperands(op);
      ghost var st := Value();
      var gas, dst := PopTwo();
      var value: Word := 0;
      if I.HasValueOperand(op) {
        value := stack.Pop();
      }
      var inputOffset, inputSize := PopTwo();
      var outputOffset, outputSize := PopTwo();
      a := I.CallArgs(gas, I.AddressOf(dst), value, inputOffset, inputSize, outputOffset, outputSize);
      assert stack.Items() == st.stack[..|st.stack| - StackRequired(op)];
    }

    method CallAccess(a: I.CallArgs) returns (s: Status)
      requires Valid() && gasLeft >= 0
      modifies `gasLeft, `trace, memory, memory.data
      ensures Reached(I.CallAccess(ctx, a, old(Value())), s)
      ensures s == Success ==> 0 <= gasLeft <= old(gasLeft)
      ensures memory.data == old(memory.data) || fresh(memory.data)
    {
      hide MemoryExpansion.CheckMemory, I.TouchAccount;
      TouchIgnoresStack(ctx, Value(), [], a.dst, ADDITIONAL_COLD_ACCOUNT_ACCESS_COST);
      var ok := TouchAccount(a.dst, ADDITIONAL_COLD_ACCOUNT_ACCESS_COST);
      if !ok {
        return OutOfGas;
      }
      ok := CheckMemory(a.inputOffset, a.inputSize);
      if !ok {
        return OutOfGas;
      }
      ok := CheckMemory(a.outputOffset, a.outputSize);
      if !ok {
        return OutOfGas;
      }
      return Success;
    }

    method CallValueCharge(op: Byte, a: I.CallArgs) returns (s: Status)
      requires Valid() && gasLeft >= 0 && I.IsCall(op)
      modifies `gasLeft, `trace
      ensures Reached(I.CallValueCharge(ctx, op, a, old(Value())), s)
      ensures s == Success ==> 0 <= gasLeft && gasLeft + (if a.value != 0 then 9000 else 0) <= old(gasLeft)
    {
      var hasValue := a.value != 0;
      var cost := if hasValue then 9000 else 0;
      if op == OP_CALL || op == OP_STATICCALL {
        if hasValue && IsStatic(ctx.msg) {
          return StaticModeViolation;
        }
        if hasValue || ctx.rev < SPURIOUS_DRAGON {
          var request := AccountExists(a.dst);
          if !ctx.host.accountExists(trace, request) {
            cost := cost + 25000;
          }
          trace := trace + [request];
        }
      }
      gasLeft := gasLeft - cost;
      if gasLeft < 0 {
        return OutOfGas;
      }
      return Success;
    }

    method CallCharges(op: Byte, a: I.CallArgs) returns (s: Status)
      requires Valid() && gasLeft >= 0 && I.IsCall(op)
      modifies `gasLeft, `trace, memory, memory.data
      ensures Reached(I.CallCharges(ctx, op, a, old(Value())), s)
      ensures s == Success ==> 0 <= gasLeft && gasLeft + (if a.value != 0 then 9000 else 0) <= old(gasLeft)
      ensures memory.data == old(memory.data) || fresh(memory.data)
    {
      hide I.CallAccess, I.CallValueCharge;
      s := CallAccess(a);
      if s == Success {
        s := CallValueCharge(op, a);
      }
    }

    method CallHost(op: Byte, a: I.CallArgs, msgGas: Int64)
      requires Valid() && 0 <= msgGas <= gasLeft && HonestHost(ctx.host) && I.IsCall(op) && stack.size >= 1
      requires a.inputSize != 0 ==> a.inputOffset + a.inputSize <= memory.size
      requires a.outputSize != 0 ==> a.outputOffset + a.outputSize <= memory.size
      modifies `gasLeft, `trace, `returnData, stack.storage, memory.data
      ensures Reached(I.CallHost(ctx, op, a, msgGas, old(Value())), Success)
    {
      hide Store, Slice, HonestHost;
      ghost var st := Value();
      var input := memory.Read(a.inputOffset, a.inputSize);
      var msg := I.CallMessage(ctx, op, a, msgGas, input);
      HostReturns(ctx.host, trace, msg);
      var result := ctx.host.call(trace, msg);
      trace := trace + [HostCall.Call(msg)];
      returnData := result.output;
      stack.Put(0, FromBool(result.success));
      assert stack.Items() == st.stack[..|st.stack| - 1] + [FromBool(result.success)];
      var copySize := Min(a.outputSize, |result.output|);
      memory.Write(a.outputOffset, result.output[..copySize]);
      var gasUsed: Int64 := msgGas - result.gasLeft;
      gasLeft := gasLeft - gasUsed;
    }

    /** The gas wanted, from Tangerine Whistle on limited to all but a 64th of the gas left. */
    method OfferGas(requested: Word) returns (msgGas: Int64)
      requires gasLeft >= 0
      ensures msgGas == I.OfferedGas(ctx.rev, requested, gasLeft) >= 0
      ensures ctx.rev >= TANGERINE_WHISTLE ==> msgGas <= gasLeft
    {
      msgGas := INT64_MAX;
      if requested < msgGas {
        msgGas := requested;
      }
      if ctx.rev >= TANGERINE_WHISTLE {
        msgGas := Min(msgGas, gasLeft - gasLeft / 64);
      }
    }

    method CallSplit(op: Byte, a: I.CallArgs) returns (s: Status)
      requires Valid() && gasLeft >= 0 && HonestHost(ctx.host) && I.IsCall(op) && stack.size >= 1
      requires a.inputSize != 0 ==> a.inputOffset + a.inputSize <= memory.size
      requires a.outputSize != 0 ==> a.outputOffset + a.outputSize <= memory.size
      requires gasLeft + (if a.value != 0 then I.CALL_STIPEND else 0) <= INT64_MAX
      modifies `gasLeft, `trace, `returnData, stack.storage, memory.data
      ensures Reached(I.CallSplit(ctx, op, a, old(Value())), s)
    {
      hide I.CallHost, I.OfferedGas, HonestHost;
      var msgGas := OfferGas(a.gas);
      if ctx.rev < TANGERINE_WHISTLE && msgGas > gasLeft {
        return OutOfGas;
      }
      if a.value != 0 {
        msgGas := msgGas + I.CALL_STIPEND;
        gasLeft := gasLeft + I.CALL_STIPEND;
      }
      returnData := [];
      if ctx.msg.depth >= I.CALL_DEPTH_LIMIT {
        return Success;
      }
      if a.value != 0 {
        var balance := AskWord(GetBalance(ctx.msg.recipient));
        if balance < a.value {
          return Success;
        }
      }
      CallHost(op, a, msgGas);
      return Success;
    }

    method Call(op: Byte) returns (s: Status)
      requires Valid() && gasLeft >= 0 && HonestHost(ctx.host) && I.IsCall(op) && 0 <= StackRequired(op) <= stack.size
      modifies `gasLeft, `trace, `returnData, stack`size, stack.storage, memory, memory.data
      ensures Reached(I.CallInstr(ctx, op, old(Value())), s)
      ensures memory.data == old(memory.data) || fresh(memory.data)
    {
      hide I.CallCharges, I.CallSplit, I.PopCallArgs, HonestHost;
      ghost var st := Value();
      CallChargesFrame(ctx, op, I.PopCallArgs(op, st), Replace(st, StackRequired(op), 0));
      CallOperands(op);
      var a := PopCallArgs(op);
      assert stack.size == |Value().stack| == |st.stack| - StackRequired(op);
      stack.Push(0);
      assert Value() == Replace(st, StackRequired(op), 0);
      s := CallCharges(op, a);
      if s == Success {
        s := CallSplit(op, a);
      }
    }

    /** Sends the message of a creation and takes back the gas that it did not use. */
    method Send(msg: Message) returns (result: CallResult)
      requires 0 <= msg.gas <= gasLeft && HonestHost(ctx.host)
      modifies `gasLeft, `trace, `returnData
      ensures result == ctx.host.call(old(trace), msg) && trace == old(trace) + [HostCall.Call(msg)]
      ensures gasLeft == old(gasLeft) - (msg.gas - result.gasLeft) && returnData == result.output
    {
      HostReturns(ctx.host, trace, msg);
      result := ctx.host.call(trace, msg);
      trace := trace + [HostCall.Call(msg)];
      gasLeft := gasLeft - (msg.gas - result.gasLeft);
      returnData := result.output;
    }

    method CreateHost(op: Byte, endowment: Word, salt: Word, offset: Word, size: Word)
      requires Valid() && gasLeft >= 0 && HonestHost(ctx.host) && I.IsCreate(op) && stack.size >= 1
      requires size != 0 ==> offset + size <= memory.size
      modifies `gasLeft, `trace, `returnData, stack.storage
      ensures Reached(
        I.CreateHost(ctx, op, endowment, salt, Slice(old(Value()).mem, offset, size), old(Value())), Success)
    {
      hide Slice, HonestHost;
      ghost var st := Value();
      var msgGas: Int64 := gasLeft;
      if ctx.rev >= TANGERINE_WHISTLE {
        msgGas := msgGas - msgGas / 64;
      }
      var initCode := memory.Read(offset, size);
      var msg := Message(
        if op == OP_CREATE2 then KindCreate2 else KindCreate, 0, ctx.msg.depth + 1, msgGas,
        0, ctx.msg.recipient, 0, endowment, salt, initCode);
      var result := Send(msg);
      var top: Word := if result.success then result.createAddress else 0;
      stack.Put(0, top);
      assert stack.Items() == st.stack[..|st.stack| - 1] + [top];
    }

    method CreateSplit(op: Byte, endowment: Word, salt: Word, offset: Word, size: Word)
      requires Valid() && gasLeft >= 0 && HonestHost(ctx.host) && I.IsCreate(op) && stack.size >= 1
      requires size != 0 ==> offset + size <= memory.size
      modifies `gasLeft, `trace, `returnData, stack.storage
      ensures Reached(
        I.CreateSplit(ctx, op, endowment, salt, Slice(old(Value()).mem, offset, size), old(Value())), Success)
    {
      hide Slice, I.CreateHost, HonestHost;
      if ctx.msg.depth >= I.CALL_DEPTH_LIMIT {
        return;
      }
      if endowment != 0 {
        var balance := AskWord(GetBalance(ctx.msg.recipient));
        if balance < endowment {
          return;
        }
      }
      CreateHost(op, endowment, salt, offset, size);
    }

    /** The fourth operand of CREATE2 and the price of hashing the code. */
    method PopSalt(size: Word) returns (ok: bool, salt: Word)
      requires Valid() && gasLeft >= 0 && size <= MAX_BUFFER_SIZE && stack.size >= 1
      modifies `gasLeft, stack`size
      ensures Valid() && salt == Peek(old(Value()), 0)
      ensures Value() == Drop(old(Value()), 1).(gas := old(gasLeft) - NumWords(size) * 6)
      ensures ok <==> gasLeft >= 0
    {
      hide NumWords;
      WordPriceInRange(size, 6);
      salt := stack.Pop();
      gasLeft := gasLeft - NumWords(size) * 6;
      ok := gasLeft >= 0;
    }

    method CreateCharges(op: Byte) returns (s: Status, a: I.CreateArgs)
      requires Valid() && gasLeft >= 0 && I.IsCreate(op) && 0 <= StackRequired(op) <= stack.size
      modifies `gasLeft, `returnData, stack`size, stack.storage, memory, memory.data
      ensures s == Success ==> a == I.PopCreateArgs(op, old(Value()))
      ensures Reached(I.CreateCharges(op, old(Value())), s)
      ensures s == Success ==> gasLeft >= 0
      ensures memory.data == old(memory.data) || fresh(memory.data)
    {
      hide MemoryExpansion.CheckMemory, NumWords, StackRequired;
      CreateOperands(op);
      ghost var st := Value();
      var endowment, offset, size := PopThree();
      a := I.CreateArgs(endowment, offset, size, 0);
      CheckIgnoresStack(st, stack.Items(), offset, size);
      CheckFrame(st, offset, size);
      var ok := CheckMemory(offset, size);
      if !ok {
        return OutOfGas, a;
      }
      if op == OP_CREATE2 {
        var salt;
        ok, salt := PopSalt(size);
        a := a.(salt := salt);
        if !ok {
          return OutOfGas, a;
        }
      }
      stack.Push(0);
      returnData := [];
      assert stack.Items() == st.stack[..|st.stack| - StackRequired(op)] + [0];
      s := Success;
    }

    method Create(op: Byte) returns (s: Status)
      requires Valid() && gasLeft >= 0 && HonestHost(ctx.host) && I.IsCreate(op) && 0 <= StackRequired(op) <= stack.size
      modifies `gasLeft, `trace, `returnData, stack`size, stack.storage, memory, memory.data
      ensures Reached(I.CreateInstr(ctx, op, old(Value())), s)
      ensures memory.data == old(memory.data) || fresh(memory.data)
    {
      hide I.CreateCharges, I.CreateSplit, Slice, HonestHost;
      if IsStatic(ctx.msg) {
        return StaticModeViolation;
      }
      var a;
      s, a := CreateCharges(op);
      if s == Success {
        CreateSplit(op, a.endowment, a.salt, a.offset, a.size);
      }
    }

    // ---------- the end of an execution ----------

    /** The output window lies within the memory and holds the given bytes. */
    ghost predicate HasOutput(output: seq<Byte>)
      reads this, stack, memory, memory.data
    {
      && Valid()
      && (outputSize != 0 ==> outputOffset + outputSize <= memory.size)
      && output == Slice(memory.Contents(), outputOffset, outputSize)
    }

    /** The state and status that an execution with the given end leaves behind. */
    ghost predicate Ended(h: Halt, s: Status)
      reads this, stack, memory, memory.data
    {
      && HasOutput(h.output)
      && s == h.status && trace == h.st.trace
      && (s.Success? || s.Revert? ==> gasLeft == h.st.gas)
    }

    method Return(code: Status) returns (s: Status)
      requires Valid() && gasLeft >= 0 && stack.size >= 2 && outputSize == 0
      modifies `gasLeft, `outputOffset, `outputSize, memory, memory.data
      ensures Ended(I.ReturnWith(code, old(Value())), s)
      ensures memory.data == old(memory.data) || fresh(memory.data)
    {
      hide MemoryExpansion.CheckMemory;
      var offset := stack.At(0);
      var size := stack.At(1);
      CheckFrame(Value(), offset, size);
      var ok := CheckMemory(offset, size);
      if !ok {
        return OutOfGas;
      }
      outputOffset := offset;
      outputSize := size;
      return code;
    }

    method SelfDestructCharges(beneficiary: Address) returns (s: Status)
      requires Valid() && gasLeft >= 0
      modifies `gasLeft, `trace
      ensures Reached(I.SelfDestructCharges(ctx, beneficiary, old(Value())), s)
    {
      hide I.TouchAccount;
      TouchIgnoresStack(ctx, Value(), [], beneficiary, COLD_ACCOUNT_ACCESS_COST);
      var ok := TouchAccount(beneficiary, COLD_ACCOUNT_ACCESS_COST);
      if !ok {
        return OutOfGas;
      }
      if ctx.rev >= TANGERINE_WHISTLE {
        var sends := true;
        if ctx.rev != TANGERINE_WHISTLE {
          var balance := AskWord(GetBalance(ctx.msg.recipient));
          sends := balance != 0;
        }
        if sends {
          var request := AccountExists(beneficiary);
          var known := ctx.host.accountExists(trace, request);
          trace := trace + [request];
          gasLeft := gasLeft - (if known then 0 else 25000);
          if gasLeft < 0 {
            return OutOfGas;
          }
        }
      }
      return Success;
    }

    method SelfDestruct() returns (s: Status)
      requires Valid() && gasLeft >= 0 && stack.size >= 1 && outputSize == 0
      modifies `gasLeft, `trace
      ensures Ended(I.SelfDestructInstr(ctx, old(Value())), s)
    {
      hide I.SelfDestructCharges;
      if IsStatic(ctx.msg) {
        return StaticModeViolation;
      }
      var top := stack.At(0);
      var beneficiary := I.AddressOf(top);
      s := SelfDestructCharges(beneficiary);
      if s == Success {
        trace := trace + [HostCall.SelfDestruct(ctx.msg.recipient, beneficiary)];
      }
    }
  }
}
