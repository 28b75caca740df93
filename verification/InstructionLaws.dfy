/** The laws that every instruction obeys, proved family by family. The block
    simulation and the whole-run properties rest on these laws alone. */
module InstructionLaws {
  import opened Words
  import opened InstructionTraits
  import opened Machine
  import opened MemoryExpansion
  import opened Instructions

  // ---------- what an instruction may do ----------

  /** A request that a static call is allowed to make. */
  predicate Harmless(call: HostCall) {
    match call
    case SetStorage(_, _, _) => false
    case EmitLog(_, _, _) => false
    case SelfDestruct(_, _) => false
    case Call(m) =>
      IsStatic(m) && !m.kind.KindCreate? && !m.kind.KindCreate2? && (m.kind.KindCall? ==> m.value == 0)
    case _ => true
  }

  /** The later trace extends the earlier one, in static mode only by harmless requests. */
  ghost predicate TraceExtends(c: Context, before: Trace, after: Trace) {
    && |before| <= |after|
    && after[..|before|] == before
    && (IsStatic(c.msg) ==> forall i :: |before| <= i < |after| ==> Harmless(after[i]))
  }

  /** Memory grows in whole words, and the gas pays for the growth. */
  ghost predicate PaysForMemory(before: State, after: State) {
    && |before.mem| <= |after.mem|
    && (|before.mem| % 32 == 0 ==> |after.mem| % 32 == 0)
    && MemoryCost(|after.mem| / 32) + after.gas <= MemoryCost(|before.mem| / 32) + before.gas
  }

  /** Gas never rises, memory is paid for, and the trace only grows. */
  ghost predicate Frugal(c: Context, before: State, after: State) {
    && 0 <= after.gas <= before.gas
    && PaysForMemory(before, after)
    && TraceExtends(c, before.trace, after.trace)
  }

  /** The stack changes by the declared height and only within the declared items. */
  ghost predicate StackDiscipline(op: Byte, before: State, after: State)
    requires 0 <= StackRequired(op) <= |before.stack|
  {
    var kept := |before.stack| - StackRequired(op);
    && |after.stack| == |before.stack| + StackChange(op)
    && kept <= |after.stack|
    && after.stack[..kept] == before.stack[..kept]
  }

  ghost predicate Lawful(c: Context, op: Byte, st: State, r: Outcome)
    requires 0 <= StackRequired(op) <= |st.stack|
  {
    match r
    case Ok(after) => Frugal(c, st, after) && StackDiscipline(op, st, after)
    case Err(_, trace) => TraceExtends(c, st.trace, trace)
  }

  // ---------- frugal building blocks ----------

  ghost predicate FrugalOutcome(c: Context, st: State, r: Outcome) {
    match r
    case Ok(after) => Frugal(c, st, after) && after.stack == st.stack
    case Err(_, trace) => TraceExtends(c, st.trace, trace)
  }

  lemma FrugalTransitive(c: Context, a: State, b: State, d: State)
    requires Frugal(c, a, b) && Frugal(c, b, d)
    ensures Frugal(c, a, d)
  {
    TraceTransitive(c, a.trace, b.trace, d.trace);
  }

  lemma TraceTransitive(c: Context, a: Trace, b: Trace, d: Trace)
    requires TraceExtends(c, a, b) && TraceExtends(c, b, d)
    ensures TraceExtends(c, a, d)
  {
    forall i | IsStatic(c.msg) && |a| <= i < |d|
      ensures Harmless(d[i])
    {
      if i < |b| {
        assert d[i] == d[..|b|][i] == b[i];
      }
    }
    assert d[..|a|] == d[..|b|][..|a|];
  }

  lemma SameButStack(c: Context, st: State, next: State)
    requires next == st.(stack := next.stack) && st.gas >= 0
    ensures Frugal(c, st, next)
  {
  }

  lemma OutcomeTransitive(c: Context, st: State, mid: State, r: Outcome)
    requires Frugal(c, st, mid) && mid.stack == st.stack && FrugalOutcome(c, mid, r)
    ensures FrugalOutcome(c, st, r)
  {
    match r
    case Ok(after) => FrugalTransitive(c, st, mid, after);
    case Err(_, trace) => TraceTransitive(c, st.trace, mid.trace, trace);
  }

  lemma CheckMemoryFrugal(c: Context, st: State, offset: Word, size: Word)
    requires st.gas >= 0
    ensures FrugalOutcome(c, st, CheckMemory(st, offset, size))
  {
    if 0 < size <= MAX_BUFFER_SIZE {
      CheckMemorySmallFrugal(c, st, offset, size);
    }
  }

  lemma CheckMemorySmallFrugal(c: Context, st: State, offset: Word, size: nat)
    requires st.gas >= 0
    ensures FrugalOutcome(c, st, CheckMemorySmall(st, offset, size))
  {
    hide MemoryCost, GrowMemory, FrugalOutcome;
    UnchangedFrugal(c, st);
    if offset <= MAX_BUFFER_SIZE && offset + size > |st.mem| {
      MemoryCostMonotone(|st.mem| / 32, NumWords(offset + size));
      GrowMemoryFrugal(c, st, offset + size);
    }
  }

  lemma UnchangedFrugal(c: Context, st: State)
    requires st.gas >= 0
    ensures FrugalOutcome(c, st, Ok(st)) && FrugalOutcome(c, st, Fail(OutOfGas, st))
  {
  }

  lemma GrowMemoryFrugal(c: Context, st: State, newSize: nat)
    requires st.gas >= 0 && newSize > |st.mem|
    requires MemoryCost(|st.mem| / 32) <= MemoryCost(NumWords(newSize))
    ensures FrugalOutcome(c, st, GrowMemory(st, newSize))
  {
    hide MemoryCost;
  }

  lemma TouchAccountFrugal(c: Context, st: State, a: Address, surcharge: nat)
    requires st.gas >= 0
    ensures FrugalOutcome(c, st, TouchAccount(c, st, a, surcharge))
  {
  }

  // ---------- the laws, family by family ----------

  lemma StackFamilyLawful(c: Context, op: Byte, st: State)
    requires IsBinary(op) || IsTernary(op) || IsUnary(op) || IsContextRead(op) || IsStackOnly(op)
    requires 0 <= StackRequired(op) <= |st.stack| && st.gas >= 0
    ensures Lawful(c, op, st, GasBlind(c, op, st))
  {
    hide BinaryResult, ContextWord, CallDataWord;
  }

  lemma HostReadLawful(c: Context, op: Byte, st: State)
    requires IsHostRead(op)
    requires 0 <= StackRequired(op) <= |st.stack| && st.gas >= 0
    ensures Lawful(c, op, st, HostRead(c, op, st))
  {
    hide AccountRead, Sload;
    if op == OP_SLOAD {
      SloadLawful(c, st);
    } else if op != OP_BLOCKHASH && op != OP_SELFBALANCE {
      AccountReadLawful(c, op, st);
    }
  }

  lemma SloadLawful(c: Context, st: State)
    requires 1 <= |st.stack| && st.gas >= 0
    ensures Lawful(c, OP_SLOAD, st, Sload(c, st))
  {
    hide MemoryCost;
  }

  lemma AccountReadLawful(c: Context, op: Byte, st: State)
    requires op == OP_BALANCE || op == OP_EXTCODESIZE || op == OP_EXTCODEHASH
    requires 1 <= |st.stack| && st.gas >= 0
    ensures Lawful(c, op, st, AccountRead(c, op, st))
  {
    TouchAccountFrugal(c, st, AddressOf(Peek(st, 0)), ADDITIONAL_COLD_ACCOUNT_ACCESS_COST);
  }

  lemma MemoryLawful(c: Context, op: Byte, st: State)
    requires IsMemory(op)
    requires 0 <= StackRequired(op) <= |st.stack| && st.gas >= 0
    ensures Lawful(c, op, st, Memory(c, op, st))
  {
    hide CheckMemory, CheckMemorySmall, MemoryCost;
    if op == OP_KECCAK256 {
      CheckMemoryFrugal(c, st, Peek(st, 0), Peek(st, 1));
    } else if op != OP_EXP {
      CheckMemorySmallFrugal(c, st, Peek(st, 0), if op == OP_MSTORE8 then 1 else 32);
    }
  }

  lemma CopyLawful(c: Context, op: Byte, st: State)
    requires IsCopy(op)
    requires 0 <= StackRequired(op) <= |st.stack| && st.gas >= 0
    ensures Lawful(c, op, st, Copy(c, op, st))
  {
    hide CheckMemory, CheckMemorySmall, MemoryCost;
    if op == OP_EXTCODECOPY {
      ExtCodeCopyLawful(c, st);
    } else {
      CheckMemoryFrugal(c, st, Peek(st, 0), Peek(st, 2));
    }
  }

  lemma ExtCodeCopyLawful(c: Context, st: State)
    requires 4 <= |st.stack| && st.gas >= 0
    ensures Lawful(c, OP_EXTCODECOPY, st, ExtCodeCopy(c, st))
  {
    hide CheckMemory, CheckMemorySmall, MemoryCost, TouchAccount;
    CheckMemoryFrugal(c, st, Peek(st, 1), Peek(st, 3));
    var r := CheckMemory(st, Peek(st, 1), Peek(st, 3));
    if r.Ok? {
      var r1 := Charge(r.st, NumWords(Peek(st, 3)) * 3);
      if r1.Ok? {
        TouchAccountFrugal(c, r1.st, AddressOf(Peek(st, 0)), ADDITIONAL_COLD_ACCOUNT_ACCESS_COST);
        var r2 := TouchAccount(c, r1.st, AddressOf(Peek(st, 0)), ADDITIONAL_COLD_ACCOUNT_ACCESS_COST);
        assert Frugal(c, st, r1.st);
        OutcomeTransitive(c, st, r1.st, r2);
      }
    }
  }

  lemma LogLawful(c: Context, op: Byte, st: State)
    requires IsLog(op)
    requires 0 <= StackRequired(op) <= |st.stack| && st.gas >= 0
    ensures Lawful(c, op, st, LogEvent(c, op, st))
  {
    hide CheckMemory, CheckMemorySmall, MemoryCost;
    CheckMemoryFrugal(c, st, Peek(st, 0), Peek(st, 1));
  }

  lemma SstoreLawful(c: Context, st: State)
    requires 0 <= StackRequired(OP_SSTORE) <= |st.stack| && st.gas >= 0
    ensures Lawful(c, OP_SSTORE, st, Sstore(c, st))
  {
  }

  // ---------- calls and creations ----------

  lemma CallChargesFrugal(c: Context, op: Byte, a: CallArgs, st: State)
    requires IsCall(op) && st.gas >= 0
    requires HonestHost(c.host)
    ensures var r := CallCharges(c, op, a, st);
            && FrugalOutcome(c, st, r)
            && (r.Ok? ==>
                  && (a.value != 0 ==>
                        && r.st.gas + 9000 <= st.gas
                        && MemoryCost(|r.st.mem| / 32) + r.st.gas + 9000 <= MemoryCost(|st.mem| / 32) + st.gas)
                  && (IsStatic(c.msg) && op == OP_CALL ==> a.value == 0)
                  && (a.inputSize != 0 ==> a.inputOffset + a.inputSize <= |r.st.mem|)
                  && (a.outputSize != 0 ==> a.outputOffset + a.outputSize <= |r.st.mem|))
  {
    hide CheckMemory, CheckMemorySmall, MemoryCost, TouchAccount;
    TouchAccountFrugal(c, st, a.dst, ADDITIONAL_COLD_ACCOUNT_ACCESS_COST);
    var r0 := TouchAccount(c, st, a.dst, ADDITIONAL_COLD_ACCOUNT_ACCESS_COST);
    if r0.Ok? {
      CheckMemoryFrugal(c, r0.st, a.inputOffset, a.inputSize);
      var r1 := CheckMemory(r0.st, a.inputOffset, a.inputSize);
      OutcomeTransitive(c, st, r0.st, r1);
      if r1.Ok? {
        CheckMemoryFrugal(c, r1.st, a.outputOffset, a.outputSize);
        var r2 := CheckMemory(r1.st, a.outputOffset, a.outputSize);
        OutcomeTransitive(c, st, r1.st, r2);
      }
    }
  }

  /** What is offered to the callee is within what is left, and from Tangerine Whistle on
      the caller keeps a 64th. */
  lemma OfferedGasBound(rev: Revision, requested: Word, gasLeft: int)
    requires gasLeft >= 0
    ensures 0 <= OfferedGas(rev, requested, gasLeft)
    ensures rev >= TANGERINE_WHISTLE ==>
              && OfferedGas(rev, requested, gasLeft) <= gasLeft - gasLeft / 64
              && gasLeft - OfferedGas(rev, requested, gasLeft) >= gasLeft / 64
  {
  }

  /** The host call never gives the caller more than it had before the offer. */
  lemma CallHostFrugal(c: Context, op: Byte, a: CallArgs, msgGas: int, st: State)
    requires IsCall(op) && |st.stack| >= 1 && 0 <= msgGas <= st.gas
    requires a.inputSize != 0 ==> a.inputOffset + a.inputSize <= |st.mem|
    requires a.outputSize != 0 ==> a.outputOffset + a.outputSize <= |st.mem|
    requires HonestHost(c.host)
    requires IsStatic(c.msg) && op == OP_CALL ==> a.value == 0
    requires op == OP_STATICCALL ==> a.value == 0
    ensures var r := CallHost(c, op, a, msgGas, st);
            && r.Ok? && Frugal(c, st, r.st)
            && |r.st.stack| == |st.stack|
            && r.st.stack[..|st.stack| - 1] == st.stack[..|st.stack| - 1]
  {
    hide MemoryCost;
  }

  /** The top item is replaced and everything below it is kept. */
  predicate TopReplaced(before: State, after: State) {
    && |after.stack| == |before.stack| >= 1
    && after.stack[..|before.stack| - 1] == before.stack[..|before.stack| - 1]
  }

  /** From the split on, a call costs what the callee used, less the stipend. */
  lemma CallSplitFrugal(c: Context, op: Byte, a: CallArgs, st: State)
    requires IsCall(op) && |st.stack| >= 1 && st.gas >= 0
    requires a.inputSize != 0 ==> a.inputOffset + a.inputSize <= |st.mem|
    requires a.outputSize != 0 ==> a.outputOffset + a.outputSize <= |st.mem|
    requires HonestHost(c.host)
    requires IsStatic(c.msg) && op == OP_CALL ==> a.value == 0
    requires op == OP_STATICCALL ==> a.value == 0
    ensures var r := CallSplit(c, op, a, st);
            var stipend := if a.value != 0 then CALL_STIPEND else 0;
            match r
            case Ok(after) => Frugal(c, st.(gas := st.gas + stipend), after) && TopReplaced(st, after)
            case Err(_, trace) => trace == st.trace
  {
    hide CallHost, MemoryCost;
    OfferedGasBound(c.rev, a.gas, st.gas);
    var offered := OfferedGas(c.rev, a.gas, st.gas);
    if !(c.rev < TANGERINE_WHISTLE && offered > st.gas) {
      var stipend := if a.value != 0 then CALL_STIPEND else 0;
      var s2 := st.(gas := st.gas + stipend, returnData := []);
      var balance := GetBalance(c.msg.recipient);
      var s3 := if a.value != 0 then Note(s2, balance) else s2;
      assert Frugal(c, st.(gas := st.gas + stipend), s3);
      if c.msg.depth < CALL_DEPTH_LIMIT && !(a.value != 0 && c.host.word(s2.trace, balance) < a.value) {
        CallHostFrugal(c, op, a, offered + stipend, s3);
        FrugalTransitive(c, st.(gas := st.gas + stipend), s3, CallHost(c, op, a, offered + stipend, s3).st);
      }
    }
  }

  lemma CallLawful(c: Context, op: Byte, st: State)
    requires IsCall(op) && 0 <= StackRequired(op) <= |st.stack| && st.gas >= 0
    requires HonestHost(c.host)
    ensures Lawful(c, op, st, CallInstr(c, op, st))
    ensures CallInstr(c, op, st).Ok? && PopCallArgs(op, st).value != 0 ==>
              CallInstr(c, op, st).st.gas + 6700 <= st.gas
  {
    hide CallCharges, CallSplit, MemoryCost, TraceExtends;
    var a := PopCallArgs(op, st);
    var s0 := Replace(st, StackRequired(op), 0);
    CallChargesFrugal(c, op, a, s0);
    var r := CallCharges(c, op, a, s0);
    if r.Ok? {
      CallSplitFrugal(c, op, a, r.st);
      var stipend := if a.value != 0 then CALL_STIPEND else 0;
      var s1 := r.st.(gas := r.st.gas + stipend);
      var r2 := CallSplit(c, op, a, r.st);
      if r2.Ok? {
        assert Frugal(c, st, s1);
        FrugalTransitive(c, st, s1, r2.st);
        CallStack(op, st, s0, r2.st);
      }
    }
  }

  lemma CallStack(op: Byte, st: State, s0: State, after: State)
    requires IsCall(op) && 0 <= StackRequired(op) <= |st.stack|
    requires s0.stack == Replace(st, StackRequired(op), 0).stack && TopReplaced(s0, after)
    ensures StackDiscipline(op, st, after)
  {
    var kept := |st.stack| - StackRequired(op);
    assert |s0.stack| - 1 == kept;
    assert s0.stack[..kept] == st.stack[..kept];
  }

  lemma CreateSplitFrugal(c: Context, op: Byte, endowment: Word, salt: Word, initCode: seq<Byte>, st: State)
    requires IsCreate(op) && |st.stack| >= 1 && st.gas >= 0 && !IsStatic(c.msg)
    requires HonestHost(c.host)
    ensures var r := CreateSplit(c, op, endowment, salt, initCode, st);
            r.Ok? && Frugal(c, st, r.st) && TopReplaced(st, r.st)
  {
    hide MemoryCost;
  }

  lemma CreateLawful(c: Context, op: Byte, st: State)
    requires IsCreate(op) && 0 <= StackRequired(op) <= |st.stack| && st.gas >= 0
    requires HonestHost(c.host)
    ensures Lawful(c, op, st, CreateInstr(c, op, st))
  {
    hide CheckMemory, CheckMemorySmall, MemoryCost, CreateSplit;
    if !IsStatic(c.msg) {
      var size := Peek(st, 2);
      CheckMemoryFrugal(c, st, Peek(st, 1), size);
      var r := CheckMemory(st, Peek(st, 1), size);
      if r.Ok? {
        var r1 := if op == OP_CREATE2 then Charge(r.st, NumWords(size) * 6) else r;
        if r1.Ok? {
          assert Frugal(c, st, r1.st);
          CreateRestLawful(c, op, st, r1.st);
        }
      }
    }
  }

  lemma CreateRestLawful(c: Context, op: Byte, st: State, s1: State)
    requires IsCreate(op) && 0 <= StackRequired(op) <= |st.stack| && !IsStatic(c.msg)
    requires HonestHost(c.host) && Frugal(c, st, s1) && s1.stack == st.stack
    ensures forall endowment: Word, salt: Word, initCode: seq<Byte> ::
              Lawful(c, op, st, CreateSplit(c, op, endowment, salt, initCode,
                                            Replace(s1, StackRequired(op), 0).(returnData := [])))
  {
    hide CreateSplit, MemoryCost, TraceExtends;
    var s2 := Replace(s1, StackRequired(op), 0).(returnData := []);
    forall endowment: Word, salt: Word, initCode: seq<Byte>
      ensures Lawful(c, op, st, CreateSplit(c, op, endowment, salt, initCode, s2))
    {
      CreateSplitFrugal(c, op, endowment, salt, initCode, s2);
      var after := CreateSplit(c, op, endowment, salt, initCode, s2).st;
      assert Frugal(c, st, s2);
      FrugalTransitive(c, st, s2, after);
      var kept := |st.stack| - StackRequired(op);
      assert s2.stack[..kept] == st.stack[..kept];
    }
  }

  // ---------- the law of every instruction ----------

  /** Every instruction that continues keeps gas non-negative and not larger, pays for the
      memory it adds, changes the stack height by its table value, leaves the items below its
      declared operands alone, and in static mode makes only harmless requests. */
  lemma OrdinaryLawful(c: Context, op: Byte, st: State)
    requires IsOrdinary(op) && 0 <= StackRequired(op) <= |st.stack| && st.gas >= 0
    requires HonestHost(c.host)
    ensures Lawful(c, op, st, Ordinary(c, op, st))
  {
    hide Lawful, Binary, Ternary, Unary, ContextWord, StackOnly, HostRead, Memory, Copy, LogEvent,
         Sstore, CallInstr, CreateInstr, StackRequired;
    if op == OP_GAS {
      GasLawful(c, st);
    } else if op == OP_SSTORE {
      SstoreLawful(c, st);
    } else if IsCall(op) {
      CallLawful(c, op, st);
    } else if IsCreate(op) {
      CreateLawful(c, op, st);
    } else if IsHostRead(op) {
      HostReadLawful(c, op, st);
    } else if IsMemory(op) {
      MemoryLawful(c, op, st);
    } else if IsCopy(op) {
      CopyLawful(c, op, st);
    } else if IsLog(op) {
      LogLawful(c, op, st);
    } else {
      StackFamilyLawful(c, op, st);
    }
  }

  lemma GasLawful(c: Context, st: State)
    requires st.gas >= 0
    ensures Lawful(c, OP_GAS, st, GasAware(c, OP_GAS, st))
  {
  }

  /** The operands of the instructions that each interpreter executes in its own way. */
  lemma FlowOperands(op: Byte)
    ensures op == OP_JUMP ==> StackRequired(op) == 1 && StackChange(op) == -1
    ensures op == OP_JUMPI ==> StackRequired(op) == 2 && StackChange(op) == -2
    ensures op == OP_PC || op == OP_GAS || IsPush(op) ==> StackRequired(op) == 0 && StackChange(op) == 1
  {
  }

  /** Popping declared operands, or pushing one item, changes nothing else. */
  lemma OnlyOperands(op: Byte, st: State, n: nat, w: Word)
    requires n <= |st.stack|
    ensures StackRequired(op) == n && StackChange(op) + n == 0 ==> StackDiscipline(op, st, Drop(st, n))
    ensures StackRequired(op) == 0 && StackChange(op) == 1 ==> StackDiscipline(op, st, Push(st, w))
  {
    hide StackRequired, StackChange;
  }

  // ---------- negative gas ----------

  /** The last thing the instruction did was to offer negative gas to the host. */
  predicate OffersNegativeGas(before: State, after: State) {
    && |before.trace| < |after.trace|
    && after.trace[|after.trace| - 1].Call?
    && after.trace[|after.trace| - 1].message.gas < 0
  }

  /** The last request is no message to the host, or it is one with gas. */
  predicate OffersGas(trace: Trace) {
    |trace| > 0 && trace[|trace| - 1].Call? ==> trace[|trace| - 1].message.gas >= 0
  }

  lemma CheckKeepsTrace(st: State, offset: Word, size: Word)
    ensures CheckMemory(st, offset, size).Ok? ==> CheckMemory(st, offset, size).st.trace == st.trace
  {
    hide MemoryCost;
  }

  /** The requests before the split of the gas are questions about an account. */
  lemma CallChargesAsk(c: Context, op: Byte, a: CallArgs, st: State)
    requires IsCall(op)
    ensures var r := CallCharges(c, op, a, st);
            r.Ok? ==>
              || r.st.trace == st.trace
              || (|r.st.trace| > |st.trace| && !r.st.trace[|r.st.trace| - 1].Call?)
  {
    hide CheckMemory;
    var r0 := TouchAccount(c, st, a.dst, ADDITIONAL_COLD_ACCOUNT_ACCESS_COST);
    if r0.Ok? {
      CheckKeepsTrace(r0.st, a.inputOffset, a.inputSize);
      var r1 := CheckMemory(r0.st, a.inputOffset, a.inputSize);
      if r1.Ok? {
        CheckKeepsTrace(r1.st, a.outputOffset, a.outputSize);
      }
    }
  }

  /** With gas left, no instruction offers negative gas. */
  lemma FundedOffers(c: Context, op: Byte, st: State)
    requires ObservesGas(op) && 0 <= StackRequired(op) <= |st.stack| && st.gas >= 0 && HonestHost(c.host)
    ensures var r := GasAware(c, op, st);
            r.Ok? ==> !OffersNegativeGas(st, r.st)
  {
    hide MemoryCost, CallInstr, CreateInstr, HonestHost, StackRequired;
    if IsCall(op) {
      CallOffers(c, op, st);
    } else if IsCreate(op) {
      CreateOffers(c, op, st);
    }
  }

  lemma CallOffers(c: Context, op: Byte, st: State)
    requires IsCall(op) && 0 <= StackRequired(op) <= |st.stack| && st.gas >= 0 && HonestHost(c.host)
    ensures var r := CallInstr(c, op, st);
            r.Ok? ==> !OffersNegativeGas(st, r.st)
  {
    hide CallCharges, MemoryCost, HonestHost, Slice, Store, StackRequired, TraceExtends;
    var a := PopCallArgs(op, st);
    var s0 := Replace(st, StackRequired(op), 0);
    CallChargesFrugal(c, op, a, s0);
    CallChargesAsk(c, op, a, s0);
    var r := CallCharges(c, op, a, s0);
    if r.Ok? {
      OfferedGasBound(c.rev, a.gas, r.st.gas);
      hide OfferedGas, PopCallArgs;
      SplitOffers(c, op, a, r.st);
    }
  }

  /** From the split on, the only message to the host carries the gas offered. */
  lemma SplitOffers(c: Context, op: Byte, a: CallArgs, st: State)
    requires IsCall(op) && |st.stack| >= 1 && OfferedGas(c.rev, a.gas, st.gas) >= 0
    requires a.inputSize != 0 ==> a.inputOffset + a.inputSize <= |st.mem|
    requires a.outputSize != 0 ==> a.outputOffset + a.outputSize <= |st.mem|
    ensures var r := CallSplit(c, op, a, st);
            r.Ok? ==>
              || r.st.trace == st.trace
              || (|r.st.trace| > |st.trace| && OffersGas(r.st.trace))
  {
    hide OfferedGas, Slice, Store;
  }

  lemma CreateOffers(c: Context, op: Byte, st: State)
    requires IsCreate(op) && 0 <= StackRequired(op) <= |st.stack| && st.gas >= 0
    ensures var r := CreateInstr(c, op, st);
            r.Ok? ==> !OffersNegativeGas(st, r.st)
  {
    hide MemoryCost, Slice, StackRequired;
  }

  /** Without gas, no instruction completes but a CREATE that the depth or the balance forbids, or one that
      offers negative gas. */
  lemma UnfundedFails(c: Context, op: Byte, st: State)
    requires ObservesGas(op) && op != OP_GAS && 0 <= StackRequired(op) <= |st.stack| && st.gas < 0
    ensures match GasAware(c, op, st)
            case Err(_, trace) => TraceExtends(c, st.trace, trace)
            case Ok(after) =>
              op == OP_CREATE
              && (OffersNegativeGas(st, after)
                  || (&& after.gas == st.gas && after.mem == st.mem
                      && TraceExtends(c, st.trace, after.trace) && StackDiscipline(op, st, after)))
  {
    hide MemoryCost, CallInstr, CreateInstr, StackRequired;
    if IsCall(op) {
      UnfundedCall(c, op, st);
    } else if IsCreate(op) {
      UnfundedCreate(c, op, st);
    }
  }

  lemma UnfundedMemory(st: State, offset: Word, size: Word)
    requires st.gas < 0
    ensures CheckMemory(st, offset, size) == Ok(st) || CheckMemory(st, offset, size) == Fail(OutOfGas, st)
  {
    if offset + size > |st.mem| {
      MemoryCostMonotone(|st.mem| / 32, NumWords(offset + size));
    }
    hide MemoryCost;
  }

  lemma UnfundedCall(c: Context, op: Byte, st: State)
    requires IsCall(op) && 0 <= StackRequired(op) <= |st.stack| && st.gas < 0
    ensures CallInstr(c, op, st).Err? && TraceExtends(c, st.trace, CallInstr(c, op, st).trace)
  {
    hide CheckMemory, MemoryCost, StackRequired, PopCallArgs;
    var a := PopCallArgs(op, st);
    var s0 := Replace(st, StackRequired(op), 0);
    var r := TouchAccount(c, s0, a.dst, ADDITIONAL_COLD_ACCOUNT_ACCESS_COST);
    if r.Ok? {
      UnfundedMemory(r.st, a.inputOffset, a.inputSize);
      UnfundedMemory(r.st, a.outputOffset, a.outputSize);
    }
  }

  lemma UnfundedSplit(c: Context, op: Byte, endowment: Word, salt: Word, initCode: seq<Byte>, st: State)
    requires IsCreate(op) && |st.stack| >= 1 && st.gas < 0
    ensures var r := CreateSplit(c, op, endowment, salt, initCode, st);
            && r.Ok?
            && (OffersNegativeGas(st, r.st)
                || (r.st == st.(trace := r.st.trace) && TraceExtends(c, st.trace, r.st.trace)))
  {
  }

  lemma OperandsToZero(op: Byte, st: State, after: State)
    requires IsCreate(op) && 0 <= StackRequired(op) <= |st.stack|
    requires after.stack == Replace(st, StackRequired(op), 0).stack
    ensures StackDiscipline(op, st, after)
  {
  }

  lemma UnfundedCreate(c: Context, op: Byte, st: State)
    requires IsCreate(op) && 0 <= StackRequired(op) <= |st.stack| && st.gas < 0
    ensures match CreateInstr(c, op, st)
            case Err(_, trace) => TraceExtends(c, st.trace, trace)
            case Ok(after) =>
              op == OP_CREATE
              && (OffersNegativeGas(st, after)
                  || (&& after.gas == st.gas && after.mem == st.mem
                      && TraceExtends(c, st.trace, after.trace) && StackDiscipline(op, st, after)))
  {
    hide CheckMemory, Slice, NumWords, CreateSplit, StackDiscipline, TraceExtends;
    UnfundedMemory(st, Peek(st, 1), Peek(st, 2));
    NothingAsked(c, st.trace);
    if !IsStatic(c.msg) && CreateCharges(op, st).Ok? {
      var a, s1 := PopCreateArgs(op, st), CreateCharges(op, st).st;
      assert op == OP_CREATE && s1 == Replace(st, StackRequired(op), 0).(returnData := []);
      var initCode := Slice(s1.mem, a.offset, a.size);
      UnfundedSplit(c, op, a.endowment, a.salt, initCode, s1);
      OperandsToZero(op, st, s1);
      var after := CreateSplit(c, op, a.endowment, a.salt, initCode, s1).st;
      if !OffersNegativeGas(s1, after) {
        OperandsToZero(op, st, after);
      }
    }
  }

  lemma NothingAsked(c: Context, t: Trace)
    ensures TraceExtends(c, t, t)
  {
  }

  /** An execution that ends is frugal too. */
  lemma HaltingFrugal(c: Context, op: Byte, st: State)
    requires IsHalting(op) && 0 <= StackRequired(op) <= |st.stack| && st.gas >= 0
    ensures var h := Halting(c, op, st);
            h.status.Success? || h.status.Revert? ==> 0 <= h.st.gas <= st.gas && PaysForMemory(st, h.st)
    ensures var h := Halting(c, op, st);
            TraceExtends(c, st.trace, h.st.trace)
  {
    hide CheckMemory, CheckMemorySmall, MemoryCost, SelfDestructCharges;
    if op == OP_RETURN || op == OP_REVERT {
      CheckMemoryFrugal(c, st, Peek(st, 0), Peek(st, 1));
    } else if op == OP_SELFDESTRUCT {
      SelfDestructChargesFrugal(c, AddressOf(Peek(st, 0)), st);
    }
  }

  lemma SelfDestructChargesFrugal(c: Context, beneficiary: Address, st: State)
    requires st.gas >= 0
    ensures FrugalOutcome(c, st, SelfDestructCharges(c, beneficiary, st))
  {
    hide MemoryCost, TouchAccount;
    TouchAccountFrugal(c, st, beneficiary, COLD_ACCOUNT_ACCESS_COST);
  }

  // ---------- gas translation ----------

  function Less(st: State, r: int): State {
    st.(gas := st.gas - r)
  }

  function More(st: State, r: int): State {
    st.(gas := st.gas + r)
  }

  /** Running with r less gas gives the same result with r less gas, or fails if less than r is left. */
  ghost predicate Translated(full: Outcome, reduced: Outcome, r: nat) {
    match full
    case Err(_, _) => reduced.Err?
    case Ok(s) => if s.gas >= r then reduced == Ok(Less(s, r)) else reduced.Err?
  }

  lemma CheckMemorySmallTranslates(st: State, offset: Word, size: nat, r: nat)
    requires r <= st.gas
    ensures Translated(CheckMemorySmall(st, offset, size), CheckMemorySmall(Less(st, r), offset, size), r)
  {
    hide MemoryCost;
  }

  lemma CheckMemoryTranslates(st: State, offset: Word, size: Word, r: nat)
    requires r <= st.gas
    ensures Translated(CheckMemory(st, offset, size), CheckMemory(Less(st, r), offset, size), r)
  {
    hide CheckMemorySmall;
    if 0 < size <= MAX_BUFFER_SIZE {
      CheckMemorySmallTranslates(st, offset, size, r);
    }
  }

  lemma StackFamilyTranslates(c: Context, op: Byte, st: State, r: nat)
    requires IsBinary(op) || IsTernary(op) || IsUnary(op) || IsContextRead(op) || IsStackOnly(op)
    requires |st.stack| >= StackRequired(op) && r <= st.gas
    ensures Translated(GasBlind(c, op, st), GasBlind(c, op, Less(st, r)), r)
  {
    hide BinaryResult, CallDataWord;
  }

  lemma AccountReadTranslates(c: Context, op: Byte, st: State, r: nat)
    requires |st.stack| >= 1 && r <= st.gas
    ensures Translated(AccountRead(c, op, st), AccountRead(c, op, Less(st, r)), r)
  {
  }

  lemma SloadTranslates(c: Context, st: State, r: nat)
    requires |st.stack| >= 1 && r <= st.gas
    ensures Translated(Sload(c, st), Sload(c, Less(st, r)), r)
  {
  }

  lemma HostReadTranslates(c: Context, op: Byte, st: State, r: nat)
    requires IsHostRead(op) && |st.stack| >= StackRequired(op) && r <= st.gas
    ensures Translated(HostRead(c, op, st), HostRead(c, op, Less(st, r)), r)
  {
    hide AccountRead, Sload;
    if op == OP_SLOAD {
      SloadTranslates(c, st, r);
    } else if op != OP_BLOCKHASH && op != OP_SELFBALANCE {
      AccountReadTranslates(c, op, st, r);
    }
  }

  lemma Keccak256Translates(c: Context, st: State, r: nat)
    requires |st.stack| >= 2 && r <= st.gas
    ensures Translated(Keccak256(c, st), Keccak256(c, Less(st, r)), r)
  {
    hide CheckMemory, NumWords;
    CheckMemoryTranslates(st, Peek(st, 0), Peek(st, 1), r);
  }

  lemma WordAccessTranslates(c: Context, op: Byte, st: State, r: nat)
    requires op == OP_MLOAD || op == OP_MSTORE || op == OP_MSTORE8
    requires |st.stack| >= StackRequired(op) && r <= st.gas
    ensures Translated(Memory(c, op, st), Memory(c, op, Less(st, r)), r)
  {
    hide CheckMemorySmall, LoadWord, Store;
    CheckMemorySmallTranslates(st, Peek(st, 0), if op == OP_MSTORE8 then 1 else 32, r);
  }

  lemma ExpTranslates(c: Context, st: State, r: nat)
    requires |st.stack| >= 2 && r <= st.gas
    ensures Translated(Exp(c, st), Exp(c, Less(st, r)), r)
  {
    hide SignificantBytes, Power;
  }

  lemma MemoryTranslates(c: Context, op: Byte, st: State, r: nat)
    requires IsMemory(op) && |st.stack| >= StackRequired(op) && r <= st.gas
    ensures Translated(Memory(c, op, st), Memory(c, op, Less(st, r)), r)
  {
    hide Translated, Exp, Keccak256, Mload, Mstore, Mstore8;
    if op == OP_KECCAK256 {
      Keccak256Translates(c, st, r);
    } else if op == OP_EXP {
      ExpTranslates(c, st, r);
    } else {
      WordAccessTranslates(c, op, st, r);
    }
  }

  lemma CopyPaddedTranslates(source: seq<Byte>, st: State, r: nat)
    requires |st.stack| >= 3 && r <= st.gas
    ensures Translated(CopyPadded(source, st), CopyPadded(source, Less(st, r)), r)
  {
    hide CheckMemory, CheckMemorySmall, Store, NumWords;
    CheckMemoryTranslates(st, Peek(st, 0), Peek(st, 2), r);
  }

  lemma ReturnDataCopyTranslates(st: State, r: nat)
    requires |st.stack| >= 3 && r <= st.gas
    ensures Translated(ReturnDataCopy(st), ReturnDataCopy(Less(st, r)), r)
  {
    hide CheckMemory, CheckMemorySmall, Store, NumWords;
    CheckMemoryTranslates(st, Peek(st, 0), Peek(st, 2), r);
  }

  lemma TouchAccountTranslates(c: Context, st: State, a: Address, surcharge: nat, r: nat)
    requires r <= st.gas
    ensures Translated(TouchAccount(c, st, a, surcharge), TouchAccount(c, Less(st, r), a, surcharge), r)
  {
  }

  lemma ExtCodeCopyTranslates(c: Context, st: State, r: nat)
    requires |st.stack| >= 4 && r <= st.gas
    ensures Translated(ExtCodeCopy(c, st), ExtCodeCopy(c, Less(st, r)), r)
  {
    hide CheckMemory, CheckMemorySmall, Store, NumWords, TouchAccount;
    CheckMemoryTranslates(st, Peek(st, 1), Peek(st, 3), r);
    var r0 := CheckMemory(st, Peek(st, 1), Peek(st, 3));
    if r0.Ok? {
      var r1 := Charge(r0.st, NumWords(Peek(st, 3)) * 3);
      if r1.Ok? && r1.st.gas >= r {
        TouchAccountTranslates(c, r1.st, AddressOf(Peek(st, 0)), ADDITIONAL_COLD_ACCOUNT_ACCESS_COST, r);
      } else if r1.Ok? {
        TouchAccountFrugal(c, r1.st, AddressOf(Peek(st, 0)), ADDITIONAL_COLD_ACCOUNT_ACCESS_COST);
      }
    }
  }

  lemma CopyTranslates(c: Context, op: Byte, st: State, r: nat)
    requires IsCopy(op) && |st.stack| >= StackRequired(op) && r <= st.gas
    ensures Translated(Copy(c, op, st), Copy(c, op, Less(st, r)), r)
  {
    hide CopyPadded, ReturnDataCopy, ExtCodeCopy, Translated;
    if op == OP_EXTCODECOPY {
      ExtCodeCopyTranslates(c, st, r);
    } else if op == OP_RETURNDATACOPY {
      ReturnDataCopyTranslates(st, r);
    } else {
      CopyPaddedTranslates(if op == OP_CALLDATACOPY then c.msg.input else c.code, st, r);
    }
  }

  lemma LogTranslates(c: Context, op: Byte, st: State, r: nat)
    requires IsLog(op) && |st.stack| >= StackRequired(op) && r <= st.gas
    ensures Translated(LogEvent(c, op, st), LogEvent(c, op, Less(st, r)), r)
  {
    hide CheckMemory, CheckMemorySmall;
    CheckMemoryTranslates(st, Peek(st, 0), Peek(st, 1), r);
    assert Topics(Less(st, r), op - OP_LOG0) == Topics(st, op - OP_LOG0);
  }

  /** No instruction outside the gas observers can tell how much gas is held back from it. */
  lemma GasBlindTranslates(c: Context, op: Byte, st: State, r: nat)
    requires IgnoresGas(op) && |st.stack| >= StackRequired(op) && r <= st.gas
    ensures Translated(GasBlind(c, op, st), GasBlind(c, op, Less(st, r)), r)
  {
    hide Translated, Binary, Ternary, Unary, ContextWord, StackOnly, HostRead, Memory, Copy, LogEvent,
         StackRequired;
    if IsHostRead(op) {
      HostReadTranslates(c, op, st, r);
    } else if IsMemory(op) {
      MemoryTranslates(c, op, st, r);
    } else if IsCopy(op) {
      CopyTranslates(c, op, st, r);
    } else if IsLog(op) {
      LogTranslates(c, op, st, r);
    } else {
      StackFamilyTranslates(c, op, st, r);
    }
  }
}
