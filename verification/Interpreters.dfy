/** The two interpreter loops over the mutable execution state. */
module Interpreters {
  import opened Words
  import opened InstructionTraits
  import opened Machine
  import opened MemoryExpansion
  import opened ExecutionState
  import opened CodeStructure
  import opened Analysis
  import opened TableStructure
  import opened InstructionLaws
  import I = Instructions
  import B = Baseline
  import A = Advanced
  import Refinement
  import Simulation
  import RunLaws
  import ReachableStates

  // ---------- dispatch of the shared instructions ----------

  method ExecuteStackFamily(e: Execution, op: Byte)
    requires e.Valid() && 0 <= StackRequired(op) <= e.stack.size && e.stack.size + StackChange(op) <= STACK_LIMIT
    requires I.IsBinary(op) || I.IsTernary(op) || I.IsUnary(op) || I.IsContextRead(op) || I.IsStackOnly(op)
    modifies e.stack`size, e.stack.storage
    ensures e.Reached(I.GasBlind(e.ctx, op, old(e.Value())), Success)
  {
    hide I.Binary, I.Ternary, I.Unary, I.ContextWord, I.StackOnly;
    if I.IsBinary(op) {
      e.Binary(op);
    } else if I.IsTernary(op) {
      e.Ternary(op);
    } else if I.IsUnary(op) {
      e.Unary(op);
    } else if I.IsContextRead(op) {
      e.ContextRead(op);
    } else {
      e.StackOnly(op);
    }
  }

  method ExecuteHostRead(e: Execution, op: Byte) returns (s: Status)
    requires e.Valid() && e.gasLeft >= 0
    requires 0 <= StackRequired(op) <= e.stack.size && e.stack.size + StackChange(op) <= STACK_LIMIT
    requires I.IsHostRead(op)
    modifies e`gasLeft, e`trace, e.stack`size, e.stack.storage
    ensures e.Reached(I.HostRead(e.ctx, op, old(e.Value())), s)
  {
    hide I.Sload, I.BlockHash, I.SelfBalance, I.AccountRead;
    if op == OP_SLOAD {
      s := e.Sload();
    } else if op == OP_BLOCKHASH {
      e.BlockHash();
      s := Success;
    } else if op == OP_SELFBALANCE {
      e.SelfBalance();
      s := Success;
    } else {
      s := e.AccountRead(op);
    }
  }

  method ExecuteMemory(e: Execution, op: Byte) returns (s: Status)
    requires e.Valid() && e.gasLeft >= 0 && 0 <= StackRequired(op) <= e.stack.size && I.IsMemory(op)
    modifies e`gasLeft, e.stack`size, e.stack.storage, e.memory, e.memory.data
    ensures e.Reached(I.Memory(e.ctx, op, old(e.Value())), s)
    ensures e.memory.data == old(e.memory.data) || fresh(e.memory.data)
  {
    hide I.Exp, I.Keccak256, I.Mload, I.Mstore, I.Mstore8;
    if op == OP_EXP {
      s := e.Exp();
    } else if op == OP_KECCAK256 {
      s := e.Keccak256();
    } else if op == OP_MLOAD {
      s := e.Mload();
    } else if op == OP_MSTORE {
      s := e.Mstore();
    } else {
      s := e.Mstore8();
    }
  }

  method ExecuteCopy(e: Execution, op: Byte) returns (s: Status)
    requires e.Valid() && e.gasLeft >= 0 && 0 <= StackRequired(op) <= e.stack.size && I.IsCopy(op)
    modifies e`gasLeft, e`trace, e.stack`size, e.memory, e.memory.data
    ensures e.Reached(I.Copy(e.ctx, op, old(e.Value())), s)
    ensures e.memory.data == old(e.memory.data) || fresh(e.memory.data)
  {
    hide I.CopyPadded, I.ExtCodeCopy, I.ReturnDataCopy;
    if op == OP_CALLDATACOPY {
      s := e.CopyPadded(e.ctx.msg.input);
    } else if op == OP_CODECOPY {
      s := e.CopyPadded(e.ctx.code);
    } else if op == OP_EXTCODECOPY {
      s := e.ExtCodeCopy();
    } else {
      s := e.ReturnDataCopy();
    }
  }

  method ExecuteGasBlind(e: Execution, op: Byte) returns (s: Status)
    requires e.Valid() && e.gasLeft >= 0
    requires 0 <= StackRequired(op) <= e.stack.size && e.stack.size + StackChange(op) <= STACK_LIMIT
    requires I.IgnoresGas(op)
    modifies e`gasLeft, e`trace, e.stack`size, e.stack.storage, e.memory, e.memory.data
    ensures e.Reached(I.GasBlind(e.ctx, op, old(e.Value())), s)
    ensures e.memory.data == old(e.memory.data) || fresh(e.memory.data)
  {
    hide I.Binary, I.Ternary, I.Unary, I.ContextWord, I.StackOnly, I.HostRead, I.Memory, I.Copy, I.LogEvent,
         StackRequired, StackChange;
    if I.IsHostRead(op) {
      s := ExecuteHostRead(e, op);
    } else if I.IsMemory(op) {
      s := ExecuteMemory(e, op);
    } else if I.IsCopy(op) {
      s := ExecuteCopy(e, op);
    } else if I.IsLog(op) {
      s := e.LogEvent(op);
    } else {
      ExecuteStackFamily(e, op);
      s := Success;
    }
  }

  method ExecuteGasAware(e: Execution, op: Byte) returns (s: Status)
    requires e.Valid() && e.gasLeft >= 0
    requires 0 <= StackRequired(op) <= e.stack.size && e.stack.size + StackChange(op) <= STACK_LIMIT
    requires I.ObservesGas(op) && HonestHost(e.ctx.host)
    modifies e`gasLeft, e`trace, e`returnData, e.stack`size, e.stack.storage, e.memory, e.memory.data
    ensures e.Reached(I.GasAware(e.ctx, op, old(e.Value())), s)
    ensures s == Success ==> 0 <= e.gasLeft <= old(e.gasLeft)
    ensures e.memory.data == old(e.memory.data) || fresh(e.memory.data)
  {
    hide I.Sstore, I.CallInstr, I.CreateInstr, HonestHost, TraceExtends, PaysForMemory, StackDiscipline;
    OrdinaryLawful(e.ctx, op, e.Value());
    if op == OP_GAS {
      e.stack.Push(I.GasWord(e.gasLeft));
      s := Success;
    } else if op == OP_SSTORE {
      s := e.Sstore();
    } else if I.IsCall(op) {
      s := e.Call(op);
    } else {
      s := e.Create(op);
    }
  }

  method ExecuteHalting(e: Execution, op: Byte) returns (s: Status)
    requires e.Valid() && e.gasLeft >= 0 && e.outputSize == 0
    requires I.IsHalting(op) && 0 <= StackRequired(op) <= e.stack.size
    modifies e`gasLeft, e`trace, e`outputOffset, e`outputSize, e.memory, e.memory.data
    ensures e.Ended(I.Halting(e.ctx, op, old(e.Value())), s)
  {
    hide I.ReturnWith, I.SelfDestructInstr;
    if op == OP_RETURN {
      s := e.Return(Success);
    } else if op == OP_REVERT {
      s := e.Return(Revert);
    } else if op == OP_SELFDESTRUCT {
      s := e.SelfDestruct();
    } else {
      s := if op == OP_STOP then Success else InvalidInstruction;
    }
  }

  // ---------- Baseline ----------

  /** Where a step goes on, or that it has ended the execution. */
  ghost predicate BaselineStepped(e: Execution, step: B.Step, next: int)
    reads e, e.stack, e.stack.storage, e.memory, e.memory.data
  {
    match step
    case Go(pc, st) => e.Valid() && next == pc && e.Value() == st && e.outputSize == 0
    case Done(h) => next < 0 && e.Ended(h, e.status)
  }

  /** The check before each instruction. */
  method CheckRequirements(e: Execution, table: seq<B.Metrics>, op: Byte) returns (s: Status)
    requires e.Valid() && B.IsInstructionTable(e.ctx.rev, table) && e.gasLeft >= INT64_MIN + 32000
    modifies e`gasLeft
    ensures e.Reached(B.CheckRequirements(e.ctx.rev, old(e.Value()), op), s)
    ensures s == Success ==> e.gasLeft >= 0
  {
    hide GasCost, StackRequired, StackChange;
    TableBounds(e.ctx.rev, op);
    var metrics := table[op];
    if metrics.gasCost == UNDEFINED {
      return UndefinedInstruction;
    }
    e.gasLeft := e.gasLeft - metrics.gasCost;
    if e.gasLeft < 0 {
      return OutOfGas;
    }
    if e.stack.size == STACK_LIMIT {
      if metrics.canOverflow {
        return StackOverflow;
      }
    } else if e.stack.size < metrics.stackRequired {
      return StackUnderflow;
    }
    return Success;
  }

  /** Jumps to a marked destination, or fails. */
  method JumpTo(e: Execution, jumpMap: seq<bool>, dst: Word) returns (next: int)
    requires e.Valid() && e.outputSize == 0
    modifies e`status
    ensures BaselineStepped(e, B.JumpTo(jumpMap, dst, old(e.Value())), next)
  {
    if dst >= |jumpMap| || !jumpMap[dst] {
      e.status := BadJumpDestination;
      return -1;
    }
    return dst;
  }

  method InvokePositional(e: Execution, jumpMap: seq<bool>, padded: seq<Byte>, pc: nat) returns (next: int)
    requires e.Valid() && e.outputSize == 0 && pc < |padded| && pc + PushSize(padded[pc]) < |padded|
    requires Defined(e.ctx.rev, padded[pc]) && 0 <= StackRequired(padded[pc]) <= e.stack.size
    requires e.stack.size + StackChange(padded[pc]) <= STACK_LIMIT
    requires padded[pc] == OP_JUMP || padded[pc] == OP_JUMPI || padded[pc] == OP_PC || IsPush(padded[pc])
    modifies e`status, e.stack`size, e.stack.storage
    ensures BaselineStepped(e, B.Dispatch(e.ctx, jumpMap, padded, pc, old(e.Value())), next)
  {
    hide GasCost, LoadWord, B.JumpTo;
    var op := padded[pc];
    if op == OP_JUMP {
      var dst := e.stack.Pop();
      next := JumpTo(e, jumpMap, dst);
    } else if op == OP_JUMPI {
      var dst, cond := e.PopTwo();
      if cond != 0 {
        next := JumpTo(e, jumpMap, dst);
      } else {
        next := pc + 1;
      }
    } else if op == OP_PC {
      e.stack.Push(ToWord(pc));
      next := pc + 1;
    } else {
      var len := PushSize(op);
      e.stack.Push(LoadWord(padded[pc + 1..pc + 1 + len]));
      next := pc + 1 + len;
    }
  }

  /** Executes the instruction at pc, whose requirements are met. */
  method Invoke(e: Execution, jumpMap: seq<bool>, padded: seq<Byte>, pc: nat) returns (next: int)
    requires e.gasLeft >= 0 && HonestHost(e.ctx.host)
    requires e.Valid() && e.outputSize == 0 && pc < |padded| && pc + PushSize(padded[pc]) < |padded|
    requires Defined(e.ctx.rev, padded[pc]) && 0 <= StackRequired(padded[pc]) <= e.stack.size
    requires e.stack.size + StackChange(padded[pc]) <= STACK_LIMIT
    modifies e`gasLeft, e`trace, e`returnData, e`status, e`outputOffset, e`outputSize,
             e.stack`size, e.stack.storage, e.memory, e.memory.data
    ensures BaselineStepped(e, B.Dispatch(e.ctx, jumpMap, padded, pc, old(e.Value())), next)
    ensures e.memory.data == old(e.memory.data) || fresh(e.memory.data) || next < 0
  {
    hide GasCost, StackRequired, StackChange, LoadWord, I.GasBlind, I.GasAware, I.Halting, I.IgnoresGas, I.ObservesGas,
         HonestHost;
    var op := padded[pc];
    B.Classified(e.ctx.rev, op);
    A.ClassesDisjoint(op);
    SpecialClasses(op);
    if op == OP_JUMP || op == OP_JUMPI || op == OP_PC || IsPush(op) {
      next := InvokePositional(e, jumpMap, padded, pc);
    } else if I.IsHalting(op) {
      var s := ExecuteHalting(e, op);
      e.status := s;
      next := -1;
    } else {
      var s;
      if I.ObservesGas(op) {
        s := ExecuteGasAware(e, op);
      } else {
        s := ExecuteGasBlind(e, op);
      }
      if s == Success {
        next := pc + 1;
      } else {
        e.status := s;
        next := -1;
      }
    }
  }

  lemma SpecialClasses(op: Byte)
    ensures I.IsHalting(op) ==> !I.IsOrdinary(op)
    ensures op == OP_JUMP || op == OP_JUMPI || op == OP_PC || IsPush(op) ==> !I.IsOrdinary(op) && !I.IsHalting(op)
  {
  }

  method StepBaseline(e: Execution, table: seq<B.Metrics>, jumpMap: seq<bool>, padded: seq<Byte>, pc: nat)
    returns (next: int)
    requires B.IsInstructionTable(e.ctx.rev, table)
    requires e.gasLeft >= INT64_MIN + 32000 && HonestHost(e.ctx.host)
    requires e.Valid() && e.outputSize == 0 && pc < |padded| && pc + PushSize(padded[pc]) < |padded|
    modifies e`gasLeft, e`trace, e`returnData, e`status, e`outputOffset, e`outputSize,
             e.stack`size, e.stack.storage, e.memory, e.memory.data
    ensures BaselineStepped(e, B.BaselineStep(e.ctx, jumpMap, padded, pc, old(e.Value())), next)
    ensures e.memory.data == old(e.memory.data) || fresh(e.memory.data) || next < 0
  {
    hide GasCost, StackRequired, StackChange, B.CheckRequirements, B.Dispatch, B.IsInstructionTable,
         HonestHost;
    B.CheckRequirementsMeaning(e.ctx.rev, e.Value(), padded[pc]);
    var s := CheckRequirements(e, table, padded[pc]);
    if s != Success {
      e.status := s;
      return -1;
    }
    next := Invoke(e, jumpMap, padded, pc);
  }

  /** The Baseline loop. It computes the Baseline result of the state it is given. */
  method ExecuteBaseline(e: Execution, jumpMap: seq<bool>, padded: seq<Byte>) returns (r: Result)
    requires e.Valid() && e.outputSize == 0
    requires B.Fetching(e.ctx, padded, 0, e.Value()) && B.IsJumpMap(e.ctx.code, jumpMap) && HonestHost(e.ctx.host)
    requires GasFits(e.gasLeft)
    modifies e`gasLeft, e`trace, e`returnData, e`status, e`outputOffset, e`outputSize,
             e.stack`size, e.stack.storage, e.memory, e.memory.data
    ensures r == B.BaselineRun(e.ctx, jumpMap, padded, 0, old(e.Value()))
  {
    hide B.BaselineStep, B.IsJumpMap, HonestHost, B.IsPadded, IsBoundary, Frugal, B.IsInstructionTable;
    var tables := B.InstructionTables();
    var table := tables[e.ctx.rev];
    var pc: nat := 0;
    ghost var expected := B.BaselineRun(e.ctx, jumpMap, padded, 0, e.Value());
    while true
      invariant e.Valid() && e.outputSize == 0
      invariant e.memory.data == old(e.memory.data) || fresh(e.memory.data)
      invariant B.Fetching(e.ctx, padded, pc, e.Value()) && e.gasLeft >= INT64_MIN + 32000
      invariant B.BaselineRun(e.ctx, jumpMap, padded, pc, e.Value()) == expected
      decreases e.gasLeft, |padded| - pc
    {
      B.FetchSafe(e.ctx, padded, pc, e.Value());
      ghost var step := B.BaselineStep(e.ctx, jumpMap, padded, pc, e.Value());
      if step.Go? {
        B.StepProgress(e.ctx, jumpMap, padded, pc, e.Value());
      }
      var next := StepBaseline(e, table, jumpMap, padded, pc);
      if next < 0 {
        r := MakeOutput(e, step.halt);
        return;
      }
      pc := next;
    }
  }

  /** The result construction that both interpreters end with. */
  method MakeOutput(e: Execution, ghost h: Halt) returns (r: Result)
    requires e.Valid() && e.Ended(h, e.status)
    ensures r == MakeResult(h)
    ensures r.status == e.status && r.trace == e.trace
    ensures r.gasLeft == if e.status == Success || e.status == Revert then e.gasLeft else 0
    ensures r.output == Slice(e.memory.Contents(), e.outputOffset, e.outputSize)
  {
    var gasLeft := if e.status.Success? || e.status.Revert? then e.gasLeft else 0;
    var output := e.memory.Read(e.outputOffset, e.outputSize);
    r := Result(e.status, gasLeft, output, e.trace);
  }

  // ---------- Advanced ----------

  /** A step that stays within the table and the stack. */
  ghost predicate Proper(step: A.Step) {
    step.Done? ==> step.halt.status != UndefinedBehaviour
  }

  ghost predicate AdvancedStepped(e: Execution, step: A.Step, next: int, blockCost: int)
    reads e, e.stack, e.stack.storage, e.memory, e.memory.data
  {
    match step
    case Go(ip, st, cost) => e.Valid() && next == ip && blockCost == cost && e.Value() == st && e.outputSize == 0
    case Done(h) => next < 0 && e.Ended(h, e.status)
  }

  method BeginBlock(e: Execution, ip: nat, info: BlockInfo) returns (next: int, blockCost: int)
    requires e.Valid() && e.outputSize == 0
    requires 0 <= info.gasCost <= UINT32_MAX && e.gasLeft >= INT64_MIN + UINT32_MAX
    modifies e`gasLeft, e`status
    ensures AdvancedStepped(e, A.BeginBlockStep(ip, info, old(e.Value())), next, blockCost)
  {
    blockCost := info.gasCost;
    next := -1;
    e.gasLeft := e.gasLeft - info.gasCost;
    if e.gasLeft < 0 {
      e.status := OutOfGas;
    } else if e.stack.size < info.stackReq {
      e.status := StackUnderflow;
    } else if e.stack.size + info.stackMaxGrowth > STACK_LIMIT {
      e.status := StackOverflow;
    } else {
      next := ip + 1;
    }
  }

  method Jump(e: Execution, an: CodeAnalysis, dst: Word, blockCost: int) returns (next: int)
    requires e.Valid() && e.outputSize == 0 && |an.jumpdestTargets| == |an.jumpdestOffsets|
    modifies e`status
    ensures AdvancedStepped(e, A.JumpStep(an, dst, old(e.Value()), blockCost), next, blockCost)
  {
    hide JumpTarget;
    next := JumpTarget(an, dst);
    if next < 0 {
      e.status := BadJumpDestination;
    }
  }

  /** The pre-charge can be given back and taken again within 64 bits. */
  predicate CorrectionFits(gas: int, number: int, blockCost: int) {
    gas >= 0 && 0 <= gas + (blockCost - number) <= INT64_MAX && blockCost - number <= UINT32_MAX
  }

  /** SSTORE, calls and creations: the pre-charge of the rest of the block is undone around them. */
  method Corrected(e: Execution, ip: nat, op: Byte, number: int, blockCost: int) returns (next: int)
    requires e.Valid() && e.outputSize == 0 && I.ObservesGas(op) && op != OP_GAS
    requires 0 <= StackRequired(op) <= e.stack.size && e.stack.size + StackChange(op) <= STACK_LIMIT
    requires CorrectionFits(e.gasLeft, number, blockCost) && HonestHost(e.ctx.host)
    modifies e`gasLeft, e`trace, e`returnData, e`status, e.stack`size, e.stack.storage, e.memory, e.memory.data
    ensures AdvancedStepped(e, A.CorrectedStep(e.ctx, ip, op, number, old(e.Value()), blockCost), next, blockCost)
    ensures e.memory.data == old(e.memory.data) || fresh(e.memory.data)
  {
    hide I.GasAware, StackRequired, StackChange, HonestHost;
    FundedOffers(e.ctx, op, More(e.Value(), blockCost - number));
    var correction: Int64 := blockCost - number;
    e.gasLeft := e.gasLeft + correction;
    assert e.Value() == More(old(e.Value()), correction);
    var s := ExecuteGasAware(e, op);
    next := -1;
    if s != Success {
      e.status := s;
    } else {
      e.gasLeft := e.gasLeft - correction;
      if e.gasLeft < 0 {
        e.status := OutOfGas;
      } else {
        next := ip + 1;
      }
    }
  }

  /** JUMP and JUMPI. */
  method ExecuteJump(e: Execution, an: CodeAnalysis, ip: nat, op: Byte, arg: Arg, blockCost: int) returns (next: int)
    requires e.Valid() && e.outputSize == 0 && (op == OP_JUMP || op == OP_JUMPI)
    requires Proper(A.OpStep(e.ctx, an, ip, op, arg, e.Value(), blockCost))
    requires 0 <= StackRequired(op) <= e.stack.size && e.stack.size + StackChange(op) <= STACK_LIMIT
    modifies e`status, e.stack`size
    ensures AdvancedStepped(e, A.OpStep(e.ctx, an, ip, op, arg, old(e.Value()), blockCost), next, blockCost)
  {
    hide A.JumpStep, StackRequired, StackChange;
    FlowOperands(op);
    next := ip + 1;
    if op == OP_JUMP {
      assert |an.jumpdestTargets| == |an.jumpdestOffsets| by { JumpProper(an, e.Value(), 1, blockCost); }
      var dst := e.stack.Pop();
      next := Jump(e, an, dst, blockCost);
    } else {
      var cond := e.stack.At(1);
      if cond != 0 {
        assert |an.jumpdestTargets| == |an.jumpdestOffsets| by { JumpProper(an, e.Value(), 2, blockCost); }
        var dst, _ := e.PopTwo();
        next := Jump(e, an, dst, blockCost);
      } else {
        e.stack.Discard(2);
      }
    }
  }

  /** Pushes, PC and GAS, which the Advanced interpreter implements in its own way. */
  method ExecutePush(e: Execution, an: CodeAnalysis, op: Byte, arg: Arg, blockCost: int)
    requires e.Valid() && e.stack.size < STACK_LIMIT && (op == OP_PC || op == OP_GAS || IsPush(op))
    requires op == OP_PC || op == OP_GAS ==> arg.Number?
    requires op == OP_GAS ==> CorrectionFits(e.gasLeft, arg.number, blockCost)
    requires IsSmallPush(op) ==> arg.SmallPush? && arg.value < WORD_MODULUS
    requires IsLargePush(op) ==> arg.PushIndex? && arg.index < |an.pushValues|
    modifies e.stack`size, e.stack.storage
    ensures e.Valid()
    ensures e.Value() == Push(old(e.Value()),
              if op == OP_PC then ToWord(arg.number)
              else if op == OP_GAS then I.GasWord(old(e.gasLeft) + (blockCost - arg.number))
              else if IsSmallPush(op) then arg.value
              else an.pushValues[arg.index])
  {
    if op == OP_PC {
      e.stack.Push(ToWord(arg.number));
    } else if op == OP_GAS {
      var left: Int64 := e.gasLeft + (blockCost - arg.number);
      e.stack.Push(I.GasWord(left));
    } else if IsSmallPush(op) {
      e.stack.Push(arg.value);
    } else {
      e.stack.Push(an.pushValues[arg.index]);
    }
  }

  /** What a push, PC or GAS means where it is proper. */
  lemma ProperPush(c: Context, an: CodeAnalysis, ip: nat, op: Byte, arg: Arg, st: State, blockCost: int)
    requires op == OP_PC || op == OP_GAS || IsPush(op)
    requires Proper(A.OpStep(c, an, ip, op, arg, st, blockCost))
    ensures |st.stack| < STACK_LIMIT
    ensures op == OP_PC || op == OP_GAS ==> arg.Number?
    ensures IsSmallPush(op) ==> arg.SmallPush? && arg.value < WORD_MODULUS
    ensures IsLargePush(op) ==> arg.PushIndex? && arg.index < |an.pushValues|
    ensures A.OpStep(c, an, ip, op, arg, st, blockCost) == A.Go(ip + 1, Push(st,
              if op == OP_PC then ToWord(arg.number)
              else if op == OP_GAS then I.GasWord(st.gas + (blockCost - arg.number))
              else if IsSmallPush(op) then arg.value
              else an.pushValues[arg.index]), blockCost)
  {
    hide I.GasBlind, I.GasAware, I.Halting, StackRequired, StackChange;
    FlowOperands(op);
  }

  lemma JumpProper(an: CodeAnalysis, st: State, n: nat, blockCost: int)
    requires 1 <= n <= |st.stack|
    requires Proper(A.JumpStep(an, Peek(st, 0), Drop(st, n), blockCost))
    ensures |an.jumpdestTargets| == |an.jumpdestOffsets|
  {
  }

  method ExecuteOp(e: Execution, an: CodeAnalysis, ip: nat, op: Byte, arg: Arg, blockCost: int) returns (next: int)
    requires e.Valid() && e.outputSize == 0
    requires e.gasLeft >= 0 && HonestHost(e.ctx.host)
    requires I.ObservesGas(op) && arg.Number? ==> CorrectionFits(e.gasLeft, arg.number, blockCost)
    requires Proper(A.OpStep(e.ctx, an, ip, op, arg, e.Value(), blockCost))
    modifies e`gasLeft, e`trace, e`returnData, e`status, e`outputOffset, e`outputSize,
             e.stack`size, e.stack.storage, e.memory, e.memory.data
    ensures AdvancedStepped(e, A.OpStep(e.ctx, an, ip, op, arg, old(e.Value()), blockCost), next, blockCost)
    ensures e.memory.data == old(e.memory.data) || fresh(e.memory.data) || next < 0
  {
    hide StackRequired, StackChange, I.GasBlind, I.GasAware, I.Halting, A.CorrectedStep, A.JumpStep, I.IgnoresGas,
         HonestHost, CorrectionFits;
    A.ClassesDisjoint(op);
    SpecialClasses(op);
    if op == OP_JUMP || op == OP_JUMPI {
      next := ExecuteJump(e, an, ip, op, arg, blockCost);
    } else if op == OP_PC || op == OP_GAS || IsPush(op) {
      ProperPush(e.ctx, an, ip, op, arg, e.Value(), blockCost);
      ExecutePush(e, an, op, arg, blockCost);
      next := ip + 1;
    } else if I.IsHalting(op) {
      var s := ExecuteHalting(e, op);
      e.status := s;
      next := -1;
    } else if I.IgnoresGas(op) {
      var s := ExecuteGasBlind(e, op);
      if s != Success {
        e.status := s;
        next := -1;
      } else {
        next := ip + 1;
      }
    } else {
      next := Corrected(e, ip, op, arg.number, blockCost);
    }
  }

  /** Every charge that the entry at ip makes, or gives back, stays within 64 bits. */
  ghost predicate ChargesFit(an: CodeAnalysis, ip: nat, gas: int, blockCost: int) {
    ip < |an.instrs| ==>
      match an.instrs[ip].fn
      case BeginBlock =>
        && gas >= INT64_MIN + UINT32_MAX
        && (an.instrs[ip].arg.Block? ==> 0 <= an.instrs[ip].arg.info.gasCost <= UINT32_MAX)
      case UndefinedOp => true
      case Op(op) =>
        && gas >= 0
        && (I.ObservesGas(op) && an.instrs[ip].arg.Number? ==>
              CorrectionFits(gas, an.instrs[ip].arg.number, blockCost))
  }

  method StepAdvanced(e: Execution, an: CodeAnalysis, ip: nat, cost: int) returns (next: int, blockCost: int)
    requires e.Valid() && e.outputSize == 0
    requires Proper(A.AdvancedStep(e.ctx, an, ip, e.Value(), cost))
    requires ChargesFit(an, ip, e.gasLeft, cost) && HonestHost(e.ctx.host)
    modifies e`gasLeft, e`trace, e`returnData, e`status, e`outputOffset, e`outputSize,
             e.stack`size, e.stack.storage, e.memory, e.memory.data
    ensures AdvancedStepped(e, A.AdvancedStep(e.ctx, an, ip, old(e.Value()), cost), next, blockCost)
    ensures e.memory.data == old(e.memory.data) || fresh(e.memory.data) || next < 0
  {
    hide A.OpStep, A.BeginBlockStep, HonestHost, Frugal, StackDiscipline, CorrectionFits, I.ObservesGas;
    var instr := an.instrs[ip];
    blockCost := cost;
    match instr.fn
    case BeginBlock =>
      next, blockCost := BeginBlock(e, ip, instr.arg.info);
    case UndefinedOp =>
      e.status := UndefinedInstruction;
      next := -1;
    case Op(op) =>
      A.OpStepLawful(e.ctx, an, ip, op, instr.arg, e.Value(), cost);
      next := ExecuteOp(e, an, ip, op, instr.arg, cost);
  }

  /** At every reached state the charges of the next step fit. */
  lemma ChargesFitAt(c: Context, n: nat)
    requires HonestHost(c.host) && Addressable(c.code) && CostsFit(c.rev, c.code, c.msg.gas) && GasFits(c.msg.gas)
    ensures match RunLaws.AdvancedAfter(c, n)
            case Go(ip, st, blockCost) => ChargesFit(AnalysisOf(c.rev, c.code), ip, st.gas, blockCost)
            case Done(_) => true
  {
    hide RunLaws.AdvancedAfter, HonestHost, Addressable, CostsFit, AnalysisOf, MemoryCost, I.ObservesGas;
    ReachableStates.StatesInRange(c, n);
    ReachableStates.ObserversFunded(c, n);
    match RunLaws.AdvancedAfter(c, n)
    case Done(_) =>
    case Go(ip, st, blockCost) =>
      GasBounded(c, n);
  }

  lemma {:induction false} GasBounded(c: Context, n: nat)
    requires HonestHost(c.host) && GasFits(c.msg.gas)
    ensures match RunLaws.AdvancedAfter(c, n)
            case Go(_, st, _) => INT64_MIN + UINT32_MAX <= st.gas
            case Done(_) => true
  {
    hide HonestHost, AnalysisOf, A.AdvancedStep, MemoryCost, TraceExtends, A.BlocksHaveCosts, RunLaws.AdvancedAfter;
    RunLaws.AdvancedAfterUnfold(c, if n == 0 then 0 else n - 1);
    if n > 0 && RunLaws.AdvancedAfter(c, n - 1).Go? {
      var r := RunLaws.AdvancedAfter(c, n - 1);
      RunLaws.AdvancedTableHasCosts(c);
      A.StepLawful(c, AnalysisOf(c.rev, c.code), r.ip, r.st, r.blockCost);
    }
  }

  /** The Advanced loop. It computes the Advanced result, and its gas counter never leaves 64 bits. */
  method ExecuteAdvanced(e: Execution, an: CodeAnalysis) returns (r: Result)
    requires e.Valid() && e.outputSize == 0 && e.Value() == InitialState(e.ctx)
    requires an == AnalysisOf(e.ctx.rev, e.ctx.code) && HonestHost(e.ctx.host) && GasFits(e.ctx.msg.gas)
    requires Addressable(e.ctx.code) && CostsFit(e.ctx.rev, e.ctx.code, e.ctx.msg.gas)
    modifies e`gasLeft, e`trace, e`returnData, e`status, e`outputOffset, e`outputSize,
             e.stack`size, e.stack.storage, e.memory, e.memory.data
    ensures r == A.Execute(e.ctx)
  {
    hide A.AdvancedStep, A.BlocksHaveCosts, HonestHost, AnalysisOf, Addressable, CostsFit, ChargesFit, MakeResult,
         RunLaws.AdvancedAfter, GasFits;
    A.AnalysisSound(e.ctx.rev, e.ctx.code);
    AdvancedNeverStuck(e.ctx);
    RunLaws.AdvancedAfterUnfold(e.ctx, 0);
    var ip: nat := 0;
    var blockCost := 0;
    ghost var n: nat := 0;
    ghost var expected := A.Execute(e.ctx);
    while true
      invariant e.Valid() && e.outputSize == 0
      invariant e.memory.data == old(e.memory.data) || fresh(e.memory.data)
      invariant RunLaws.AdvancedAfter(e.ctx, n) == A.Go(ip, e.Value(), blockCost)
      invariant A.Running(an, ip, e.Value())
      invariant A.AdvancedRun(e.ctx, an, ip, e.Value(), blockCost) == expected
      decreases e.gasLeft + A.Weight(an, ip), |an.instrs| - ip
    {
      ghost var step := A.AdvancedStep(e.ctx, an, ip, e.Value(), blockCost);
      ChargesFitAt(e.ctx, n);
      RunLaws.AdvancedAfterUnfold(e.ctx, n);
      ProperUnlessStuck(step);
      if step.Go? {
        A.StepProgress(e.ctx, an, ip, e.Value(), blockCost);
      }
      var next, cost := StepAdvanced(e, an, ip, blockCost);
      if next < 0 {
        r := MakeOutput(e, step.halt);
        return;
      }
      ip, blockCost, n := next, cost, n + 1;
    }
  }

  lemma ProperUnlessStuck(step: A.Step)
    ensures step.Done? && Observe(MakeResult(step.halt)) != Stuck ==> Proper(step)
    ensures step.Go? ==> Proper(step)
  {
  }

  // ---------- whole messages ----------

  /** Runs a message in Baseline. The result is the Baseline result for every possible padding. */
  method RunBaseline(c: Context) returns (r: Result)
    requires HonestHost(c.host) && GasFits(c.msg.gas)
    ensures forall jumpMap: seq<bool>, padded: seq<Byte> ::
      B.IsJumpMap(c.code, jumpMap) && B.IsPadded(c.code, padded) ==> r == B.Execute(c, jumpMap, padded)
  {
    hide B.BaselineRun, HonestHost;
    var jumpMap, padded := B.Analyze(c.code);
    var e := new Execution(c);
    RunLaws.StartBoundary(c.code);
    var used, buffer := jumpMap[..], padded[..];
    r := ExecuteBaseline(e, used, buffer);
    forall other: seq<bool>, others: seq<Byte> | B.IsJumpMap(c.code, other) && B.IsPadded(c.code, others)
      ensures r == B.Execute(c, other, others)
    {
      assert other == used;
      RunLaws.PaddingIndependent(c, used, buffer, others, 0, InitialState(c));
    }
  }

  /** Runs a message in Advanced, in a state that earlier messages may have used. What they left behind
      does not matter. */
  method RunAdvanced(e: Execution, c: Context) returns (r: Result)
    requires e.Valid() && HonestHost(c.host) && GasFits(c.msg.gas)
    requires Addressable(c.code) && CostsFit(c.rev, c.code, c.msg.gas)
    modifies e, e.stack, e.stack.storage, e.memory, e.memory.data
    ensures r == A.Execute(c)
  {
    hide A.Execute, HonestHost, CostsFit, Addressable;
    var an := Analysis.Analyze(c.rev, c.code);
    e.Reset(c);
    r := ExecuteAdvanced(e, an);
  }

  /** Some bitmap and some padding always exist, so the refinement theorem applies to every message. */
  lemma AdvancedNeverStuck(c: Context)
    requires HonestHost(c.host) && Addressable(c.code) && CostsFit(c.rev, c.code, c.msg.gas)
    ensures Observe(A.Execute(c)) != Stuck
  {
    hide A.Execute, B.Execute, HonestHost, CostsFit, Observe;
    Refinement.AdvancedSimulatesBaseline(c, B.ExactJumpMap(c.code), B.ZeroPadded(c.code));
  }

  /** Runs the same message in both interpreters, as the differential fuzzer does: the observations agree,
      unless the code is not indexable and Advanced ends with a bad jump destination. */
  method CrossCheck(e: Execution, c: Context) returns (advanced: Result, baseline: Result)
    requires e.Valid() && HonestHost(c.host) && GasFits(c.msg.gas)
    requires Addressable(c.code) && CostsFit(c.rev, c.code, c.msg.gas)
    modifies e, e.stack, e.stack.storage, e.memory, e.memory.data
    ensures Simulation.Refines(c, advanced, Observe(baseline))
    ensures Indexable(c.code) ==> Observe(advanced) == Observe(baseline)
    ensures Observe(advanced) != Stuck
  {
    hide A.Execute, B.Execute, HonestHost, CostsFit, Observe, Addressable, Indexable;
    var jumpMap, padded := B.Analyze(c.code);
    ghost var used, buffer := jumpMap[..], padded[..];
    Refinement.AdvancedSimulatesBaseline(c, used, buffer);
    baseline := RunBaseline(c);
    advanced := RunAdvanced(e, c);
  }
}
