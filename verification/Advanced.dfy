/** The Advanced interpreter: it runs the instruction table, checking gas and stack once per block. */
module Advanced {
  import opened Words
  import opened InstructionTraits
  import opened Machine
  import opened MemoryExpansion
  import opened Instructions
  import opened InstructionLaws
  import opened CodeStructure
  import opened Analysis
  import opened TableStructure

  // ---------- one step ----------

  datatype Step = Go(ip: nat, st: State, blockCost: int) | Done(halt: Halt)

  function Stop(status: Status, st: State): Step {
    Done(Halt(status, st, []))
  }

  /** The table or the unchecked stack is used outside its bounds, an entry does not have the argument
      its function reads, or the host is offered negative gas. */
  function Undefined(st: State): Step {
    Stop(UndefinedBehaviour, st)
  }

  function BeginBlockStep(ip: nat, info: BlockInfo, st: State): Step {
    var gas := st.gas - info.gasCost;
    if gas < 0 then Stop(OutOfGas, st)
    else if |st.stack| < info.stackReq then Stop(StackUnderflow, st)
    else if |st.stack| + info.stackMaxGrowth > STACK_LIMIT then Stop(StackOverflow, st)
    else Go(ip + 1, st.(gas := gas), info.gasCost)
  }

  function JumpStep(an: CodeAnalysis, dst: Word, st: State, blockCost: int): Step {
    if |an.jumpdestTargets| != |an.jumpdestOffsets| then Undefined(st)
    else
      var target := JumpTarget(an, dst);
      if target < 0 then Stop(BadJumpDestination, st) else Go(target, st, blockCost)
  }

  function Continue(ip: nat, r: Outcome, st: State, blockCost: int): Step {
    match r
    case Err(status, trace) => Done(Aborted(status, trace, st))
    case Ok(st') => Go(ip + 1, st', blockCost)
  }

  /** SSTORE, calls and creations run with the gas that Baseline would show them: the pre-charged cost
      of the rest of the block is given back first and taken again afterwards. */
  function CorrectedStep(c: Context, ip: nat, op: Byte, number: int, st: State, blockCost: int): Step
    requires ObservesGas(op) && op != OP_GAS && |st.stack| >= StackRequired(op)
  {
    var correction := blockCost - number;
    var restored := More(st, correction);
    match GasAware(c, op, restored)
    case Err(status, trace) => Done(Aborted(status, trace, st))
    case Ok(st') =>
      if OffersNegativeGas(restored, st') then Undefined(st)
      else if st'.gas - correction < 0 then Stop(OutOfGas, st')
      else Go(ip + 1, Less(st', correction), blockCost)
  }

  function OpStep(c: Context, an: CodeAnalysis, ip: nat, op: Byte, arg: Arg, st: State, blockCost: int): Step {
    if |st.stack| < StackRequired(op) || StackRequired(op) < 0 || |st.stack| + StackChange(op) > STACK_LIMIT
    then Undefined(st)
    else if op == OP_JUMP then JumpStep(an, Peek(st, 0), Drop(st, 1), blockCost)
    else if op == OP_JUMPI then
      if Peek(st, 1) != 0 then JumpStep(an, Peek(st, 0), Drop(st, 2), blockCost)
      else Go(ip + 1, Drop(st, 2), blockCost)
    else if IsSmallPush(op) then
      if arg.SmallPush? && arg.value < WORD_MODULUS then Go(ip + 1, Push(st, arg.value), blockCost)
      else Undefined(st)
    else if IsLargePush(op) then
      if arg.PushIndex? && arg.index < |an.pushValues| then Go(ip + 1, Push(st, an.pushValues[arg.index]), blockCost)
      else Undefined(st)
    else if IsHalting(op) then Done(Halting(c, op, st))
    else if IgnoresGas(op) then Continue(ip, GasBlind(c, op, st), st, blockCost)
    else if !arg.Number? then Undefined(st)
    else if op == OP_PC then Go(ip + 1, Push(st, ToWord(arg.number)), blockCost)
    else if op == OP_GAS then Go(ip + 1, Push(st, GasWord(st.gas + (blockCost - arg.number))), blockCost)
    else if ObservesGas(op) then CorrectedStep(c, ip, op, arg.number, st, blockCost)
    else Undefined(st)
  }

  function AdvancedStep(c: Context, an: CodeAnalysis, ip: nat, st: State, blockCost: int): Step {
    if ip >= |an.instrs| then Undefined(st)
    else
      var instr := an.instrs[ip];
      match instr.fn
      case BeginBlock => if instr.arg.Block? then BeginBlockStep(ip, instr.arg.info, st) else Undefined(st)
      case UndefinedOp => Stop(UndefinedInstruction, st)
      case Op(op) => OpStep(c, an, ip, op, instr.arg, st, blockCost)
  }

  // ---------- whole runs ----------

  predicate IsBlockEntry(instr: Instr, minCost: int) {
    instr.fn == BeginBlock && instr.arg.Block? && instr.arg.info.gasCost >= minCost
  }

  ghost predicate BlocksHaveCosts(instrs: seq<Instr>) {
    forall i :: 0 <= i < |instrs| && instrs[i].fn == BeginBlock ==> IsBlockEntry(instrs[i], 0)
  }

  /** Blocks have non-negative costs, and the pairs that a jump can use lead to blocks that charge. */
  ghost predicate Sound(an: CodeAnalysis) {
    && |an.jumpdestTargets| == |an.jumpdestOffsets|
    && BlocksHaveCosts(an.instrs)
    && (forall i :: 0 <= i < |an.jumpdestTargets| && an.jumpdestOffsets[i] >= 0 && an.jumpdestTargets[i] >= 0 ==>
          && an.jumpdestTargets[i] < |an.instrs|
          && IsBlockEntry(an.instrs[an.jumpdestTargets[i]], 1))
  }

  /** Where gas is about to be spent for certain, the measure counts it as spent already. */
  function Weight(an: CodeAnalysis, ip: nat): nat {
    if ip < |an.instrs| && IsBlockEntry(an.instrs[ip], 1) then 0 else 1
  }

  /** Gas that a block may be entered with: only BEGINBLOCK sees a negative amount. */
  predicate Running(an: CodeAnalysis, ip: nat, st: State) {
    st.gas >= 0 || (ip < |an.instrs| && an.instrs[ip].fn == BeginBlock)
  }

  lemma FrugalShift(c: Context, st: State, next: State, correction: int)
    requires Frugal(c, More(st, correction), next) && st.gas >= 0 && next.gas - correction >= 0
    ensures Frugal(c, st, Less(next, correction))
  {
    hide MemoryCost, TraceExtends;
  }

  /** A refused creation takes nothing. */
  lemma RefusedFrugal(c: Context, op: Byte, st: State, next: State, correction: int)
    requires 0 <= StackRequired(op) <= |st.stack| && st.gas >= 0
    requires next.gas == st.gas + correction && next.mem == st.mem && TraceExtends(c, st.trace, next.trace)
    requires StackDiscipline(op, More(st, correction), next)
    ensures Frugal(c, st, Less(next, correction)) && StackDiscipline(op, st, Less(next, correction))
  {
    hide TraceExtends, StackRequired, StackChange;
  }

  /** An instruction that is run with the pre-charge given back obeys the law on the gas that Advanced
      holds. */
  lemma CorrectedStepLawful(c: Context, ip: nat, op: Byte, number: int, st: State, blockCost: int)
    requires ObservesGas(op) && op != OP_GAS && 0 <= StackRequired(op) <= |st.stack| && HonestHost(c.host)
    requires st.gas >= 0
    ensures var next := CorrectedStep(c, ip, op, number, st, blockCost);
            next.Go? ==>
              && next.ip == ip + 1 && next.blockCost == blockCost
              && Frugal(c, st, next.st) && StackDiscipline(op, st, next.st)
  {
    hide GasAware, GasBlind, StackRequired, StackChange, TraceExtends, PaysForMemory, HonestHost;
    var correction := blockCost - number;
    var s0 := More(st, correction);
    var r := GasAware(c, op, s0);
    if s0.gas >= 0 {
      OrdinaryLawful(c, op, s0);
      if r.Ok? && r.st.gas - correction >= 0 {
        FrugalShift(c, st, r.st, correction);
      }
    } else {
      UnfundedFails(c, op, s0);
      if r.Ok? && !OffersNegativeGas(s0, r.st) {
        RefusedFrugal(c, op, st, r.st, correction);
      }
    }
  }

  /** The instruction leaves its place in the table: it is a JUMP, or a JUMPI whose condition holds. */
  predicate TakesJump(op: Byte, st: State) {
    op == OP_JUMP || (op == OP_JUMPI && |st.stack| >= 2 && Peek(st, 1) != 0)
  }

  /** The law of all instructions, as the table executes them: if the execution goes on then it goes on
      with the next entry or where the jump tables lead, with the stack changed by the table value and only
      within the declared items, without a gain of gas, with the new memory paid for, and in static mode
      with harmless requests only. */
  lemma OpStepLawful(c: Context, an: CodeAnalysis, ip: nat, op: Byte, arg: Arg, st: State, blockCost: int)
    requires HonestHost(c.host) && st.gas >= 0
    ensures var next := OpStep(c, an, ip, op, arg, st, blockCost);
            next.Go? ==>
              && 0 <= StackRequired(op) <= |st.stack| && |next.st.stack| <= STACK_LIMIT
              && StackDiscipline(op, st, next.st)
              && Frugal(c, st, next.st)
              && next.blockCost == blockCost
              && (if TakesJump(op, st) then
                    && |st.stack| >= 1 && |an.jumpdestTargets| == |an.jumpdestOffsets|
                    && next.ip == JumpTarget(an, Peek(st, 0))
                  else next.ip == ip + 1)
  {
    hide GasAware, GasBlind, StackRequired, StackChange, TraceExtends, PaysForMemory, MemoryCost, HonestHost,
         CorrectedStep, Halting, JumpTarget, Frugal, StackDiscipline;
    ClassesDisjoint(op);
    if OpStep(c, an, ip, op, arg, st, blockCost).Go? {
      DisciplineHeight(op, st, OpStep(c, an, ip, op, arg, st, blockCost).st);
      if IgnoresGas(op) {
        OrdinaryLawful(c, op, st);
      } else if ObservesGas(op) && op != OP_GAS {
        CorrectedStepLawful(c, ip, op, arg.number, st, blockCost);
      } else {
        OwnStepLawful(c, an, ip, op, arg, st, blockCost);
      }
    }
  }

  lemma DisciplineHeight(op: Byte, before: State, after: State)
    requires 0 <= StackRequired(op) <= |before.stack| && |before.stack| + StackChange(op) <= STACK_LIMIT
    ensures StackDiscipline(op, before, after) ==> |after.stack| <= STACK_LIMIT
  {
  }

  /** Jumps, pushes, PC and GAS. */
  lemma OwnStepLawful(c: Context, an: CodeAnalysis, ip: nat, op: Byte, arg: Arg, st: State, blockCost: int)
    requires st.gas >= 0 && !IgnoresGas(op) && (ObservesGas(op) ==> op == OP_GAS)
    ensures var next := OpStep(c, an, ip, op, arg, st, blockCost);
            next.Go? ==>
              && 0 <= StackRequired(op) <= |st.stack|
              && StackDiscipline(op, st, next.st)
              && Frugal(c, st, next.st)
              && next.blockCost == blockCost
              && (if TakesJump(op, st) then
                    && |st.stack| >= 1 && |an.jumpdestTargets| == |an.jumpdestOffsets|
                    && next.ip == JumpTarget(an, Peek(st, 0))
                  else next.ip == ip + 1)
  {
    hide GasAware, GasBlind, Halting, JumpTarget, StackRequired, StackChange, StackDiscipline, CorrectedStep, Frugal;
    FlowOperands(op);
    var next := OpStep(c, an, ip, op, arg, st, blockCost);
    if next.Go? {
      SameButStack(c, st, next.st);
      if op == OP_JUMP || op == OP_JUMPI {
        OnlyOperands(op, st, StackRequired(op), 0);
      } else {
        OnlyOperands(op, st, 0, next.st.stack[|st.stack|]);
      }
    }
  }

  lemma OpStepProgress(c: Context, an: CodeAnalysis, ip: nat, op: Byte, arg: Arg, st: State, blockCost: int)
    requires Sound(an) && HonestHost(c.host) && st.gas >= 0
    ensures var next := OpStep(c, an, ip, op, arg, st, blockCost);
            next.Go? ==>
              && 0 <= next.st.gas <= st.gas
              && (next.ip == ip + 1 || (next.ip < |an.instrs| && IsBlockEntry(an.instrs[next.ip], 1)))
  {
    hide OpStep, StackRequired, StackDiscipline, HonestHost, PaysForMemory, TraceExtends, JumpTarget;
    OpStepLawful(c, an, ip, op, arg, st, blockCost);
    if OpStep(c, an, ip, op, arg, st, blockCost).Go? && TakesJump(op, st) {
      var i := FoundPair(an, Peek(st, 0));
    }
  }

  lemma ClassesDisjoint(op: Byte)
    ensures IgnoresGas(op) ==> !ObservesGas(op)
    ensures op == OP_JUMP || op == OP_JUMPI ==> StackRequired(op) >= 1
    ensures op == OP_JUMPI ==> StackRequired(op) == 2
  {
  }

  /** The law for whole steps, BEGINBLOCK included, of any table whose blocks have non-negative costs. */
  lemma StepLawful(c: Context, an: CodeAnalysis, ip: nat, st: State, blockCost: int)
    requires BlocksHaveCosts(an.instrs) && HonestHost(c.host) && Running(an, ip, st) && |st.stack| <= STACK_LIMIT
    ensures var next := AdvancedStep(c, an, ip, st, blockCost);
            next.Go? ==> ip < |an.instrs| && Frugal(c, st, next.st) && |next.st.stack| <= STACK_LIMIT
  {
    hide OpStep, HonestHost, MemoryCost;
    if ip < |an.instrs| && an.instrs[ip].fn.Op? {
      OpStepLawful(c, an, ip, an.instrs[ip].fn.opcode, an.instrs[ip].arg, st, blockCost);
    }
  }

  /** Every step spends gas, moves forward, or jumps to a block that will charge. */
  lemma StepProgress(c: Context, an: CodeAnalysis, ip: nat, st: State, blockCost: int)
    requires Sound(an) && HonestHost(c.host) && Running(an, ip, st)
    requires AdvancedStep(c, an, ip, st, blockCost).Go?
    ensures var next := AdvancedStep(c, an, ip, st, blockCost);
            && 0 <= next.st.gas <= st.gas
            && ip < |an.instrs|
            && (next.st.gas + Weight(an, next.ip) < st.gas + Weight(an, ip)
                || (next.st.gas + Weight(an, next.ip) == st.gas + Weight(an, ip) && next.ip > ip))
  {
    hide OpStep;
    if an.instrs[ip].fn.Op? {
      OpStepProgress(c, an, ip, an.instrs[ip].fn.opcode, an.instrs[ip].arg, st, blockCost);
    }
  }

  /** The Advanced loop: it ends for every sound table, code and gas. */
  function AdvancedRun(c: Context, an: CodeAnalysis, ip: nat, st: State, blockCost: int): Result
    requires Sound(an) && HonestHost(c.host) && Running(an, ip, st)
    decreases st.gas + Weight(an, ip), |an.instrs| - ip
  {
    match AdvancedStep(c, an, ip, st, blockCost)
    case Done(halt) => MakeResult(halt)
    case Go(ip', st', blockCost') =>
      StepProgress(c, an, ip, st, blockCost);
      AdvancedRun(c, an, ip', st', blockCost')
  }

  // ---------- analysed tables are sound ----------

  lemma SummaryCost(rev: Revision, code: seq<Byte>, p: nat)
    ensures InfoAt(rev, code, p).gasCost == Clamp(RestCost(rev, code, p), UINT32_MAX)
    ensures InfoAt(rev, code, p).gasCost >= 0
    ensures p < |code| && code[p] == OP_JUMPDEST ==> InfoAt(rev, code, p).gasCost >= 1
  {
    hide Summarize;
    SummaryMeaning(rev, code, EMPTY_BLOCK, p, 0);
    FlowCosts(rev);
  }

  lemma {:induction false} EmitHasCosts(rev: Revision, code: seq<Byte>, p: nat, prefix: int, k: nat)
    ensures BlocksHaveCosts(Emit(rev, code, p, prefix, k))
    decreases |code| - p
  {
    hide TableCost, InfoAt, EndsBlock, OwnEntry, Emit, BlocksHaveCosts;
    if p >= |code| {
      NothingHasCosts(rev, code, p, prefix, k);
    } else {
      var q, k' := NextPos(code, p), k + LargeCount(code[p]);
      EmitUnfold(rev, code, p, prefix, k);
      OwnHasCosts(rev, code, p, prefix, k);
      var own := OwnEntry(rev, code, p, prefix, k);
      if EndsBlock(code, p) {
        EmitHasCosts(rev, code, q, 0, k');
        CostsConcat(own + [Begin(InfoAt(rev, code, q))], Emit(rev, code, q, 0, k'));
      } else {
        EmitHasCosts(rev, code, q, prefix + TableCost(rev, code[p]), k');
        CostsConcat(own, Emit(rev, code, q, prefix + TableCost(rev, code[p]), k'));
      }
    }
  }

  lemma NothingHasCosts(rev: Revision, code: seq<Byte>, p: nat, prefix: int, k: nat)
    requires p >= |code|
    ensures BlocksHaveCosts(Emit(rev, code, p, prefix, k))
  {
  }

  lemma OwnHasCosts(rev: Revision, code: seq<Byte>, p: nat, prefix: int, k: nat)
    requires p < |code|
    ensures var own := OwnEntry(rev, code, p, prefix, k);
            BlocksHaveCosts(own) && BlocksHaveCosts(own + [Begin(InfoAt(rev, code, NextPos(code, p)))])
  {
    hide ArgFor, Defined, InfoAt;
    SummaryCost(rev, code, NextPos(code, p));
  }

  lemma CostsConcat(a: seq<Instr>, b: seq<Instr>)
    requires BlocksHaveCosts(a) && BlocksHaveCosts(b)
    ensures BlocksHaveCosts(a + b)
  {
  }

  lemma TableHasCosts(rev: Revision, code: seq<Byte>)
    ensures BlocksHaveCosts(Table(rev, code))
  {
    hide InfoAt, Emit, BlocksHaveCosts;
    EmitHasCosts(rev, code, 0, 0, 0);
    EndsHaveCosts(rev, code);
    CostsConcat([Begin(InfoAt(rev, code, 0))], Emit(rev, code, 0, 0, 0));
    CostsConcat([Begin(InfoAt(rev, code, 0))] + Emit(rev, code, 0, 0, 0), [FINAL_STOP]);
  }

  lemma EndsHaveCosts(rev: Revision, code: seq<Byte>)
    ensures BlocksHaveCosts([Begin(InfoAt(rev, code, 0))]) && BlocksHaveCosts([FINAL_STOP])
  {
    hide InfoAt;
    SummaryCost(rev, code, 0);
  }

  lemma AnalysisSound(rev: Revision, code: seq<Byte>)
    requires Addressable(code)
    ensures Sound(AnalysisOf(rev, code))
  {
    hide InfoAt, Emit, JumpOffsets, JumpTargets, LargePushes, AtInstr, Table, BlocksHaveCosts, Addressable, Indexable,
         Reaches, JumpTablesRight;
    var an := AnalysisOf(rev, code);
    JumpTables(rev, code);
    TableHasCosts(rev, code);
    forall i | 0 <= i < |an.jumpdestTargets| && an.jumpdestOffsets[i] >= 0 && an.jumpdestTargets[i] >= 0
      ensures an.jumpdestTargets[i] < |an.instrs| && IsBlockEntry(an.instrs[an.jumpdestTargets[i]], 1)
    {
      assert PairRight(rev, code, an, 0, an.jumpdestOffsets[i], an.jumpdestTargets[i]);
      SummaryCost(rev, code, an.jumpdestOffsets[i]);
    }
  }

  /** The Advanced result of a message: analyse, then run from the first entry. */
  function Execute(c: Context): Result
    requires Addressable(c.code) && HonestHost(c.host)
  {
    AnalysisSound(c.rev, c.code);
    TableShape(c.rev, c.code);
    AdvancedRun(c, AnalysisOf(c.rev, c.code), 0, InitialState(c), 0)
  }
}
