/** The Advanced interpreter refines the Baseline interpreter. */
module Simulation {
  import opened Words
  import opened InstructionTraits
  import opened Machine
  import opened MemoryExpansion
  import opened Instructions
  import opened InstructionLaws
  import opened CodeStructure
  import opened Analysis
  import opened TableStructure
  import B = Baseline
  import A = Advanced

  // ---------- the setting ----------

  function An(c: Context): CodeAnalysis {
    AnalysisOf(c.rev, c.code)
  }

  /** What is fixed while Baseline runs a message. */
  ghost predicate BaselineSetting(c: Context, jumpMap: seq<bool>, padded: seq<Byte>) {
    HonestHost(c.host) && B.IsJumpMap(c.code, jumpMap) && B.IsPadded(c.code, padded)
  }

  /** What is fixed while both interpreters run the same message. */
  ghost predicate Setting(c: Context, jumpMap: seq<bool>, padded: seq<Byte>) {
    && BaselineSetting(c, jumpMap, padded)
    && Addressable(c.code) && CostsFit(c.rev, c.code, c.msg.gas)
    && A.Sound(An(c))
  }

  /** Both interpreters stand before the instruction at pc. Advanced has already paid for the rest of
      the block: it holds exactly that much less gas, and the stack is known to fit. */
  ghost predicate InBlock(c: Context, ip: nat, pc: nat, prefix: int, k: nat, st: State, blockCost: int) {
    && IsBoundary(c.code, pc) && AtInstr(c.rev, c.code, An(c), ip, pc, prefix, k)
    && |st.stack| <= STACK_LIMIT && st.gas <= c.msg.gas
    && RestCost(c.rev, c.code, pc) <= st.gas
    && StackFits(c.rev, c.code, pc, |st.stack|)
    && blockCost == prefix + RestCost(c.rev, c.code, pc)
    && (pc < |c.code| ==> c.code[pc] != OP_JUMPDEST)
  }

  /** Both interpreters stand before the block at pc, with the same state. */
  ghost predicate BeforeBlock(c: Context, ip: nat, pc: nat, k: nat, st: State) {
    && IsBoundary(c.code, pc) && AtBlock(c.rev, c.code, An(c), ip, pc, k)
    && |st.stack| <= STACK_LIMIT && st.gas <= c.msg.gas
  }

  ghost function AdvancedResult(c: Context, ip: nat, st: State, blockCost: int): Result
    requires HonestHost(c.host) && A.Sound(An(c)) && A.Running(An(c), ip, st)
  {
    A.AdvancedRun(c, An(c), ip, st, blockCost)
  }

  /** The result of Advanced agrees with what is observed of Baseline, unless the code has a jump destination
      that the jump tables cannot represent and Advanced has refused a jump. */
  ghost predicate Refines(c: Context, advanced: Result, baseline: Observation) {
    || Observe(advanced) == baseline
    || (advanced.status == BadJumpDestination && !Indexable(c.code))
  }

  ghost function BaselineResult(c: Context, jumpMap: seq<bool>, padded: seq<Byte>, pc: nat, st: State): Observation
    requires BaselineSetting(c, jumpMap, padded) && IsBoundary(c.code, pc) && |st.stack| <= STACK_LIMIT
  {
    Observe(B.BaselineRun(c, jumpMap, padded, pc, st))
  }

  // ---------- single steps of the two machines ----------

  lemma BaselineUnfold(c: Context, jumpMap: seq<bool>, padded: seq<Byte>, pc: nat, st: State)
    requires BaselineSetting(c, jumpMap, padded) && IsBoundary(c.code, pc) && |st.stack| <= STACK_LIMIT
    ensures pc < |padded| && pc + PushSize(padded[pc]) < |padded|
    ensures match B.BaselineStep(c, jumpMap, padded, pc, st)
            case Done(h) => BaselineResult(c, jumpMap, padded, pc, st) == Observe(MakeResult(h))
            case Go(pc', st') =>
              && IsBoundary(c.code, pc') && |st'.stack| <= STACK_LIMIT
              && BaselineResult(c, jumpMap, padded, pc, st) == BaselineResult(c, jumpMap, padded, pc', st')
  {
    hide B.BaselineStep, Observe, CostsFit, A.Sound, AnalysisOf;
    B.FetchSafe(c, padded, pc, st);
    if B.BaselineStep(c, jumpMap, padded, pc, st).Go? {
      B.StepProgress(c, jumpMap, padded, pc, st);
    }
  }

  lemma AdvancedUnfold(c: Context, ip: nat, st: State, blockCost: int)
    requires HonestHost(c.host) && A.Sound(An(c)) && A.Running(An(c), ip, st)
    ensures match A.AdvancedStep(c, An(c), ip, st, blockCost)
            case Done(h) => AdvancedResult(c, ip, st, blockCost) == MakeResult(h)
            case Go(ip', st', blockCost') =>
              && A.Running(An(c), ip', st')
              && AdvancedResult(c, ip, st, blockCost) == AdvancedResult(c, ip', st', blockCost')
  {
    hide A.AdvancedStep, Observe, A.Sound, AnalysisOf;
    if A.AdvancedStep(c, An(c), ip, st, blockCost).Go? {
      A.StepProgress(c, An(c), ip, st, blockCost);
    }
  }

  lemma ExecuteIsRun(c: Context)
    requires HonestHost(c.host) && Addressable(c.code) && A.Sound(An(c)) && A.Running(An(c), 0, InitialState(c))
    ensures AdvancedResult(c, 0, InitialState(c), 0) == A.Execute(c)
  {
    hide A.AdvancedRun, Addressable, AnalysisOf, A.Sound;
  }

  // ---------- a block that cannot be finished ----------

  /** An instruction that does not terminate its block either fails or goes on to the next one, and it
      never leaves more gas than its base cost allows. */
  lemma InsideStep(c: Context, jumpMap: seq<bool>, padded: seq<Byte>, pc: nat, st: State)
    requires BaselineSetting(c, jumpMap, padded) && IsBoundary(c.code, pc) && |st.stack| <= STACK_LIMIT
    requires pc < |c.code| && !IsTerminator(c.code[pc])
    ensures pc < |padded| && pc + PushSize(padded[pc]) < |padded|
    ensures match B.BaselineStep(c, jumpMap, padded, pc, st)
            case Done(h) => Observe(MakeResult(h)) == Failed
            case Go(pc', st') =>
              && pc' == NextPos(c.code, pc)
              && |st'.stack| == |st.stack| + TableChange(c.rev, c.code[pc])
              && 0 <= st'.gas <= st.gas - TableCost(c.rev, c.code[pc])
  {
    hide CostsFit, A.Sound, AnalysisOf, Ordinary, GasCost, StackRequired, StackChange, Frugal;
    B.FetchSafe(c, padded, pc, st);
    if B.BaselineStep(c, jumpMap, padded, pc, st).Go? {
      B.StepProgress(c, jumpMap, padded, pc, st);
    }
  }

  lemma EndedCode(c: Context, jumpMap: seq<bool>, padded: seq<Byte>, pc: nat, st: State)
    requires BaselineSetting(c, jumpMap, padded) && IsBoundary(c.code, pc) && |st.stack| <= STACK_LIMIT
    requires pc >= |c.code|
    ensures BaselineResult(c, jumpMap, padded, pc, st) ==
            if st.gas < 0 then Failed else Completed(false, st.gas, [], st.trace)
  {
    hide CostsFit, A.Sound, AnalysisOf;
    BaselineUnfold(c, jumpMap, padded, pc, st);
    B.FetchSafe(c, padded, pc, st);
    FlowCosts(c.rev);
  }

  lemma RestUnfold(rev: Revision, code: seq<Byte>, p: nat, h: int)
    requires p < |code|
    ensures RestCost(rev, code, p) >= TableCost(rev, code[p]) >= 0
    ensures !EndsBlock(code, p) ==>
              RestCost(rev, code, p) == TableCost(rev, code[p]) + RestCost(rev, code, NextPos(code, p))
    ensures EndsBlock(code, p) ==> RestCost(rev, code, p) == TableCost(rev, code[p])
    ensures StackFits(rev, code, p, h) <==>
              && TableRequired(rev, code[p]) <= h && h + TableChange(rev, code[p]) <= STACK_LIMIT
              && (!EndsBlock(code, p) ==>
                    StackFits(rev, code, NextPos(code, p), h + TableChange(rev, code[p])))
  {
    hide EndsBlock, TableRequired, TableChange, TableCost;
    TableBounds(rev, code[p]);
  }

  /** Early failure is safe: where the gas does not cover the base cost of the rest of the block, or the
      stack does not fit, Baseline fails before it leaves the block. No instruction has a net gain of
      gas, and only terminators end an execution successfully. */
  lemma {:induction false} BaselineFailsInBlock(c: Context, jumpMap: seq<bool>, padded: seq<Byte>,
                                                pc: nat, st: State)
    requires BaselineSetting(c, jumpMap, padded) && IsBoundary(c.code, pc) && |st.stack| <= STACK_LIMIT
    requires st.gas < RestCost(c.rev, c.code, pc) || !StackFits(c.rev, c.code, pc, |st.stack|) || st.gas < 0
    ensures BaselineResult(c, jumpMap, padded, pc, st) == Failed
    decreases |c.code| - pc
  {
    if pc >= |c.code| {
      EndedCode(c, jumpMap, padded, pc, st);
    } else {
      hide BaselineSetting, RestCost, StackFits, BaselineResult, B.CheckRequirements,
           B.BaselineStep, TableCost, TableRequired, TableChange, Observe, IsBoundary;
      BaselineUnfold(c, jumpMap, padded, pc, st);
      RestUnfold(c.rev, c.code, pc, |st.stack|);
      RefusedStep(c, jumpMap, padded, pc, st);
      if !IsTerminator(c.code[pc]) {
        InsideStep(c, jumpMap, padded, pc, st);
        var step := B.BaselineStep(c, jumpMap, padded, pc, st);
        if step.Go? && !EndsBlock(c.code, pc) {
          BaselineFailsInBlock(c, jumpMap, padded, step.pc, step.st);
        }
      }
    }
  }

  /** The check before the instruction at pc refuses it exactly if its own requirements are not met. */
  lemma RefusedStep(c: Context, jumpMap: seq<bool>, padded: seq<Byte>, pc: nat, st: State)
    requires BaselineSetting(c, jumpMap, padded) && IsBoundary(c.code, pc) && |st.stack| <= STACK_LIMIT
    requires pc < |c.code|
    ensures pc < |padded| && pc + PushSize(padded[pc]) < |padded| && padded[pc] == c.code[pc]
    ensures var op := c.code[pc];
            (!Defined(c.rev, op) || st.gas < TableCost(c.rev, op) || TableRequired(c.rev, op) > |st.stack|
             || |st.stack| + TableChange(c.rev, op) > STACK_LIMIT) ==>
              && B.BaselineStep(c, jumpMap, padded, pc, st).Done?
              && Observe(MakeResult(B.BaselineStep(c, jumpMap, padded, pc, st).halt)) == Failed
  {
    hide CostsFit, A.Sound, AnalysisOf, B.Dispatch, TableCost, TableRequired, TableChange, GasCost,
         StackRequired, StackChange, Defined;
    B.FetchSafe(c, padded, pc, st);
    B.CheckRequirementsMeaning(c.rev, st, c.code[pc]);
  }

  // ---------- one instruction inside a block ----------

  /** The base cost of the block after the instruction at pc. */
  function After(c: Context, pc: nat): int
    requires pc < |c.code|
  {
    RestCost(c.rev, c.code, pc) - TableCost(c.rev, c.code[pc])
  }

  /** One step of each machine from matching states: they fail together, or Advanced arrives at the state
      of Baseline with the rest of the block already paid for, or Advanced fails because Baseline is left
      with too little gas for the rest of the block. */
  ghost predicate StepsMatch(a: A.Step, b: B.Step, ip: nat, after: int, blockCost: int) {
    match b
    case Done(h) => Observe(MakeResult(h)) == Failed && a.Done? && Observe(MakeResult(a.halt)) == Failed
    case Go(_, s) =>
      if s.gas >= after then a == A.Go(ip + 1, Less(s, after), blockCost)
      else a.Done? && Observe(MakeResult(a.halt)) == Failed
  }

  /** The table entry of the instruction, and what the block check guarantees for it. */
  lemma EntryFacts(c: Context, jumpMap: seq<bool>, padded: seq<Byte>, ip: nat, pc: nat, prefix: int, k: nat,
                   st: State, blockCost: int)
    requires Setting(c, jumpMap, padded) && InBlock(c, ip, pc, prefix, k, st, blockCost) && pc < |c.code|
    ensures var op := c.code[pc];
            && ip < |An(c).instrs|
            && An(c).instrs[ip] == Instr(FnFor(c.rev, op), ArgFor(c.rev, c.code, pc, prefix, k))
            && (IsLargePush(op) ==> k < |An(c).pushValues| && An(c).pushValues[k] == PushValue(c.code, pc))
            && pc < |padded| && pc + PushSize(op) < |padded| && padded[pc] == op
            && 0 <= TableCost(c.rev, op) <= RestCost(c.rev, c.code, pc)
            && (Defined(c.rev, op) ==>
                  && B.CheckRequirements(c.rev, st, op) == Ok(Less(st, TableCost(c.rev, op)))
                  && 0 <= StackRequired(op) <= |st.stack| && |st.stack| + StackChange(op) <= STACK_LIMIT)
  {
    hide CostsFit, A.Sound, AnalysisOf, ArgFor, FnFor, B.CheckRequirements, TableCost, TableRequired,
         TableChange, StackRequired, StackChange, Defined, AtInstr, RestCost, StackFits;
    AtInstrStep(c.rev, c.code, An(c), ip, pc, prefix, k);
    B.FetchSafe(c, padded, pc, st);
    RestUnfold(c.rev, c.code, pc, |st.stack|);
    B.CheckRequirementsMeaning(c.rev, st, c.code[pc]);
  }

  lemma UndefinedMatches(c: Context, jumpMap: seq<bool>, padded: seq<Byte>, ip: nat, pc: nat, prefix: int, k: nat,
                         st: State, blockCost: int)
    requires Setting(c, jumpMap, padded) && InBlock(c, ip, pc, prefix, k, st, blockCost) && pc < |c.code|
    requires !Defined(c.rev, c.code[pc])
    requires pc < |padded| && pc + PushSize(padded[pc]) < |padded|
    ensures StepsMatch(A.AdvancedStep(c, An(c), ip, Less(st, RestCost(c.rev, c.code, pc)), blockCost),
                       B.BaselineStep(c, jumpMap, padded, pc, st), ip, After(c, pc), blockCost)
  {
    EntryFacts(c, jumpMap, padded, ip, pc, prefix, k, st, blockCost);
    hide BaselineSetting, CostsFit, A.Sound, Addressable, InBlock, AnalysisOf, GasCost, RestCost;
  }

  /** For a defined instruction, both steps come down to executing it: Baseline on the state after the
      base cost, Advanced on that state less the base cost of the rest of the block. */
  lemma StepsReduce(c: Context, jumpMap: seq<bool>, padded: seq<Byte>, ip: nat, pc: nat, prefix: int, k: nat,
                    st: State, blockCost: int)
    requires Setting(c, jumpMap, padded) && InBlock(c, ip, pc, prefix, k, st, blockCost) && pc < |c.code|
    requires Defined(c.rev, c.code[pc])
    ensures var op := c.code[pc];
            var st1 := Less(st, TableCost(c.rev, op));
            && pc < |padded| && padded[pc] == op && pc + PushSize(op) < |padded|
            && 0 <= StackRequired(op) <= |st.stack| && |st.stack| + StackChange(op) <= STACK_LIMIT
            && 0 <= After(c, pc) <= st1.gas
            && B.BaselineStep(c, jumpMap, padded, pc, st) == B.Dispatch(c, jumpMap, padded, pc, st1)
            && A.AdvancedStep(c, An(c), ip, Less(st, RestCost(c.rev, c.code, pc)), blockCost)
                 == A.OpStep(c, An(c), ip, op, ArgFor(c.rev, c.code, pc, prefix, k), Less(st1, After(c, pc)), blockCost)
  {
    var op := c.code[pc];
    EntryFacts(c, jumpMap, padded, ip, pc, prefix, k, st, blockCost);
    assert RestCost(c.rev, c.code, pc) <= st.gas && |st.stack| <= STACK_LIMIT;
    assert FnFor(c.rev, op) == Op(op);
    hide BaselineSetting, CostsFit, A.Sound, Addressable, InBlock, AnalysisOf, GasCost, RestCost, StackRequired,
         StackChange, TableCost, ArgFor, A.OpStep, B.Dispatch, B.CheckRequirements;
    assert Less(Less(st, TableCost(c.rev, op)), After(c, pc)) == Less(st, RestCost(c.rev, c.code, pc));
  }

  lemma GasBlindMatches(c: Context, jumpMap: seq<bool>, padded: seq<Byte>, an: CodeAnalysis, ip: nat, arg: Arg,
                        pc: nat, st: State, after: nat, blockCost: int)
    requires pc < |padded| && pc + PushSize(padded[pc]) < |padded| && Defined(c.rev, padded[pc])
    requires IgnoresGas(padded[pc]) && 0 <= StackRequired(padded[pc]) <= |st.stack|
    requires |st.stack| + StackChange(padded[pc]) <= STACK_LIMIT && after <= st.gas
    ensures StepsMatch(A.OpStep(c, an, ip, padded[pc], arg, Less(st, after), blockCost),
                       B.Dispatch(c, jumpMap, padded, pc, st), ip, after, blockCost)
  {
    hide GasCost, GasBlind, GasAware, StackRequired, StackChange, A.OpStep, B.Dispatch, IgnoresGas, ObservesGas;
    var op := padded[pc];
    A.ClassesDisjoint(op);
    BlindSteps(c, jumpMap, padded, an, ip, arg, pc, st, Less(st, after), blockCost);
    GasBlindTranslates(c, op, st, after);
  }

  lemma BlindSteps(c: Context, jumpMap: seq<bool>, padded: seq<Byte>, an: CodeAnalysis, ip: nat, arg: Arg,
                   pc: nat, st: State, reduced: State, blockCost: int)
    requires pc < |padded| && pc + PushSize(padded[pc]) < |padded| && Defined(c.rev, padded[pc])
    requires IgnoresGas(padded[pc]) && 0 <= StackRequired(padded[pc]) <= |st.stack|
    requires |st.stack| + StackChange(padded[pc]) <= STACK_LIMIT && reduced.stack == st.stack
    ensures A.OpStep(c, an, ip, padded[pc], arg, reduced, blockCost)
              == A.Continue(ip, GasBlind(c, padded[pc], reduced), reduced, blockCost)
    ensures B.Dispatch(c, jumpMap, padded, pc, st) ==
              match GasBlind(c, padded[pc], st)
              case Err(status, trace) => B.Done(Aborted(status, trace, st))
              case Ok(st') => B.Go(pc + 1, st')
  {
    hide GasCost, GasBlind, GasAware, StackRequired, StackChange, Halting, JumpTarget;
    A.ClassesDisjoint(padded[pc]);
  }

  /** The instructions that observe gas are shown the gas of Baseline. */
  lemma GasAwareMatches(c: Context, jumpMap: seq<bool>, padded: seq<Byte>, an: CodeAnalysis, ip: nat, arg: Arg,
                        pc: nat, st: State, after: nat, blockCost: int)
    requires pc < |padded| && pc + PushSize(padded[pc]) < |padded| && Defined(c.rev, padded[pc])
    requires ObservesGas(padded[pc]) && 0 <= StackRequired(padded[pc]) <= |st.stack|
    requires |st.stack| + StackChange(padded[pc]) <= STACK_LIMIT && after <= st.gas
    requires arg == Number(blockCost - after) && HonestHost(c.host)
    ensures StepsMatch(A.OpStep(c, an, ip, padded[pc], arg, Less(st, after), blockCost),
                       B.Dispatch(c, jumpMap, padded, pc, st), ip, after, blockCost)
  {
    hide GasCost, GasBlind, StackRequired, StackChange, A.OpStep, B.Dispatch, ObservesGas, Sstore, CallInstr,
         CreateInstr;
    var reduced := Less(st, after);
    assert More(reduced, after) == st;
    FundedOffers(c, padded[pc], st);
    AwareSteps(c, jumpMap, padded, an, ip, arg, pc, st, reduced, blockCost);
  }

  lemma AwareSteps(c: Context, jumpMap: seq<bool>, padded: seq<Byte>, an: CodeAnalysis, ip: nat, arg: Arg,
                   pc: nat, st: State, reduced: State, blockCost: int)
    requires pc < |padded| && pc + PushSize(padded[pc]) < |padded| && Defined(c.rev, padded[pc])
    requires ObservesGas(padded[pc]) && 0 <= StackRequired(padded[pc]) <= |st.stack|
    requires |st.stack| + StackChange(padded[pc]) <= STACK_LIMIT && reduced.stack == st.stack && arg.Number?
    ensures A.OpStep(c, an, ip, padded[pc], arg, reduced, blockCost) ==
              if padded[pc] == OP_GAS then
                A.Go(ip + 1, Push(reduced, GasWord(reduced.gas + (blockCost - arg.number))), blockCost)
              else A.CorrectedStep(c, ip, padded[pc], arg.number, reduced, blockCost)
    ensures B.Dispatch(c, jumpMap, padded, pc, st) ==
              match GasAware(c, padded[pc], st)
              case Err(status, trace) => B.Done(Aborted(status, trace, st))
              case Ok(st') => B.Go(pc + 1, st')
  {
    hide GasCost, GasBlind, GasAware, StackRequired, StackChange, Halting, JumpTarget, A.CorrectedStep;
    A.ClassesDisjoint(padded[pc]);
  }

  /** A PC or a PUSH. */
  lemma PushMatches(c: Context, jumpMap: seq<bool>, padded: seq<Byte>, an: CodeAnalysis, ip: nat, arg: Arg,
                    pc: nat, st: State, after: nat, blockCost: int)
    requires pc < |padded| && pc + PushSize(padded[pc]) < |padded| && Defined(c.rev, padded[pc])
    requires 0 <= StackRequired(padded[pc]) <= |st.stack|
    requires |st.stack| + StackChange(padded[pc]) <= STACK_LIMIT && after <= st.gas
    requires padded[pc] == OP_PC || IsPush(padded[pc])
    requires padded[pc] == OP_PC ==> arg == Number(pc)
    requires IsSmallPush(padded[pc]) ==>
               arg == SmallPush(LoadWord(padded[pc + 1..pc + 1 + PushSize(padded[pc])]))
    requires IsLargePush(padded[pc]) ==>
               && arg.PushIndex? && arg.index < |an.pushValues|
               && an.pushValues[arg.index] == LoadWord(padded[pc + 1..pc + 1 + PushSize(padded[pc])])
    ensures StepsMatch(A.OpStep(c, an, ip, padded[pc], arg, Less(st, after), blockCost),
                       B.Dispatch(c, jumpMap, padded, pc, st), ip, after, blockCost)
  {
    hide GasCost, LoadWord, StackRequired, StackChange;
  }

  lemma InvalidMatches(c: Context, jumpMap: seq<bool>, padded: seq<Byte>, an: CodeAnalysis, ip: nat, arg: Arg,
                       pc: nat, st: State, after: nat, blockCost: int)
    requires pc < |padded| && padded[pc] == OP_INVALID && Defined(c.rev, padded[pc])
    requires 0 <= StackRequired(padded[pc]) <= |st.stack| && |st.stack| + StackChange(padded[pc]) <= STACK_LIMIT
    ensures StepsMatch(A.OpStep(c, an, ip, padded[pc], arg, Less(st, after), blockCost),
                       B.Dispatch(c, jumpMap, padded, pc, st), ip, after, blockCost)
  {
    hide GasCost, StackRequired, StackChange;
  }

  /** A complete immediate has the same value in the table and in the padded buffer. */
  lemma PushImmediatesAgree(code: seq<Byte>, padded: seq<Byte>, p: nat)
    requires B.IsPadded(code, padded) && p < |code| && NextPos(code, p) <= |code|
    ensures PushValue(code, p) == LoadWord(padded[p + 1..NextPos(code, p)])
  {
    var data := PushData(code, p);
    assert data + Zeros(0) == data;
    var q := NextPos(code, p);
    assert padded[p + 1..q] == data by {
      assert padded[..|code|][p + 1..q] == padded[p + 1..q];
    }
  }

  /** The gas simulation invariant is kept by every instruction that does not terminate its block. */
  lemma InstructionMatches(c: Context, jumpMap: seq<bool>, padded: seq<Byte>, ip: nat, pc: nat, prefix: int, k: nat,
                           st: State, blockCost: int)
    requires Setting(c, jumpMap, padded) && InBlock(c, ip, pc, prefix, k, st, blockCost)
    requires pc < |c.code| && !IsTerminator(c.code[pc]) && NextPos(c.code, pc) <= |c.code|
    ensures pc < |padded| && pc + PushSize(padded[pc]) < |padded|
    ensures StepsMatch(A.AdvancedStep(c, An(c), ip, Less(st, RestCost(c.rev, c.code, pc)), blockCost),
                       B.BaselineStep(c, jumpMap, padded, pc, st), ip, After(c, pc), blockCost)
  {
    hide StepsMatch, A.AdvancedStep, B.BaselineStep, BaselineSetting, CostsFit, A.Sound, Addressable, InBlock,
         AnalysisOf, RestCost, TableCost, Defined;
    EntryFacts(c, jumpMap, padded, ip, pc, prefix, k, st, blockCost);
    if !Defined(c.rev, c.code[pc]) {
      UndefinedMatches(c, jumpMap, padded, ip, pc, prefix, k, st, blockCost);
    } else {
      DefinedMatches(c, jumpMap, padded, ip, pc, prefix, k, st, blockCost);
    }
  }

  lemma DefinedMatches(c: Context, jumpMap: seq<bool>, padded: seq<Byte>, ip: nat, pc: nat, prefix: int, k: nat,
                       st: State, blockCost: int)
    requires Setting(c, jumpMap, padded) && InBlock(c, ip, pc, prefix, k, st, blockCost)
    requires pc < |c.code| && !IsTerminator(c.code[pc]) && NextPos(c.code, pc) <= |c.code|
    requires pc < |padded| && pc + PushSize(padded[pc]) < |padded| && Defined(c.rev, c.code[pc])
    ensures StepsMatch(A.AdvancedStep(c, An(c), ip, Less(st, RestCost(c.rev, c.code, pc)), blockCost),
                       B.BaselineStep(c, jumpMap, padded, pc, st), ip, After(c, pc), blockCost)
  {
    hide BaselineSetting, CostsFit, A.Sound, Addressable, AnalysisOf, GasCost, RestCost, StackRequired, StackChange,
         TableCost, Defined, A.OpStep, B.Dispatch, B.CheckRequirements, A.AdvancedStep, B.BaselineStep, StepsMatch,
         IgnoresGas, ObservesGas, IsBoundary, AtInstr, StackFits;
    var op := c.code[pc];
    StepsReduce(c, jumpMap, padded, ip, pc, prefix, k, st, blockCost);
    B.Classified(c.rev, op);
    EntryArgument(c, jumpMap, padded, ip, pc, prefix, k, st, blockCost);
    hide InBlock, ArgFor;
    var st1, arg := Less(st, TableCost(c.rev, op)), ArgFor(c.rev, c.code, pc, prefix, k);
    if IgnoresGas(op) {
      GasBlindMatches(c, jumpMap, padded, An(c), ip, arg, pc, st1, After(c, pc), blockCost);
    } else if ObservesGas(op) {
      GasAwareMatches(c, jumpMap, padded, An(c), ip, arg, pc, st1, After(c, pc), blockCost);
    } else if op == OP_INVALID {
      InvalidMatches(c, jumpMap, padded, An(c), ip, arg, pc, st1, After(c, pc), blockCost);
    } else {
      PushMatches(c, jumpMap, padded, An(c), ip, arg, pc, st1, After(c, pc), blockCost);
    }
  }

  /** What the argument of the entry holds. */
  lemma EntryArgument(c: Context, jumpMap: seq<bool>, padded: seq<Byte>, ip: nat, pc: nat, prefix: int, k: nat,
                      st: State, blockCost: int)
    requires Setting(c, jumpMap, padded) && InBlock(c, ip, pc, prefix, k, st, blockCost)
    requires pc < |c.code| && NextPos(c.code, pc) <= |c.code|
    ensures HonestHost(c.host)
    ensures var op, arg := c.code[pc], ArgFor(c.rev, c.code, pc, prefix, k);
            && pc + 1 + PushSize(op) <= |padded|
            && (ObservesGas(op) ==> arg == Number(blockCost - After(c, pc)))
            && (op == OP_PC ==> arg == Number(pc))
            && (IsSmallPush(op) ==> arg == SmallPush(LoadWord(padded[pc + 1..pc + 1 + PushSize(op)])))
            && (IsLargePush(op) ==>
                  && arg.PushIndex? && arg.index < |An(c).pushValues|
                  && An(c).pushValues[arg.index] == LoadWord(padded[pc + 1..pc + 1 + PushSize(op)]))
  {
    hide AnalysisOf, RestCost, TableCost, GasCost, StackRequired, StackChange, PushValue, LoadWord,
         B.CheckRequirements, AtInstr, StackFits, IsBoundary, CostsFit, A.Sound, HonestHost;
    EntryFacts(c, jumpMap, padded, ip, pc, prefix, k, st, blockCost);
    PushImmediatesAgree(c.code, padded, pc);
  }

  // ---------- terminators ----------

  /** At a terminator nothing of the block is left to pay for, so both machines execute it on the same
      state. */
  lemma TerminatorReduce(c: Context, jumpMap: seq<bool>, padded: seq<Byte>, ip: nat, pc: nat, prefix: int, k: nat,
                         st: State, blockCost: int)
    requires Setting(c, jumpMap, padded) && InBlock(c, ip, pc, prefix, k, st, blockCost) && pc < |c.code|
    requires Defined(c.rev, c.code[pc]) && IsTerminator(c.code[pc])
    ensures var op := c.code[pc];
            var st1 := Less(st, RestCost(c.rev, c.code, pc));
            && pc < |padded| && padded[pc] == op && pc + PushSize(op) < |padded|
            && 0 <= StackRequired(op) <= |st.stack| && |st.stack| + StackChange(op) <= STACK_LIMIT
            && RestCost(c.rev, c.code, pc) == TableCost(c.rev, op)
            && B.BaselineStep(c, jumpMap, padded, pc, st) == B.Dispatch(c, jumpMap, padded, pc, st1)
            && A.AdvancedStep(c, An(c), ip, st1, blockCost)
                 == A.OpStep(c, An(c), ip, op, ArgFor(c.rev, c.code, pc, prefix, k), st1, blockCost)
  {
    hide BaselineSetting, CostsFit, A.Sound, Addressable, InBlock, AnalysisOf, GasCost, RestCost, StackRequired,
         StackChange, TableCost, TableRequired, TableChange, ArgFor, A.OpStep, B.Dispatch, A.AdvancedStep,
         B.BaselineStep, StackFits, Defined;
    StepsReduce(c, jumpMap, padded, ip, pc, prefix, k, st, blockCost);
    RestUnfold(c.rev, c.code, pc, 0);
    assert Less(Less(st, TableCost(c.rev, c.code[pc])), 0) == Less(st, RestCost(c.rev, c.code, pc));
  }

  lemma HaltingSteps(c: Context, jumpMap: seq<bool>, padded: seq<Byte>, an: CodeAnalysis, ip: nat, arg: Arg,
                     pc: nat, st: State, blockCost: int)
    requires pc < |padded| && pc + PushSize(padded[pc]) < |padded| && Defined(c.rev, padded[pc])
    requires 0 <= StackRequired(padded[pc]) <= |st.stack| && |st.stack| + StackChange(padded[pc]) <= STACK_LIMIT
    requires IsHalting(padded[pc])
    ensures A.OpStep(c, an, ip, padded[pc], arg, st, blockCost) == A.Done(Halting(c, padded[pc], st))
    ensures B.Dispatch(c, jumpMap, padded, pc, st) == B.Done(Halting(c, padded[pc], st))
  {
    hide GasCost, StackRequired, StackChange, Halting;
  }

  /** A jump is taken, refused or passed by both machines alike, but that in code that is not indexable
      Advanced may refuse what Baseline takes. */
  lemma JumpSteps(c: Context, jumpMap: seq<bool>, padded: seq<Byte>, ip: nat, arg: Arg,
                  pc: nat, st: State, blockCost: int)
    requires pc < |padded| && pc + PushSize(padded[pc]) < |padded| && Defined(c.rev, padded[pc])
    requires 0 <= StackRequired(padded[pc]) <= |st.stack| && |st.stack| + StackChange(padded[pc]) <= STACK_LIMIT
    requires padded[pc] == OP_JUMP || padded[pc] == OP_JUMPI
    requires Addressable(c.code) && B.IsJumpMap(c.code, jumpMap)
    ensures var a := A.OpStep(c, An(c), ip, padded[pc], arg, st, blockCost);
            match B.Dispatch(c, jumpMap, padded, pc, st)
            case Done(h) =>
              Observe(MakeResult(h)) == Failed && a.Done? && Observe(MakeResult(a.halt)) == Failed
            case Go(pc', st') =>
              match a
              case Done(h) => h.status == BadJumpDestination && !Indexable(c.code)
              case Go(ip', stA, _) =>
                && stA == st' && st'.gas == st.gas
                && (if padded[pc] == OP_JUMPI && Peek(st, 1) == 0 then pc' == pc + 1 && ip' == ip + 1
                    else BlockStart(c.rev, c.code, An(c), ip', pc'))
  {
    hide GasCost, StackRequired, StackChange, AnalysisOf, JumpTarget, IsJumpDest, BlockStart, Indexable, Addressable;
    A.ClassesDisjoint(padded[pc]);
    JumpAgreement(c.rev, c.code, jumpMap, Peek(st, 0));
  }
}
