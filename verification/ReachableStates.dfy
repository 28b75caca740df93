/** What holds at every state that a run of the Advanced interpreter reaches: where in the code it stands,
    how much gas it really has, and which state of Baseline it stands for. */
module ReachableStates {
  import opened Words
  import opened InstructionTraits
  import opened Machine
  import opened MemoryExpansion
  import opened Instructions
  import opened InstructionLaws
  import opened CodeStructure
  import opened Analysis
  import opened TableStructure
  import opened RunLaws
  import opened Simulation
  import opened Refinement
  import B = Baseline
  import A = Advanced

  // ---------- the gas that Advanced really has ----------

  /** Either ip is the BEGINBLOCK of the block at p, or it is the entry of the instruction at p. In the latter
      case the stack fits to the end of the block, and the gas, with everything charged in advance given back,
      and the price of the memory are within the message gas. */
  ghost predicate Placed(c: Context, ip: nat, st: State, blockCost: int, p: nat, prefix: int, k: nat) {
    && IsBoundary(c.code, p)
    && 0 <= blockCost <= UINT32_MAX
    && (AtBlock(c.rev, c.code, An(c), ip, p, k)
        || (&& AtInstr(c.rev, c.code, An(c), ip, p, prefix, k)
            && (p < |c.code| ==> c.code[p] != OP_JUMPDEST)
            && prefix >= 0 && StackFits(c.rev, c.code, p, |st.stack|)
            && MemoryCost(|st.mem| / 32) + st.gas + (blockCost - prefix) <= c.msg.gas))
  }

  ghost predicate Standing(c: Context, ip: nat, st: State, blockCost: int) {
    exists p: nat, prefix: int, k: nat :: Placed(c, ip, st, blockCost, p, prefix, k)
  }

  /** After the instruction at p, unless it jumps, the table goes on behind it. */
  lemma PlacedNext(c: Context, ip: nat, p: nat, prefix: int, k: nat, height: int, next: State, blockCost: int)
    requires AtInstr(c.rev, c.code, An(c), ip, p, prefix, k) && p < |c.code| && IsBoundary(c.code, p) && prefix >= 0
    requires StackFits(c.rev, c.code, p, height) && |next.stack| == height + TableChange(c.rev, c.code[p])
    requires MemoryCost(|next.mem| / 32) + next.gas + (blockCost - prefix) <= c.msg.gas
    requires 0 <= blockCost <= UINT32_MAX
    ensures Standing(c, ip + |OwnEntry(c.rev, c.code, p, prefix, k)|, next, blockCost)
  {
    hide AnalysisOf, TableCost, TableRequired, TableChange, AtInstr, IsBoundary, OwnEntry, MemoryCost, IsTerminator,
         AtBlock, StackFits, RestCost;
    AtInstrStep(c.rev, c.code, An(c), ip, p, prefix, k);
    BoundaryEnd(c.code, p);
    TableBounds(c.rev, c.code[p]);
    RestUnfold(c.rev, c.code, p, height);
    assert Placed(c, ip + |OwnEntry(c.rev, c.code, p, prefix, k)|, next, blockCost, NextPos(c.code, p),
                  prefix + TableCost(c.rev, c.code[p]), k + LargeCount(c.code[p]));
  }

  lemma WithinGas(c: Context, st: State)
    requires WithinMeans(c, st)
    ensures st.gas <= c.msg.gas && |st.stack| <= STACK_LIMIT && MemoryCost(|st.mem| / 32) + st.gas <= c.msg.gas
  {
  }

  lemma JumpDestTable(rev: Revision)
    ensures TableChange(rev, OP_JUMPDEST) == 0
  {
  }

  /** BEGINBLOCK charges what can be given back, and lets only a stack in that fits the block. */
  lemma PlacedAfterBlock(c: Context, ip: nat, st: State, blockCost: int, p: nat, k: nat)
    requires AtBlock(c.rev, c.code, An(c), ip, p, k) && IsBoundary(c.code, p) && WithinMeans(c, st)
    ensures match A.AdvancedStep(c, An(c), ip, st, blockCost)
            case Go(ip', next, blockCost') => Standing(c, ip', next, blockCost')
            case Done(h) => h.status != UndefinedBehaviour
  {
    hide AnalysisOf, AtInstr, IsBoundary, InfoAt, MemoryCost, WithinMeans, A.AdvancedStep, StackFits, RestCost,
         TableChange, EndsBlock;
    WithinGas(c, st);
    BlockEntry(c, ip, p, k, st, blockCost);
    AtBlockFlat(c, ip, p, k);
    ChargeRange(c, p);
    var charge := Clamp(RestCost(c.rev, c.code, p), UINT32_MAX);
    if st.gas >= charge && StackFits(c.rev, c.code, p, |st.stack|) {
      var next := Less(st, charge);
      if p < |c.code| && c.code[p] == OP_JUMPDEST {
        JumpDestTable(c.rev);
        PlacedNext(c, ip + 1, p, 0, k, |st.stack|, next, charge);
      } else {
        assert Placed(c, ip + 1, next, charge, p, 0, k);
      }
    }
  }

  lemma AtBlockFlat(c: Context, ip: nat, p: nat, k: nat)
    requires AtBlock(c.rev, c.code, An(c), ip, p, k)
    ensures AtInstr(c.rev, c.code, An(c), ip + 1, p, 0, k)
    ensures p < |c.code| && c.code[p] == OP_JUMPDEST ==> OwnEntry(c.rev, c.code, p, 0, k) == []
  {
    hide AtInstr, AnalysisOf, InfoAt;
  }

  lemma ChargeRange(c: Context, p: nat)
    ensures 0 <= Clamp(RestCost(c.rev, c.code, p), UINT32_MAX) <= UINT32_MAX
  {
    hide RestCost;
  }

  /** Where the jump tables lead is the start of a block. */
  lemma TakenJumpLands(c: Context, dst: Word, next: State, blockCost: int)
    requires Addressable(c.code) && |An(c).jumpdestTargets| == |An(c).jumpdestOffsets|
    requires JumpTarget(An(c), dst) >= 0 && 0 <= blockCost <= UINT32_MAX
    ensures Standing(c, JumpTarget(An(c), dst), next, blockCost)
  {
    hide AnalysisOf, JumpTarget, Reaches, Addressable, Indexable, AtBlock;
    JumpAgreement(c.rev, c.code, B.ExactJumpMap(c.code), dst);
    var ip := JumpTarget(An(c), dst);
    var k: nat :| AtBlock(c.rev, c.code, An(c), ip, dst, k);
    assert Placed(c, ip, next, blockCost, dst, 0, k);
  }

  lemma PlacedAfterInstr(c: Context, ip: nat, st: State, blockCost: int, p: nat, prefix: int, k: nat)
    requires Addressable(c.code) && HonestHost(c.host) && st.gas >= 0
    requires AtInstr(c.rev, c.code, An(c), ip, p, prefix, k) && IsBoundary(c.code, p)
    requires p < |c.code| ==> c.code[p] != OP_JUMPDEST
    requires prefix >= 0 && MemoryCost(|st.mem| / 32) + st.gas + (blockCost - prefix) <= c.msg.gas
    requires 0 <= blockCost <= UINT32_MAX && StackFits(c.rev, c.code, p, |st.stack|)
    ensures var next := A.AdvancedStep(c, An(c), ip, st, blockCost);
            next.Go? ==> Standing(c, next.ip, next.st, next.blockCost)
  {
    hide AnalysisOf, AtInstr, IsBoundary, MemoryCost, TraceExtends, A.OpStep, JumpTarget, Standing, HonestHost, ArgFor,
         GasCost, StackRequired, StackChange, Addressable, StackFits;
    if p >= |c.code| {
      AtCodeEnd(c.rev, c.code, An(c), ip, p, prefix, k);
      FinalStopEnds(c, An(c), ip, st, blockCost);
    } else {
      AtInstrStep(c.rev, c.code, An(c), ip, p, prefix, k);
      var next := A.AdvancedStep(c, An(c), ip, st, blockCost);
      if next.Go? {
        A.OpStepLawful(c, An(c), ip, c.code[p], ArgFor(c.rev, c.code, p, prefix, k), st, blockCost);
        if A.TakesJump(c.code[p], st) {
          TakenJumpLands(c, Peek(st, 0), next.st, next.blockCost);
        } else {
          PlacedNext(c, ip, p, prefix, k, |st.stack|, next.st, blockCost);
        }
      }
    }
  }

  lemma FinalStopEnds(c: Context, an: CodeAnalysis, ip: nat, st: State, blockCost: int)
    requires ip < |an.instrs| && an.instrs[ip] == FINAL_STOP
    ensures A.AdvancedStep(c, an, ip, st, blockCost).Done?
  {
  }

  /** Every state that Advanced reaches stands at a block or an instruction of the code. */
  lemma {:induction false} StatesStanding(c: Context, n: nat)
    requires Addressable(c.code) && HonestHost(c.host)
    ensures match AdvancedAfter(c, n)
            case Go(ip, st, blockCost) => Standing(c, ip, st, blockCost)
            case Done(_) => true
  {
    hide AnalysisOf, AtInstr, AtBlock, IsBoundary, MemoryCost, TraceExtends, A.AdvancedStep, Addressable, HonestHost,
         A.BlocksHaveCosts, Standing;
    if n == 0 {
      StartsStanding(c);
    } else if AdvancedAfter(c, n - 1).Go? {
      var r := AdvancedAfter(c, n - 1);
      StatesStanding(c, n - 1);
      AdvancedStatesWithinMeans(c, n - 1);
      StandingStep(c, r.ip, r.st, r.blockCost);
    }
  }

  lemma StartsStanding(c: Context)
    ensures Standing(c, 0, InitialState(c), 0)
  {
    hide AnalysisOf, AtBlock;
    StartsAtBlock(c.rev, c.code);
    StartBoundary(c.code);
    assert Placed(c, 0, InitialState(c), 0, 0, 0, 0);
  }

  lemma StandingStep(c: Context, ip: nat, st: State, blockCost: int)
    requires Addressable(c.code) && HonestHost(c.host) && WithinMeans(c, st) && A.Running(An(c), ip, st)
    requires Standing(c, ip, st, blockCost)
    ensures var next := A.AdvancedStep(c, An(c), ip, st, blockCost);
            next.Go? ==> Standing(c, next.ip, next.st, next.blockCost)
  {
    hide AnalysisOf, AtInstr, IsBoundary, MemoryCost, TraceExtends, A.AdvancedStep, Addressable, HonestHost;
    var p: nat, prefix: int, k: nat :| Placed(c, ip, st, blockCost, p, prefix, k);
    if AtBlock(c.rev, c.code, An(c), ip, p, k) {
      PlacedAfterBlock(c, ip, st, blockCost, p, k);
    } else {
      hide AtBlock;
      EntryIsNoBlock(c, ip, p, prefix, k);
      PlacedAfterInstr(c, ip, st, blockCost, p, prefix, k);
    }
  }

  /** The entry of an instruction is no BEGINBLOCK. */
  lemma EntryIsNoBlock(c: Context, ip: nat, p: nat, prefix: int, k: nat)
    requires AtInstr(c.rev, c.code, An(c), ip, p, prefix, k)
    requires p < |c.code| ==> c.code[p] != OP_JUMPDEST
    ensures ip < |An(c).instrs| && An(c).instrs[ip].fn != BeginBlock
    ensures p < |c.code| ==> An(c).instrs[ip] == Instr(FnFor(c.rev, c.code[p]), ArgFor(c.rev, c.code, p, prefix, k))
  {
    hide AnalysisOf, AtInstr, ArgFor, Defined;
    if p >= |c.code| {
      AtCodeEnd(c.rev, c.code, An(c), ip, p, prefix, k);
    } else {
      AtInstrStep(c.rev, c.code, An(c), ip, p, prefix, k);
    }
  }

  /** The entry at ip is an instruction that is run with the pre-charge given back. */
  predicate Corrects(an: CodeAnalysis, ip: nat) {
    && ip < |an.instrs| && an.instrs[ip].fn.Op?
    && ObservesGas(an.instrs[ip].fn.opcode) && an.instrs[ip].arg.Number?
  }

  /** The state that such an instruction is run on. */
  function Restored(an: CodeAnalysis, ip: nat, st: State, blockCost: int): State
    requires Corrects(an, ip)
  {
    More(st, blockCost - an.instrs[ip].arg.number)
  }

  /** What a step may rely on at a reached state: BEGINBLOCK charges a 32-bit cost; what is given back is a
      part of such a cost, and with it, too, the gas and the price of the memory are within the message
      gas. */
  ghost predicate StepInRange(c: Context, ip: nat, st: State, blockCost: int) {
    && 0 <= blockCost <= UINT32_MAX
    && (ip < |An(c).instrs| && An(c).instrs[ip].fn == BeginBlock ==>
          && An(c).instrs[ip].arg.Block? && 0 <= An(c).instrs[ip].arg.info.gasCost <= UINT32_MAX)
    && (Corrects(An(c), ip) ==>
          && An(c).instrs[ip].arg.number >= 0
          && MemoryCost(|st.mem| / 32) + Restored(An(c), ip, st, blockCost).gas <= c.msg.gas)
  }

  lemma StandingInRange(c: Context, ip: nat, st: State, blockCost: int)
    requires Standing(c, ip, st, blockCost)
    ensures StepInRange(c, ip, st, blockCost)
  {
    hide AnalysisOf, AtInstr, IsBoundary, MemoryCost, InfoAt, Defined, TableCost, PushValue;
    var p: nat, prefix: int, k: nat :| Placed(c, ip, st, blockCost, p, prefix, k);
    if AtBlock(c.rev, c.code, An(c), ip, p, k) {
      A.SummaryCost(c.rev, c.code, p);
    } else {
      EntryIsNoBlock(c, ip, p, prefix, k);
      if p < |c.code| {
        TableBounds(c.rev, c.code[p]);
      } else {
        AtCodeEnd(c.rev, c.code, An(c), ip, p, prefix, k);
      }
    }
  }

  lemma StatesInRange(c: Context, n: nat)
    requires Addressable(c.code) && HonestHost(c.host)
    ensures match AdvancedAfter(c, n)
            case Go(ip, st, blockCost) => StepInRange(c, ip, st, blockCost)
            case Done(_) => true
  {
    hide AdvancedAfter, Standing, StepInRange, Addressable, HonestHost;
    StatesStanding(c, n);
    match AdvancedAfter(c, n)
    case Go(ip, st, blockCost) => StandingInRange(c, ip, st, blockCost);
    case Done(_) =>
  }

  // ---------- no access out of bounds ----------

  /** The entry at ip is a CREATE that has negative gas even with the pre-charge given back. */
  predicate UnfundedCreate(an: CodeAnalysis, ip: nat, st: State, blockCost: int) {
    && Corrects(an, ip) && an.instrs[ip].fn.opcode == OP_CREATE
    && Restored(an, ip, st, blockCost).gas < 0
  }

  lemma HaltingDefined(c: Context, op: Byte, st: State)
    requires IsHalting(op) && 0 <= StackRequired(op) <= |st.stack|
    ensures Halting(c, op, st).status != UndefinedBehaviour
  {
    hide CheckMemory, SelfDestructCharges;
  }

  /** An instruction whose operands are there, whose result has room and whose argument is of its kind. */
  lemma OpStepDefined(c: Context, an: CodeAnalysis, ip: nat, op: Byte, arg: Arg, st: State, blockCost: int)
    requires HonestHost(c.host) && |an.jumpdestTargets| == |an.jumpdestOffsets|
    requires 0 <= StackRequired(op) <= |st.stack| && |st.stack| + StackChange(op) <= STACK_LIMIT
    requires IsOrdinary(op) || IsHalting(op) || IsPush(op) || op == OP_JUMP || op == OP_JUMPI || op == OP_PC
    requires IsSmallPush(op) ==> arg.SmallPush? && arg.value < WORD_MODULUS
    requires IsLargePush(op) ==> arg.PushIndex? && arg.index < |an.pushValues|
    requires ObservesGas(op) || op == OP_PC ==> arg.Number?
    ensures var step := A.OpStep(c, an, ip, op, arg, st, blockCost);
            step.Done? && step.halt.status == UndefinedBehaviour ==>
              op == OP_CREATE && st.gas + (blockCost - arg.number) < 0
  {
    hide GasAware, GasBlind, Halting, StackRequired, StackChange, JumpTarget, HonestHost;
    A.ClassesDisjoint(op);
    if IsHalting(op) {
      HaltingDefined(c, op, st);
    } else if ObservesGas(op) && op != OP_GAS {
      var restored := More(st, blockCost - arg.number);
      if restored.gas >= 0 {
        FundedOffers(c, op, restored);
      } else {
        UnfundedFails(c, op, restored);
      }
    }
  }

  /** What the block check guarantees for the entry of the instruction at p. */
  lemma EntryDefined(c: Context, ip: nat, st: State, blockCost: int, p: nat, prefix: int, k: nat)
    requires HonestHost(c.host) && p < |c.code| && c.code[p] != OP_JUMPDEST
    requires AtInstr(c.rev, c.code, An(c), ip, p, prefix, k) && StackFits(c.rev, c.code, p, |st.stack|)
    ensures var step := A.AdvancedStep(c, An(c), ip, st, blockCost);
            step.Done? && step.halt.status == UndefinedBehaviour ==> UnfundedCreate(An(c), ip, st, blockCost)
  {
    hide AnalysisOf, AtInstr, HonestHost, StackFits, RestCost, GasCost, StackRequired, StackChange, A.OpStep, PushValue;
    AtInstrStep(c.rev, c.code, An(c), ip, p, prefix, k);
    EntryIsNoBlock(c, ip, p, prefix, k);
    RestUnfold(c.rev, c.code, p, |st.stack|);
    TableBounds(c.rev, c.code[p]);
    TablesPairedAt(c);
    if Defined(c.rev, c.code[p]) {
      B.Classified(c.rev, c.code[p]);
      OpStepDefined(c, An(c), ip, c.code[p], ArgFor(c.rev, c.code, p, prefix, k), st, blockCost);
    }
  }

  lemma TablesPairedAt(c: Context)
    ensures |An(c).jumpdestTargets| == |An(c).jumpdestOffsets|
  {
    TablesPaired(c.code, 0, 1);
  }

  lemma FinalStopDefined(c: Context, an: CodeAnalysis, ip: nat, st: State, blockCost: int)
    requires ip < |an.instrs| && an.instrs[ip] == FINAL_STOP && |st.stack| <= STACK_LIMIT
    ensures A.AdvancedStep(c, an, ip, st, blockCost).Done?
    ensures A.AdvancedStep(c, an, ip, st, blockCost).halt.status == Success
  {
  }

  lemma StandingDefined(c: Context, ip: nat, st: State, blockCost: int)
    requires HonestHost(c.host) && WithinMeans(c, st) && Standing(c, ip, st, blockCost)
    ensures var step := A.AdvancedStep(c, An(c), ip, st, blockCost);
            step.Done? && step.halt.status == UndefinedBehaviour ==> UnfundedCreate(An(c), ip, st, blockCost)
  {
    hide AnalysisOf, AtInstr, IsBoundary, WithinMeans, A.AdvancedStep, HonestHost, StackFits, MemoryCost,
         UnfundedCreate;
    var p: nat, prefix: int, k: nat :| Placed(c, ip, st, blockCost, p, prefix, k);
    WithinGas(c, st);
    if AtBlock(c.rev, c.code, An(c), ip, p, k) {
      PlacedAfterBlock(c, ip, st, blockCost, p, k);
    } else if p >= |c.code| {
      AtCodeEnd(c.rev, c.code, An(c), ip, p, prefix, k);
      FinalStopDefined(c, An(c), ip, st, blockCost);
    } else {
      EntryDefined(c, ip, st, blockCost, p, prefix, k);
    }
  }

  /** Advanced after n steps is before a CREATE that offers the host negative gas. */
  ghost predicate BeforeUnfundedCreate(c: Context, n: nat)
    requires HonestHost(c.host)
  {
    match AdvancedAfter(c, n)
    case Go(ip, st, blockCost) => UnfundedCreate(An(c), ip, st, blockCost)
    case Done(_) => false
  }

  /** Advanced never leaves its table, its constants or its unchecked stack, whatever the gas and the cost of
      blocks are: the only undefined behaviour of any run of addressable code is a CREATE that offers the
      host negative gas. */
  lemma {:induction false} UndefinedOnlyOffers(c: Context, n: nat)
    requires Addressable(c.code) && HonestHost(c.host)
    ensures match AdvancedAfter(c, n)
            case Go(_, _, _) => true
            case Done(h) => h.status == UndefinedBehaviour ==> exists m: nat :: m < n && BeforeUnfundedCreate(c, m)
  {
    hide AdvancedAfter, HonestHost, Addressable, Standing, A.AdvancedStep, AnalysisOf, WithinMeans, UnfundedCreate;
    AdvancedAfterUnfold(c, if n == 0 then 0 else n - 1);
    if n > 0 {
      if AdvancedAfter(c, n - 1).Go? {
        var r := AdvancedAfter(c, n - 1);
        StatesStanding(c, n - 1);
        AdvancedStatesWithinMeans(c, n - 1);
        StandingDefined(c, r.ip, r.st, r.blockCost);
        if UnfundedCreate(An(c), r.ip, r.st, r.blockCost) {
          assert BeforeUnfundedCreate(c, n - 1);
        }
      } else {
        UndefinedOnlyOffers(c, n - 1);
      }
    }
  }

  /** The same for results: a run has undefined behaviour only if it comes to such a CREATE. */
  lemma StuckOnlyOffers(c: Context)
    requires Addressable(c.code) && HonestHost(c.host)
    ensures Observe(A.Execute(c)) == Stuck ==> exists m: nat :: BeforeUnfundedCreate(c, m)
  {
    hide AdvancedAfter, HonestHost, Addressable, A.AdvancedRun, AnalysisOf, BeforeUnfundedCreate, A.Sound,
         A.AdvancedStep;
    AdvancedAfterUnfold(c, 0);
    AdvancedRunReached(c, 0);
    A.AnalysisSound(c.rev, c.code);
    ExecuteIsRun(c);
    if Observe(A.Execute(c)) == Stuck {
      var n: nat :| AdvancedAfter(c, n).Done?
                    && MakeResult(AdvancedAfter(c, n).halt) == A.AdvancedRun(c, An(c), 0, InitialState(c), 0);
      UndefinedOnlyOffers(c, n);
      assert MakeResult(AdvancedAfter(c, n).halt) == A.Execute(c);
      var m: nat :| m < n && BeforeUnfundedCreate(c, m);
    }
  }

  // ---------- the state of Baseline that a state of Advanced stands for ----------

  /** Behind a PUSH that the code cuts short only the pushed values differ. */
  ghost predicate CutApart(c: Context, ip: nat, st: State, pc: nat, s: State) {
    && pc > |c.code| && ip + 1 == |An(c).instrs| && An(c).instrs[ip] == FINAL_STOP
    && |st.stack| == |s.stack| >= 1
    && st == s.(stack := s.stack[..|s.stack| - 1] + [st.stack[|s.stack| - 1]])
  }

  /** Advanced at ip stands for Baseline at pc: before a block with the same state, inside a block with the
      same state but for the base cost of the rest of the block, or behind a cut PUSH. */
  ghost predicate MatchedAt(c: Context, ip: nat, st: State, blockCost: int, pc: nat, s: State, prefix: int, k: nat) {
    || (BeforeBlock(c, ip, pc, k, s) && st == s)
    || (InBlock(c, ip, pc, prefix, k, s, blockCost) && st == Less(s, RestCost(c.rev, c.code, pc)))
    || CutApart(c, ip, st, pc, s)
  }

  ghost predicate Matched(c: Context, ip: nat, st: State, blockCost: int, pc: nat, s: State) {
    exists prefix: int, k: nat :: MatchedAt(c, ip, st, blockCost, pc, s, prefix, k)
  }

  /** What a step of Advanced does to the match: Baseline stays where it is, or goes on by one step. */
  ghost predicate MatchGoesOn(c: Context, jumpMap: seq<bool>, padded: seq<Byte>, a: A.Step, pc: nat, s: State)
    requires pc < |padded| && pc + PushSize(padded[pc]) < |padded| && |s.stack| <= STACK_LIMIT
  {
    a.Go? ==>
      || Matched(c, a.ip, a.st, a.blockCost, pc, s)
      || (var b := B.BaselineStep(c, jumpMap, padded, pc, s);
          b.Go? && Matched(c, a.ip, a.st, a.blockCost, b.pc, b.st))
  }

  lemma BlockMatchGoesOn(c: Context, jumpMap: seq<bool>, padded: seq<Byte>, ip: nat, pc: nat, k: nat, s: State,
                         blockCost: int)
    requires Setting(c, jumpMap, padded) && BeforeBlock(c, ip, pc, k, s)
    requires pc < |padded| && pc + PushSize(padded[pc]) < |padded|
    ensures MatchGoesOn(c, jumpMap, padded, A.AdvancedStep(c, An(c), ip, s, blockCost), pc, s)
  {
    hide AnalysisOf, RestCost, StackFits, AtInstr, IsBoundary, InfoAt, BaselineSetting, CostsFit, A.Sound, Addressable,
         A.AdvancedStep, B.BaselineStep;
    BlockEntry(c, ip, pc, k, s, blockCost);
    ChargeIsCost(c, pc, s.gas);
    var rest := RestCost(c.rev, c.code, pc);
    if s.gas >= rest && StackFits(c.rev, c.code, pc, |s.stack|) {
      if pc < |c.code| && c.code[pc] == OP_JUMPDEST {
        JumpDestPosition(c, jumpMap, padded, ip, pc, k, s);
        JumpDestStep(c, jumpMap, padded, pc, s);
        assert MatchedAt(c, ip + 1, Less(s, rest), rest, pc + 1, Less(s, 1), 1, k);
      } else {
        assert MatchedAt(c, ip + 1, Less(s, rest), rest, pc, s, 0, k);
      }
    }
  }

  lemma CutMatchGoesOn(c: Context, jumpMap: seq<bool>, padded: seq<Byte>, ip: nat, pc: nat, prefix: int, k: nat,
                       s: State, blockCost: int)
    requires Setting(c, jumpMap, padded) && InBlock(c, ip, pc, prefix, k, s, blockCost)
    requires pc < |c.code| && NextPos(c.code, pc) > |c.code|
    requires pc < |padded| && pc + PushSize(padded[pc]) < |padded|
    ensures MatchGoesOn(c, jumpMap, padded,
              A.AdvancedStep(c, An(c), ip, Less(s, RestCost(c.rev, c.code, pc)), blockCost), pc, s)
  {
    hide AnalysisOf, GasCost, StackRequired, StackChange, A.AdvancedStep, B.BaselineStep, RestCost, TableCost, AtInstr,
         Defined, A.OpStep, B.Dispatch, IsBoundary, StackFits, EndsBlock, BaselineSetting, CostsFit, A.Sound,
         Addressable, PushValue;
    var op, q := c.code[pc], NextPos(c.code, pc);
    PushDefined(c.rev, op);
    StepsReduce(c, jumpMap, padded, ip, pc, prefix, k, s, blockCost);
    EntryFacts(c, jumpMap, padded, ip, pc, prefix, k, s, blockCost);
    LastInstruction(c, ip, pc, prefix, k);
    var s1 := Less(s, TableCost(c.rev, op));
    assert Less(s1, 0) == s1;
    PushSteps(c, jumpMap, padded, An(c), ip, ArgFor(c.rev, c.code, pc, prefix, k), pc, s1, blockCost);
    AtCodeEnd(c.rev, c.code, An(c), ip + 1, q, prefix + TableCost(c.rev, op), k + LargeCount(op));
    var a, b := A.AdvancedStep(c, An(c), ip, s1, blockCost), B.BaselineStep(c, jumpMap, padded, pc, s);
    assert a.st.stack == a.st.stack[..|s.stack|] + [a.st.stack[|s.stack|]];
    assert a.st == b.st.(stack := b.st.stack[..|s.stack|] + [a.st.stack[|s.stack|]]);
    assert MatchedAt(c, a.ip, a.st, a.blockCost, b.pc, b.st, 0, 0);
  }

  lemma JumpMatchGoesOn(c: Context, jumpMap: seq<bool>, padded: seq<Byte>, ip: nat, pc: nat, prefix: int, k: nat,
                        s: State, blockCost: int)
    requires Setting(c, jumpMap, padded) && InBlock(c, ip, pc, prefix, k, s, blockCost)
    requires pc < |c.code| && IsTerminator(c.code[pc])
    requires pc < |padded| && pc + PushSize(padded[pc]) < |padded|
    ensures MatchGoesOn(c, jumpMap, padded,
              A.AdvancedStep(c, An(c), ip, Less(s, RestCost(c.rev, c.code, pc)), blockCost), pc, s)
  {
    hide BaselineSetting, CostsFit, A.Sound, AnalysisOf, TableCost, TableChange, RestCost, StackFits, AtInstr,
         IsBoundary, A.AdvancedStep, B.BaselineStep, A.OpStep, B.Dispatch, Defined, GasCost, StackRequired,
         StackChange, Addressable, MakeResult, Observe;
    var op, stA := c.code[pc], Less(s, RestCost(c.rev, c.code, pc));
    if !Defined(c.rev, op) {
      UndefinedMatches(c, jumpMap, padded, ip, pc, prefix, k, s, blockCost);
      RefusedStep(c, jumpMap, padded, pc, s);
    } else {
      TerminatorReduce(c, jumpMap, padded, ip, pc, prefix, k, s, blockCost);
      var arg := ArgFor(c.rev, c.code, pc, prefix, k);
      if IsHalting(op) {
        HaltingSteps(c, jumpMap, padded, An(c), ip, arg, pc, stA, blockCost);
      } else {
        JumpCosts(c, jumpMap, padded, pc);
        JumpSteps(c, jumpMap, padded, ip, arg, pc, stA, blockCost);
        BaselineUnfold(c, jumpMap, padded, pc, s);
        var a, b := A.AdvancedStep(c, An(c), ip, stA, blockCost), B.BaselineStep(c, jumpMap, padded, pc, s);
        if b.Go? && a.Go? {
          var k' := JumpLands(c, jumpMap, padded, ip, pc, prefix, k, s, blockCost, a, b);
          assert MatchedAt(c, a.ip, a.st, a.blockCost, b.pc, b.st, 0, k');
        }
      }
    }
  }

  lemma InstrMatchGoesOn(c: Context, jumpMap: seq<bool>, padded: seq<Byte>, ip: nat, pc: nat, prefix: int, k: nat,
                         s: State, blockCost: int)
    requires Setting(c, jumpMap, padded) && InBlock(c, ip, pc, prefix, k, s, blockCost)
    requires pc < |c.code| && !IsTerminator(c.code[pc]) && NextPos(c.code, pc) <= |c.code|
    requires pc < |padded| && pc + PushSize(padded[pc]) < |padded|
    ensures MatchGoesOn(c, jumpMap, padded,
              A.AdvancedStep(c, An(c), ip, Less(s, RestCost(c.rev, c.code, pc)), blockCost), pc, s)
  {
    hide BaselineSetting, CostsFit, A.Sound, AnalysisOf, TableCost, TableChange, RestCost, StackFits, AtInstr,
         IsBoundary, A.AdvancedStep, B.BaselineStep, Addressable, After, IsTerminator;
    InsideStep(c, jumpMap, padded, pc, s);
    InstructionMatches(c, jumpMap, padded, ip, pc, prefix, k, s, blockCost);
    var b := B.BaselineStep(c, jumpMap, padded, pc, s);
    if b.Go? && b.st.gas >= After(c, pc) {
      AfterBound(c, pc);
      NextPosition(c, jumpMap, padded, ip, pc, prefix, k, s, blockCost, b.st);
      assert Less(b.st, 0) == b.st;
      assert MatchedAt(c, ip + 1, Less(b.st, After(c, pc)), blockCost, b.pc, b.st,
                       prefix + TableCost(c.rev, c.code[pc]), k + LargeCount(c.code[pc]));
    }
  }

  lemma MatchedStep(c: Context, jumpMap: seq<bool>, padded: seq<Byte>, ip: nat, st: State, blockCost: int,
                    pc: nat, s: State)
    requires Setting(c, jumpMap, padded) && Matched(c, ip, st, blockCost, pc, s)
    requires pc < |padded| && pc + PushSize(padded[pc]) < |padded| && |s.stack| <= STACK_LIMIT
    ensures MatchGoesOn(c, jumpMap, padded, A.AdvancedStep(c, An(c), ip, st, blockCost), pc, s)
  {
    hide Setting, AnalysisOf, A.AdvancedStep, BeforeBlock, MatchGoesOn, RestCost;
    var prefix: int, k: nat :| MatchedAt(c, ip, st, blockCost, pc, s, prefix, k);
    if BeforeBlock(c, ip, pc, k, s) && st == s {
      BlockMatchGoesOn(c, jumpMap, padded, ip, pc, k, s, blockCost);
    } else if InBlock(c, ip, pc, prefix, k, s, blockCost) && st == Less(s, RestCost(c.rev, c.code, pc)) {
      if pc >= |c.code| {
        AtCodeEnd(c.rev, c.code, An(c), ip, pc, prefix, k);
        NoStepNoMatch(c, jumpMap, padded, ip, st, blockCost, pc, s);
      } else if NextPos(c.code, pc) > |c.code| {
        CutMatchGoesOn(c, jumpMap, padded, ip, pc, prefix, k, s, blockCost);
      } else if IsTerminator(c.code[pc]) {
        JumpMatchGoesOn(c, jumpMap, padded, ip, pc, prefix, k, s, blockCost);
      } else {
        InstrMatchGoesOn(c, jumpMap, padded, ip, pc, prefix, k, s, blockCost);
      }
    } else {
      NoStepNoMatch(c, jumpMap, padded, ip, st, blockCost, pc, s);
    }
  }

  lemma NoStepNoMatch(c: Context, jumpMap: seq<bool>, padded: seq<Byte>, ip: nat, st: State, blockCost: int,
                      pc: nat, s: State)
    requires ip < |An(c).instrs| && An(c).instrs[ip] == FINAL_STOP
    requires pc < |padded| && pc + PushSize(padded[pc]) < |padded| && |s.stack| <= STACK_LIMIT
    ensures MatchGoesOn(c, jumpMap, padded, A.AdvancedStep(c, An(c), ip, st, blockCost), pc, s)
  {
    hide Matched, AnalysisOf;
    FinalStopEnds(c, An(c), ip, st, blockCost);
  }

  /** After n steps Advanced stands for where Baseline is after m steps. */
  ghost predicate StatesMatch(c: Context, jumpMap: seq<bool>, padded: seq<Byte>, n: nat, m: nat)
    requires HonestHost(c.host) && B.IsJumpMap(c.code, jumpMap) && B.IsPadded(c.code, padded)
  {
    var a, b := AdvancedAfter(c, n), BaselineAfter(c, jumpMap, padded, m);
    a.Go? ==> b.Go? && Matched(c, a.ip, a.st, a.blockCost, b.pc, b.st)
  }

  /** The gas simulation invariant over whole runs: whatever state Advanced reaches, Baseline reaches the
      state it stands for, in no more steps. */
  lemma {:induction false} EveryStateMatches(c: Context, jumpMap: seq<bool>, padded: seq<Byte>, n: nat)
    requires HonestHost(c.host) && B.IsJumpMap(c.code, jumpMap) && B.IsPadded(c.code, padded)
    requires Addressable(c.code) && CostsFit(c.rev, c.code, c.msg.gas)
    ensures exists m: nat :: m <= n && StatesMatch(c, jumpMap, padded, n, m)
  {
    hide HonestHost, B.IsJumpMap, B.IsPadded, Addressable, CostsFit, Matched, AnalysisOf, A.AdvancedStep,
         B.BaselineStep, IsBoundary, A.BlocksHaveCosts;
    A.AnalysisSound(c.rev, c.code);
    if n == 0 {
      StartsMatched(c);
      assert StatesMatch(c, jumpMap, padded, 0, 0);
    } else {
      EveryStateMatches(c, jumpMap, padded, n - 1);
      var m: nat :| m <= n - 1 && StatesMatch(c, jumpMap, padded, n - 1, m);
      var a, b := AdvancedAfter(c, n - 1), BaselineAfter(c, jumpMap, padded, m);
      if a.Go? {
        B.FetchSafe(c, padded, b.pc, b.st);
        MatchedStep(c, jumpMap, padded, a.ip, a.st, a.blockCost, b.pc, b.st);
        assert StatesMatch(c, jumpMap, padded, n, m) || StatesMatch(c, jumpMap, padded, n, m + 1);
      } else {
        assert StatesMatch(c, jumpMap, padded, n, m);
      }
    }
  }

  lemma StartsMatched(c: Context)
    ensures Matched(c, 0, InitialState(c), 0, 0, InitialState(c))
  {
    hide AnalysisOf, AtBlock;
    StartsAtBlock(c.rev, c.code);
    StartBoundary(c.code);
    assert MatchedAt(c, 0, InitialState(c), 0, 0, InitialState(c), 0, 0);
  }

  /** Advanced after n steps is about to run an instruction that observes gas on exactly the state on which
      Baseline runs it after m steps. */
  ghost predicate SameView(c: Context, jumpMap: seq<bool>, padded: seq<Byte>, n: nat, m: nat)
    requires HonestHost(c.host) && B.IsJumpMap(c.code, jumpMap) && B.IsPadded(c.code, padded)
    requires AdvancedAfter(c, n).Go? && Corrects(An(c), AdvancedAfter(c, n).ip)
  {
    var a, b := AdvancedAfter(c, n), BaselineAfter(c, jumpMap, padded, m);
    && b.Go? && b.pc < |c.code|
    && An(c).instrs[a.ip].fn == Op(c.code[b.pc])
    && 0 <= TableCost(c.rev, c.code[b.pc]) <= b.st.gas
    && Restored(An(c), a.ip, a.st, a.blockCost) == Less(b.st, TableCost(c.rev, c.code[b.pc]))
  }

  /** In every run GAS, SSTORE, calls and creations are run on the state that Baseline runs them on, its gas
      after the base cost included. */
  lemma ObserversSeeBaseline(c: Context, jumpMap: seq<bool>, padded: seq<Byte>, n: nat)
    requires HonestHost(c.host) && B.IsJumpMap(c.code, jumpMap) && B.IsPadded(c.code, padded)
    requires Addressable(c.code) && CostsFit(c.rev, c.code, c.msg.gas)
    requires AdvancedAfter(c, n).Go? && Corrects(An(c), AdvancedAfter(c, n).ip)
    ensures exists m: nat :: m <= n && SameView(c, jumpMap, padded, n, m)
  {
    hide HonestHost, B.IsJumpMap, B.IsPadded, Addressable, CostsFit, AnalysisOf, AdvancedAfter, BaselineAfter,
         IsBoundary, AtInstr, RestCost, StackFits, TableCost, A.Sound;
    A.AnalysisSound(c.rev, c.code);
    EveryStateMatches(c, jumpMap, padded, n);
    var m: nat :| m <= n && StatesMatch(c, jumpMap, padded, n, m);
    var a, b := AdvancedAfter(c, n), BaselineAfter(c, jumpMap, padded, m);
    var prefix: int, k: nat :| MatchedAt(c, a.ip, a.st, a.blockCost, b.pc, b.st, prefix, k);
    if InBlock(c, a.ip, b.pc, prefix, k, b.st, a.blockCost) {
      if b.pc < |c.code| {
        EntryFacts(c, jumpMap, padded, a.ip, b.pc, prefix, k, b.st, a.blockCost);
        assert SameView(c, jumpMap, padded, n, m);
      } else {
        AtCodeEnd(c.rev, c.code, An(c), a.ip, b.pc, prefix, k);
      }
    }
  }

  /** So with the pre-charge given back the gas is never negative where the message gas is not exceeded. */
  lemma ObserversFunded(c: Context, n: nat)
    requires HonestHost(c.host) && Addressable(c.code) && CostsFit(c.rev, c.code, c.msg.gas)
    ensures match AdvancedAfter(c, n)
            case Go(ip, st, blockCost) => Corrects(An(c), ip) ==> Restored(An(c), ip, st, blockCost).gas >= 0
            case Done(_) => true
  {
    hide HonestHost, Addressable, CostsFit, AnalysisOf, AdvancedAfter, BaselineAfter, TableCost, B.IsJumpMap,
         B.IsPadded, B.ExactJumpMap, B.ZeroPadded;
    if AdvancedAfter(c, n).Go? && Corrects(An(c), AdvancedAfter(c, n).ip) {
      var jumpMap, padded := B.ExactJumpMap(c.code), B.ZeroPadded(c.code);
      ObserversSeeBaseline(c, jumpMap, padded, n);
      var m: nat :| m <= n && SameView(c, jumpMap, padded, n, m);
    }
  }
}
