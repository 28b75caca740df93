/** The main theorem: every message has the same observable result in both interpreters. */
module Refinement {
  import opened Words
  import opened InstructionTraits
  import opened Machine
  import opened MemoryExpansion
  import opened Instructions
  import opened InstructionLaws
  import opened CodeStructure
  import opened Analysis
  import opened TableStructure
  import opened Simulation
  import B = Baseline
  import A = Advanced

  // ---------- the end of the code ----------

  lemma AdvancedAtEnd(c: Context, ip: nat, pc: nat, prefix: int, k: nat, st: State, blockCost: int)
    requires HonestHost(c.host) && A.Sound(An(c)) && st.gas >= 0 && |st.stack| <= STACK_LIMIT
    requires AtInstr(c.rev, c.code, An(c), ip, pc, prefix, k) && pc >= |c.code|
    ensures Observe(AdvancedResult(c, ip, st, blockCost)) == Completed(false, st.gas, [], st.trace)
  {
    AtCodeEnd(c.rev, c.code, An(c), ip, pc, prefix, k);
    AdvancedUnfold(c, ip, st, blockCost);
    hide A.AdvancedRun, AnalysisOf, AtInstr, AdvancedResult;
  }

  /** A PUSH whose immediate the code cuts short is the last instruction: the value it pushes, padding
      included, is never used. */
  lemma TruncatedPush(c: Context, jumpMap: seq<bool>, padded: seq<Byte>, ip: nat, pc: nat, prefix: int, k: nat,
                      st: State, blockCost: int)
    requires Setting(c, jumpMap, padded) && InBlock(c, ip, pc, prefix, k, st, blockCost)
    requires pc < |c.code| && NextPos(c.code, pc) > |c.code|
    ensures A.Running(An(c), ip, Less(st, RestCost(c.rev, c.code, pc)))
    ensures Observe(AdvancedResult(c, ip, Less(st, RestCost(c.rev, c.code, pc)), blockCost))
              == BaselineResult(c, jumpMap, padded, pc, st)
  {
    hide AnalysisOf, GasCost, StackRequired, StackChange, A.AdvancedStep, B.BaselineStep, AdvancedResult,
         BaselineResult, RestCost, TableCost, AtInstr, Defined, Observe, A.OpStep, B.Dispatch, IsBoundary, StackFits,
         EndsBlock, HonestHost, B.IsJumpMap, B.IsPadded, CostsFit, A.Sound, PushValue;
    var op, q := c.code[pc], NextPos(c.code, pc);
    PushDefined(c.rev, op);
    StepsReduce(c, jumpMap, padded, ip, pc, prefix, k, st, blockCost);
    EntryFacts(c, jumpMap, padded, ip, pc, prefix, k, st, blockCost);
    LastInstruction(c, ip, pc, prefix, k);
    var st1 := Less(st, TableCost(c.rev, op));
    assert Less(st1, 0) == st1;
    PushSteps(c, jumpMap, padded, An(c), ip, ArgFor(c.rev, c.code, pc, prefix, k), pc, st1, blockCost);
    AdvancedUnfold(c, ip, st1, blockCost);
    BaselineUnfold(c, jumpMap, padded, pc, st);
    var a, b := A.AdvancedStep(c, An(c), ip, st1, blockCost), B.BaselineStep(c, jumpMap, padded, pc, st);
    EndedCode(c, jumpMap, padded, q, b.st);
    AdvancedAtEnd(c, ip + 1, q, prefix + TableCost(c.rev, op), k + LargeCount(op), a.st, blockCost);
  }

  /** Nothing of the block is left behind a truncated PUSH. */
  lemma LastInstruction(c: Context, ip: nat, pc: nat, prefix: int, k: nat)
    requires AtInstr(c.rev, c.code, An(c), ip, pc, prefix, k) && IsBoundary(c.code, pc)
    requires pc < |c.code| && NextPos(c.code, pc) > |c.code|
    ensures After(c, pc) == 0
    ensures var q := NextPos(c.code, pc);
            AtInstr(c.rev, c.code, An(c), ip + 1, q, prefix + TableCost(c.rev, c.code[pc]), k + LargeCount(c.code[pc]))
  {
    hide AnalysisOf, TableCost, AtInstr, IsBoundary, ArgFor, FnFor;
    assert !EndsBlock(c.code, pc);
    RestUnfold(c.rev, c.code, pc, 0);
    EmptyRest(c.rev, c.code, NextPos(c.code, pc));
    AtInstrStep(c.rev, c.code, An(c), ip, pc, prefix, k);
  }

  lemma PushDefined(rev: Revision, op: Byte)
    ensures IsPush(op) ==> Defined(rev, op)
  {
  }

  lemma PushSteps(c: Context, jumpMap: seq<bool>, padded: seq<Byte>, an: CodeAnalysis, ip: nat, arg: Arg,
                  pc: nat, st: State, blockCost: int)
    requires pc < |padded| && pc + PushSize(padded[pc]) < |padded| && Defined(c.rev, padded[pc])
    requires 0 <= StackRequired(padded[pc]) <= |st.stack| && |st.stack| + StackChange(padded[pc]) <= STACK_LIMIT
    requires IsPush(padded[pc])
    requires IsSmallPush(padded[pc]) ==> arg.SmallPush? && arg.value < WORD_MODULUS
    requires IsLargePush(padded[pc]) ==> arg.PushIndex? && arg.index < |an.pushValues|
    ensures var a, b := A.OpStep(c, an, ip, padded[pc], arg, st, blockCost),
                        B.Dispatch(c, jumpMap, padded, pc, st);
            && a.Go? && a.ip == ip + 1 && a.st == st.(stack := a.st.stack) && |a.st.stack| == |st.stack| + 1
            && a.blockCost == blockCost
            && b.Go? && b.pc == pc + 1 + PushSize(padded[pc]) && b.st == st.(stack := b.st.stack)
            && |b.st.stack| == |st.stack| + 1
            && a.st.stack[..|st.stack|] == st.stack == b.st.stack[..|st.stack|]
            && |st.stack| + 1 <= STACK_LIMIT
  {
    hide GasCost, LoadWord;
  }

  // ---------- the simulation ----------

  /** Where the next instruction stands after one that does not terminate its block. */
  lemma NextPosition(c: Context, jumpMap: seq<bool>, padded: seq<Byte>, ip: nat, pc: nat, prefix: int, k: nat,
                     st: State, blockCost: int, s: State)
    requires Setting(c, jumpMap, padded) && InBlock(c, ip, pc, prefix, k, st, blockCost) && pc < |c.code|
    requires s.gas <= st.gas && |s.stack| == |st.stack| + TableChange(c.rev, c.code[pc])
    requires After(c, pc) <= s.gas
    ensures var q, k' := NextPos(c.code, pc), k + LargeCount(c.code[pc]);
            if EndsBlock(c.code, pc) then BeforeBlock(c, ip + 1, q, k', s) && After(c, pc) == 0
            else && InBlock(c, ip + 1, q, prefix + TableCost(c.rev, c.code[pc]), k', s, blockCost)
                 && After(c, pc) == RestCost(c.rev, c.code, q)
  {
    hide AnalysisOf, TableCost, TableRequired, TableChange, RestCost, StackFits, AtInstr, InfoAt, IsBoundary,
         IsTerminator, B.IsPadded, B.IsJumpMap, CostsFit, A.Sound, HonestHost, ArgFor, FnFor;
    RestUnfold(c.rev, c.code, pc, |st.stack|);
    AtInstrStep(c.rev, c.code, An(c), ip, pc, prefix, k);
    BoundaryEnd(c.code, pc);
  }

  lemma {:induction false} SimulateNext(c: Context, jumpMap: seq<bool>, padded: seq<Byte>, ip: nat, pc: nat,
                                        prefix: int, k: nat, st: State, blockCost: int, s: State)
    requires Setting(c, jumpMap, padded) && InBlock(c, ip, pc, prefix, k, st, blockCost) && pc < |c.code|
    requires s.gas <= st.gas && |s.stack| == |st.stack| + TableChange(c.rev, c.code[pc])
    requires 0 <= After(c, pc) <= s.gas && pc < |padded|
    ensures A.Running(An(c), ip + 1, Less(s, After(c, pc)))
    ensures IsBoundary(c.code, NextPos(c.code, pc)) && |s.stack| <= STACK_LIMIT
    ensures Refines(c, AdvancedResult(c, ip + 1, Less(s, After(c, pc)), blockCost),
                    BaselineResult(c, jumpMap, padded, NextPos(c.code, pc), s))
    decreases st.gas, |padded| - pc, 0
  {
    hide BaselineSetting, CostsFit, A.Sound, Addressable, AnalysisOf, TableCost, TableChange, RestCost, StackFits,
         AtInstr, AdvancedResult, BaselineResult, IsBoundary, After;
    NextPosition(c, jumpMap, padded, ip, pc, prefix, k, st, blockCost, s);
    var q, k' := NextPos(c.code, pc), k + LargeCount(c.code[pc]);
    if EndsBlock(c.code, pc) {
      assert Less(s, 0) == s;
      SimulateBlock(c, jumpMap, padded, ip + 1, q, k', s, blockCost);
    } else {
      SimulateInstr(c, jumpMap, padded, ip + 1, q, prefix + TableCost(c.rev, c.code[pc]), k', s, blockCost);
    }
  }

  lemma {:induction false} SimulateInstr(c: Context, jumpMap: seq<bool>, padded: seq<Byte>, ip: nat, pc: nat,
                                         prefix: int, k: nat, st: State, blockCost: int)
    requires Setting(c, jumpMap, padded) && InBlock(c, ip, pc, prefix, k, st, blockCost)
    ensures A.Running(An(c), ip, Less(st, RestCost(c.rev, c.code, pc)))
    ensures Refines(c, AdvancedResult(c, ip, Less(st, RestCost(c.rev, c.code, pc)), blockCost),
                    BaselineResult(c, jumpMap, padded, pc, st))
    decreases st.gas, |padded| - pc, 1
  {
    if pc >= |c.code| {
      SimulateEnd(c, jumpMap, padded, ip, pc, prefix, k, st, blockCost);
    } else if NextPos(c.code, pc) > |c.code| {
      TruncatedPush(c, jumpMap, padded, ip, pc, prefix, k, st, blockCost);
    } else if IsTerminator(c.code[pc]) {
      SimulateTerminator(c, jumpMap, padded, ip, pc, prefix, k, st, blockCost);
    } else {
      hide HonestHost, B.IsJumpMap, B.IsPadded, CostsFit, A.Sound, AnalysisOf, TableCost, TableChange, RestCost,
           StackFits, AtInstr, AdvancedResult, BaselineResult, IsBoundary, A.AdvancedStep, B.BaselineStep, After,
           IsTerminator;
      var stA := Less(st, RestCost(c.rev, c.code, pc));
      AdvancedUnfold(c, ip, stA, blockCost);
      BaselineUnfold(c, jumpMap, padded, pc, st);
      InsideStep(c, jumpMap, padded, pc, st);
      InstructionMatches(c, jumpMap, padded, ip, pc, prefix, k, st, blockCost);
      var step := B.BaselineStep(c, jumpMap, padded, pc, st);
      if step.Go? {
        AfterBound(c, pc);
        if step.st.gas >= After(c, pc) {
          SimulateNext(c, jumpMap, padded, ip, pc, prefix, k, st, blockCost, step.st);
        } else {
          AfterUnpaid(c, jumpMap, padded, ip, pc, prefix, k, st, blockCost, step.st);
        }
      }
    }
  }

  lemma AfterBound(c: Context, pc: nat)
    requires pc < |c.code|
    ensures After(c, pc) >= 0 && TableCost(c.rev, c.code[pc]) >= 0
  {
    RestUnfold(c.rev, c.code, pc, 0);
  }

  /** Baseline cannot pay for the rest of the block either. */
  lemma AfterUnpaid(c: Context, jumpMap: seq<bool>, padded: seq<Byte>, ip: nat, pc: nat, prefix: int, k: nat,
                    st: State, blockCost: int, s: State)
    requires Setting(c, jumpMap, padded) && InBlock(c, ip, pc, prefix, k, st, blockCost) && pc < |c.code|
    requires 0 <= s.gas < After(c, pc) && |s.stack| <= STACK_LIMIT
    ensures IsBoundary(c.code, NextPos(c.code, pc))
    ensures BaselineResult(c, jumpMap, padded, NextPos(c.code, pc), s) == Failed
  {
    hide AnalysisOf, TableCost, RestCost, StackFits, AtInstr, BaselineResult, BaselineSetting, CostsFit, A.Sound,
         Indexable;
    BoundaryEnd(c.code, pc);
    RestUnfold(c.rev, c.code, pc, 0);
    BaselineFailsInBlock(c, jumpMap, padded, NextPos(c.code, pc), s);
  }

  lemma SimulateEnd(c: Context, jumpMap: seq<bool>, padded: seq<Byte>, ip: nat, pc: nat,
                    prefix: int, k: nat, st: State, blockCost: int)
    requires Setting(c, jumpMap, padded) && InBlock(c, ip, pc, prefix, k, st, blockCost) && pc >= |c.code|
    ensures A.Running(An(c), ip, Less(st, RestCost(c.rev, c.code, pc)))
    ensures Observe(AdvancedResult(c, ip, Less(st, RestCost(c.rev, c.code, pc)), blockCost))
              == BaselineResult(c, jumpMap, padded, pc, st)
  {
    assert RestCost(c.rev, c.code, pc) == 0;
    assert Less(st, 0) == st;
    hide AnalysisOf, AdvancedResult, BaselineResult, AtInstr, StackFits;
    EndedCode(c, jumpMap, padded, pc, st);
    AdvancedAtEnd(c, ip, pc, prefix, k, st, blockCost);
  }

  lemma {:induction false} SimulateTerminator(c: Context, jumpMap: seq<bool>, padded: seq<Byte>, ip: nat, pc: nat,
                                              prefix: int, k: nat, st: State, blockCost: int)
    requires Setting(c, jumpMap, padded) && InBlock(c, ip, pc, prefix, k, st, blockCost)
    requires pc < |c.code| && IsTerminator(c.code[pc])
    ensures A.Running(An(c), ip, Less(st, RestCost(c.rev, c.code, pc)))
    ensures Refines(c, AdvancedResult(c, ip, Less(st, RestCost(c.rev, c.code, pc)), blockCost),
                    BaselineResult(c, jumpMap, padded, pc, st))
    decreases st.gas, |padded| - pc, 0
  {
    hide HonestHost, B.IsJumpMap, B.IsPadded, CostsFit, A.Sound, AnalysisOf, TableCost, TableChange, RestCost,
         StackFits, AtInstr, AdvancedResult, BaselineResult, IsBoundary, A.AdvancedStep, B.BaselineStep, A.OpStep,
         B.Dispatch, Defined, GasCost, StackRequired, StackChange;
    var op, stA := c.code[pc], Less(st, RestCost(c.rev, c.code, pc));
    AdvancedUnfold(c, ip, stA, blockCost);
    BaselineUnfold(c, jumpMap, padded, pc, st);
    if !Defined(c.rev, op) {
      UndefinedMatches(c, jumpMap, padded, ip, pc, prefix, k, st, blockCost);
      RefusedStep(c, jumpMap, padded, pc, st);
    } else {
      TerminatorReduce(c, jumpMap, padded, ip, pc, prefix, k, st, blockCost);
      var arg := ArgFor(c.rev, c.code, pc, prefix, k);
      if IsHalting(op) {
        HaltingSteps(c, jumpMap, padded, An(c), ip, arg, pc, stA, blockCost);
      } else {
        JumpCosts(c, jumpMap, padded, pc);
        JumpSteps(c, jumpMap, padded, ip, arg, pc, stA, blockCost);
        var a, b := A.AdvancedStep(c, An(c), ip, stA, blockCost), B.BaselineStep(c, jumpMap, padded, pc, st);
        if b.Go? && a.Go? {
          var k' := JumpLands(c, jumpMap, padded, ip, pc, prefix, k, st, blockCost, a, b);
          SimulateBlock(c, jumpMap, padded, a.ip, b.pc, k', b.st, a.blockCost);
        }
      }
    }
  }

  lemma JumpCosts(c: Context, jumpMap: seq<bool>, padded: seq<Byte>, pc: nat)
    requires Setting(c, jumpMap, padded) && pc < |c.code|
    ensures c.code[pc] == OP_JUMP || c.code[pc] == OP_JUMPI ==> TableCost(c.rev, c.code[pc]) > 0
    ensures HonestHost(c.host) && Addressable(c.code) && B.IsJumpMap(c.code, jumpMap)
  {
    FlowCosts(c.rev);
  }

  /** A jump, or the fall-through of JUMPI, arrives before a block. */
  lemma JumpLands(c: Context, jumpMap: seq<bool>, padded: seq<Byte>, ip: nat, pc: nat, prefix: int, k: nat,
                  st: State, blockCost: int, a: A.Step, b: B.Step) returns (k': nat)
    requires Setting(c, jumpMap, padded) && InBlock(c, ip, pc, prefix, k, st, blockCost)
    requires pc < |c.code| && (c.code[pc] == OP_JUMP || c.code[pc] == OP_JUMPI)
    requires a.Go? && b.Go? && a.st == b.st && b.st.gas <= st.gas && |b.st.stack| <= STACK_LIMIT
    requires IsBoundary(c.code, b.pc)
    requires BlockStart(c.rev, c.code, An(c), a.ip, b.pc) || (b.pc == pc + 1 && a.ip == ip + 1)
    ensures BeforeBlock(c, a.ip, b.pc, k', b.st)
  {
    hide AnalysisOf, RestCost, StackFits, AtInstr, InfoAt;
    if BlockStart(c.rev, c.code, An(c), a.ip, b.pc) {
      k' :| AtBlock(c.rev, c.code, An(c), a.ip, b.pc, k');
    } else {
      AtInstrStep(c.rev, c.code, An(c), ip, pc, prefix, k);
      k' := k;
    }
  }

  lemma {:induction false} SimulateBlock(c: Context, jumpMap: seq<bool>, padded: seq<Byte>, ip: nat, pc: nat,
                                         k: nat, st: State, blockCost: int)
    requires Setting(c, jumpMap, padded) && BeforeBlock(c, ip, pc, k, st)
    ensures A.Running(An(c), ip, st)
    ensures Refines(c, AdvancedResult(c, ip, st, blockCost), BaselineResult(c, jumpMap, padded, pc, st))
    decreases st.gas, |padded| - pc, 2
  {
    hide AnalysisOf, RestCost, StackFits, AtInstr, AdvancedResult, BaselineResult, IsBoundary, InfoAt,
         HonestHost, B.IsJumpMap, B.IsPadded, CostsFit, A.Sound, Clamp;
    AdvancedUnfold(c, ip, st, blockCost);
    BlockEntry(c, ip, pc, k, st, blockCost);
    ChargeIsCost(c, pc, st.gas);
    var rest := RestCost(c.rev, c.code, pc);
    if st.gas >= rest && StackFits(c.rev, c.code, pc, |st.stack|) {
      if pc < |c.code| && c.code[pc] == OP_JUMPDEST {
        SimulateJumpDest(c, jumpMap, padded, ip, pc, k, st);
      } else {
        SimulateInstr(c, jumpMap, padded, ip + 1, pc, 0, k, st, rest);
      }
    } else {
      BaselineFailsInBlock(c, jumpMap, padded, pc, st);
    }
  }

  /** BEGINBLOCK charges the clamped base cost of the block if that is covered and the stack fits, and fails
      otherwise. */
  lemma BlockEntry(c: Context, ip: nat, pc: nat, k: nat, st: State, blockCost: int)
    requires BeforeBlock(c, ip, pc, k, st)
    ensures var charge := Clamp(RestCost(c.rev, c.code, pc), UINT32_MAX);
            var a := A.AdvancedStep(c, An(c), ip, st, blockCost);
            if st.gas >= charge && StackFits(c.rev, c.code, pc, |st.stack|) then
              a == A.Go(ip + 1, Less(st, charge), charge)
            else a.Done? && Observe(MakeResult(a.halt)) == Failed
  {
    hide AnalysisOf, RestCost, StackFits, AtInstr, IsBoundary, InfoAt, Clamp;
    ClampDecision(RestCost(c.rev, c.code, pc), st.gas);
    BlockCheckExact(c.rev, c.code, pc, st.gas, |st.stack|);
    A.SummaryCost(c.rev, c.code, pc);
  }

  /** Where the block costs fit, what is charged is the base cost. */
  lemma ChargeIsCost(c: Context, pc: nat, gas: int)
    requires CostsFit(c.rev, c.code, c.msg.gas) && IsBoundary(c.code, pc) && gas <= c.msg.gas
    ensures var rest := RestCost(c.rev, c.code, pc);
            var charge := Clamp(rest, UINT32_MAX);
            (gas >= charge <==> gas >= rest) && (gas >= rest ==> charge == rest)
  {
    hide RestCost, IsBoundary;
    EmptyRest(c.rev, c.code, pc);
  }

  lemma EmptyRest(rev: Revision, code: seq<Byte>, p: nat)
    ensures p >= |code| ==> RestCost(rev, code, p) == 0
  {
  }

  /** A BEGINBLOCK that stands for a JUMPDEST covers the JUMPDEST step of Baseline too. */
  lemma {:induction false} SimulateJumpDest(c: Context, jumpMap: seq<bool>, padded: seq<Byte>, ip: nat, pc: nat,
                                            k: nat, st: State)
    requires Setting(c, jumpMap, padded) && BeforeBlock(c, ip, pc, k, st)
    requires pc < |c.code| && c.code[pc] == OP_JUMPDEST
    requires st.gas >= RestCost(c.rev, c.code, pc) && StackFits(c.rev, c.code, pc, |st.stack|)
    ensures A.Running(An(c), ip + 1, Less(st, RestCost(c.rev, c.code, pc)))
    ensures Refines(c, AdvancedResult(c, ip + 1, Less(st, RestCost(c.rev, c.code, pc)), RestCost(c.rev, c.code, pc)),
                    BaselineResult(c, jumpMap, padded, pc, st))
    decreases st.gas, |padded| - pc, 1
  {
    hide AnalysisOf, RestCost, StackFits, AtInstr, AdvancedResult, BaselineResult, IsBoundary, InfoAt,
         BaselineSetting, CostsFit, A.Sound, Addressable, B.BaselineStep;
    var q, s := pc + 1, Less(st, 1);
    JumpDestPosition(c, jumpMap, padded, ip, pc, k, st);
    JumpDestStep(c, jumpMap, padded, pc, st);
    BaselineUnfold(c, jumpMap, padded, pc, st);
    if EndsBlock(c.code, pc) {
      SimulateBlock(c, jumpMap, padded, ip + 1, q, k, s, RestCost(c.rev, c.code, pc));
    } else {
      SimulateInstr(c, jumpMap, padded, ip + 1, q, 1, k, s, RestCost(c.rev, c.code, pc));
      assert Less(s, RestCost(c.rev, c.code, q)) == Less(st, RestCost(c.rev, c.code, pc));
    }
  }

  lemma JumpDestStep(c: Context, jumpMap: seq<bool>, padded: seq<Byte>, pc: nat, st: State)
    requires Setting(c, jumpMap, padded) && IsBoundary(c.code, pc) && |st.stack| <= STACK_LIMIT
    requires pc < |c.code| && c.code[pc] == OP_JUMPDEST && st.gas >= 1
    ensures pc < |padded| && pc + PushSize(padded[pc]) < |padded|
    ensures B.BaselineStep(c, jumpMap, padded, pc, st) == B.Go(pc + 1, Less(st, 1))
  {
    hide CostsFit, A.Sound, AnalysisOf;
    B.FetchSafe(c, padded, pc, st);
  }

  lemma JumpDestPosition(c: Context, jumpMap: seq<bool>, padded: seq<Byte>, ip: nat, pc: nat, k: nat, st: State)
    requires Setting(c, jumpMap, padded) && BeforeBlock(c, ip, pc, k, st)
    requires pc < |c.code| && c.code[pc] == OP_JUMPDEST
    requires st.gas >= RestCost(c.rev, c.code, pc) && StackFits(c.rev, c.code, pc, |st.stack|)
    ensures st.gas >= 1
    ensures if EndsBlock(c.code, pc) then
              RestCost(c.rev, c.code, pc) == 1 && BeforeBlock(c, ip + 1, pc + 1, k, Less(st, 1))
            else
              && RestCost(c.rev, c.code, pc) == 1 + RestCost(c.rev, c.code, pc + 1)
              && InBlock(c, ip + 1, pc + 1, 1, k, Less(st, 1), RestCost(c.rev, c.code, pc))
  {
    hide AnalysisOf, RestCost, StackFits, AtInstr, InfoAt, IsBoundary, B.IsPadded, B.IsJumpMap, CostsFit, A.Sound,
         HonestHost;
    FlowCosts(c.rev);
    RestUnfold(c.rev, c.code, pc, |st.stack|);
    AtInstrStep(c.rev, c.code, An(c), ip + 1, pc, 0, k);
    BoundaryEnd(c.code, pc);
  }

  // ---------- the theorem ----------

  lemma {:induction false} BaselineNeverStuck(c: Context, jumpMap: seq<bool>, padded: seq<Byte>, pc: nat, st: State)
    requires B.Fetching(c, padded, pc, st) && B.IsJumpMap(c.code, jumpMap) && HonestHost(c.host)
    ensures Observe(B.BaselineRun(c, jumpMap, padded, pc, st)) != Stuck
    decreases st.gas, |padded| - pc
  {
    hide IsBoundary, B.IsPadded, B.IsJumpMap, HonestHost, GasCost, StackRequired, StackChange, Ordinary,
         B.CheckRequirements, SelfDestructCharges, CheckMemory, TraceExtends, PaysForMemory;
    B.FetchSafe(c, padded, pc, st);
    var step := B.BaselineStep(c, jumpMap, padded, pc, st);
    if step.Go? {
      B.StepProgress(c, jumpMap, padded, pc, st);
      BaselineNeverStuck(c, jumpMap, padded, step.pc, step.st);
    }
  }

  /** For every addressable code whose block costs fit, every revision, message and host, and every value of
      the uninitialised padding, both interpreters end alike: both fail, or both complete with the same
      status, gas left and output after the same requests to the host. The one exception is that Advanced
      ends with a bad jump destination in code that is not indexable. In particular Advanced never has
      undefined behaviour: it stays inside its table and never touches the unchecked stack out of bounds. */
  lemma AdvancedSimulatesBaseline(c: Context, jumpMap: seq<bool>, padded: seq<Byte>)
    requires HonestHost(c.host) && Addressable(c.code)
    requires B.IsJumpMap(c.code, jumpMap) && B.IsPadded(c.code, padded)
    requires CostsFit(c.rev, c.code, c.msg.gas)
    ensures Refines(c, A.Execute(c), Observe(B.Execute(c, jumpMap, padded)))
    ensures Observe(A.Execute(c)) != Stuck
  {
    BaselineNeverStuck(c, jumpMap, padded, 0, InitialState(c));
    A.AnalysisSound(c.rev, c.code);
    StartsAtBlock(c.rev, c.code);
    assert IsBoundary(c.code, 0);
    hide AnalysisOf, A.AdvancedRun, B.BaselineRun, AtInstr, InfoAt, A.Sound, CostsFit, IsBoundary, Indexable,
         Addressable;
    SimulateBlock(c, jumpMap, padded, 0, 0, 0, InitialState(c), 0);
  }

  /** In indexable code there is no exception. */
  lemma AdvancedRefinesBaseline(c: Context, jumpMap: seq<bool>, padded: seq<Byte>)
    requires HonestHost(c.host) && Indexable(c.code)
    requires B.IsJumpMap(c.code, jumpMap) && B.IsPadded(c.code, padded)
    requires CostsFit(c.rev, c.code, c.msg.gas)
    ensures Addressable(c.code)
    ensures Observe(A.Execute(c)) == Observe(B.Execute(c, jumpMap, padded)) != Stuck
  {
    hide A.Execute, B.Execute, Observe, CostsFit, Indexable, Addressable, HonestHost;
    IndexableAddressable(c.code);
    AdvancedSimulatesBaseline(c, jumpMap, padded);
  }

  /** Code of legal size needs no further condition. */
  lemma LegalCodeRefines(c: Context, jumpMap: seq<bool>, padded: seq<Byte>)
    requires HonestHost(c.host) && |c.code| <= MAX_CODE_SIZE
    requires B.IsJumpMap(c.code, jumpMap) && B.IsPadded(c.code, padded)
    ensures Indexable(c.code) && Addressable(c.code)
    ensures Observe(A.Execute(c)) == Observe(B.Execute(c, jumpMap, padded))
  {
    hide A.Execute, B.Execute, Observe, CostsFit, Indexable, Addressable;
    LegalCodeFits(c.rev, c.code, c.msg.gas);
    SmallCodeIndexable(c.code);
    IndexableAddressable(c.code);
    AdvancedRefinesBaseline(c, jumpMap, padded);
  }
}
