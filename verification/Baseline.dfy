/** The Baseline interpreter: gas and stack are checked before every instruction. */
module Baseline {
  import opened Words
  import opened InstructionTraits
  import opened Machine
  import opened MemoryExpansion
  import opened Instructions
  import opened InstructionLaws
  import opened CodeStructure

  // ---------- code analysis ----------

  /** The bitmap marks exactly the valid jump destinations. */
  ghost predicate IsJumpMap(code: seq<Byte>, map_: seq<bool>) {
    && |map_| == |code|
    && forall p :: 0 <= p < |code| ==> (map_[p] <==> IsJumpDest(code, p))
  }

  /** The padded buffer: the code, a STOP right after it and a STOP after the last immediate.
      The bytes in between may hold anything. */
  ghost predicate IsPadded(code: seq<Byte>, padded: seq<Byte>) {
    && |padded| == CodeEnd(code, 0) + 1
    && padded[..|code|] == code
    && padded[|code|] == OP_STOP
    && padded[CodeEnd(code, 0)] == OP_STOP
  }

  /** The bitmap of a code, and one of its padded buffers. */
  ghost function ExactJumpMap(code: seq<Byte>): (m: seq<bool>)
    ensures IsJumpMap(code, m)
  {
    seq(|code|, p requires 0 <= p < |code| => IsJumpDest(code, p))
  }

  ghost function ZeroPadded(code: seq<Byte>): (padded: seq<Byte>)
    ensures IsPadded(code, padded)
  {
    var padded := code + seq(CodeEnd(code, 0) + 1 - |code|, _ => OP_STOP);
    assert padded[..|code|] == code;
    padded
  }

  /** Scans the code once, marking jump destinations, then copies it into a buffer whose other
      bytes are left as the allocator gave them. */
  method Analyze(code: seq<Byte>) returns (jumpMap: array<bool>, padded: array<Byte>)
    ensures fresh(jumpMap) && fresh(padded)
    ensures IsJumpMap(code, jumpMap[..])
    ensures IsPadded(code, padded[..])
  {
    jumpMap := new bool[|code|](_ => false);
    var i: nat := 0;
    while i < |code|
      invariant IsBoundary(code, i)
      invariant forall p :: 0 <= p < |code| ==> (jumpMap[p] <==> p < i && IsJumpDest(code, p))
      decreases |code| - i
    {
      var op := code[i];
      var start := i;
      BoundaryEnd(code, start);
      if 0x60 <= op < 0x80 {
        i := i + (op - (OP_PUSH1 - 1));
      } else if op == OP_JUMPDEST {
        jumpMap[i] := true;
      }
      i := i + 1;
      NoBoundaryInside(code, start);
    }
    BoundaryEnd(code, i);
    padded := new Byte[i + 1];
    forall k | 0 <= k < |code| {
      padded[k] := code[k];
    }
    padded[|code|] := OP_STOP;
    padded[i] := OP_STOP;
    assert padded[..][..|code|] == code;
  }

  lemma {:induction false} BoundariesOrdered(code: seq<Byte>, q: nat, a: nat, b: nat)
    requires Reaches(code, q, a) && Reaches(code, q, b) && a <= b
    ensures Reaches(code, a, b)
    decreases |code| - q
  {
    if q != a {
      if q == b {
        ReachesEnd(code, q, a);
      } else {
        BoundariesOrdered(code, NextPos(code, q), a, b);
      }
    }
  }

  /** No instruction starts inside another one. */
  lemma NoBoundaryInside(code: seq<Byte>, p: nat)
    requires IsBoundary(code, p) && p < |code|
    ensures forall x: nat :: p < x < NextPos(code, p) ==> !IsBoundary(code, x)
  {
    forall x: nat | p < x < NextPos(code, p)
      ensures !IsBoundary(code, x)
    {
      if IsBoundary(code, x) {
        BoundariesOrdered(code, 0, p, x);
        ReachesEnd(code, NextPos(code, p), x);
        assert false;
      }
    }
  }

  // ---------- the instruction table ----------

  datatype Metrics = Metrics(gasCost: int, stackRequired: int, canOverflow: bool)

  /** The table gives for every opcode its base cost, or that it is undefined, the stack items it needs,
      and whether it can overflow the stack. */
  ghost predicate IsInstructionTable(rev: Revision, table: seq<Metrics>) {
    && |table| == 256
    && forall op: Byte :: IsMetrics(rev, op, table[op])
  }

  predicate IsMetrics(rev: Revision, op: Byte, m: Metrics) {
    && m.gasCost == GasCost(rev, op)
    && m.stackRequired == StackRequired(op)
    && (m.canOverflow <==> StackChange(op) > 0)
  }

  /** Fills the tables of all revisions. No instruction adds more than one item, so a flag is enough to
      recognise those that overflow a full stack. */
  method InstructionTables() returns (tables: seq<seq<Metrics>>)
    ensures |tables| == LATEST_REVISION + 1
    ensures forall rev: Revision :: IsInstructionTable(rev, tables[rev])
  {
    hide GasCost, StackRequired, StackChange;
    tables := [];
    while |tables| <= LATEST_REVISION
      invariant |tables| <= LATEST_REVISION + 1
      invariant forall rev: Revision :: rev < |tables| ==> IsInstructionTable(rev, tables[rev])
    {
      var rev: Revision := |tables|;
      var table := new Metrics[256];
      var i := 0;
      while i < 256
        invariant 0 <= i <= 256
        invariant forall op: Byte :: op < i ==> IsMetrics(rev, op, table[op])
      {
        TableBounds(rev, i);
        assert StackChange(i) <= 1;
        table[i] := Metrics(GasCost(rev, i), StackRequired(i), StackChange(i) > 0);
        i := i + 1;
      }
      tables := tables + [table[..]];
    }
  }

  // ---------- one step ----------

  /** The check before every instruction; it charges the base cost. */
  function CheckRequirements(rev: Revision, st: State, op: Byte): Outcome {
    if !Defined(rev, op) then Fail(UndefinedInstruction, st)
    else if st.gas - GasCost(rev, op) < 0 then Fail(OutOfGas, st)
    else if |st.stack| == STACK_LIMIT then
      if StackChange(op) > 0 then Fail(StackOverflow, st) else Ok(Less(st, GasCost(rev, op)))
    else if |st.stack| < StackRequired(op) then Fail(StackUnderflow, st)
    else Ok(Less(st, GasCost(rev, op)))
  }

  lemma CheckRequirementsMeaning(rev: Revision, st: State, op: Byte)
    requires |st.stack| <= STACK_LIMIT
    ensures CheckRequirements(rev, st, op).Ok? <==>
              && Defined(rev, op) && st.gas >= TableCost(rev, op)
              && TableRequired(rev, op) <= |st.stack|
              && |st.stack| + TableChange(rev, op) <= STACK_LIMIT
    ensures CheckRequirements(rev, st, op).Ok? ==>
              && CheckRequirements(rev, st, op).st == Less(st, GasCost(rev, op))
              && GasCost(rev, op) == TableCost(rev, op) >= 0
              && 0 <= StackRequired(op) <= |st.stack| && |st.stack| + StackChange(op) <= STACK_LIMIT
  {
    TableBounds(rev, op);
    hide GasCost, StackRequired, StackChange;
  }

  datatype Step = Go(pc: nat, st: State) | Done(halt: Halt)

  function JumpTo(jumpMap: seq<bool>, dst: Word, st: State): Step {
    if dst >= |jumpMap| || !jumpMap[dst] then Done(Halt(BadJumpDestination, st, []))
    else Go(dst, st)
  }

  /** Every defined instruction falls into one of the classes that the interpreter dispatches on. */
  lemma Classified(rev: Revision, op: Byte)
    requires Defined(rev, op)
    ensures IsOrdinary(op) || IsHalting(op) || IsPush(op) || op == OP_JUMP || op == OP_JUMPI || op == OP_PC
  {
  }

  function Dispatch(c: Context, jumpMap: seq<bool>, padded: seq<Byte>, pc: nat, st: State): Step
    requires pc < |padded| && pc + PushSize(padded[pc]) < |padded|
    requires Defined(c.rev, padded[pc]) && 0 <= StackRequired(padded[pc]) <= |st.stack|
  {
    var op := padded[pc];
    if op == OP_JUMP then JumpTo(jumpMap, Peek(st, 0), Drop(st, 1))
    else if op == OP_JUMPI then
      if Peek(st, 1) != 0 then JumpTo(jumpMap, Peek(st, 0), Drop(st, 2)) else Go(pc + 1, Drop(st, 2))
    else if op == OP_PC then Go(pc + 1, Push(st, ToWord(pc)))
    else if IsPush(op) then
      Go(pc + 1 + PushSize(op), Push(st, LoadWord(padded[pc + 1..pc + 1 + PushSize(op)])))
    else if IsHalting(op) then Done(Halting(c, op, st))
    else
      Classified(c.rev, op);
      match Ordinary(c, op, st)
      case Err(status, trace) => Done(Aborted(status, trace, st))
      case Ok(st') => Go(pc + 1, st')
  }

  function BaselineStep(c: Context, jumpMap: seq<bool>, padded: seq<Byte>, pc: nat, st: State): Step
    requires pc < |padded| && pc + PushSize(padded[pc]) < |padded|
    requires |st.stack| <= STACK_LIMIT
  {
    match CheckRequirements(c.rev, st, padded[pc])
    case Err(status, trace) => Done(Aborted(status, trace, st))
    case Ok(st') =>
      CheckRequirementsMeaning(c.rev, st, padded[pc]);
      Dispatch(c, jumpMap, padded, pc, st')
  }

  // ---------- whole runs ----------

  /** What holds whenever an instruction is fetched: the position is an instruction boundary inside
      the buffer and the stack is within its storage. */
  ghost predicate Fetching(c: Context, padded: seq<Byte>, pc: nat, st: State) {
    IsPadded(c.code, padded) && IsBoundary(c.code, pc) && |st.stack| <= STACK_LIMIT
  }

  /** A fetch reads inside the buffer, and so do the immediate bytes of a PUSH. At the end of the
      code the fetched instruction is STOP. */
  lemma FetchSafe(c: Context, padded: seq<Byte>, pc: nat, st: State)
    requires Fetching(c, padded, pc, st)
    ensures pc < |padded| && pc + PushSize(padded[pc]) < |padded|
    ensures pc < |c.code| ==> padded[pc] == c.code[pc]
    ensures pc >= |c.code| ==> padded[pc] == OP_STOP && pc == CodeEnd(c.code, 0)
  {
    BoundaryEnd(c.code, pc);
    if pc < |c.code| {
      assert padded[pc] == padded[..|c.code|][pc];
    }
  }

  /** The instructions that Baseline executes by position: pushes, PC and jumps. */
  predicate IsPositional(op: Byte) {
    op == OP_JUMP || op == OP_JUMPI || op == OP_PC || IsPush(op)
  }

  lemma PositionalLawful(c: Context, jumpMap: seq<bool>, padded: seq<Byte>, pc: nat, st: State)
    requires IsBoundary(c.code, pc) && IsJumpMap(c.code, jumpMap) && st.gas >= 0
    requires pc < |c.code| && pc < |padded| && padded[pc] == c.code[pc] && pc + PushSize(padded[pc]) < |padded|
    requires Defined(c.rev, padded[pc]) && 0 <= StackRequired(padded[pc]) <= |st.stack|
    requires IsPositional(padded[pc])
    ensures var next := Dispatch(c, jumpMap, padded, pc, st);
            next.Go? ==>
              && IsBoundary(c.code, next.pc)
              && StackDiscipline(padded[pc], st, next.st)
              && next.st == st.(stack := next.st.stack)
              && (padded[pc] == OP_JUMP || padded[pc] == OP_JUMPI || next.pc > pc)
  {
    hide GasCost, LoadWord, StackRequired, StackChange, StackDiscipline, IsBoundary;
    var op := padded[pc];
    BoundaryEnd(c.code, pc);
    FlowOperands(op);
    if op == OP_JUMP || op == OP_JUMPI {
      OnlyOperands(op, st, StackRequired(op), 0);
    } else {
      OnlyOperands(op, st, 0, if op == OP_PC then ToWord(pc) else LoadWord(padded[pc + 1..pc + 1 + PushSize(op)]));
    }
  }

  /** One law for all instructions: whatever is executed at pc, if the execution goes on then it goes on at
      a boundary, with the stack changed by the table value and only within the declared items, without a
      gain of gas, with the new memory paid for, and in static mode with harmless requests only. */
  lemma DispatchLawful(c: Context, jumpMap: seq<bool>, padded: seq<Byte>, pc: nat, st: State)
    requires IsBoundary(c.code, pc) && IsJumpMap(c.code, jumpMap) && HonestHost(c.host) && st.gas >= 0
    requires pc < |c.code| && pc < |padded| && padded[pc] == c.code[pc] && pc + PushSize(padded[pc]) < |padded|
    requires Defined(c.rev, padded[pc]) && 0 <= StackRequired(padded[pc]) <= |st.stack|
    ensures var next := Dispatch(c, jumpMap, padded, pc, st);
            next.Go? ==>
              && IsBoundary(c.code, next.pc)
              && StackDiscipline(padded[pc], st, next.st)
              && Frugal(c, st, next.st)
              && (padded[pc] == OP_JUMP || padded[pc] == OP_JUMPI || next.pc > pc)
  {
    hide GasCost, StackRequired, StackChange, Ordinary, Frugal, StackDiscipline, IsBoundary, LoadWord, Halting,
         IsOrdinary;
    var op := padded[pc];
    BoundaryEnd(c.code, pc);
    Classified(c.rev, op);
    if IsPositional(op) {
      PositionalLawful(c, jumpMap, padded, pc, st);
      var next := Dispatch(c, jumpMap, padded, pc, st);
      if next.Go? {
        SameButStack(c, st, next.st);
      }
    } else if !IsHalting(op) {
      OrdinaryLawful(c, op, st);
    }
  }

  /** A continuing step keeps the fetch invariant and the gas non-negative and not larger, obeys the law of
      all instructions, and either spends gas or moves forward. */
  lemma StepProgress(c: Context, jumpMap: seq<bool>, padded: seq<Byte>, pc: nat, st: State)
    requires Fetching(c, padded, pc, st) && IsJumpMap(c.code, jumpMap) && HonestHost(c.host)
    requires pc < |padded| && pc + PushSize(padded[pc]) < |padded|
    requires BaselineStep(c, jumpMap, padded, pc, st).Go?
    ensures var next := BaselineStep(c, jumpMap, padded, pc, st);
            && Fetching(c, padded, next.pc, next.st)
            && 0 <= next.st.gas <= st.gas - TableCost(c.rev, padded[pc])
            && Defined(c.rev, padded[pc])
            && 0 <= StackRequired(padded[pc]) <= |st.stack|
            && StackDiscipline(padded[pc], st, next.st)
            && (next.st.gas < st.gas || next.pc > pc)
            && next.pc < |padded|
            && Frugal(c, st, next.st)
            && pc < |c.code|
  {
    hide GasCost, StackRequired, StackChange, Dispatch, IsBoundary, MemoryCost, TraceExtends, IsPadded,
         CheckRequirements;
    FetchSafe(c, padded, pc, st);
    var op := padded[pc];
    CheckRequirementsMeaning(c.rev, st, op);
    var st1 := CheckRequirements(c.rev, st, op).st;
    if pc < |c.code| {
      DispatchLawful(c, jumpMap, padded, pc, st1);
      FlowCosts(c.rev);
      var next := BaselineStep(c, jumpMap, padded, pc, st);
      PaidFrugal(c, st, st1, next.st);
      FetchSafe(c, padded, next.pc, next.st);
    } else {
      StopEnds(c, jumpMap, padded, pc, st1);
    }
  }

  lemma PaidFrugal(c: Context, st: State, paid: State, next: State)
    requires paid == st.(gas := paid.gas) && 0 <= paid.gas <= st.gas && Frugal(c, paid, next)
    ensures Frugal(c, st, next)
  {
    hide TraceExtends, MemoryCost;
  }

  lemma StopEnds(c: Context, jumpMap: seq<bool>, padded: seq<Byte>, pc: nat, st: State)
    requires pc < |padded| && padded[pc] == OP_STOP && Defined(c.rev, OP_STOP)
    requires 0 <= StackRequired(OP_STOP) <= |st.stack|
    ensures Dispatch(c, jumpMap, padded, pc, st).Done?
  {
  }

  /** The Baseline loop: it ends for every code and gas, because each step spends gas or moves
      forward in the buffer. */
  function BaselineRun(c: Context, jumpMap: seq<bool>, padded: seq<Byte>, pc: nat, st: State): Result
    requires Fetching(c, padded, pc, st) && IsJumpMap(c.code, jumpMap) && HonestHost(c.host)
    decreases st.gas, |padded| - pc
  {
    FetchSafe(c, padded, pc, st);
    match BaselineStep(c, jumpMap, padded, pc, st)
    case Done(halt) => MakeResult(halt)
    case Go(pc', st') =>
      StepProgress(c, jumpMap, padded, pc, st);
      BaselineRun(c, jumpMap, padded, pc', st')
  }

  /** The Baseline result of a message, given the analysis of its code. */
  function Execute(c: Context, jumpMap: seq<bool>, padded: seq<Byte>): Result
    requires IsPadded(c.code, padded) && IsJumpMap(c.code, jumpMap) && HonestHost(c.host)
  {
    BaselineRun(c, jumpMap, padded, 0, InitialState(c))
  }
}
