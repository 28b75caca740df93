/** The instruction boundaries and basic blocks of a bytecode, independent of
    either interpreter. */
module CodeStructure {
  import opened Words
  import opened InstructionTraits

  // ---------- instruction boundaries ----------

  /** The position after the instruction at p, its immediate bytes included. */
  function NextPos(code: seq<Byte>, p: nat): (q: nat)
    requires p < |code|
    ensures p < q <= p + 33
  {
    p + 1 + PushSize(code[p])
  }

  predicate Reaches(code: seq<Byte>, q: nat, p: nat)
    decreases |code| - q
  {
    q == p || (q < |code| && Reaches(code, NextPos(code, q), p))
  }

  /** p is where an instruction starts, or where the last one ends. */
  predicate IsBoundary(code: seq<Byte>, p: nat) {
    Reaches(code, 0, p)
  }

  /** A valid jump destination in the sense of section 9.4.3 of the Yellow Paper. */
  predicate IsJumpDest(code: seq<Byte>, p: nat) {
    p < |code| && code[p] == OP_JUMPDEST && IsBoundary(code, p)
  }

  /** The end of the last instruction, which may lie past the end of the code. */
  function CodeEnd(code: seq<Byte>, p: nat): (e: nat)
    ensures e >= |code| && e >= p
    ensures p <= |code| ==> e <= |code| + 32
    decreases |code| - p
  {
    if p < |code| then CodeEnd(code, NextPos(code, p)) else p
  }

  lemma {:induction false} ReachesNext(code: seq<Byte>, q: nat, p: nat)
    requires Reaches(code, q, p) && p < |code|
    ensures Reaches(code, q, NextPos(code, p))
    decreases |code| - q
  {
    if q != p {
      ReachesNext(code, NextPos(code, q), p);
    } else {
      assert Reaches(code, NextPos(code, p), NextPos(code, p));
    }
  }

  lemma {:induction false} ReachesEnd(code: seq<Byte>, q: nat, p: nat)
    requires Reaches(code, q, p)
    ensures CodeEnd(code, q) == CodeEnd(code, p)
    ensures q <= p
    decreases |code| - q
  {
    if q != p {
      ReachesEnd(code, NextPos(code, q), p);
    }
  }

  /** Every boundary lies within the code or is its end. */
  lemma BoundaryEnd(code: seq<Byte>, p: nat)
    requires IsBoundary(code, p)
    ensures p < |code| || p == CodeEnd(code, 0)
    ensures CodeEnd(code, p) == CodeEnd(code, 0) && p <= CodeEnd(code, 0)
    ensures p < |code| ==> IsBoundary(code, NextPos(code, p)) && NextPos(code, p) <= CodeEnd(code, 0)
  {
    ReachesEnd(code, 0, p);
    if p < |code| {
      ReachesNext(code, 0, p);
      ReachesEnd(code, 0, NextPos(code, p));
    }
  }

  // ---------- basic blocks ----------

  predicate IsTerminator(op: Byte) {
    || op == OP_JUMP || op == OP_JUMPI || op == OP_STOP || op == OP_RETURN
    || op == OP_REVERT || op == OP_SELFDESTRUCT
  }

  /** The block ends after the instruction at p: it is a terminator, or a JUMPDEST follows. */
  predicate EndsBlock(code: seq<Byte>, p: nat)
    requires p < |code|
  {
    var q := NextPos(code, p);
    IsTerminator(code[p]) || (q < |code| && code[q] == OP_JUMPDEST)
  }

  /** The base cost of the instructions from p to the end of its block. */
  function RestCost(rev: Revision, code: seq<Byte>, p: nat): (r: nat)
    decreases |code| - p
  {
    if p >= |code| then 0
    else
      TableBounds(rev, code[p]);
      TableCost(rev, code[p]) + if EndsBlock(code, p) then 0 else RestCost(rev, code, NextPos(code, p))
  }

  /** A stack of height h at p neither underflows nor overflows before the end of the block. */
  predicate StackFits(rev: Revision, code: seq<Byte>, p: nat, h: int)
    decreases |code| - p
  {
    p < |code| ==>
      && TableRequired(rev, code[p]) <= h
      && h + TableChange(rev, code[p]) <= STACK_LIMIT
      && (!EndsBlock(code, p) ==> StackFits(rev, code, NextPos(code, p), h + TableChange(rev, code[p])))
  }

  /** The running summary of the block being analysed. */
  datatype BlockAnalysis = BlockAnalysis(gasCost: int, stackReq: int, stackMaxGrowth: int, stackChange: int)

  const EMPTY_BLOCK := BlockAnalysis(0, 0, 0, 0)

  /** The compressed summary stored in the instruction table. */
  datatype BlockInfo = BlockInfo(gasCost: int, stackReq: int, stackMaxGrowth: int)

  const UINT32_MAX := 0xffff_ffff
  const INT16_MAX := 0x7fff

  function Clamp(x: int, max: int): int {
    if x <= max then x else max
  }

  function Close(b: BlockAnalysis): BlockInfo {
    BlockInfo(Clamp(b.gasCost, UINT32_MAX), Clamp(b.stackReq, INT16_MAX), Clamp(b.stackMaxGrowth, INT16_MAX))
  }

  function AddInstruction(rev: Revision, b: BlockAnalysis, op: Byte): BlockAnalysis {
    var change := b.stackChange + TableChange(rev, op);
    BlockAnalysis(
      b.gasCost + TableCost(rev, op),
      Max(b.stackReq, TableRequired(rev, op) - b.stackChange),
      Max(b.stackMaxGrowth, change),
      change)
  }

  /** The summary of the block once the instructions from p on have been added. */
  function Summarize(rev: Revision, code: seq<Byte>, b: BlockAnalysis, p: nat): BlockAnalysis
    decreases |code| - p
  {
    if p >= |code| then b
    else
      var b' := AddInstruction(rev, b, code[p]);
      if EndsBlock(code, p) then b' else Summarize(rev, code, b', NextPos(code, p))
  }

  function InfoAt(rev: Revision, code: seq<Byte>, p: nat): BlockInfo {
    Close(Summarize(rev, code, EMPTY_BLOCK, p))
  }

  /** The one-pass summary says of the whole block what the step-by-step recursions say. */
  lemma {:induction false} SummaryMeaning(rev: Revision, code: seq<Byte>, b: BlockAnalysis, p: nat, h: int)
    ensures var s := Summarize(rev, code, b, p);
            && s.gasCost == b.gasCost + RestCost(rev, code, p)
            && s.stackReq >= b.stackReq && s.stackMaxGrowth >= b.stackMaxGrowth
            && ((s.stackReq <= h && h + s.stackMaxGrowth <= STACK_LIMIT) <==>
                (b.stackReq <= h && h + b.stackMaxGrowth <= STACK_LIMIT
                 && StackFits(rev, code, p, h + b.stackChange)))
    decreases |code| - p
  {
    hide TableCost, TableRequired, TableChange;
    if p < |code| && !EndsBlock(code, p) {
      SummaryMeaning(rev, code, AddInstruction(rev, b, code[p]), NextPos(code, p), h);
    }
  }

  // ---------- the block check against the per-instruction checks ----------

  /** The three tests of BEGINBLOCK. */
  predicate BlockCheck(info: BlockInfo, gas: int, height: int) {
    && gas - info.gasCost >= 0
    && height >= info.stackReq
    && height + info.stackMaxGrowth <= STACK_LIMIT
  }

  /** Clamping the cost changes the decision exactly for gas between the clamp and the cost. */
  lemma ClampDecision(cost: int, gas: int)
    ensures gas >= Clamp(cost, UINT32_MAX) <==> gas >= cost || UINT32_MAX <= gas < cost
  {
  }

  /** The clamps of the stack numbers never change a decision, since no stack is as high as they are. */
  lemma StackClamps(x: int, height: int)
    requires 0 <= height <= STACK_LIMIT
    ensures height >= Clamp(x, INT16_MAX) <==> height >= x
    ensures height + Clamp(x, INT16_MAX) <= STACK_LIMIT <==> height + x <= STACK_LIMIT
  {
  }

  /** BEGINBLOCK lets the execution into a block exactly if the stack fits and the gas covers the base cost
      or lies between the clamp and that cost. */
  lemma BlockCheckExact(rev: Revision, code: seq<Byte>, p: nat, gas: int, height: int)
    requires 0 <= height <= STACK_LIMIT
    ensures BlockCheck(InfoAt(rev, code, p), gas, height) <==>
              && StackFits(rev, code, p, height)
              && (gas >= RestCost(rev, code, p) || UINT32_MAX <= gas < RestCost(rev, code, p))
  {
    hide Summarize, RestCost, StackFits, Clamp;
    var s := Summarize(rev, code, EMPTY_BLOCK, p);
    SummaryMeaning(rev, code, EMPTY_BLOCK, p, height);
    ClampDecision(s.gasCost, gas);
    StackClamps(s.stackReq, height);
    StackClamps(s.stackMaxGrowth, height);
  }

  /** The decision of the Baseline per-instruction check for one instruction. */
  predicate InstructionCheck(rev: Revision, op: Byte, gas: int, height: int) {
    && Defined(rev, op)
    && gas - GasCost(rev, op) >= 0
    && (if height == STACK_LIMIT then !(StackChange(op) > 0) else height >= StackRequired(op))
  }

  /** The Baseline checks along the block, charging only base costs. */
  predicate AllChecksPass(rev: Revision, code: seq<Byte>, p: nat, gas: int, height: int)
    decreases |code| - p
  {
    p < |code| ==>
      && InstructionCheck(rev, code[p], gas, height)
      && (!EndsBlock(code, p) ==>
            AllChecksPass(rev, code, NextPos(code, p),
                          gas - GasCost(rev, code[p]), height + StackChange(code[p])))
  }

  predicate BlockDefined(rev: Revision, code: seq<Byte>, p: nat)
    decreases |code| - p
  {
    p < |code| ==>
      && Defined(rev, code[p])
      && (!EndsBlock(code, p) ==> BlockDefined(rev, code, NextPos(code, p)))
  }

  /** The trimmed check at the stack limit is the exact test of both bounds. */
  lemma InstructionCheckMeaning(rev: Revision, op: Byte, gas: int, height: int)
    requires 0 <= height <= STACK_LIMIT
    ensures InstructionCheck(rev, op, gas, height) <==>
              && Defined(rev, op) && gas >= TableCost(rev, op)
              && TableRequired(rev, op) <= height && height + TableChange(rev, op) <= STACK_LIMIT
    ensures InstructionCheck(rev, op, gas, height) ==> 0 <= height + StackChange(op) <= STACK_LIMIT
  {
    TableBounds(rev, op);
    hide GasCost, StackRequired, StackChange;
  }

  lemma {:induction false} ChecksAlongBlock(rev: Revision, code: seq<Byte>, p: nat, gas: int, height: int)
    requires 0 <= height <= STACK_LIMIT && gas >= 0
    ensures AllChecksPass(rev, code, p, gas, height) <==>
              && BlockDefined(rev, code, p)
              && gas >= RestCost(rev, code, p) && StackFits(rev, code, p, height)
    decreases |code| - p
  {
    hide GasCost, StackRequired, StackChange, InstructionCheck;
    if p < |code| {
      var op := code[p];
      TableBounds(rev, op);
      InstructionCheckMeaning(rev, op, gas, height);
      if InstructionCheck(rev, op, gas, height) && !EndsBlock(code, p) {
        ChecksAlongBlock(rev, code, NextPos(code, p), gas - GasCost(rev, op), height + StackChange(op));
      }
    }
  }

  /** Checking the block once is the same as checking each of its instructions: BEGINBLOCK passes
      on a block of defined instructions if and only if every check along it passes, for all gas and
      stack heights but one family: the clamped cost lets gas through that does not cover the real
      cost of the block. */
  lemma BlockCheckEqualsInstructionChecks(rev: Revision, code: seq<Byte>, p: nat, gas: int, height: int)
    requires 0 <= height <= STACK_LIMIT && gas >= 0
    ensures (AllChecksPass(rev, code, p, gas, height) <==>
               BlockDefined(rev, code, p) && BlockCheck(InfoAt(rev, code, p), gas, height))
            <==>
            !(UINT32_MAX <= gas < RestCost(rev, code, p)
              && BlockDefined(rev, code, p) && StackFits(rev, code, p, height))
  {
    hide AllChecksPass, BlockDefined, RestCost, StackFits, InfoAt, BlockCheck;
    ChecksAlongBlock(rev, code, p, gas, height);
    BlockCheckExact(rev, code, p, gas, height);
  }

  /** The family is not empty: a block of six million SLOADs costs 4800 million gas in Istanbul. */
  lemma ClampMisleads()
    ensures var code := seq(6_000_000, _ => OP_SLOAD);
            && BlockCheck(InfoAt(ISTANBUL, code, 0), UINT32_MAX, 1)
            && !AllChecksPass(ISTANBUL, code, 0, UINT32_MAX, 1)
  {
    var code := seq(6_000_000, _ => OP_SLOAD);
    LoadsOnly(code, 0);
    hide AllChecksPass, BlockDefined, RestCost, StackFits, Summarize;
    ChecksAlongBlock(ISTANBUL, code, 0, UINT32_MAX, 1);
    BlockCheckEqualsInstructionChecks(ISTANBUL, code, 0, UINT32_MAX, 1);
  }

  lemma {:induction false} LoadsOnly(code: seq<Byte>, p: nat)
    requires forall i :: 0 <= i < |code| ==> code[i] == OP_SLOAD
    requires p <= |code|
    ensures RestCost(ISTANBUL, code, p) == 800 * (|code| - p)
    ensures BlockDefined(ISTANBUL, code, p) && StackFits(ISTANBUL, code, p, 1)
    decreases |code| - p
  {
    if p < |code| {
      LoadsOnly(code, p + 1);
    }
  }

  // ---------- code whose block costs fit in 32 bits ----------

  /** The clamp of the block costs cannot change a decision of a run that starts with this gas. */
  ghost predicate CostsFit(rev: Revision, code: seq<Byte>, gas: int) {
    gas < UINT32_MAX
    || forall p: nat :: p < |code| && IsBoundary(code, p) ==> RestCost(rev, code, p) <= UINT32_MAX
  }

  const MAX_CODE_SIZE := 0x6000
  const MAX_INSTRUCTION_BASE_COST := 32000

  lemma {:induction false} RestCostBound(rev: Revision, code: seq<Byte>, p: nat)
    requires p <= |code|
    ensures RestCost(rev, code, p) <= (|code| - p) * MAX_INSTRUCTION_BASE_COST
    decreases |code| - p
  {
    hide TableCost;
    if p < |code| {
      TableBounds(rev, code[p]);
      if NextPos(code, p) <= |code| {
        RestCostBound(rev, code, NextPos(code, p));
      }
    }
  }

  /** Every code of legal size qualifies, with any gas. */
  lemma LegalCodeFits(rev: Revision, code: seq<Byte>, gas: int)
    requires |code| <= MAX_CODE_SIZE
    ensures CostsFit(rev, code, gas)
  {
    hide IsBoundary;
    forall p: nat | p < |code|
      ensures RestCost(rev, code, p) <= UINT32_MAX
    {
      RestCostBound(rev, code, p);
    }
  }
}
