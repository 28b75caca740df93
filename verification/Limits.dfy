/** The limits on the cost and the size of blocks: whole messages that cross them, and the size of code up to
    which the block summaries fit their 32-bit fields. */
module Limits {
  import opened Words
  import opened InstructionTraits
  import opened Machine
  import opened MemoryExpansion
  import opened Instructions
  import opened InstructionLaws
  import opened CodeStructure
  import opened Analysis
  import opened TableStructure
  import opened RunLaws
  import opened Simulation
  import opened Refinement
  import B = Baseline
  import A = Advanced

  // ---------- the clamp of the block cost ----------

  const LOADS := 6_000_000

  /** Where the loads end. */
  const LOADED := 6_000_002

  /** A PUSH1 and six million SLOADs: a block that costs 4800 million gas and 3, and the cost of the tail. */
  function CostlyCode(tail: seq<Byte>): seq<Byte> {
    [OP_PUSH1, 0] + seq(LOADS, _ => OP_SLOAD) + tail
  }

  const CREATE_TAIL: seq<Byte> := [OP_DUP1, OP_DUP1, OP_CREATE]

  /** Any message with a costly code in Istanbul and a gas of 2^32 - 1. */
  predicate IsCostly(c: Context, tail: seq<Byte>) {
    && c.rev == ISTANBUL && c.msg.gas == UINT32_MAX
    && c.code == CostlyCode(tail) && (tail == [] || tail == CREATE_TAIL)
  }

  lemma CostlyShape(c: Context, tail: seq<Byte>, p: nat)
    requires IsCostly(c, tail)
    ensures |c.code| == LOADED + |tail| && c.code[0] == OP_PUSH1 && c.code[LOADED..] == tail
    ensures 2 <= p < LOADED ==> c.code[p] == OP_SLOAD && NextPos(c.code, p) == p + 1 && !EndsBlock(c.code, p)
    ensures NextPos(c.code, 0) == 2 && !EndsBlock(c.code, 0)
  {
  }

  lemma TailFits(c: Context, tail: seq<Byte>)
    requires IsCostly(c, tail)
    ensures StackFits(ISTANBUL, c.code, LOADED, 1)
  {
    hide CostlyCode;
    CostlyShape(c, tail, 0);
    if tail == CREATE_TAIL {
      TailEntries(c, 0);
      hide IsCostly;
      assert StackFits(ISTANBUL, c.code, LOADED + 3, 1);
      assert StackFits(ISTANBUL, c.code, LOADED + 2, 3);
      assert StackFits(ISTANBUL, c.code, LOADED + 1, 2);
    }
  }

  lemma {:induction false} LoadsFit(c: Context, tail: seq<Byte>, p: nat)
    requires IsCostly(c, tail) && 2 <= p <= LOADED
    ensures RestCost(ISTANBUL, c.code, p) >= 800 * (LOADED - p)
    ensures StackFits(ISTANBUL, c.code, p, 1)
    decreases LOADED - p
  {
    hide IsCostly, EndsBlock;
    if p < LOADED {
      CostlyShape(c, tail, p);
      LoadsFit(c, tail, p + 1);
    } else {
      TailFits(c, tail);
    }
  }

  lemma CostlyBlock(c: Context, tail: seq<Byte>)
    requires IsCostly(c, tail)
    ensures RestCost(ISTANBUL, c.code, 0) >= 3 + 800 * LOADS && StackFits(ISTANBUL, c.code, 0, 0)
  {
    hide CostlyCode, EndsBlock;
    CostlyShape(c, tail, 0);
    LoadsFit(c, tail, 2);
  }

  /** Advanced executes the loads with no gas left: their cost is charged already, as far as it is at all. */
  lemma {:induction false} LoadsRun(c: Context, tail: seq<Byte>, ip: nat, p: nat, prefix: int, k: nat, st: State,
                                    blockCost: int) returns (ip': nat, st': State)
    requires IsCostly(c, tail) && HonestHost(c.host) && A.Sound(An(c))
    requires 2 <= p <= LOADED && AtInstr(c.rev, c.code, An(c), ip, p, prefix, k)
    requires st.gas == 0 && |st.stack| == 1
    ensures AtInstr(c.rev, c.code, An(c), ip', LOADED, prefix + 800 * (LOADED - p), k)
    ensures st'.gas == 0 && |st'.stack| == 1 && st'.mem == st.mem
    ensures c.host == SILENT_HOST && st.stack == [0] ==> st'.stack == [0]
    ensures AdvancedResult(c, ip, st, blockCost) == AdvancedResult(c, ip', st', blockCost)
    decreases LOADED - p
  {
    hide IsCostly, EndsBlock, HonestHost, A.Sound, AnalysisOf, AtInstr, AdvancedResult, A.AdvancedStep;
    if p == LOADED {
      ip', st' := ip, st;
    } else {
      CostlyShape(c, tail, p);
      IstanbulLoads(c, tail);
      AtInstrStep(c.rev, c.code, An(c), ip, p, prefix, k);
      AdvancedUnfold(c, ip, st, blockCost);
      LoadEntry(c, p, prefix, k);
      LoadStep(c, An(c), ip, st, blockCost);
      var next := A.AdvancedStep(c, An(c), ip, st, blockCost).st;
      ip', st' := LoadsRun(c, tail, ip + 1, p + 1, prefix + 800, k, next, blockCost);
    }
  }

  lemma IstanbulLoads(c: Context, tail: seq<Byte>)
    requires IsCostly(c, tail)
    ensures c.rev == ISTANBUL && TableCost(ISTANBUL, OP_SLOAD) == 800 && TableCost(ISTANBUL, OP_PUSH1) == 3
  {
  }

  lemma LoadEntry(c: Context, p: nat, prefix: int, k: nat)
    requires c.rev == ISTANBUL && p < |c.code| && c.code[p] == OP_SLOAD
    ensures OwnEntry(c.rev, c.code, p, prefix, k) == [Instr(Op(OP_SLOAD), NO_ARG)]
    ensures LargeCount(c.code[p]) == 0
  {
  }

  /** Before Berlin an SLOAD charges nothing but its base cost. */
  lemma LoadStep(c: Context, an: CodeAnalysis, ip: nat, st: State, blockCost: int)
    requires c.rev == ISTANBUL && ip < |an.instrs| && an.instrs[ip] == Instr(Op(OP_SLOAD), NO_ARG)
    requires |st.stack| == 1
    ensures var next := A.AdvancedStep(c, an, ip, st, blockCost);
            && next.Go? && next.ip == ip + 1 && next.st.gas == st.gas && |next.st.stack| == 1
            && next.st.mem == st.mem && next.blockCost == blockCost
            && (c.host == SILENT_HOST ==> next.st.stack == [0])
  {
  }

  /** BEGINBLOCK takes all the gas, and lets the message in. */
  lemma CostlyEntry(c: Context, tail: seq<Byte>)
    requires IsCostly(c, tail) && AtBlock(c.rev, c.code, An(c), 0, 0, 0)
    ensures A.AdvancedStep(c, An(c), 0, InitialState(c), 0) == A.Go(1, Less(InitialState(c), UINT32_MAX), UINT32_MAX)
    ensures A.Running(An(c), 0, InitialState(c)) && AtInstr(c.rev, c.code, An(c), 1, 0, 0, 0)
  {
    hide CostlyCode, AnalysisOf, AtInstr, RestCost, StackFits, InfoAt, A.AdvancedStep;
    CostlyBlock(c, tail);
    StartBoundary(c.code);
    BlockEntry(c, 0, 0, 0, InitialState(c), 0);
  }

  lemma FirstPush(c: Context, tail: seq<Byte>, an: CodeAnalysis, st: State)
    requires IsCostly(c, tail) && |st.stack| == 0 && 1 < |an.instrs| && |c.code| > 1 && c.code[0] == OP_PUSH1
    requires OwnEntry(c.rev, c.code, 0, 0, 0) != [] ==> an.instrs[1] == OwnEntry(c.rev, c.code, 0, 0, 0)[0]
    ensures |OwnEntry(c.rev, c.code, 0, 0, 0)| == 1 && LargeCount(c.code[0]) == 0
    ensures A.AdvancedStep(c, an, 1, st, UINT32_MAX) == A.Go(2, Push(st, PushValue(c.code, 0)), UINT32_MAX)
  {
    hide CostlyCode, PushValue;
  }

  lemma FirstValue(c: Context, tail: seq<Byte>)
    requires IsCostly(c, tail) && |c.code| > 1
    ensures c.code[0] == OP_PUSH1 && PushValue(c.code, 0) == 0
  {
    assert PushData(c.code, 0) == [0];
    assert [0] + Zeros(0) == [0];
    assert BeLoad([0][..0]) == 0;
  }

  /** The message arrives behind the loads with no gas left. */
  lemma CostlyArrives(c: Context, tail: seq<Byte>) returns (ip: nat, st: State)
    requires IsCostly(c, tail) && HonestHost(c.host) && Addressable(c.code)
    ensures A.Sound(An(c)) && AtInstr(c.rev, c.code, An(c), ip, LOADED, 3 + 800 * LOADS, 0)
    ensures st.gas == 0 && |st.stack| == 1 && st.mem == []
    ensures c.host == SILENT_HOST ==> st.stack == [0]
    ensures A.Execute(c) == AdvancedResult(c, ip, st, UINT32_MAX)
  {
    hide IsCostly, HonestHost, A.Sound, AnalysisOf, AtInstr, AdvancedResult, A.AdvancedStep, Addressable, EndsBlock,
         AtBlock, PushValue, OwnEntry;
    A.AnalysisSound(c.rev, c.code);
    StartsAtBlock(c.rev, c.code);
    CostlyEntry(c, tail);
    CostlyShape(c, tail, 0);
    IstanbulLoads(c, tail);
    AdvancedUnfold(c, 0, InitialState(c), 0);
    CostlyGas(c, tail);
    var st1 := Less(InitialState(c), UINT32_MAX);
    AtInstrStep(c.rev, c.code, An(c), 1, 0, 0, 0);
    AdvancedUnfold(c, 1, st1, UINT32_MAX);
    FirstPush(c, tail, An(c), st1);
    FirstValue(c, tail);
    ip, st := LoadsRun(c, tail, 2, 2, 3, 0, Push(st1, 0), UINT32_MAX);
    ExecuteIsRun(c);
  }

  lemma CostlyGas(c: Context, tail: seq<Byte>)
    requires IsCostly(c, tail)
    ensures c.msg.gas == UINT32_MAX
  {
  }

  lemma CostlySize(c: Context, tail: seq<Byte>)
    requires IsCostly(c, tail)
    ensures Indexable(c.code) && Addressable(c.code)
  {
    hide Indexable, Addressable;
    CostlyShape(c, tail, 0);
    SmallCodeIndexable(c.code);
    IndexableAddressable(c.code);
  }

  /** The condition on the cost of blocks cannot be dropped from the refinement: Advanced completes every
      costly message, and Baseline runs out of gas. */
  lemma CostLimitIsReal(c: Context, jumpMap: seq<bool>, padded: seq<Byte>)
    requires IsCostly(c, []) && HonestHost(c.host)
    requires B.IsJumpMap(c.code, jumpMap) && B.IsPadded(c.code, padded)
    ensures Indexable(c.code) && Addressable(c.code) && !CostsFit(c.rev, c.code, c.msg.gas)
    ensures Observe(A.Execute(c)).Completed?
    ensures Observe(B.Execute(c, jumpMap, padded)) == Failed
  {
    hide CostlyCode, HonestHost, B.IsJumpMap, B.IsPadded, Indexable, Addressable, RestCost, StackFits, A.Execute,
         B.BaselineRun, IsBoundary, AtInstr, A.Sound, AnalysisOf, AdvancedResult;
    CostlySize(c, []);
    CostlyShape(c, [], 0);
    CostlyBlock(c, []);
    StartBoundary(c.code);
    var ip, st := CostlyArrives(c, []);
    AdvancedAtEnd(c, ip, LOADED, 3 + 800 * LOADS, 0, st, UINT32_MAX);
    BaselineFailsInBlock(c, jumpMap, padded, 0, InitialState(c));
  }

  // ---------- a creation without gas ----------

  lemma TailEntries(c: Context, prefix: int)
    requires IsCostly(c, CREATE_TAIL) && |c.code| == LOADED + 3 && c.code[LOADED..] == CREATE_TAIL
    ensures c.code[LOADED] == OP_DUP1 && c.code[LOADED + 1] == OP_DUP1 && c.code[LOADED + 2] == OP_CREATE
    ensures !EndsBlock(c.code, LOADED) && !EndsBlock(c.code, LOADED + 1)
    ensures NextPos(c.code, LOADED) == LOADED + 1 && NextPos(c.code, LOADED + 1) == LOADED + 2
    ensures OwnEntry(c.rev, c.code, LOADED, prefix, 0) == [Instr(Op(OP_DUP1), NO_ARG)]
    ensures OwnEntry(c.rev, c.code, LOADED + 1, prefix, 0) == [Instr(Op(OP_DUP1), NO_ARG)]
    ensures OwnEntry(c.rev, c.code, LOADED + 2, prefix, 0) == [Instr(Op(OP_CREATE), Number(prefix + 32000))]
    ensures TableCost(c.rev, OP_DUP1) == 3 && LargeCount(OP_DUP1) == 0
  {
    hide CostlyCode;
    assert forall i :: 0 <= i < 3 ==> c.code[LOADED + i] == c.code[LOADED..][i];
  }

  lemma DupStep(c: Context, an: CodeAnalysis, ip: nat, st: State, blockCost: int)
    requires ip < |an.instrs| && an.instrs[ip] == Instr(Op(OP_DUP1), NO_ARG) && 1 <= |st.stack| < STACK_LIMIT
    ensures A.AdvancedStep(c, an, ip, st, blockCost) == A.Go(ip + 1, Push(st, Peek(st, 0)), blockCost)
  {
  }

  /** CREATE hands the negative rest of the gas to the host. */
  lemma UnfundedStep(c: Context, an: CodeAnalysis, ip: nat, st: State, number: int)
    requires ip < |an.instrs| && an.instrs[ip] == Instr(Op(OP_CREATE), Number(number))
    requires st.gas == 0 && st.stack == [0, 0, 0] && number > UINT32_MAX
    requires !IsStatic(c.msg) && c.msg.depth == 0
    ensures var step := A.AdvancedStep(c, an, ip, st, UINT32_MAX);
            step.Done? && step.halt.status == UndefinedBehaviour
  {
    hide GasAware, MemoryCost;
    UnfundedOffer(c, More(st, UINT32_MAX - number));
  }

  lemma UnfundedOffer(c: Context, st: State)
    requires st.gas < 0 && st.stack == [0, 0, 0] && !IsStatic(c.msg) && c.msg.depth == 0
    ensures var r := GasAware(c, OP_CREATE, st);
            r.Ok? && OffersNegativeGas(st, r.st)
  {
    hide MemoryCost, CreateSplit;
    var s1 := CreateCharges(OP_CREATE, st).st;
    UnfundedHost(c, s1);
  }

  lemma UnfundedHost(c: Context, st: State)
    requires st.gas < 0 && |st.stack| >= 1 && c.msg.depth == 0
    ensures forall salt: Word, initCode: seq<Byte> ::
              var r := CreateSplit(c, OP_CREATE, 0, salt, initCode, st);
              r.Ok? && OffersNegativeGas(st, r.st)
  {
    hide SixtyFourth;
    NegativeShare(st.gas);
  }

  lemma NegativeShare(gas: int)
    requires gas < 0
    ensures gas - SixtyFourth(gas) < 0
  {
  }

  /** A host that knows nothing and returns no gas. */
  const SILENT_HOST := Host(
    (_, _) => 0, (_, _) => false, (_, _) => false, (_, _) => Unchanged, (_, _) => [],
    (_, _) => CallResult(false, 0, [], 0))

  /** A message to that host that carries nothing but gas. */
  function QuietMessage(rev: Revision, code: seq<Byte>, gas: int): (c: Context)
    ensures HonestHost(c.host)
  {
    Context(rev, Message(KindCall, 0, 0, gas, 0, 0, 0, 0, 0, []), code, SILENT_HOST,
            TxContext(0, 0, 0, 0, 0, 0, 0, 0, 0), _ => 0)
  }

  /** There are costly messages. */
  lemma CostlyMessages(tail: seq<Byte>)
    requires tail == [] || tail == CREATE_TAIL
    ensures IsCostly(QuietMessage(ISTANBUL, CostlyCode(tail), UINT32_MAX), tail)
  {
    hide CostlyCode;
  }

  /** The undefined behaviour that is left without the condition on the cost of blocks does occur: with a
      CREATE behind the loads Advanced offers negative gas to the host. */
  lemma UnfundedCreateIsReal()
    ensures var c := QuietMessage(ISTANBUL, CostlyCode(CREATE_TAIL), UINT32_MAX);
            Addressable(c.code) && A.Execute(c).status == UndefinedBehaviour
  {
    hide CostlyCode, Addressable, AtInstr, A.Sound, AnalysisOf, AdvancedResult, HonestHost, OwnEntry, A.AdvancedStep,
         EndsBlock, NextPos;
    var c := QuietMessage(ISTANBUL, CostlyCode(CREATE_TAIL), UINT32_MAX);
    CostlyMessages(CREATE_TAIL);
    CostlySize(c, CREATE_TAIL);
    CostlyShape(c, CREATE_TAIL, 0);
    var prefix := 3 + 800 * LOADS;
    var ip, st := CostlyArrives(c, CREATE_TAIL);
    TailEntries(c, prefix);
    AtInstrStep(c.rev, c.code, An(c), ip, LOADED, prefix, 0);
    AdvancedUnfold(c, ip, st, UINT32_MAX);
    DupStep(c, An(c), ip, st, UINT32_MAX);
    var st1 := Push(st, 0);
    TailEntries(c, prefix + 3);
    AtInstrStep(c.rev, c.code, An(c), ip + 1, LOADED + 1, prefix + 3, 0);
    AdvancedUnfold(c, ip + 1, st1, UINT32_MAX);
    DupStep(c, An(c), ip + 1, st1, UINT32_MAX);
    var st2 := Push(st1, 0);
    TailEntries(c, prefix + 6);
    AtInstrStep(c.rev, c.code, An(c), ip + 2, LOADED + 2, prefix + 6, 0);
    AdvancedUnfold(c, ip + 2, st2, UINT32_MAX);
    UnfundedStep(c, An(c), ip + 2, st2, prefix + 32006);
  }

  // ---------- 32-bit block summaries ----------

  /** The largest code for which no block summary can leave its 32-bit fields. */
  const MAX_SUMMARY_CODE := 357_913_939

  predicate IsInt32(x: int) {
    -0x8000_0000 <= x <= INT32_MAX
  }

  /** The summary fits into the three int fields and the 64-bit cost. */
  predicate FieldsFit(b: BlockAnalysis) {
    && IsInt32(b.stackReq) && IsInt32(b.stackMaxGrowth) && IsInt32(b.stackChange)
    && 0 <= b.gasCost < 0x8000_0000_0000_0000
  }

  /** Every summary that the pass goes through from p to the end of the block fits, and so does the
      difference that it computes on the way. */
  predicate SummariesFit(rev: Revision, code: seq<Byte>, b: BlockAnalysis, p: nat)
    decreases |code| - p
  {
    && FieldsFit(b)
    && (p < |code| ==>
          && IsInt32(TableRequired(rev, code[p]) - b.stackChange)
          && FieldsFit(AddInstruction(rev, b, code[p]))
          && (!EndsBlock(code, p) ==> SummariesFit(rev, code, AddInstruction(rev, b, code[p]), NextPos(code, p))))
  }

  lemma {:induction false} SummariesFitFrom(rev: Revision, code: seq<Byte>, b: BlockAnalysis, p: nat)
    requires |code| <= MAX_SUMMARY_CODE && FieldsFit(b)
    requires -6 * p <= b.stackChange <= p && 0 <= b.stackMaxGrowth <= p
    requires 0 <= b.stackReq <= 6 * p + 11 && b.gasCost <= 32000 * p
    ensures SummariesFit(rev, code, b, p)
    decreases |code| - p
  {
    hide TableCost, TableRequired, TableChange, EndsBlock;
    if p < |code| {
      TableBounds(rev, code[p]);
      var next := AddInstruction(rev, b, code[p]);
      if !EndsBlock(code, p) {
        SummariesFitFrom(rev, code, next, NextPos(code, p));
      }
    }
  }

  /** In code of up to that size every block summary fits, at each of its instructions. */
  lemma SummariesInRange(rev: Revision, code: seq<Byte>, p: nat)
    requires |code| <= MAX_SUMMARY_CODE
    ensures SummariesFit(rev, code, EMPTY_BLOCK, p)
  {
    SummariesFitFrom(rev, code, EMPTY_BLOCK, p);
  }

  /** One byte more and a block need not fit: calls without a break lower the stack by six items each. */
  function DrainingCode(): seq<Byte> {
    seq(MAX_SUMMARY_CODE, _ => OP_CALL) + [OP_SWAP16]
  }

  lemma {:induction false} CallsDrain(rev: Revision, code: seq<Byte>, b: BlockAnalysis, p: nat)
    requires |code| == MAX_SUMMARY_CODE + 1 && p <= MAX_SUMMARY_CODE
    requires forall i :: 0 <= i < MAX_SUMMARY_CODE ==> code[i] == OP_CALL
    requires code[MAX_SUMMARY_CODE] == OP_SWAP16 && b.stackChange == -6 * p
    ensures !SummariesFit(rev, code, b, p)
    decreases MAX_SUMMARY_CODE - p
  {
    if p < MAX_SUMMARY_CODE {
      CallsDrain(rev, code, AddInstruction(rev, b, OP_CALL), p + 1);
    }
  }

  /** The bound on the size is exact. */
  lemma SummaryLimitIsReal(rev: Revision)
    ensures |DrainingCode()| == MAX_SUMMARY_CODE + 1
    ensures !SummariesFit(rev, DrainingCode(), EMPTY_BLOCK, 0)
  {
    var code := DrainingCode();
    hide DrainingCode, SummariesFit;
    DrainingShape(code);
    CallsDrain(rev, code, EMPTY_BLOCK, 0);
  }

  lemma DrainingShape(code: seq<Byte>)
    requires code == DrainingCode()
    ensures |code| == MAX_SUMMARY_CODE + 1 && code[MAX_SUMMARY_CODE] == OP_SWAP16
    ensures forall i :: 0 <= i < MAX_SUMMARY_CODE ==> code[i] == OP_CALL
  {
  }
}
