/** The limits on jump positions: whole messages that cross them. */
module JumpLimits {
  import opened Words
  import opened InstructionTraits
  import opened Machine
  import opened MemoryExpansion
  import opened InstructionLaws
  import opened CodeStructure
  import opened Analysis
  import opened TableStructure
  import opened RunLaws
  import opened Simulation
  import opened Refinement
  import opened Limits
  import B = Baseline
  import A = Advanced

  // ---------- 32-bit jump positions ----------

  const FAR: int := 0x8000_0000

  /** A jump to the JUMPDEST at position 2^31. */
  function FarCode(): seq<Byte> {
    [OP_PUSH1 + 3, 0x80, 0, 0, 0, OP_JUMP] + Zeros(FAR - 6) + [OP_JUMPDEST]
  }

  predicate IsFar(c: Context) {
    c.code == FarCode() && c.msg.gas >= 12
  }

  lemma FarShape(code: seq<Byte>)
    requires code == FarCode()
    ensures |code| == FAR + 1 && code[0] == OP_PUSH1 + 3 && code[5] == OP_JUMP && code[FAR] == OP_JUMPDEST
    ensures code[1..5] == [0x80, 0, 0, 0]
    ensures forall i :: 6 <= i < FAR ==> code[i] == OP_STOP
    ensures NextPos(code, 0) == 5 && NextPos(code, 5) == 6 && NextPos(code, FAR) == FAR + 1
    ensures !EndsBlock(code, 0) && EndsBlock(code, 5)
  {
  }

  lemma {:induction false} ReachesOverStops(code: seq<Byte>, q: nat, p: nat)
    requires q <= p <= |code| && forall i :: q <= i < p ==> code[i] == OP_STOP
    ensures Reaches(code, q, p)
    decreases p - q
  {
    if q < p {
      ReachesOverStops(code, q + 1, p);
    }
  }

  lemma FarValue()
    ensures LoadWord([0x80, 0, 0, 0]) == FAR
  {
    var b: seq<Byte> := [0x80, 0, 0, 0];
    assert b[..3] == [0x80, 0, 0] && b[..3][..2] == [0x80, 0] && b[..3][..2][..1] == [0x80];
    assert BeLoad(b[..3][..2][..1][..0]) == 0;
    assert BeLoad(b[..3][..2][..1]) == 0x80;
    assert BeLoad(b[..3][..2]) == 0x80 * 256;
    assert BeLoad(b[..3]) == 0x80 * 65536;
  }

  /** The destination is valid. */
  lemma FarIsValid(code: seq<Byte>)
    requires code == FarCode()
    ensures IsJumpDest(code, FAR) && IsBoundary(code, 5)
  {
    hide FarCode;
    FarShape(code);
    ReachesOverStops(code, 6, FAR);
    ReachesFar(code, 5);
    ReachesFar(code, FAR);
  }

  lemma ReachesFar(code: seq<Byte>, p: nat)
    requires |code| > 5 && NextPos(code, 0) == 5 && NextPos(code, 5) == 6
    requires p == 5 || Reaches(code, 6, p)
    ensures IsBoundary(code, p)
  {
    assert Reaches(code, 5, p);
  }

  /** Baseline takes the jump and completes. */
  lemma FarCompletes(c: Context, jumpMap: seq<bool>, padded: seq<Byte>)
    requires IsFar(c) && BaselineSetting(c, jumpMap, padded)
    ensures Observe(B.Execute(c, jumpMap, padded)) == Completed(false, c.msg.gas - 12, [], [])
  {
    hide FarCode, BaselineSetting, B.BaselineStep, IsBoundary, BaselineResult;
    FarShape(c.code);
    FarIsValid(c.code);
    StartBoundary(c.code);
    var st := InitialState(c);
    FarPush(c, jumpMap, padded, st);
    BaselineUnfold(c, jumpMap, padded, 0, st);
    var st1 := Push(Less(st, 3), FAR);
    FarJump(c, jumpMap, padded, st1);
    BaselineUnfold(c, jumpMap, padded, 5, st1);
    var st2 := Less(st, 11);
    FarLanding(c, jumpMap, padded, st2);
    BaselineUnfold(c, jumpMap, padded, FAR, st2);
    EndedCode(c, jumpMap, padded, FAR + 1, Less(st, 12));
    FarResult(c, jumpMap, padded);
  }

  lemma FarResult(c: Context, jumpMap: seq<bool>, padded: seq<Byte>)
    requires BaselineSetting(c, jumpMap, padded) && IsBoundary(c.code, 0)
    ensures HonestHost(c.host) && B.IsJumpMap(c.code, jumpMap) && B.IsPadded(c.code, padded)
    ensures BaselineResult(c, jumpMap, padded, 0, InitialState(c)) == Observe(B.Execute(c, jumpMap, padded))
  {
    hide B.BaselineRun, Observe;
  }

  lemma FarPush(c: Context, jumpMap: seq<bool>, padded: seq<Byte>, st: State)
    requires IsFar(c) && BaselineSetting(c, jumpMap, padded) && st.gas >= 3 && st.stack == []
    ensures 0 + PushSize(padded[0]) < |padded|
    ensures B.BaselineStep(c, jumpMap, padded, 0, st) == B.Go(5, Push(Less(st, 3), FAR))
  {
    hide FarCode, HonestHost, B.IsJumpMap, LoadWord;
    FarShape(c.code);
    StartBoundary(c.code);
    B.FetchSafe(c, padded, 0, st);
    FarValue();
    assert padded[1..5] == padded[..|c.code|][1..5];
  }

  lemma FarJump(c: Context, jumpMap: seq<bool>, padded: seq<Byte>, st: State)
    requires IsFar(c) && BaselineSetting(c, jumpMap, padded) && st.gas >= 8 && st.stack == [FAR]
    ensures 5 < |padded| && 5 + PushSize(padded[5]) < |padded|
    ensures B.BaselineStep(c, jumpMap, padded, 5, st) == B.Go(FAR, Less(st, 8).(stack := []))
  {
    hide FarCode, HonestHost, IsBoundary;
    FarShape(c.code);
    FarIsValid(c.code);
    B.FetchSafe(c, padded, 5, st);
    FlowCosts(c.rev);
  }

  lemma FarLanding(c: Context, jumpMap: seq<bool>, padded: seq<Byte>, st: State)
    requires IsFar(c) && BaselineSetting(c, jumpMap, padded) && st.gas >= 1 && st.stack == []
    ensures FAR < |padded| && FAR + PushSize(padded[FAR]) < |padded|
    ensures B.BaselineStep(c, jumpMap, padded, FAR, st) == B.Go(FAR + 1, Less(st, 1))
  {
    hide FarCode, HonestHost, IsBoundary;
    FarShape(c.code);
    FarIsValid(c.code);
    B.FetchSafe(c, padded, FAR, st);
    FlowCosts(c.rev);
  }

  /** Advanced refuses the jump. */
  lemma FarFails(c: Context)
    requires IsFar(c) && HonestHost(c.host) && Addressable(c.code)
    ensures A.Execute(c).status == BadJumpDestination
  {
    hide FarCode, HonestHost, AnalysisOf, AtInstr, A.AdvancedStep, EndsBlock, InfoAt, IsBoundary, JumpTarget, OwnEntry,
         TableCost, AdvancedResult, A.Sound, Addressable;
    A.AnalysisSound(c.rev, c.code);
    FarShape(c.code);
    StartsAtBlock(c.rev, c.code);
    var st := InitialState(c);
    FarEntry(c);
    AdvancedUnfold(c, 0, st, 0);
    AtInstrStep(c.rev, c.code, An(c), 1, 0, 0, 0);
    FarOwnEntries(c, TableCost(c.rev, c.code[0]));
    FarPushStep(c, An(c), Less(st, 11));
    AdvancedUnfold(c, 1, Less(st, 11), 11);
    AtInstrStep(c.rev, c.code, An(c), 2, 5, TableCost(c.rev, c.code[0]), 0);
    TablesOfSameLength(c);
    FarRefused(c, An(c), Push(Less(st, 11), FAR));
    AdvancedUnfold(c, 2, Push(Less(st, 11), FAR), 11);
    ExecuteIsRun(c);
  }

  lemma TablesOfSameLength(c: Context)
    ensures |An(c).jumpdestTargets| == |An(c).jumpdestOffsets|
  {
    TablesPaired(c.code, 0, 1);
  }

  lemma FarEntry(c: Context)
    requires IsFar(c) && AtBlock(c.rev, c.code, An(c), 0, 0, 0)
    ensures A.AdvancedStep(c, An(c), 0, InitialState(c), 0) == A.Go(1, Less(InitialState(c), 11), 11)
  {
    hide FarCode, AnalysisOf, AtInstr, InfoAt, EndsBlock, A.AdvancedStep, IsBoundary;
    FarShape(c.code);
    FlowCosts(c.rev);
    RestUnfold(c.rev, c.code, 0, 0);
    RestUnfold(c.rev, c.code, 5, 1);
    StartBoundary(c.code);
    BlockEntry(c, 0, 0, 0, InitialState(c), 0);
  }

  lemma FarOwnEntries(c: Context, prefix: int)
    requires IsFar(c) && |c.code| > 5 && c.code[0] == OP_PUSH1 + 3 && c.code[5] == OP_JUMP
    ensures OwnEntry(c.rev, c.code, 0, 0, 0) == [Instr(Op(OP_PUSH1 + 3), SmallPush(FAR))]
    ensures OwnEntry(c.rev, c.code, 5, prefix, 0) == [Instr(Op(OP_JUMP), NO_ARG)]
    ensures LargeCount(c.code[0]) == 0
  {
    hide FarCode, LoadWord;
    FarShape(c.code);
    FarValue();
    assert PushData(c.code, 0) == [0x80, 0, 0, 0];
    assert PushData(c.code, 0) + Zeros(0) == [0x80, 0, 0, 0];
    FlowCosts(c.rev);
  }

  lemma FarPushStep(c: Context, an: CodeAnalysis, st: State)
    requires 1 < |an.instrs| && an.instrs[1] == Instr(Op(OP_PUSH1 + 3), SmallPush(FAR)) && st.stack == []
    ensures A.AdvancedStep(c, an, 1, st, 11) == A.Go(2, Push(st, FAR), 11)
  {
  }

  lemma FarRefused(c: Context, an: CodeAnalysis, st: State)
    requires 2 < |an.instrs| && an.instrs[2] == Instr(Op(OP_JUMP), NO_ARG) && st.stack == [FAR]
    requires |an.jumpdestTargets| == |an.jumpdestOffsets|
    ensures var next := A.AdvancedStep(c, an, 2, st, 11);
            next.Done? && next.halt.status == BadJumpDestination
  {
  }

  /** The condition on jump positions cannot be dropped either: Baseline completes a message with a jump to
      2^31, and Advanced ends it with a bad jump destination. */
  lemma IndexLimitIsReal(c: Context, jumpMap: seq<bool>, padded: seq<Byte>)
    requires IsFar(c) && HonestHost(c.host)
    requires B.IsJumpMap(c.code, jumpMap) && B.IsPadded(c.code, padded)
    ensures Addressable(c.code) && !Indexable(c.code)
    ensures A.Execute(c).status == BadJumpDestination
    ensures Observe(B.Execute(c, jumpMap, padded)) == Completed(false, c.msg.gas - 12, [], [])
  {
    hide FarCode, HonestHost, B.IsJumpMap, B.IsPadded, A.Execute, B.Execute, IsBoundary, Indexable, Addressable,
         JumpTarget;
    FarShape(c.code);
    ShortCodeAddressable(c.code);
    FarIsValid(c.code);
    FarFails(c);
    FarCompletes(c, jumpMap, padded);
    if Indexable(c.code) {
      JumpAgreement(c.rev, c.code, jumpMap, FAR);
      FarHasNoTarget(An(c));
    }
  }

  /** There are such messages. */
  lemma FarMessages(rev: Revision, gas: int)
    requires gas >= 12
    ensures IsFar(QuietMessage(rev, FarCode(), gas))
  {
    hide FarCode;
  }

  lemma FarHasNoTarget(an: CodeAnalysis)
    requires |an.jumpdestTargets| == |an.jumpdestOffsets|
    ensures JumpTarget(an, FAR) < 0
  {
  }

  // ---------- jump tables that wrap around ----------

  const WRAP: int := 0x1_0000_0000

  /** A jump to position 0, and a JUMPDEST at position 2^32, for which the jump tables store position 0 and the
      index of the PUSH1 in front of the jump. */
  function WrapCode(): seq<Byte> {
    [OP_PUSH1, 0, OP_JUMP] + seq(WRAP - 3, _ => OP_POP) + [OP_JUMPDEST]
  }

  lemma WrapShape(code: seq<Byte>)
    requires code == WrapCode()
    ensures |code| == WRAP + 1 && code[0] == OP_PUSH1 && code[1] == 0 && code[2] == OP_JUMP && code[WRAP] == OP_JUMPDEST
    ensures forall i :: 3 <= i < WRAP ==> code[i] == OP_POP
  {
  }

  lemma PopAt(code: seq<Byte>, p: nat)
    requires |code| == WRAP + 1 && code[WRAP] == OP_JUMPDEST && forall i :: 3 <= i < WRAP ==> code[i] == OP_POP
    requires 3 <= p < WRAP
    ensures code[p] == OP_POP && NextPos(code, p) == p + 1
    ensures EntryCount(code, p) == if p + 1 == WRAP then 2 else 1
  {
  }

  /** The POPs add nothing to the jump tables but to the indexes. */
  lemma {:induction false} PopsAddNothing(code: seq<Byte>, p: nat, size: int)
    requires |code| == WRAP + 1 && code[WRAP] == OP_JUMPDEST && forall i :: 3 <= i < WRAP ==> code[i] == OP_POP
    requires 3 <= p < WRAP
    ensures JumpOffsets(code, p) == JumpOffsets(code, WRAP)
    ensures JumpTargets(code, p, size) == JumpTargets(code, WRAP, size + (WRAP - p) + 1)
    decreases WRAP - p
  {
    hide JumpOffsets, JumpTargets, ToInt32, EntryCount, NextPos;
    PopAt(code, p);
    TablesUnfold(code, p, size);
    if p + 1 < WRAP {
      PopsAddNothing(code, p + 1, size + 1);
    }
  }

  lemma WrapStart(code: seq<Byte>)
    requires |code| == WRAP + 1 && code[0] == OP_PUSH1 && code[2] == OP_JUMP && code[3] == OP_POP
    ensures NextPos(code, 0) == 2 && NextPos(code, 2) == 3 && !EndsBlock(code, 0) && EndsBlock(code, 2)
    ensures EntryCount(code, 0) == 1 && EntryCount(code, 2) == 2
  {
  }

  lemma WrapEnd(code: seq<Byte>, size: int)
    requires |code| == WRAP + 1 && code[WRAP] == OP_JUMPDEST
    ensures JumpOffsets(code, WRAP) == [ToInt32(WRAP)] && JumpTargets(code, WRAP, size) == [ToInt32(size - 1)]
  {
  }

  /** The jump tables of the code. */
  lemma WrapTables(code: seq<Byte>)
    requires code == WrapCode()
    ensures JumpOffsets(code, 0) == [0] && JumpTargets(code, 0, 1) == [1]
  {
    hide WrapCode, JumpOffsets, JumpTargets, EntryCount, NextPos, EndsBlock;
    WrapShape(code);
    WrapStart(code);
    TablesUnfold(code, 0, 1);
    TablesUnfold(code, 2, 2);
    PopsAddNothing(code, 3, 4);
    WrapEnd(code, WRAP + 2);
  }

  predicate IsWrapping(c: Context) {
    c.code == WrapCode() && c.msg.gas >= 11
  }

  lemma WrapEntry(c: Context)
    requires IsWrapping(c) && AtBlock(c.rev, c.code, An(c), 0, 0, 0)
    ensures A.AdvancedStep(c, An(c), 0, InitialState(c), 0) == A.Go(1, Less(InitialState(c), 11), 11)
  {
    hide WrapCode, AnalysisOf, AtInstr, InfoAt, EndsBlock, NextPos, A.AdvancedStep, IsBoundary;
    WrapShape(c.code);
    WrapStart(c.code);
    FlowCosts(c.rev);
    RestUnfold(c.rev, c.code, 0, 0);
    RestUnfold(c.rev, c.code, 2, 1);
    StartBoundary(c.code);
    BlockEntry(c, 0, 0, 0, InitialState(c), 0);
  }

  lemma WrapOwnEntries(c: Context, prefix: int)
    requires |c.code| > 2 && c.code[0] == OP_PUSH1 && c.code[1] == 0 && c.code[2] == OP_JUMP
    ensures OwnEntry(c.rev, c.code, 0, 0, 0) == [Instr(Op(OP_PUSH1), SmallPush(0))]
    ensures OwnEntry(c.rev, c.code, 2, prefix, 0) == [Instr(Op(OP_JUMP), NO_ARG)]
    ensures LargeCount(c.code[0]) == 0
  {
    hide LoadWord;
    assert PushData(c.code, 0) == [0];
    assert [0] + Zeros(0) == [0];
    ZeroValue();
    FlowCosts(c.rev);
  }

  lemma ZeroValue()
    ensures LoadWord([0]) == 0
  {
    assert BeLoad([0][..0]) == 0;
  }

  /** The two entries of the table that the loop runs through. */
  lemma WrapRound(c: Context, an: CodeAnalysis, st: State)
    requires 2 < |an.instrs| && an.instrs[1] == Instr(Op(OP_PUSH1), SmallPush(0))
    requires an.instrs[2] == Instr(Op(OP_JUMP), NO_ARG)
    requires an.jumpdestOffsets == [0] && an.jumpdestTargets == [1] && st.stack == []
    ensures A.AdvancedStep(c, an, 1, st, 11) == A.Go(2, Push(st, 0), 11)
    ensures A.AdvancedStep(c, an, 2, Push(st, 0), 11) == A.Go(1, st, 11)
  {
  }

  lemma WrapInstrs(c: Context)
    requires IsWrapping(c)
    ensures var an := An(c);
            && 2 < |an.instrs| && an.instrs[1] == Instr(Op(OP_PUSH1), SmallPush(0))
            && an.instrs[2] == Instr(Op(OP_JUMP), NO_ARG)
            && an.jumpdestOffsets == [0] && an.jumpdestTargets == [1]
  {
    hide WrapCode, AtInstr, EndsBlock, NextPos, InfoAt, OwnEntry, TableCost, JumpOffsets, JumpTargets, Table;
    WrapShape(c.code);
    WrapStart(c.code);
    WrapTables(c.code);
    StartsAtBlock(c.rev, c.code);
    AtInstrStep(c.rev, c.code, An(c), 1, 0, 0, 0);
    WrapOwnEntries(c, TableCost(c.rev, c.code[0]));
    AtInstrStep(c.rev, c.code, An(c), 2, 2, TableCost(c.rev, c.code[0]), 0);
  }

  /** Every two steps Advanced is where it was, with the same state. */
  lemma {:induction false} WrapTurns(c: Context, n: nat)
    requires IsWrapping(c) && HonestHost(c.host)
    ensures AdvancedAfter(c, 2 * n + 1) == A.Go(1, Less(InitialState(c), 11), 11)
  {
    hide IsWrapping, HonestHost, AnalysisOf, AdvancedAfter, A.AdvancedStep, AtBlock;
    if n == 0 {
      StartsAtBlock(c.rev, c.code);
      WrapEntry(c);
      AdvancedAfterUnfold(c, 0);
    } else {
      WrapTurns(c, n - 1);
      WrapInstrs(c);
      WrapRound(c, An(c), Less(InitialState(c), 11));
      AdvancedAfterUnfold(c, 2 * n - 1);
      AdvancedAfterUnfold(c, 2 * n);
    }
  }

  lemma {:induction false} DoneStays(c: Context, n: nat, m: nat)
    requires HonestHost(c.host) && n <= m && AdvancedAfter(c, n).Done?
    ensures AdvancedAfter(c, m).Done?
    decreases m
  {
    hide HonestHost, AdvancedAfter, A.AdvancedStep, AnalysisOf;
    if n < m {
      DoneStays(c, n, m - 1);
      AdvancedAfterUnfold(c, m - 1);
    }
  }

  /** Baseline ends the message with a bad jump destination. */
  lemma WrapFails(c: Context, jumpMap: seq<bool>, padded: seq<Byte>)
    requires IsWrapping(c) && BaselineSetting(c, jumpMap, padded)
    ensures Observe(B.Execute(c, jumpMap, padded)) == Failed
  {
    hide WrapCode, BaselineSetting, B.BaselineStep, IsBoundary, BaselineResult, NextPos;
    WrapShape(c.code);
    WrapStart(c.code);
    StartBoundary(c.code);
    var st := InitialState(c);
    WrapPush(c, jumpMap, padded, st);
    BaselineUnfold(c, jumpMap, padded, 0, st);
    var st1 := Push(Less(st, 3), 0);
    WrapJump(c, jumpMap, padded, st1);
    BaselineUnfold(c, jumpMap, padded, 2, st1);
    FarResult(c, jumpMap, padded);
  }

  lemma WrapPush(c: Context, jumpMap: seq<bool>, padded: seq<Byte>, st: State)
    requires IsWrapping(c) && BaselineSetting(c, jumpMap, padded) && st.gas >= 3 && st.stack == []
    ensures 0 + PushSize(padded[0]) < |padded|
    ensures B.BaselineStep(c, jumpMap, padded, 0, st) == B.Go(2, Push(Less(st, 3), 0))
  {
    hide WrapCode, HonestHost, B.IsJumpMap, LoadWord;
    WrapShape(c.code);
    StartBoundary(c.code);
    B.FetchSafe(c, padded, 0, st);
    ZeroValue();
    assert padded[1..2] == padded[..|c.code|][1..2] == [0];
  }

  lemma WrapJump(c: Context, jumpMap: seq<bool>, padded: seq<Byte>, st: State)
    requires IsWrapping(c) && BaselineSetting(c, jumpMap, padded) && st.stack == [0] && IsBoundary(c.code, 2)
    ensures 2 < |padded| && 2 + PushSize(padded[2]) < |padded|
    ensures B.BaselineStep(c, jumpMap, padded, 2, st).Done?
    ensures Observe(MakeResult(B.BaselineStep(c, jumpMap, padded, 2, st).halt)) == Failed
  {
    hide WrapCode, HonestHost, IsBoundary;
    WrapShape(c.code);
    B.FetchSafe(c, padded, 2, st);
    FlowCosts(c.rev);
  }

  /** One byte more than 2^32 and Advanced need not end: it never leaves the two entries, where Baseline fails
      at the jump. */
  lemma WrapLimitIsReal(c: Context, jumpMap: seq<bool>, padded: seq<Byte>, n: nat)
    requires IsWrapping(c) && HonestHost(c.host)
    requires B.IsJumpMap(c.code, jumpMap) && B.IsPadded(c.code, padded)
    ensures |c.code| == WRAP + 1
    ensures AdvancedAfter(c, n).Go?
    ensures AdvancedAfter(c, 2 * n + 1) == A.Go(1, Less(InitialState(c), 11), 11)
    ensures Observe(B.Execute(c, jumpMap, padded)) == Failed
  {
    hide WrapCode, HonestHost, B.IsJumpMap, B.IsPadded, B.Execute, AdvancedAfter;
    WrapShape(c.code);
    WrapTurns(c, n);
    WrapFails(c, jumpMap, padded);
    if AdvancedAfter(c, n).Done? {
      DoneStays(c, n, 2 * n + 1);
    }
  }

  /** There are such messages. */
  lemma WrappingMessages(rev: Revision, gas: int)
    requires gas >= 11
    ensures IsWrapping(QuietMessage(rev, WrapCode(), gas))
  {
    hide WrapCode;
  }
}
