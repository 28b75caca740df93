/** The Advanced code analysis: one pass that turns bytecode into an instruction table with a
    BEGINBLOCK entry per basic block, jump tables and push constants. */
module Analysis {
  import opened Words
  import opened InstructionTraits
  import opened Instructions
  import opened MemoryExpansion
  import opened CodeStructure

  // ---------- the instruction table ----------

  /** Which function an entry of the table points to. */
  datatype Fn = BeginBlock | Op(opcode: Byte) | UndefinedOp

  /** The argument of an entry; a freshly made entry holds an all-zero block. */
  datatype Arg = Block(info: BlockInfo) | Number(number: int) | SmallPush(value: nat) | PushIndex(index: nat)

  datatype Instr = Instr(fn: Fn, arg: Arg)

  const NO_ARG := Block(BlockInfo(0, 0, 0))

  datatype CodeAnalysis = CodeAnalysis(
    instrs: seq<Instr>, pushValues: seq<Word>, jumpdestOffsets: seq<int>, jumpdestTargets: seq<int>)

  function Begin(info: BlockInfo): Instr {
    Instr(BeginBlock, Block(info))
  }

  const FINAL_STOP := Instr(Op(OP_STOP), NO_ARG)

  function FnFor(rev: Revision, op: Byte): Fn {
    if Defined(rev, op) then Op(op) else UndefinedOp
  }

  predicate IsSmallPush(op: Byte) {
    OP_PUSH1 <= op <= OP_PUSH8
  }

  predicate IsLargePush(op: Byte) {
    OP_PUSH8 < op <= OP_PUSH32
  }

  /** The immediate bytes of the PUSH at p that are present in the code. */
  function PushData(code: seq<Byte>, p: nat): (r: seq<Byte>)
    requires p < |code|
    ensures |r| <= PushSize(code[p])
  {
    code[p + 1..Min(NextPos(code, p), |code|)]
  }

  /** The value pushed by the PUSH at p: its immediate, with missing bytes read as zero. */
  function PushValue(code: seq<Byte>, p: nat): Word
    requires p < |code|
  {
    LoadWord(PushData(code, p) + Zeros(PushSize(code[p]) - |PushData(code, p)|))
  }

  function ArgFor(rev: Revision, code: seq<Byte>, p: nat, prefix: int, k: nat): Arg
    requires p < |code|
  {
    var op := code[p];
    if IsSmallPush(op) then SmallPush(PushValue(code, p))
    else if IsLargePush(op) then PushIndex(k)
    else if ObservesGas(op) then Number(prefix + TableCost(rev, op))
    else if op == OP_PC then Number(p)
    else NO_ARG
  }

  /** The entry made for the instruction itself; a JUMPDEST is covered by its BEGINBLOCK. */
  function OwnEntry(rev: Revision, code: seq<Byte>, p: nat, prefix: int, k: nat): seq<Instr>
    requires p < |code|
  {
    if code[p] == OP_JUMPDEST then []
    else [Instr(FnFor(rev, code[p]), ArgFor(rev, code, p, prefix, k))]
  }

  function LargeCount(op: Byte): nat {
    if IsLargePush(op) then 1 else 0
  }

  /** The entries for the code from p on, given the base cost of the block so far and the number of
      push constants so far. */
  function Emit(rev: Revision, code: seq<Byte>, p: nat, prefix: int, k: nat): seq<Instr>
    decreases |code| - p
  {
    if p >= |code| then []
    else
      var q, k' := NextPos(code, p), k + LargeCount(code[p]);
      OwnEntry(rev, code, p, prefix, k) +
      if EndsBlock(code, p) then [Begin(InfoAt(rev, code, q))] + Emit(rev, code, q, 0, k')
      else Emit(rev, code, q, prefix + TableCost(rev, code[p]), k')
  }

  function Table(rev: Revision, code: seq<Byte>): seq<Instr> {
    [Begin(InfoAt(rev, code, 0))] + Emit(rev, code, 0, 0, 0) + [FINAL_STOP]
  }

  function LargePushes(code: seq<Byte>, p: nat): seq<Word>
    decreases |code| - p
  {
    if p >= |code| then []
    else (if IsLargePush(code[p]) then [PushValue(code, p)] else []) + LargePushes(code, NextPos(code, p))
  }

  /** Conversion to a 32-bit signed integer, with wrap-around. */
  function ToInt32(x: int): int {
    (x + 0x8000_0000) % 0x1_0000_0000 - 0x8000_0000
  }

  function JumpOffsets(code: seq<Byte>, p: nat): seq<int>
    decreases |code| - p
  {
    if p >= |code| then []
    else (if code[p] == OP_JUMPDEST then [ToInt32(p)] else []) + JumpOffsets(code, NextPos(code, p))
  }

  /** The number of table entries that the instruction at p adds. */
  function EntryCount(code: seq<Byte>, p: nat): nat
    requires p < |code|
  {
    (if code[p] == OP_JUMPDEST then 0 else 1) + (if EndsBlock(code, p) then 1 else 0)
  }

  /** The table indexes of the jump destinations from p on, given the size of the table so far. */
  function JumpTargets(code: seq<Byte>, p: nat, size: int): seq<int>
    decreases |code| - p
  {
    if p >= |code| then []
    else
      (if code[p] == OP_JUMPDEST then [ToInt32(size - 1)] else []) +
      JumpTargets(code, NextPos(code, p), size + EntryCount(code, p))
  }

  /** The analysis that the one-pass algorithm computes. */
  function AnalysisOf(rev: Revision, code: seq<Byte>): CodeAnalysis {
    CodeAnalysis(Table(rev, code), LargePushes(code, 0), JumpOffsets(code, 0), JumpTargets(code, 0, 1))
  }

  // ---------- push immediates ----------

  /** Combining a multiple of 2^n with a number below 2^n is an addition. */
  lemma {:induction false} BitOrDisjoint(t: nat, y: nat, n: nat)
    requires y < Pow2(n)
    ensures BitOr(t * Pow2(n), y) == t * Pow2(n) + y
    decreases n
  {
    var x := t * Pow2(n);
    if n > 0 && x != 0 && y != 0 {
      var half := t * Pow2(n - 1);
      assert x == 2 * half;
      BitOrDisjoint(t, y / 2, n - 1);
      assert x % 2 == 0 && x / 2 == half;
    }
  }

  lemma {:induction false} BeLoadAppendZeros(bytes: seq<Byte>, n: nat)
    ensures BeLoad(bytes + Zeros(n)) == BeLoad(bytes) * Power(256, n)
  {
    if n == 0 {
      assert bytes + Zeros(0) == bytes;
    } else {
      BeLoadAppendZeros(bytes, n - 1);
      var whole := bytes + Zeros(n);
      assert whole[..|whole| - 1] == bytes + Zeros(n - 1);
      assert whole[|whole| - 1] == 0;
      assert BeLoad(bytes) * Power(256, n - 1) * 256 == BeLoad(bytes) * Power(256, n);
    }
  }

  lemma {:induction false} Pow2Bytes(n: nat)
    ensures Pow2(8 * n) == Power(256, n)
  {
    if n > 0 {
      Pow2Bytes(n - 1);
      assert Pow2(8 * n) == 2 * Pow2(8 * n - 1);
      assert Pow2(8 * n - 1) == 2 * Pow2(8 * n - 2);
      assert Pow2(8 * n - 2) == 2 * Pow2(8 * n - 3);
      assert Pow2(8 * n - 3) == 2 * Pow2(8 * n - 4);
      assert Pow2(8 * n - 4) == 2 * Pow2(8 * n - 5);
      assert Pow2(8 * n - 5) == 2 * Pow2(8 * n - 6);
      assert Pow2(8 * n - 6) == 2 * Pow2(8 * n - 7);
      assert Pow2(8 * n - 7) == 2 * Pow2(8 * n - 8);
    }
  }

  /** The value of the first bytes of an n-byte immediate, the others being zero. */
  function LoadPrefix(data: seq<Byte>, n: nat): nat
    requires |data| <= n
  {
    BeLoad(data) * Power(256, n - |data|)
  }

  /** Adding one more byte at its bit position. */
  lemma InsertByte(data: seq<Byte>, b: Byte, n: nat)
    requires |data| < n
    ensures BitOr(LoadPrefix(data, n), b * Pow2((n - 1 - |data|) * 8)) == LoadPrefix(data + [b], n)
  {
    hide BitOr, BeLoad, Power, Pow2;
    var rest := n - |data| - 1;
    var unit, t := Power(256, rest), BeLoad(data);
    Pow2Bytes(rest);
    Pow2Bytes(rest + 1);
    PowerStep(rest);
    BeLoadAppend(data, b);
    ScaledByteBound(b, unit);
    BitOrDisjoint(t, b * unit, 8 * (rest + 1));
    Distribute(t, b, unit);
  }

  lemma PowerStep(n: nat)
    ensures Power(256, n + 1) == 256 * Power(256, n)
  {
  }

  lemma BeLoadAppend(data: seq<Byte>, b: Byte)
    ensures BeLoad(data + [b]) == BeLoad(data) * 256 + b
  {
    assert (data + [b])[..|data|] == data;
  }

  lemma EmptyPrefix(n: nat)
    ensures LoadPrefix([], n) == 0
  {
  }

  lemma PrefixIsPadded(data: seq<Byte>, n: nat)
    requires |data| <= n
    ensures LoadPrefix(data, n) == BeLoad(data + Zeros(n - |data|))
  {
    BeLoadAppendZeros(data, n - |data|);
  }

  lemma ScaledByteBound(b: Byte, unit: nat)
    requires unit > 0
    ensures b * unit < 256 * unit
  {
  }

  lemma Distribute(t: nat, b: nat, unit: nat)
    ensures (t * 256 + b) * unit == t * (256 * unit) + b * unit
  {
  }

  /** Reads an immediate of up to eight bytes, or what is left of it at the end of the code, into a
      64-bit integer by shifting each byte into place. */
  method ReadSmallPush(code: seq<Byte>, p: nat) returns (value: nat, end: nat)
    requires p < |code| && IsSmallPush(code[p])
    ensures value == PushValue(code, p)
    ensures end == Min(NextPos(code, p), |code|)
  {
    hide BitOr, BeLoad, LoadPrefix;
    var size := code[p] - OP_PUSH1 + 1;
    var pushEnd := Min(p + 1 + size, |code|);
    end := p + 1;
    value := 0;
    EmptyPrefix(size);
    assert code[p + 1..end] == [];
    var insertBitPos := (size - 1) * 8;
    while end < pushEnd
      invariant p + 1 <= end <= pushEnd
      invariant insertBitPos == (size - 1 - (end - p - 1)) * 8
      invariant value == LoadPrefix(code[p + 1..end], size)
    {
      InsertByte(code[p + 1..end], code[end], size);
      assert code[p + 1..end] + [code[end]] == code[p + 1..end + 1];
      value := BitOr(value, code[end] * Pow2(insertBitPos));
      end := end + 1;
      insertBitPos := insertBitPos - 8;
    }
    assert code[p + 1..end] == PushData(code, p);
    PrefixIsPadded(PushData(code, p), size);
  }

  /** A little-endian load. */
  function LeLoad(bytes: seq<Byte>): nat {
    if |bytes| == 0 then 0 else bytes[0] + 256 * LeLoad(bytes[1..])
  }

  lemma {:induction false} LeLoadReversed(le: seq<Byte>, be: seq<Byte>)
    requires |le| >= |be|
    requires forall i :: 0 <= i < |be| ==> le[i] == be[|be| - 1 - i]
    requires forall i :: |be| <= i < |le| ==> le[i] == 0
    ensures LeLoad(le) == BeLoad(be)
    decreases |le|
  {
    if |le| > 0 {
      if |be| > 0 {
        LeLoadReversed(le[1..], be[..|be| - 1]);
      } else {
        LeLoadReversed(le[1..], be);
      }
    }
  }

  /** Reads a larger immediate into zeroed 256-bit storage by writing its bytes in reverse order. */
  method ReadLargePush(code: seq<Byte>, p: nat) returns (value: Word, end: nat)
    requires p < |code| && IsLargePush(code[p])
    ensures value == PushValue(code, p)
    ensures end == Min(NextPos(code, p), |code|)
  {
    var size := code[p] - OP_PUSH1 + 1;
    var pushEnd := p + 1 + size;
    var bytes := new Byte[32](_ => 0);
    var insertPos := size - 1;
    end := p + 1;
    while end < pushEnd && end < |code|
      invariant p + 1 <= end <= Min(pushEnd, |code|)
      invariant insertPos == size - 1 - (end - p - 1)
      invariant forall i :: 0 <= i < 32 ==>
        bytes[i] == if insertPos < i < size then code[p + 1 + (size - 1 - i)] else 0
    {
      bytes[insertPos] := code[end];
      insertPos := insertPos - 1;
      end := end + 1;
    }
    ghost var be := PushData(code, p) + Zeros(size - |PushData(code, p)|);
    LeLoadReversed(bytes[..], be);
    assert LeLoad(bytes[..]) == PushValue(code, p);
    value := LeLoad(bytes[..]);
  }

  // ---------- the op table ----------

  datatype OpInfo = OpInfo(fn: Fn, gasCost: int, stackReq: int, stackChange: int)

  function InfoFor(rev: Revision, op: Byte): OpInfo {
    OpInfo(FnFor(rev, op), TableCost(rev, op), TableRequired(rev, op), TableChange(rev, op))
  }

  ghost predicate IsOpTable(rev: Revision, table: seq<OpInfo>) {
    |table| == 256 && forall op: Byte :: table[op] == InfoFor(rev, op)
  }

  /** Fills the tables of all revisions. An instruction that a revision does not define costs nothing and
      asks nothing of the stack, so that it cannot make its block fail before it is reached. */
  method OpTables() returns (tables: seq<seq<OpInfo>>)
    ensures |tables| == LATEST_REVISION + 1
    ensures forall rev: Revision :: IsOpTable(rev, tables[rev])
  {
    hide GasCost, StackRequired, StackChange;
    tables := [];
    while |tables| <= LATEST_REVISION
      invariant |tables| <= LATEST_REVISION + 1
      invariant forall rev: Revision :: rev < |tables| ==> IsOpTable(rev, tables[rev])
    {
      var rev: Revision := |tables|;
      var table := new OpInfo[256](_ => OpInfo(UndefinedOp, 0, 0, 0));
      var i := 0;
      while i < 256
        invariant 0 <= i <= 256
        invariant forall op: Byte :: table[op] == if op < i then InfoFor(rev, op) else OpInfo(UndefinedOp, 0, 0, 0)
      {
        var gasCost := GasCost(rev, i);
        if gasCost == UNDEFINED {
          table[i] := table[i].(fn := UndefinedOp, gasCost := 0);
        } else {
          table[i] := OpInfo(Op(i), gasCost, StackRequired(i), StackChange(i));
        }
        i := i + 1;
      }
      tables := tables + [table[..]];
    }
  }

  // ---------- the one-pass algorithm ----------

  /** What the table will be once the open block and the code from p on are processed. */
  ghost function Finished(rev: Revision, code: seq<Byte>, instrs: seq<Instr>, begin: nat,
                          block: BlockAnalysis, p: nat, k: nat): seq<Instr>
    requires begin < |instrs|
  {
    instrs[begin := Begin(Close(Summarize(rev, code, block, p)))]
    + Emit(rev, code, p, block.gasCost, k) + [FINAL_STOP]
  }

  lemma FinishedFromStart(rev: Revision, code: seq<Byte>)
    ensures Finished(rev, code, [Instr(BeginBlock, NO_ARG)], 0, EMPTY_BLOCK, 0, 0) == Table(rev, code)
  {
    hide Summarize, Emit;
  }

  lemma FinishedInside(rev: Revision, code: seq<Byte>, instrs: seq<Instr>, begin: nat,
                       block: BlockAnalysis, p: nat, k: nat)
    requires begin < |instrs| && p < |code| && !EndsBlock(code, p)
    ensures Finished(rev, code, instrs + OwnEntry(rev, code, p, block.gasCost, k), begin,
                     AddInstruction(rev, block, code[p]), NextPos(code, p), k + LargeCount(code[p]))
         == Finished(rev, code, instrs, begin, block, p, k)
  {
    hide TableCost, TableRequired, TableChange, OwnEntry, EndsBlock;
    var own := OwnEntry(rev, code, p, block.gasCost, k);
    var entry := Begin(Close(Summarize(rev, code, block, p)));
    var rest := Emit(rev, code, NextPos(code, p), block.gasCost + TableCost(rev, code[p]), k + LargeCount(code[p]));
    assert Emit(rev, code, p, block.gasCost, k) == own + rest;
    assert Summarize(rev, code, AddInstruction(rev, block, code[p]), NextPos(code, p))
             == Summarize(rev, code, block, p);
    hide Emit, Summarize, Close;
    assert (instrs + own)[begin := entry] == instrs[begin := entry] + own;
    Regroup(instrs[begin := entry], own, rest);
  }

  /** The table after the instruction at p has ended its block and a new one has been opened. */
  ghost function ClosedBlock(rev: Revision, code: seq<Byte>, instrs: seq<Instr>, begin: nat,
                             block: BlockAnalysis, p: nat, k: nat): (r: seq<Instr>)
    requires begin < |instrs| && p < |code|
    ensures |r| > |instrs|
  {
    (instrs + OwnEntry(rev, code, p, block.gasCost, k))
      [begin := Begin(Close(AddInstruction(rev, block, code[p])))]
    + [Instr(BeginBlock, NO_ARG)]
  }

  lemma FinishedAtEnd(rev: Revision, code: seq<Byte>, instrs: seq<Instr>, begin: nat,
                      block: BlockAnalysis, p: nat, k: nat)
    requires begin < |instrs| && p < |code| && EndsBlock(code, p)
    ensures var closed := ClosedBlock(rev, code, instrs, begin, block, p, k);
            Finished(rev, code, closed, |closed| - 1, EMPTY_BLOCK, NextPos(code, p), k + LargeCount(code[p]))
              == Finished(rev, code, instrs, begin, block, p, k)
  {
    hide TableCost, TableRequired, TableChange, ArgFor, FnFor;
    var own := OwnEntry(rev, code, p, block.gasCost, k);
    var entry := Begin(Close(Summarize(rev, code, block, p)));
    var closed := (instrs + own)[begin := entry];
    assert closed == instrs[begin := entry] + own;
    var q, k' := NextPos(code, p), k + LargeCount(code[p]);
    var next := Begin(InfoAt(rev, code, q));
    assert (closed + [Instr(BeginBlock, NO_ARG)])[|closed| := next] == closed + [next];
    var rest := Emit(rev, code, q, 0, k') + [FINAL_STOP];
    assert Emit(rev, code, p, block.gasCost, k) + [FINAL_STOP] == own + [next] + rest;
    assert closed + [next] + rest == instrs[begin := entry] + (own + [next] + rest);
  }

  /** Past the end of the code there is nothing left to emit. */
  lemma NothingLeft(rev: Revision, code: seq<Byte>, instrs: seq<Instr>, begin: nat,
                    block: BlockAnalysis, p: nat, k: nat)
    requires begin < |instrs| && p >= |code|
    ensures Finished(rev, code, instrs, begin, block, p, k)
         == instrs[begin := Begin(Close(block))] + [FINAL_STOP]
    ensures LargePushes(code, p) == [] && JumpOffsets(code, p) == []
    ensures forall size: int :: JumpTargets(code, p, size) == []
  {
  }

  lemma {:induction false} LargePushesBound(code: seq<Byte>, p: nat)
    requires p <= |code|
    ensures |LargePushes(code, p)| <= |code| - p
    decreases |code| - p
  {
    if p < |code| {
      if NextPos(code, p) <= |code| {
        LargePushesBound(code, NextPos(code, p));
      }
    }
  }

  /** The argument of the entry for the instruction at p, the constant it adds and where it ends. */
  method DecodeArgument(code: seq<Byte>, p: nat, gasCost: int, count: nat)
    returns (arg: Arg, pushed: seq<Word>, end: nat)
    requires p < |code|
    ensures forall rev: Revision :: arg == ArgFor(rev, code, p, gasCost - TableCost(rev, code[p]), count)
    ensures pushed == if IsLargePush(code[p]) then [PushValue(code, p)] else []
    ensures end == Min(NextPos(code, p), |code|)
  {
    hide TableCost, PushValue;
    var op := code[p];
    arg, pushed, end := NO_ARG, [], p + 1;
    if IsSmallPush(op) {
      var value;
      value, end := ReadSmallPush(code, p);
      arg := SmallPush(value);
    } else if IsLargePush(op) {
      var value;
      value, end := ReadLargePush(code, p);
      arg, pushed := PushIndex(count), [value];
    } else if ObservesGas(op) {
      arg := Number(gasCost);
    } else if op == OP_PC {
      arg := Number(p);
    }
  }

  /** The constants and jump tables so far, completed by those of the code from p on, are those of the
      whole code. */
  ghost predicate SideTables(code: seq<Byte>, p: nat, size: int,
                             pushes: seq<Word>, offsets: seq<int>, targets: seq<int>) {
    && pushes + LargePushes(code, p) == LargePushes(code, 0)
    && offsets + JumpOffsets(code, p) == JumpOffsets(code, 0)
    && targets + JumpTargets(code, p, size) == JumpTargets(code, 0, 1)
  }

  /** One instruction adds its share to the side tables. */
  lemma SideTablesStep(code: seq<Byte>, p: nat, size: int, pushes: seq<Word>, offsets: seq<int>, targets: seq<int>)
    requires p < |code| && SideTables(code, p, size, pushes, offsets, targets)
    ensures SideTables(code, NextPos(code, p), size + EntryCount(code, p),
              pushes + (if IsLargePush(code[p]) then [PushValue(code, p)] else []),
              offsets + (if code[p] == OP_JUMPDEST then [ToInt32(p)] else []),
              targets + (if code[p] == OP_JUMPDEST then [ToInt32(size - 1)] else []))
  {
    hide PushValue, ToInt32, EntryCount, LargePushes, JumpOffsets, JumpTargets;
    SideTablesUnfold(code, p, size);
    var q := NextPos(code, p);
    Regroup(pushes, if IsLargePush(code[p]) then [PushValue(code, p)] else [], LargePushes(code, q));
    Regroup(offsets, if code[p] == OP_JUMPDEST then [ToInt32(p)] else [], JumpOffsets(code, q));
    Regroup(targets, if code[p] == OP_JUMPDEST then [ToInt32(size - 1)] else [],
            JumpTargets(code, q, size + EntryCount(code, p)));
  }

  lemma Regroup<T>(a: seq<T>, b: seq<T>, c: seq<T>)
    ensures (a + b) + c == a + (b + c)
  {
  }

  lemma SideTablesUnfold(code: seq<Byte>, p: nat, size: int)
    requires p < |code|
    ensures var q, own := NextPos(code, p), code[p] == OP_JUMPDEST;
            && LargePushes(code, p)
                 == (if IsLargePush(code[p]) then [PushValue(code, p)] else []) + LargePushes(code, q)
            && JumpOffsets(code, p) == (if own then [ToInt32(p)] else []) + JumpOffsets(code, q)
            && JumpTargets(code, p, size)
                 == (if own then [ToInt32(size - 1)] else []) + JumpTargets(code, q, size + EntryCount(code, p))
  {
    hide PushValue, ToInt32, EntryCount;
  }

  /** Skipping immediates that the code does not hold changes nothing. */
  lemma StopAtCodeEnd(rev: Revision, code: seq<Byte>, instrs: seq<Instr>, begin: nat, block: BlockAnalysis, q: nat,
                      pushes: seq<Word>, offsets: seq<int>, targets: seq<int>)
    requires begin < |instrs| && SideTables(code, q, |instrs|, pushes, offsets, targets)
    ensures var pos := Min(q, |code|);
            && Finished(rev, code, instrs, begin, block, pos, |pushes|)
                 == Finished(rev, code, instrs, begin, block, q, |pushes|)
            && SideTables(code, pos, |instrs|, pushes, offsets, targets)
  {
    if q >= |code| {
      NothingLeft(rev, code, instrs, begin, block, q, |pushes|);
      NothingLeft(rev, code, instrs, begin, block, |code|, |pushes|);
    }
  }

  lemma SideTablesComplete(code: seq<Byte>, p: nat, size: int, pushes: seq<Word>, offsets: seq<int>, targets: seq<int>)
    requires p >= |code| && SideTables(code, p, size, pushes, offsets, targets)
    ensures pushes == LargePushes(code, 0) && offsets == JumpOffsets(code, 0) && targets == JumpTargets(code, 0, 1)
  {
  }

  lemma SideTablesStart(code: seq<Byte>)
    ensures SideTables(code, 0, 1, [], [], [])
  {
    hide LargePushes, JumpOffsets, JumpTargets;
  }

  /** The analysis of the Advanced interpreter. Push constants never outgrow their reserved storage,
      so entries that refer to them stay valid. */
  method Analyze(rev: Revision, code: seq<Byte>) returns (analysis: CodeAnalysis)
    ensures analysis == AnalysisOf(rev, code)
    ensures |analysis.pushValues| <= |code| + 1
  {
    hide TableCost, TableRequired, TableChange, Defined, PushValue, Summarize, Emit, InfoAt, Close,
         Finished, SideTables, LargePushes, JumpOffsets, JumpTargets, Table, ArgFor, ToInt32, FnFor;
    var opTables := OpTables();
    var opTable := opTables[rev];
    var instrs := [Instr(BeginBlock, NO_ARG)];
    var pushValues: seq<Word>, offsets: seq<int>, targets: seq<int> := [], [], [];
    var block := EMPTY_BLOCK;
    var begin: nat := 0;
    var pos: nat := 0;
    FinishedFromStart(rev, code);
    SideTablesStart(code);
    while pos < |code|
      invariant begin < |instrs|
      invariant Finished(rev, code, instrs, begin, block, pos, |pushValues|) == Table(rev, code)
      invariant SideTables(code, pos, |instrs|, pushValues, offsets, targets)
      decreases |code| - pos
    {
      ghost var p, instrs0, block0, count0 := pos, instrs, block, |pushValues|;
      SideTablesStep(code, p, |instrs|, pushValues, offsets, targets);
      var op := code[pos];
      var info := opTable[op];
      var stackChange := block.stackChange + info.stackChange;
      block := BlockAnalysis(
        block.gasCost + info.gasCost,
        Max(block.stackReq, info.stackReq - block.stackChange),
        Max(block.stackMaxGrowth, stackChange),
        stackChange);

      if op == OP_JUMPDEST {
        offsets := offsets + [ToInt32(pos)];
        targets := targets + [ToInt32(|instrs| - 1)];
        pos := pos + 1;
      } else {
        var arg, pushed, end := DecodeArgument(code, pos, block.gasCost, |pushValues|);
        instrs := instrs + [Instr(info.fn, arg)];
        pushValues, pos := pushValues + pushed, end;
      }
      assert instrs == instrs0 + OwnEntry(rev, code, p, block0.gasCost, count0);

      if IsTerminator(op) || (pos < |code| && code[pos] == OP_JUMPDEST) {
        FinishedAtEnd(rev, code, instrs0, begin, block0, p, count0);
        instrs := instrs[begin := Begin(Close(block))];
        instrs := instrs + [Instr(BeginBlock, NO_ARG)];
        block, begin := EMPTY_BLOCK, |instrs| - 1;
      } else {
        FinishedInside(rev, code, instrs0, begin, block0, p, count0);
      }
      NothingPushed(pushValues, offsets, targets);
      StopAtCodeEnd(rev, code, instrs, begin, block, NextPos(code, p), pushValues, offsets, targets);
    }
    NothingLeft(rev, code, instrs, begin, block, pos, |pushValues|);
    SideTablesComplete(code, pos, |instrs|, pushValues, offsets, targets);
    LargePushesBound(code, 0);
    instrs := instrs[begin := Begin(Close(block))];
    instrs := instrs + [FINAL_STOP];
    analysis := CodeAnalysis(instrs, pushValues, offsets, targets);
  }

  lemma NothingPushed(pushes: seq<Word>, offsets: seq<int>, targets: seq<int>)
    ensures pushes + [] == pushes && offsets + [] == offsets && targets + [] == targets
  {
  }
}
