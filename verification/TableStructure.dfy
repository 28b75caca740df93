/** How the instruction table of the Advanced interpreter mirrors the code: which position of the
    code an index of the table stands for, and where jumps lead. */
module TableStructure {
  import opened Words
  import opened InstructionTraits
  import opened CodeStructure
  import opened Analysis
  import opened Baseline

  // ---------- positions in the table ----------

  /** The table from ip on is what was emitted for the code from p on, where prefix is the base cost
      of the block up to p and k the number of constants up to p. */
  ghost predicate AtInstr(rev: Revision, code: seq<Byte>, an: CodeAnalysis, ip: nat, p: nat, prefix: int, k: nat) {
    && ip < |an.instrs| && an.instrs[ip..] == Emit(rev, code, p, prefix, k) + [FINAL_STOP]
    && k <= |an.pushValues| && an.pushValues[k..] == LargePushes(code, p)
  }

  /** ip is the BEGINBLOCK of the block that starts at p. */
  ghost predicate AtBlock(rev: Revision, code: seq<Byte>, an: CodeAnalysis, ip: nat, p: nat, k: nat) {
    && ip < |an.instrs| && an.instrs[ip] == Begin(InfoAt(rev, code, p))
    && AtInstr(rev, code, an, ip + 1, p, 0, k)
  }

  lemma StartsAtBlock(rev: Revision, code: seq<Byte>)
    ensures AtBlock(rev, code, AnalysisOf(rev, code), 0, 0, 0)
  {
    hide Emit, LargePushes, InfoAt;
    var an := AnalysisOf(rev, code);
    assert an.instrs[1..] == Emit(rev, code, 0, 0, 0) + [FINAL_STOP];
    assert an.pushValues[0..] == LargePushes(code, 0);
  }

  /** Behind the last instruction stands the final STOP, the last entry of the table. */
  lemma AtCodeEnd(rev: Revision, code: seq<Byte>, an: CodeAnalysis, ip: nat, p: nat, prefix: int, k: nat)
    requires AtInstr(rev, code, an, ip, p, prefix, k) && p >= |code|
    ensures ip == |an.instrs| - 1 && an.instrs[ip] == FINAL_STOP
  {
    assert an.instrs[ip..] == [FINAL_STOP];
    assert an.instrs[ip] == an.instrs[ip..][0];
  }

  /** The entry of an instruction, and what follows it. */
  lemma AtInstrStep(rev: Revision, code: seq<Byte>, an: CodeAnalysis, ip: nat, p: nat, prefix: int, k: nat)
    requires AtInstr(rev, code, an, ip, p, prefix, k) && p < |code|
    ensures var own := OwnEntry(rev, code, p, prefix, k);
            var q, k', ip' := NextPos(code, p), k + LargeCount(code[p]), ip + |own|;
            && ip' < |an.instrs|
            && (own != [] ==> an.instrs[ip] == own[0])
            && (if EndsBlock(code, p) then AtBlock(rev, code, an, ip', q, k')
                else AtInstr(rev, code, an, ip', q, prefix + TableCost(rev, code[p]), k'))
    ensures IsLargePush(code[p]) ==> k < |an.pushValues| && an.pushValues[k] == PushValue(code, p)
  {
    hide AtInstr, AtBlock, OwnEntry, Emit, EndsBlock, LargePushes, TableCost, PushValue;
    if EndsBlock(code, p) {
      AtBlockEnd(rev, code, an, ip, p, prefix, k);
    } else {
      AtBlockInside(rev, code, an, ip, p, prefix, k);
    }
  }

  /** The entries from p on: those of its instruction, a BEGINBLOCK if the block ends, and the rest. */
  lemma EmitUnfold(rev: Revision, code: seq<Byte>, p: nat, prefix: int, k: nat)
    requires p < |code|
    ensures var q, k' := NextPos(code, p), k + LargeCount(code[p]);
            var own := OwnEntry(rev, code, p, prefix, k);
            Emit(rev, code, p, prefix, k) ==
            if EndsBlock(code, p) then (own + [Begin(InfoAt(rev, code, q))]) + Emit(rev, code, q, 0, k')
            else own + Emit(rev, code, q, prefix + TableCost(rev, code[p]), k')
  {
    hide TableCost, OwnEntry, InfoAt, EndsBlock;
  }

  lemma RegroupTail<T>(a: seq<T>, b: seq<T>, c: seq<T>, d: seq<T>)
    ensures ((a + b) + c) + d == a + (b + (c + d))
  {
  }

  lemma AtBlockEnd(rev: Revision, code: seq<Byte>, an: CodeAnalysis, ip: nat, p: nat, prefix: int, k: nat)
    requires AtInstr(rev, code, an, ip, p, prefix, k) && p < |code| && EndsBlock(code, p)
    ensures var own := OwnEntry(rev, code, p, prefix, k);
            && ip + |own| < |an.instrs|
            && (own != [] ==> an.instrs[ip] == own[0])
            && AtBlock(rev, code, an, ip + |own|, NextPos(code, p), k + LargeCount(code[p]))
    ensures IsLargePush(code[p]) ==> k < |an.pushValues| && an.pushValues[k] == PushValue(code, p)
  {
    hide TableCost, OwnEntry, InfoAt, PushValue, LargePushes, EndsBlock, Emit;
    var own := OwnEntry(rev, code, p, prefix, k);
    var q, k', ip' := NextPos(code, p), k + LargeCount(code[p]), ip + |own|;
    PushSuffixStep(code, an, p, k);
    EmitUnfold(rev, code, p, prefix, k);
    var next := [Begin(InfoAt(rev, code, q))];
    var rest := Emit(rev, code, q, 0, k') + [FINAL_STOP];
    RegroupTail(own, next, Emit(rev, code, q, 0, k'), [FINAL_STOP]);
    SuffixSplit(an.instrs, ip, own, next + rest);
    SuffixSplit(an.instrs, ip', next, rest);
  }

  lemma AtBlockInside(rev: Revision, code: seq<Byte>, an: CodeAnalysis, ip: nat, p: nat, prefix: int, k: nat)
    requires AtInstr(rev, code, an, ip, p, prefix, k) && p < |code| && !EndsBlock(code, p)
    ensures var own := OwnEntry(rev, code, p, prefix, k);
            && ip + |own| < |an.instrs|
            && (own != [] ==> an.instrs[ip] == own[0])
            && AtInstr(rev, code, an, ip + |own|, NextPos(code, p), prefix + TableCost(rev, code[p]),
                       k + LargeCount(code[p]))
    ensures IsLargePush(code[p]) ==> k < |an.pushValues| && an.pushValues[k] == PushValue(code, p)
  {
    hide TableCost, OwnEntry, InfoAt, PushValue, LargePushes, EndsBlock, Emit;
    var own := OwnEntry(rev, code, p, prefix, k);
    var q, k' := NextPos(code, p), k + LargeCount(code[p]);
    PushSuffixStep(code, an, p, k);
    EmitUnfold(rev, code, p, prefix, k);
    var tail := Emit(rev, code, q, prefix + TableCost(rev, code[p]), k');
    var rest := tail + [FINAL_STOP];
    Regroup(own, tail, [FINAL_STOP]);
    SuffixSplit(an.instrs, ip, own, rest);
  }

  lemma SuffixSplit<T>(s: seq<T>, i: nat, a: seq<T>, b: seq<T>)
    requires i <= |s| && s[i..] == a + b
    ensures i + |a| <= |s| && s[i + |a|..] == b
    ensures a != [] ==> i < |s| && s[i] == a[0]
  {
    assert s[i + |a|..] == s[i..][|a|..];
    if a != [] {
      assert s[i] == s[i..][0];
    }
  }

  lemma PushSuffixStep(code: seq<Byte>, an: CodeAnalysis, p: nat, k: nat)
    requires k <= |an.pushValues| && an.pushValues[k..] == LargePushes(code, p) && p < |code|
    ensures var k' := k + LargeCount(code[p]);
            k' <= |an.pushValues| && an.pushValues[k'..] == LargePushes(code, NextPos(code, p))
    ensures IsLargePush(code[p]) ==> k < |an.pushValues| && an.pushValues[k] == PushValue(code, p)
  {
    hide PushValue;
    var own := if IsLargePush(code[p]) then [PushValue(code, p)] else [];
    SuffixSplit(an.pushValues, k, own, LargePushes(code, NextPos(code, p)));
  }

  // ---------- the shape of the table ----------

  lemma OwnEntrySize(rev: Revision, code: seq<Byte>, p: nat, prefix: int, k: nat)
    requires p < |code|
    ensures |OwnEntry(rev, code, p, prefix, k)| <= 1
  {
    hide ArgFor, FnFor;
  }

  lemma {:induction false} EmitLength(rev: Revision, code: seq<Byte>, p: nat, prefix: int, k: nat)
    requires p <= |code|
    ensures |Emit(rev, code, p, prefix, k)| <= 2 * (|code| - p)
    decreases |code| - p
  {
    hide TableCost, OwnEntry, InfoAt, EndsBlock, Emit;
    if p < |code| {
      var q, k' := NextPos(code, p), k + LargeCount(code[p]);
      OwnEntrySize(rev, code, p, prefix, k);
      EmitUnfold(rev, code, p, prefix, k);
      if q <= |code| {
        EmitLength(rev, code, q, 0, k');
        EmitLength(rev, code, q, prefix + TableCost(rev, code[p]), k');
      } else {
        EmitEnd(rev, code, q, 0, k');
        EmitEnd(rev, code, q, prefix + TableCost(rev, code[p]), k');
      }
    } else {
      EmitEnd(rev, code, p, prefix, k);
    }
  }

  lemma EmitEnd(rev: Revision, code: seq<Byte>, p: nat, prefix: int, k: nat)
    requires p >= |code|
    ensures Emit(rev, code, p, prefix, k) == []
  {
  }

  /** In a list of entries that a BEGINBLOCK or the final STOP follows, each terminator is followed by
      a BEGINBLOCK. */
  ghost predicate TerminatorsClosed(instrs: seq<Instr>) {
    forall i :: 0 <= i < |instrs| && instrs[i].fn.Op? && IsTerminator(instrs[i].fn.opcode) ==>
      i + 1 < |instrs| && instrs[i + 1].fn == BeginBlock
  }

  lemma {:induction false} EmitTerminatorsClosed(rev: Revision, code: seq<Byte>, p: nat, prefix: int, k: nat)
    ensures TerminatorsClosed(Emit(rev, code, p, prefix, k))
    decreases |code| - p
  {
    hide TableCost, OwnEntry, InfoAt, EndsBlock, TerminatorsClosed, Emit;
    if p >= |code| {
      NothingClosed(rev, code, p, prefix, k);
    } else {
      var q, k' := NextPos(code, p), k + LargeCount(code[p]);
      OwnEntryClosed(rev, code, p, prefix, k);
      EmitUnfold(rev, code, p, prefix, k);
      var own := OwnEntry(rev, code, p, prefix, k);
      if EndsBlock(code, p) {
        EmitTerminatorsClosed(rev, code, q, 0, k');
        TerminatorsClosedConcat(own + [Begin(InfoAt(rev, code, q))], Emit(rev, code, q, 0, k'));
      } else {
        var prefix' := prefix + TableCost(rev, code[p]);
        EmitTerminatorsClosed(rev, code, q, prefix', k');
        TerminatorsClosedConcat(own, Emit(rev, code, q, prefix', k'));
      }
    }
  }

  lemma NothingClosed(rev: Revision, code: seq<Byte>, p: nat, prefix: int, k: nat)
    requires p >= |code|
    ensures TerminatorsClosed(Emit(rev, code, p, prefix, k))
  {
  }

  lemma OwnEntryClosed(rev: Revision, code: seq<Byte>, p: nat, prefix: int, k: nat)
    requires p < |code|
    ensures var own := OwnEntry(rev, code, p, prefix, k);
            if EndsBlock(code, p) then TerminatorsClosed(own + [Begin(InfoAt(rev, code, NextPos(code, p)))])
            else TerminatorsClosed(own)
  {
    hide ArgFor, InfoAt, Defined;
  }

  lemma TerminatorsClosedConcat(a: seq<Instr>, b: seq<Instr>)
    requires TerminatorsClosed(a) && TerminatorsClosed(b)
    ensures TerminatorsClosed(a + b)
  {
    forall i | 0 <= i < |a + b| && (a + b)[i].fn.Op? && IsTerminator((a + b)[i].fn.opcode)
      ensures i + 1 < |a + b| && (a + b)[i + 1].fn == BeginBlock
    {
      if i < |a| {
        assert a[i + 1].fn == BeginBlock;
      } else {
        assert b[i - |a|].fn.Op?;
      }
    }
  }

  /** The table starts with BEGINBLOCK and ends with STOP, every other terminator is followed by a
      BEGINBLOCK, and there are at most two entries per byte of code besides those two. */
  lemma TableShape(rev: Revision, code: seq<Byte>)
    ensures var t := Table(rev, code);
            && 2 <= |t| <= 2 * |code| + 2
            && t[0].fn == BeginBlock && t[|t| - 1] == FINAL_STOP
            && TerminatorsClosed(t[..|t| - 1])
  {
    hide Emit, InfoAt;
    EmitLength(rev, code, 0, 0, 0);
    EmitTerminatorsClosed(rev, code, 0, 0, 0);
    var t, e := Table(rev, code), Emit(rev, code, 0, 0, 0);
    var body := t[..|t| - 1];
    assert body == [Begin(InfoAt(rev, code, 0))] + e;
    assert forall i :: 0 < i < |body| ==> body[i] == e[i - 1];
  }

  // ---------- jumps ----------

  const INT32_MAX := 0x7fff_ffff

  /** Every JUMPDEST from p on has a position and a table index that 32-bit signed integers can hold,
      given the size of the table so far. */
  predicate JumpsFit(code: seq<Byte>, p: nat, size: int)
    decreases |code| - p
  {
    p < |code| ==>
      && (code[p] == OP_JUMPDEST ==> p <= INT32_MAX && size - 1 <= INT32_MAX)
      && JumpsFit(code, NextPos(code, p), size + EntryCount(code, p))
  }

  /** Code whose jump destinations the jump tables can represent. */
  predicate Indexable(code: seq<Byte>) {
    JumpsFit(code, 0, 1)
  }

  /** Every JUMPDEST instruction from p on stands at a position within the limit. */
  ghost predicate PositionsWithin(code: seq<Byte>, p: nat, limit: nat) {
    forall d: nat :: d < |code| && code[d] == OP_JUMPDEST && Reaches(code, p, d) ==> d <= limit
  }

  /** Code whose jump destinations have 32-bit positions. In the jump tables such a position, and the table
      index stored for it, is either exact or negative. */
  ghost predicate Addressable(code: seq<Byte>) {
    PositionsWithin(code, 0, UINT32_MAX)
  }

  /** All code of at most 2^32 bytes is addressable. */
  lemma ShortCodeAddressable(code: seq<Byte>)
    requires |code| <= UINT32_MAX + 1
    ensures Addressable(code)
  {
    hide Reaches;
  }

  lemma PositionsWithinNext(code: seq<Byte>, p: nat, limit: nat)
    requires p < |code| && PositionsWithin(code, p, limit)
    ensures code[p] == OP_JUMPDEST ==> p <= limit
    ensures PositionsWithin(code, NextPos(code, p), limit)
  {
    hide Reaches, NextPos;
    forall d: nat
      ensures Reaches(code, p, d) <==> d == p || Reaches(code, NextPos(code, p), d)
    {
      ReachesStep(code, p, d);
    }
  }

  /** Indexable code is addressable. */
  lemma IndexableAddressable(code: seq<Byte>)
    requires Indexable(code)
    ensures Addressable(code)
  {
    hide Reaches, JumpsFit;
    forall d: nat | d < |code| && code[d] == OP_JUMPDEST && Reaches(code, 0, d)
      ensures d <= INT32_MAX
    {
      FitAtReached(code, 0, 1, d);
    }
  }

  lemma {:induction false} FitAtReached(code: seq<Byte>, p: nat, size: int, d: nat)
    requires JumpsFit(code, p, size) && d < |code| && code[d] == OP_JUMPDEST && Reaches(code, p, d)
    ensures d <= INT32_MAX
    decreases |code| - p
  {
    if p != d {
      FitAtReached(code, NextPos(code, p), size + EntryCount(code, p), d);
    }
  }

  lemma {:induction false} JumpsFitEarly(code: seq<Byte>, p: nat, size: int)
    requires |code| <= 0x4000_0000 && size <= 2 * p + 1
    ensures JumpsFit(code, p, size)
    decreases |code| - p
  {
    if p < |code| {
      JumpsFitEarly(code, NextPos(code, p), size + EntryCount(code, p));
    }
  }

  /** A gigabyte of code is always indexable. */
  lemma SmallCodeIndexable(code: seq<Byte>)
    requires |code| <= 0x4000_0000
    ensures Indexable(code)
  {
    JumpsFitEarly(code, 0, 1);
  }

  /** ip is the BEGINBLOCK of the block at p, for some number of constants before it. */
  ghost predicate BlockStart(rev: Revision, code: seq<Byte>, an: CodeAnalysis, ip: int, p: int) {
    ip >= 0 && p >= 0 && exists k: nat :: AtBlock(rev, code, an, ip, p, k)
  }

  /** The position of the first element that is not less than x, by halving. */
  function LowerBound(s: seq<int>, x: int, lo: nat, hi: nat): (i: nat)
    requires lo <= hi <= |s|
    ensures lo <= i <= hi
    decreases hi - lo
  {
    if lo == hi then lo
    else
      var mid := (lo + hi) / 2;
      if s[mid] < x then LowerBound(s, x, mid + 1, hi) else LowerBound(s, x, lo, mid)
  }

  predicate Ascending(s: seq<int>) {
    forall i, j :: 0 <= i < j < |s| ==> s[i] < s[j]
  }

  lemma AroundMiddle(s: seq<int>, x: int, mid: nat)
    requires mid < |s| && Ascending(s)
    ensures s[mid] < x ==> forall i :: 0 <= i <= mid ==> s[i] < x
    ensures s[mid] >= x ==> forall i :: mid <= i < |s| ==> s[i] >= x
  {
  }

  lemma {:induction false} LowerBoundFinds(s: seq<int>, x: int, lo: nat, hi: nat)
    requires lo <= hi <= |s| && Ascending(s)
    requires forall i :: 0 <= i < lo ==> s[i] < x
    requires forall i :: hi <= i < |s| ==> s[i] >= x
    ensures var r := LowerBound(s, x, lo, hi);
            && (forall i :: 0 <= i < r ==> s[i] < x)
            && (forall i :: r <= i < |s| ==> s[i] >= x)
    decreases hi - lo
  {
    if lo < hi {
      var mid := (lo + hi) / 2;
      AroundMiddle(s, x, mid);
      hide Ascending;
      if s[mid] < x {
        LowerBoundFinds(s, x, mid + 1, hi);
      } else {
        LowerBoundFinds(s, x, lo, mid);
      }
    }
  }

  function FindJumpdest(an: CodeAnalysis, offset: int): int
    requires |an.jumpdestTargets| == |an.jumpdestOffsets|
  {
    var i := LowerBound(an.jumpdestOffsets, offset, 0, |an.jumpdestOffsets|);
    if i < |an.jumpdestOffsets| && an.jumpdestOffsets[i] == offset then an.jumpdestTargets[i] else -1
  }

  /** The table index that a jump to dst continues at, or -1. */
  function JumpTarget(an: CodeAnalysis, dst: Word): int
    requires |an.jumpdestTargets| == |an.jumpdestOffsets|
  {
    if INT32_MAX < dst then -1 else FindJumpdest(an, dst)
  }

  /** What the two jump tables hold from p on. */
  ghost predicate JumpTablesRight(rev: Revision, code: seq<Byte>, an: CodeAnalysis, p: nat,
                                  offsets: seq<int>, targets: seq<int>) {
    && |offsets| == |targets|
    && Ascending(offsets)
    && (forall i :: 0 <= i < |offsets| ==>
          && p <= offsets[i] < |code| && code[offsets[i]] == OP_JUMPDEST && Reaches(code, p, offsets[i])
          && offsets[i] <= INT32_MAX && 0 <= targets[i] < |an.instrs|
          && BlockStart(rev, code, an, targets[i], offsets[i]))
    && (forall d: nat :: d < |code| && code[d] == OP_JUMPDEST && Reaches(code, p, d) ==> d in offsets)
  }

  /** A JUMPDEST is always the first instruction of its block, and its target is that block. */
  lemma {:induction false} JumpTablesFrom(rev: Revision, code: seq<Byte>, an: CodeAnalysis,
                                          ip: nat, p: nat, prefix: int, k: nat)
    requires AtInstr(rev, code, an, ip, p, prefix, k)
    requires p < |code| && code[p] == OP_JUMPDEST ==> ip > 0 && AtBlock(rev, code, an, ip - 1, p, k)
    requires JumpsFit(code, p, ip)
    ensures JumpTablesRight(rev, code, an, p, JumpOffsets(code, p), JumpTargets(code, p, ip))
    decreases |code| - p
  {
    hide TableCost, ArgFor, FnFor, AtInstr, InfoAt, JumpTablesRight, JumpOffsets, JumpTargets, LargeCount,
         IsTerminator, JumpsFit;
    if p >= |code| {
      NoJumpsLeft(rev, code, an, ip, p);
    } else {
      JumpTablesUnfold(code, p, ip);
      AtInstrStep(rev, code, an, ip, p, prefix, k);
      var own := OwnEntry(rev, code, p, prefix, k);
      var q, k', ip' := NextPos(code, p), k + LargeCount(code[p]), ip + |own|;
      if EndsBlock(code, p) {
        JumpTablesFrom(rev, code, an, ip' + 1, q, 0, k');
      } else {
        JumpTablesFrom(rev, code, an, ip', q, prefix + TableCost(rev, code[p]), k');
      }
      var offsets, targets := JumpOffsets(code, q), JumpTargets(code, q, ip + EntryCount(code, p));
      if code[p] == OP_JUMPDEST {
        assert BlockStart(rev, code, an, ip - 1, p);
        JumpTablesCons(rev, code, an, p, offsets, targets, ip - 1);
      } else {
        JumpTablesSkip(rev, code, an, p, offsets, targets);
      }
    }
  }

  /** The jump tables from p on, from those of the next instruction on. */
  lemma JumpTablesUnfold(code: seq<Byte>, p: nat, ip: nat)
    requires p < |code| && JumpsFit(code, p, ip)
    ensures JumpsFit(code, NextPos(code, p), ip + EntryCount(code, p))
    ensures var q, rest := NextPos(code, p), ip + EntryCount(code, p);
            if code[p] == OP_JUMPDEST then
              && p <= INT32_MAX
              && JumpOffsets(code, p) == [p] + JumpOffsets(code, q)
              && JumpTargets(code, p, ip) == [ip - 1] + JumpTargets(code, q, rest)
            else
              && JumpOffsets(code, p) == JumpOffsets(code, q)
              && JumpTargets(code, p, ip) == JumpTargets(code, q, rest)
  {
    hide EntryCount;
    if code[p] == OP_JUMPDEST {
      Int32Exact(p);
      Int32Exact(ip - 1);
    }
  }

  lemma NoJumpsLeft(rev: Revision, code: seq<Byte>, an: CodeAnalysis, ip: nat, p: nat)
    requires p >= |code|
    ensures JumpTablesRight(rev, code, an, p, JumpOffsets(code, p), JumpTargets(code, p, ip))
  {
  }

  lemma Int32Exact(x: int)
    requires -1 <= x <= INT32_MAX
    ensures ToInt32(x) == x
  {
  }

  lemma AscendingCons(p: int, offsets: seq<int>)
    requires Ascending(offsets) && forall i :: 0 <= i < |offsets| ==> offsets[i] > p
    ensures Ascending([p] + offsets)
  {
  }

  lemma ListedCons(p: int, offsets: seq<int>, d: int)
    requires d == p || d in offsets
    ensures d in [p] + offsets
  {
    if d != p {
      var i :| 0 <= i < |offsets| && offsets[i] == d;
      assert ([p] + offsets)[i + 1] == d;
    }
  }

  lemma JumpTablesCons(rev: Revision, code: seq<Byte>, an: CodeAnalysis, p: nat,
                       offsets: seq<int>, targets: seq<int>, target: nat)
    requires p < |code| && p <= INT32_MAX && code[p] == OP_JUMPDEST && target < |an.instrs|
    requires BlockStart(rev, code, an, target, p)
    requires JumpTablesRight(rev, code, an, NextPos(code, p), offsets, targets)
    ensures JumpTablesRight(rev, code, an, p, [p] + offsets, [target] + targets)
  {
    hide BlockStart, Reaches, NextPos, Ascending;
    var os, ts := [p] + offsets, [target] + targets;
    AscendingCons(p, offsets);
    forall i | 0 <= i < |os|
      ensures p <= os[i] < |code| && code[os[i]] == OP_JUMPDEST && Reaches(code, p, os[i])
      ensures os[i] <= INT32_MAX && 0 <= ts[i] < |an.instrs| && BlockStart(rev, code, an, ts[i], os[i])
    {
      if i == 0 {
        ReachesStep(code, p, p);
      } else {
        ReachesStep(code, p, offsets[i - 1]);
      }
    }
    forall d: nat | d < |code| && code[d] == OP_JUMPDEST && Reaches(code, p, d)
      ensures d in os
    {
      ReachesStep(code, p, d);
      ListedCons(p, offsets, d);
    }
  }

  lemma JumpTablesSkip(rev: Revision, code: seq<Byte>, an: CodeAnalysis, p: nat,
                       offsets: seq<int>, targets: seq<int>)
    requires p < |code| && code[p] != OP_JUMPDEST
    requires JumpTablesRight(rev, code, an, NextPos(code, p), offsets, targets)
    ensures JumpTablesRight(rev, code, an, p, offsets, targets)
  {
    hide BlockStart, Reaches;
    forall d: nat
      ensures Reaches(code, p, d) <==> d == p || Reaches(code, NextPos(code, p), d)
    {
      ReachesStep(code, p, d);
    }
  }

  lemma ReachesStep(code: seq<Byte>, p: nat, d: nat)
    requires p < |code|
    ensures Reaches(code, p, d) <==> d == p || Reaches(code, NextPos(code, p), d)
  {
  }

  /** A stored pair that a jump can use, that is one that has not become negative, names a JUMPDEST
      instruction from p on and the BEGINBLOCK of the block that starts there. */
  ghost predicate PairRight(rev: Revision, code: seq<Byte>, an: CodeAnalysis, p: nat, offset: int, target: int) {
    offset >= 0 && target >= 0 ==>
      && p <= offset < |code| && code[offset] == OP_JUMPDEST && Reaches(code, p, offset)
      && target < |an.instrs| && BlockStart(rev, code, an, target, offset)
  }

  ghost predicate PairsRight(rev: Revision, code: seq<Byte>, an: CodeAnalysis, p: nat,
                             offsets: seq<int>, targets: seq<int>) {
    && |offsets| == |targets|
    && forall i :: 0 <= i < |offsets| ==> PairRight(rev, code, an, p, offsets[i], targets[i])
  }

  /** Conversion of a number below 2^32 keeps it or makes it negative. */
  lemma Int32ExactOrNegative(x: nat)
    requires x <= UINT32_MAX
    ensures ToInt32(x) >= 0 <==> x <= INT32_MAX
    ensures ToInt32(x) >= 0 ==> ToInt32(x) == x
  {
  }

  lemma PairAtBlock(rev: Revision, code: seq<Byte>, an: CodeAnalysis, ip: nat, p: nat, k: nat)
    requires p < |code| && code[p] == OP_JUMPDEST && p <= UINT32_MAX && 0 < ip <= 2 * p + 1
    requires AtBlock(rev, code, an, ip - 1, p, k)
    ensures PairRight(rev, code, an, p, ToInt32(p), ToInt32(ip - 1))
  {
    hide AtInstr, InfoAt, ToInt32;
    assert BlockStart(rev, code, an, ip - 1, p);
    Int32ExactOrNegative(p);
    ReachesStep(code, p, p);
    if p <= INT32_MAX {
      Int32ExactOrNegative(ip - 1);
    }
  }

  lemma PairFromNext(rev: Revision, code: seq<Byte>, an: CodeAnalysis, p: nat, offset: int, target: int)
    requires p < |code| && PairRight(rev, code, an, NextPos(code, p), offset, target)
    ensures PairRight(rev, code, an, p, offset, target)
  {
    hide BlockStart, Reaches;
    if offset >= 0 {
      ReachesStep(code, p, offset);
    }
  }

  lemma PairsCons(rev: Revision, code: seq<Byte>, an: CodeAnalysis, p: nat, own: bool, offset: int, target: int,
                  offsets: seq<int>, targets: seq<int>)
    requires p < |code| && PairsRight(rev, code, an, NextPos(code, p), offsets, targets)
    requires own ==> PairRight(rev, code, an, p, offset, target)
    ensures PairsRight(rev, code, an, p,
              (if own then [offset] else []) + offsets, (if own then [target] else []) + targets)
  {
    hide PairRight;
    forall i | 0 <= i < |offsets|
      ensures PairRight(rev, code, an, p, offsets[i], targets[i])
    {
      PairFromNext(rev, code, an, p, offsets[i], targets[i]);
    }
  }

  lemma {:induction false} PairsRightFrom(rev: Revision, code: seq<Byte>, an: CodeAnalysis,
                                          ip: nat, p: nat, prefix: int, k: nat)
    requires AtInstr(rev, code, an, ip, p, prefix, k)
    requires p < |code| && code[p] == OP_JUMPDEST ==> ip > 0 && AtBlock(rev, code, an, ip - 1, p, k)
    requires PositionsWithin(code, p, UINT32_MAX) && ip <= 2 * p + 1
    ensures PairsRight(rev, code, an, p, JumpOffsets(code, p), JumpTargets(code, p, ip))
    decreases |code| - p
  {
    hide TableCost, ArgFor, FnFor, AtInstr, InfoAt, PairRight, PairsRight, JumpOffsets, JumpTargets, LargeCount,
         IsTerminator, JumpsFit, PositionsWithin, ToInt32;
    if p >= |code| {
      NoPairsLeft(rev, code, an, ip, p);
    } else {
      TablesUnfold(code, p, ip);
      PositionsWithinNext(code, p, UINT32_MAX);
      AtInstrStep(rev, code, an, ip, p, prefix, k);
      var own := OwnEntry(rev, code, p, prefix, k);
      var q, k', ip' := NextPos(code, p), k + LargeCount(code[p]), ip + |own|;
      if EndsBlock(code, p) {
        PairsRightFrom(rev, code, an, ip' + 1, q, 0, k');
      } else {
        PairsRightFrom(rev, code, an, ip', q, prefix + TableCost(rev, code[p]), k');
      }
      if code[p] == OP_JUMPDEST {
        PairAtBlock(rev, code, an, ip, p, k);
      }
      PairsCons(rev, code, an, p, code[p] == OP_JUMPDEST, ToInt32(p), ToInt32(ip - 1),
                JumpOffsets(code, q), JumpTargets(code, q, ip + EntryCount(code, p)));
    }
  }

  lemma NoPairsLeft(rev: Revision, code: seq<Byte>, an: CodeAnalysis, ip: nat, p: nat)
    requires p >= |code|
    ensures PairsRight(rev, code, an, p, JumpOffsets(code, p), JumpTargets(code, p, ip))
  {
  }

  /** The jump tables of the whole analysis: every usable pair of addressable code is right, and in indexable
      code every JUMPDEST instruction has one, in ascending order. */
  lemma JumpTables(rev: Revision, code: seq<Byte>)
    requires Addressable(code)
    ensures var an := AnalysisOf(rev, code);
            && PairsRight(rev, code, an, 0, an.jumpdestOffsets, an.jumpdestTargets)
            && (Indexable(code) ==> JumpTablesRight(rev, code, an, 0, an.jumpdestOffsets, an.jumpdestTargets))
  {
    hide InfoAt, Emit, JumpTablesRight, PairsRight, JumpOffsets, JumpTargets, JumpsFit, PositionsWithin;
    StartsAtBlock(rev, code);
    PairsRightFrom(rev, code, AnalysisOf(rev, code), 1, 0, 0, 0);
    if Indexable(code) {
      JumpTablesFrom(rev, code, AnalysisOf(rev, code), 1, 0, 0, 0);
    }
  }

  /** What a search finds is a stored pair. */
  lemma FoundPair(an: CodeAnalysis, dst: Word) returns (i: nat)
    requires |an.jumpdestTargets| == |an.jumpdestOffsets| && JumpTarget(an, dst) >= 0
    ensures i < |an.jumpdestOffsets| && an.jumpdestOffsets[i] == dst && an.jumpdestTargets[i] == JumpTarget(an, dst)
  {
    i := LowerBound(an.jumpdestOffsets, dst, 0, |an.jumpdestOffsets|);
  }

  /** Jumps agree. In addressable code the search in the Advanced tables succeeds only for valid destinations
      and leads to the BEGINBLOCK of the block that starts there; in indexable code it succeeds for all of
      them. Valid are exactly the destinations that the Baseline bitmap marks. */
  lemma JumpAgreement(rev: Revision, code: seq<Byte>, jumpMap: seq<bool>, dst: Word)
    requires Addressable(code) && IsJumpMap(code, jumpMap)
    ensures var an := AnalysisOf(rev, code);
            && |an.jumpdestTargets| == |an.jumpdestOffsets|
            && (IsJumpDest(code, dst) <==> dst < |jumpMap| && jumpMap[dst])
            && (JumpTarget(an, dst) >= 0 ==>
                  IsJumpDest(code, dst) && BlockStart(rev, code, an, JumpTarget(an, dst), dst))
            && (Indexable(code) && IsJumpDest(code, dst) ==> JumpTarget(an, dst) >= 0)
  {
    hide BlockStart, AnalysisOf, JumpTarget, Indexable, Addressable, Reaches;
    var an := AnalysisOf(rev, code);
    JumpTables(rev, code);
    if JumpTarget(an, dst) >= 0 {
      var i := FoundPair(an, dst);
      assert PairRight(rev, code, an, 0, an.jumpdestOffsets[i], an.jumpdestTargets[i]);
    }
    if Indexable(code) && IsJumpDest(code, dst) {
      JumpFound(rev, code, an, dst);
    }
  }

  lemma JumpFound(rev: Revision, code: seq<Byte>, an: CodeAnalysis, dst: Word)
    requires JumpTablesRight(rev, code, an, 0, an.jumpdestOffsets, an.jumpdestTargets) && IsJumpDest(code, dst)
    ensures JumpTarget(an, dst) >= 0
  {
    hide BlockStart, Reaches;
    var offsets := an.jumpdestOffsets;
    LowerBoundFinds(offsets, dst, 0, |offsets|);
    assert dst in offsets;
  }

  // ---------- when jumps agree ----------

  /** The offsets ascend and are JUMPDEST instructions from p on. */
  ghost predicate OffsetsRight(code: seq<Byte>, p: nat, offsets: seq<int>) {
    && Ascending(offsets)
    && forall i :: 0 <= i < |offsets| ==>
         p <= offsets[i] < |code| && code[offsets[i]] == OP_JUMPDEST && Reaches(code, p, offsets[i])
  }

  lemma OffsetsCons(code: seq<Byte>, p: nat, offsets: seq<int>)
    requires p < |code| && OffsetsRight(code, NextPos(code, p), offsets)
    ensures OffsetsRight(code, p, offsets)
    ensures code[p] == OP_JUMPDEST ==> OffsetsRight(code, p, [p] + offsets)
  {
    hide Reaches, Ascending, NextPos;
    ReachesStep(code, p, p);
    forall i | 0 <= i < |offsets|
      ensures Reaches(code, p, offsets[i])
    {
      ReachesStep(code, p, offsets[i]);
    }
    AscendingCons(p, offsets);
  }

  lemma {:induction false} OffsetsExact(code: seq<Byte>, p: nat)
    requires PositionsWithin(code, p, INT32_MAX)
    ensures OffsetsRight(code, p, JumpOffsets(code, p))
    decreases |code| - p
  {
    hide PositionsWithin, ToInt32, OffsetsRight, JumpOffsets, JumpTargets, JumpsFit;
    if p < |code| {
      PositionsWithinNext(code, p, INT32_MAX);
      OffsetsExact(code, NextPos(code, p));
      TablesUnfold(code, p, 1);
      OffsetsCons(code, p, JumpOffsets(code, NextPos(code, p)));
      if code[p] == OP_JUMPDEST {
        Int32Exact(p);
      } else {
        assert [] + JumpOffsets(code, NextPos(code, p)) == JumpOffsets(code, NextPos(code, p));
      }
    } else {
      NoOffsetsLeft(code, p);
    }
  }

  lemma NoOffsetsLeft(code: seq<Byte>, p: nat)
    requires p >= |code|
    ensures OffsetsRight(code, p, JumpOffsets(code, p))
  {
  }

  lemma Int32Wraps(x: int)
    requires INT32_MAX < x < 0x1_0000_0000
    ensures ToInt32(x) < 0
  {
  }

  /** The side tables from p on, whether or not the positions fit. */
  lemma TablesUnfold(code: seq<Byte>, p: nat, size: int)
    requires p < |code|
    ensures var q, rest := NextPos(code, p), size + EntryCount(code, p);
            && JumpOffsets(code, p) == (if code[p] == OP_JUMPDEST then [ToInt32(p)] else []) + JumpOffsets(code, q)
            && JumpTargets(code, p, size)
                 == (if code[p] == OP_JUMPDEST then [ToInt32(size - 1)] else []) + JumpTargets(code, q, rest)
    ensures JumpsFit(code, p, size) <==>
              && (code[p] == OP_JUMPDEST ==> p <= INT32_MAX && size - 1 <= INT32_MAX)
              && JumpsFit(code, NextPos(code, p), size + EntryCount(code, p))
  {
    hide ToInt32, EntryCount;
  }

  lemma FitPastEnd(code: seq<Byte>, p: nat, size: int)
    requires p >= |code|
    ensures JumpsFit(code, p, size)
  {
  }

  /** Where a table index does not fit, the stored target is negative. */
  lemma {:induction false} Misplaced(code: seq<Byte>, p: nat, size: nat) returns (i: nat)
    requires PositionsWithin(code, p, INT32_MAX) && !JumpsFit(code, p, size) && size <= 2 * p + 1
    ensures i < |JumpOffsets(code, p)| && i < |JumpTargets(code, p, size)| && JumpTargets(code, p, size)[i] < 0
    decreases |code| - p
  {
    hide PositionsWithin, ToInt32, JumpsFit, JumpOffsets, JumpTargets, IsTerminator;
    if p >= |code| {
      FitPastEnd(code, p, size);
    }
    PositionsWithinNext(code, p, INT32_MAX);
    TablesUnfold(code, p, size);
    if code[p] == OP_JUMPDEST && size - 1 > INT32_MAX {
      Int32Wraps(size - 1);
      i := 0;
    } else {
      var rest := Misplaced(code, NextPos(code, p), size + EntryCount(code, p));
      i := if code[p] == OP_JUMPDEST then rest + 1 else rest;
    }
  }

  lemma {:induction false} TablesPaired(code: seq<Byte>, p: nat, size: int)
    ensures |JumpOffsets(code, p)| == |JumpTargets(code, p, size)|
    decreases |code| - p
  {
    if p < |code| {
      TablesPaired(code, NextPos(code, p), size + EntryCount(code, p));
    }
  }

  ghost predicate JumpsAgree(rev: Revision, code: seq<Byte>)
    requires |AnalysisOf(rev, code).jumpdestTargets| == |AnalysisOf(rev, code).jumpdestOffsets|
  {
    forall dst: Word :: JumpTarget(AnalysisOf(rev, code), dst) >= 0 <==> IsJumpDest(code, dst)
  }

  /** For code of any 64-bit size, the jump tables accept exactly the valid destinations if and only if the
      code is indexable: otherwise some valid destination is refused. */
  lemma JumpsAgreeExactly(rev: Revision, code: seq<Byte>)
    requires |code| < LIMB
    ensures |AnalysisOf(rev, code).jumpdestTargets| == |AnalysisOf(rev, code).jumpdestOffsets|
    ensures JumpsAgree(rev, code) <==> Indexable(code)
  {
    TablesPaired(code, 0, 1);
    if Indexable(code) {
      IndexableAddressable(code);
      forall dst: Word
        ensures JumpTarget(AnalysisOf(rev, code), dst) >= 0 <==> IsJumpDest(code, dst)
      {
        JumpAgreement(rev, code, ExactJumpMap(code), dst);
      }
    } else {
      var dst := RefusedDestination(rev, code);
      assert !(JumpTarget(AnalysisOf(rev, code), dst) >= 0 <==> IsJumpDest(code, dst));
    }
  }

  /** A valid destination that the jump tables do not find. */
  lemma RefusedDestination(rev: Revision, code: seq<Byte>) returns (dst: Word)
    requires |code| < LIMB && !Indexable(code)
    requires |AnalysisOf(rev, code).jumpdestTargets| == |AnalysisOf(rev, code).jumpdestOffsets|
    ensures IsJumpDest(code, dst) && JumpTarget(AnalysisOf(rev, code), dst) < 0
  {
    hide Table, LargePushes, JumpsFit, JumpOffsets, JumpTargets, Reaches, LowerBound;
    if PositionsWithin(code, 0, INT32_MAX) {
      var i := Misplaced(code, 0, 1);
      OffsetsExact(code, 0);
      var offsets := JumpOffsets(code, 0);
      dst := offsets[i];
      LowerBoundFinds(offsets, dst, 0, |offsets|);
    } else {
      dst :| dst < |code| && code[dst] == OP_JUMPDEST && Reaches(code, 0, dst) && dst > INT32_MAX;
    }
  }
}
