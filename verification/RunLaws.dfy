/** Properties of whole runs of either interpreter: gas, memory, stack, static mode and padding. */
module RunLaws {
  import opened Words
  import opened InstructionTraits
  import opened Machine
  import opened MemoryExpansion
  import opened Instructions
  import opened InstructionLaws
  import opened CodeStructure
  import opened Analysis
  import opened TableStructure
  import B = Baseline
  import A = Advanced

  // ---------- how a run may end ----------

  /** An execution that started from st may end like this: it leaves no more gas than it had and none if
      it failed, only a completed one has output, and in static mode it made only harmless requests. */
  ghost predicate EndsWell(c: Context, st: State, r: Result) {
    && (0 <= r.gasLeft <= st.gas || r.gasLeft == 0)
    && (!r.status.Success? && !r.status.Revert? ==> r.gasLeft == 0 && r.output == [])
    && TraceExtends(c, st.trace, r.trace)
  }

  lemma TraceReflexive(c: Context, t: Trace)
    ensures TraceExtends(c, t, t)
  {
  }

  lemma EndsWellFromNext(c: Context, st: State, next: State, r: Result)
    requires Frugal(c, st, next) && EndsWell(c, next, r)
    ensures EndsWell(c, st, r)
  {
    hide TraceExtends, PaysForMemory;
    TraceTransitive(c, st.trace, next.trace, r.trace);
  }

  lemma AbortedEndsWell(c: Context, st: State, status: FailureStatus, trace: Trace)
    requires TraceExtends(c, st.trace, trace)
    ensures EndsWell(c, st, MakeResult(Aborted(status, trace, st)))
  {
  }

  lemma HaltingEndsWell(c: Context, op: Byte, st: State)
    requires IsHalting(op) && 0 <= StackRequired(op) <= |st.stack| && st.gas >= 0
    ensures EndsWell(c, st, MakeResult(Halting(c, op, st)))
  {
    HaltingFrugal(c, op, st);
    hide TraceExtends, PaysForMemory, CheckMemory, SelfDestructCharges, StackRequired;
  }

  lemma OrdinaryEndsWell(c: Context, op: Byte, st: State)
    requires IsOrdinary(op) && 0 <= StackRequired(op) <= |st.stack| && st.gas >= 0 && HonestHost(c.host)
    ensures Ordinary(c, op, st).Err? ==>
              EndsWell(c, st, MakeResult(Aborted(Ordinary(c, op, st).status, Ordinary(c, op, st).trace, st)))
  {
    hide Ordinary, TraceExtends, Frugal, StackRequired;
    OrdinaryLawful(c, op, st);
    if Ordinary(c, op, st).Err? {
      AbortedEndsWell(c, st, Ordinary(c, op, st).status, Ordinary(c, op, st).trace);
    }
  }

  // ---------- Baseline ----------

  lemma BaselineStepEndsWell(c: Context, jumpMap: seq<bool>, padded: seq<Byte>, pc: nat, st: State)
    requires pc < |padded| && pc + PushSize(padded[pc]) < |padded| && |st.stack| <= STACK_LIMIT
    requires HonestHost(c.host) && B.BaselineStep(c, jumpMap, padded, pc, st).Done?
    ensures EndsWell(c, st, MakeResult(B.BaselineStep(c, jumpMap, padded, pc, st).halt))
  {
    hide Ordinary, Halting, GasCost, StackRequired, StackChange, TraceExtends, Frugal, HonestHost;
    var op := padded[pc];
    TraceReflexive(c, st.trace);
    B.CheckRequirementsMeaning(c.rev, st, op);
    var r := B.CheckRequirements(c.rev, st, op);
    if r.Ok? {
      if IsHalting(op) {
        HaltingEndsWell(c, op, r.st);
      } else if IsOrdinary(op) {
        OrdinaryEndsWell(c, op, r.st);
      } else {
        B.Classified(c.rev, op);
      }
    }
  }

  /** Every Baseline run ends well. */
  lemma {:induction false} BaselineRunEndsWell(c: Context, jumpMap: seq<bool>, padded: seq<Byte>, pc: nat, st: State)
    requires B.Fetching(c, padded, pc, st) && B.IsJumpMap(c.code, jumpMap) && HonestHost(c.host)
    ensures EndsWell(c, st, B.BaselineRun(c, jumpMap, padded, pc, st))
    decreases st.gas, |padded| - pc
  {
    hide B.IsJumpMap, HonestHost, B.BaselineStep, EndsWell, Frugal, B.IsPadded, IsBoundary;
    B.FetchSafe(c, padded, pc, st);
    var step := B.BaselineStep(c, jumpMap, padded, pc, st);
    if step.Go? {
      B.StepProgress(c, jumpMap, padded, pc, st);
      BaselineRunEndsWell(c, jumpMap, padded, step.pc, step.st);
      EndsWellFromNext(c, st, step.st, B.BaselineRun(c, jumpMap, padded, step.pc, step.st));
    } else {
      BaselineStepEndsWell(c, jumpMap, padded, pc, st);
    }
  }

  /** Where a Baseline run is after n steps. */
  ghost function BaselineAfter(c: Context, jumpMap: seq<bool>, padded: seq<Byte>, n: nat): (r: B.Step)
    requires B.IsPadded(c.code, padded) && B.IsJumpMap(c.code, jumpMap) && HonestHost(c.host)
    ensures r.Go? ==> B.Fetching(c, padded, r.pc, r.st)
  {
    if n == 0 then B.Go(0, InitialState(c))
    else
      match BaselineAfter(c, jumpMap, padded, n - 1)
      case Done(h) => B.Done(h)
      case Go(pc, st) =>
        B.FetchSafe(c, padded, pc, st);
        var next := B.BaselineStep(c, jumpMap, padded, pc, st);
        if next.Go? then
          B.StepProgress(c, jumpMap, padded, pc, st);
          next
        else next
  }

  /** What every state that a run of c reaches satisfies: the stack is within its 1024 items, memory comes
      in whole words, and the gas left plus the price of all memory so far is within the message gas. */
  ghost predicate WithinMeans(c: Context, st: State) {
    && |st.stack| <= STACK_LIMIT
    && |st.mem| % 32 == 0
    && (c.msg.gas >= 0 ==> st.gas >= 0)
    && MemoryCost(|st.mem| / 32) + st.gas <= c.msg.gas
    && TraceExtends(c, [], st.trace)
  }

  lemma InitialWithinMeans(c: Context)
    ensures WithinMeans(c, InitialState(c))
  {
  }

  lemma FrugalWithinMeans(c: Context, st: State, next: State)
    requires WithinMeans(c, st) && Frugal(c, st, next) && |next.stack| <= STACK_LIMIT
    ensures WithinMeans(c, next)
  {
    hide MemoryCost, TraceExtends;
    TraceTransitive(c, [], st.trace, next.trace);
  }

  lemma {:induction false} BaselineStatesWithinMeans(c: Context, jumpMap: seq<bool>, padded: seq<Byte>, n: nat)
    requires B.IsPadded(c.code, padded) && B.IsJumpMap(c.code, jumpMap) && HonestHost(c.host)
    ensures var r := BaselineAfter(c, jumpMap, padded, n);
            r.Go? ==> WithinMeans(c, r.st)
  {
    hide WithinMeans, B.IsPadded, B.IsJumpMap, HonestHost, B.BaselineStep, Frugal, IsBoundary;
    if n == 0 {
      InitialWithinMeans(c);
    } else {
      BaselineStatesWithinMeans(c, jumpMap, padded, n - 1);
      var before := BaselineAfter(c, jumpMap, padded, n - 1);
      if before.Go? {
        B.FetchSafe(c, padded, before.pc, before.st);
        var next := B.BaselineStep(c, jumpMap, padded, before.pc, before.st);
        if next.Go? {
          B.StepProgress(c, jumpMap, padded, before.pc, before.st);
          FrugalWithinMeans(c, before.st, next.st);
        }
      }
    }
  }

  // ---------- Advanced ----------

  ghost predicate StepEndsWell(c: Context, st: State, step: A.Step) {
    match step
    case Done(h) => EndsWell(c, st, MakeResult(h))
    case Go(_, next, _) => Frugal(c, st, next) && |next.stack| <= STACK_LIMIT
  }

  lemma CorrectedStepEndsWell(c: Context, ip: nat, op: Byte, number: int, st: State, blockCost: int)
    requires ObservesGas(op) && op != OP_GAS && 0 <= StackRequired(op) <= |st.stack| && HonestHost(c.host)
    requires st.gas >= 0
    ensures var step := A.CorrectedStep(c, ip, op, number, st, blockCost);
            step.Done? ==> EndsWell(c, st, MakeResult(step.halt))
  {
    hide GasAware, GasBlind, StackRequired, StackChange, TraceExtends, PaysForMemory, HonestHost;
    var correction := blockCost - number;
    TraceReflexive(c, st.trace);
    var restored := More(st, correction);
    if restored.gas >= 0 {
      OrdinaryLawful(c, op, restored);
    } else {
      UnfundedFails(c, op, restored);
    }
  }

  lemma OpStepEndsWell(c: Context, an: CodeAnalysis, ip: nat, op: Byte, arg: Arg, st: State, blockCost: int)
    requires HonestHost(c.host) && st.gas >= 0
    ensures var step := A.OpStep(c, an, ip, op, arg, st, blockCost);
            step.Done? ==> EndsWell(c, st, MakeResult(step.halt))
  {
    hide GasAware, GasBlind, Halting, StackRequired, StackChange, TraceExtends, PaysForMemory, MemoryCost, HonestHost,
         A.CorrectedStep, JumpTarget;
    TraceReflexive(c, st.trace);
    A.ClassesDisjoint(op);
    if 0 <= StackRequired(op) <= |st.stack| && |st.stack| + StackChange(op) <= STACK_LIMIT {
      if IsHalting(op) {
        HaltingEndsWell(c, op, st);
      } else if IgnoresGas(op) {
        OrdinaryLawful(c, op, st);
      } else if ObservesGas(op) && op != OP_GAS && arg.Number? {
        CorrectedStepEndsWell(c, ip, op, arg.number, st, blockCost);
      }
    }
  }

  lemma AdvancedStepEndsWell(c: Context, an: CodeAnalysis, ip: nat, st: State, blockCost: int)
    requires HonestHost(c.host) && A.BlocksHaveCosts(an.instrs) && A.Running(an, ip, st) && |st.stack| <= STACK_LIMIT
    ensures StepEndsWell(c, st, A.AdvancedStep(c, an, ip, st, blockCost))
  {
    hide A.OpStep, TraceExtends, HonestHost, Frugal, A.BlocksHaveCosts;
    TraceReflexive(c, st.trace);
    A.StepLawful(c, an, ip, st, blockCost);
    if ip < |an.instrs| && an.instrs[ip].fn.Op? {
      OpStepEndsWell(c, an, ip, an.instrs[ip].fn.opcode, an.instrs[ip].arg, st, blockCost);
    }
  }

  /** Every Advanced run ends well. */
  lemma {:induction false} AdvancedRunEndsWell(c: Context, an: CodeAnalysis, ip: nat, st: State, blockCost: int)
    requires A.Sound(an) && HonestHost(c.host) && A.Running(an, ip, st) && |st.stack| <= STACK_LIMIT
    ensures EndsWell(c, st, A.AdvancedRun(c, an, ip, st, blockCost))
    decreases st.gas + A.Weight(an, ip), |an.instrs| - ip
  {
    hide HonestHost, A.AdvancedStep, EndsWell, Frugal, A.BlocksHaveCosts;
    AdvancedStepEndsWell(c, an, ip, st, blockCost);
    var step := A.AdvancedStep(c, an, ip, st, blockCost);
    if step.Go? {
      A.StepProgress(c, an, ip, st, blockCost);
      AdvancedRunEndsWell(c, an, step.ip, step.st, step.blockCost);
      EndsWellFromNext(c, st, step.st, A.AdvancedRun(c, an, step.ip, step.st, step.blockCost));
    }
  }

  /** Where an Advanced run of any code is after n steps. */
  ghost function AdvancedAfter(c: Context, n: nat): (r: A.Step)
    requires HonestHost(c.host)
    ensures r.Go? ==> A.Running(AnalysisOf(c.rev, c.code), r.ip, r.st) && |r.st.stack| <= STACK_LIMIT
  {
    var an := AnalysisOf(c.rev, c.code);
    if n == 0 then
      TableShape(c.rev, c.code);
      A.Go(0, InitialState(c), 0)
    else
      match AdvancedAfter(c, n - 1)
      case Done(h) => A.Done(h)
      case Go(ip, st, blockCost) =>
        A.TableHasCosts(c.rev, c.code);
        A.StepLawful(c, an, ip, st, blockCost);
        A.AdvancedStep(c, an, ip, st, blockCost)
  }

  lemma AdvancedAfterUnfold(c: Context, n: nat)
    requires HonestHost(c.host)
    ensures AdvancedAfter(c, 0) == A.Go(0, InitialState(c), 0)
    ensures AdvancedAfter(c, n).Go? ==>
              var r := AdvancedAfter(c, n);
              AdvancedAfter(c, n + 1) == A.AdvancedStep(c, AnalysisOf(c.rev, c.code), r.ip, r.st, r.blockCost)
    ensures AdvancedAfter(c, n).Done? ==> AdvancedAfter(c, n + 1) == AdvancedAfter(c, n)
  {
    hide HonestHost, AnalysisOf, A.AdvancedStep;
  }

  /** A step from a state within its means leads to another, or ends well. */
  lemma AdvancedStepWithinMeans(c: Context, an: CodeAnalysis, ip: nat, st: State, blockCost: int)
    requires A.BlocksHaveCosts(an.instrs) && HonestHost(c.host) && A.Running(an, ip, st) && WithinMeans(c, st)
    ensures match A.AdvancedStep(c, an, ip, st, blockCost)
            case Go(_, next, _) => WithinMeans(c, next)
            case Done(h) => EndsWell(c, InitialState(c), MakeResult(h))
  {
    hide HonestHost, A.AdvancedStep, Frugal, A.BlocksHaveCosts, MemoryCost, TraceExtends;
    AdvancedStepEndsWell(c, an, ip, st, blockCost);
    match A.AdvancedStep(c, an, ip, st, blockCost)
    case Go(_, next, _) => FrugalWithinMeans(c, st, next);
    case Done(h) => TraceTransitive(c, [], st.trace, h.st.trace);
  }

  lemma {:induction false} AdvancedStatesWithinMeans(c: Context, n: nat)
    requires HonestHost(c.host)
    ensures match AdvancedAfter(c, n)
            case Go(_, st, _) => WithinMeans(c, st)
            case Done(h) => EndsWell(c, InitialState(c), MakeResult(h))
  {
    hide HonestHost, A.AdvancedStep, AnalysisOf, A.BlocksHaveCosts, WithinMeans, EndsWell;
    if n == 0 {
      InitialWithinMeans(c);
    } else {
      AdvancedStatesWithinMeans(c, n - 1);
      var before := AdvancedAfter(c, n - 1);
      if before.Go? {
        AdvancedTableHasCosts(c);
        AdvancedStepWithinMeans(c, AnalysisOf(c.rev, c.code), before.ip, before.st, before.blockCost);
      }
    }
  }

  lemma AdvancedTableHasCosts(c: Context)
    ensures A.BlocksHaveCosts(AnalysisOf(c.rev, c.code).instrs)
  {
    A.TableHasCosts(c.rev, c.code);
  }

  /** The steps of an addressable code lead to the end of its run. */
  lemma {:induction false} AdvancedRunReached(c: Context, n: nat)
    requires Addressable(c.code) && HonestHost(c.host) && AdvancedAfter(c, n).Go?
    ensures var r := AdvancedAfter(c, n);
            var an := AnalysisOf(c.rev, c.code);
            && A.Sound(an)
            && exists m: nat ::
                 AdvancedAfter(c, m).Done?
                 && MakeResult(AdvancedAfter(c, m).halt) == A.AdvancedRun(c, an, r.ip, r.st, r.blockCost)
    decreases AdvancedAfter(c, n).st.gas + A.Weight(AnalysisOf(c.rev, c.code), AdvancedAfter(c, n).ip),
              |AnalysisOf(c.rev, c.code).instrs| - AdvancedAfter(c, n).ip
  {
    hide HonestHost, A.AdvancedStep, AnalysisOf, A.BlocksHaveCosts, Addressable, MakeResult;
    var an, r := AnalysisOf(c.rev, c.code), AdvancedAfter(c, n);
    A.AnalysisSound(c.rev, c.code);
    if A.AdvancedStep(c, an, r.ip, r.st, r.blockCost).Go? {
      A.StepProgress(c, an, r.ip, r.st, r.blockCost);
      AdvancedRunReached(c, n + 1);
    } else {
      assert AdvancedAfter(c, n + 1).Done?;
    }
  }

  // ---------- static mode ----------

  /** The requests made so far in a run. */
  function TraceOf(step: A.Step): Trace {
    match step
    case Go(_, st, _) => st.trace
    case Done(h) => h.st.trace
  }

  predicate AllHarmless(trace: Trace) {
    forall i :: 0 <= i < |trace| ==> Harmless(trace[i])
  }

  /** In static mode no run of either interpreter, failed ones included, writes storage, emits a log,
      destroys itself, creates, or makes a CALL that moves value, and every nested message is static. This
      holds after any number of steps of Advanced, for any code, and so of its result where it has one. */
  lemma StaticModeHarmless(c: Context, jumpMap: seq<bool>, padded: seq<Byte>)
    requires IsStatic(c.msg) && HonestHost(c.host)
    requires B.IsPadded(c.code, padded) && B.IsJumpMap(c.code, jumpMap)
    ensures AllHarmless(B.Execute(c, jumpMap, padded).trace)
    ensures forall n: nat :: AllHarmless(TraceOf(AdvancedAfter(c, n)))
    ensures Addressable(c.code) ==> AllHarmless(A.Execute(c).trace)
  {
    hide B.BaselineRun, A.AdvancedRun, Harmless, Table, B.IsPadded, B.IsJumpMap, HonestHost, A.Sound, AdvancedAfter,
         Addressable, MemoryCost;
    StartBoundary(c.code);
    BaselineRunEndsWell(c, jumpMap, padded, 0, InitialState(c));
    forall n: nat
      ensures AllHarmless(TraceOf(AdvancedAfter(c, n)))
    {
      AdvancedStatesWithinMeans(c, n);
    }
    if Addressable(c.code) {
      A.AnalysisSound(c.rev, c.code);
      TableShape(c.rev, c.code);
      AdvancedRunEndsWell(c, AnalysisOf(c.rev, c.code), 0, InitialState(c), 0);
    }
  }

  lemma StartBoundary(code: seq<Byte>)
    ensures IsBoundary(code, 0)
  {
  }

  // ---------- padding ----------

  /** The Baseline result, failure code and requests included, does not depend on the bytes that the
      analysis leaves uninitialised. */
  lemma {:induction false} PaddingIndependent(c: Context, jumpMap: seq<bool>, padded: seq<Byte>, other: seq<Byte>,
                                              pc: nat, st: State)
    requires B.Fetching(c, padded, pc, st) && B.Fetching(c, other, pc, st)
    requires B.IsJumpMap(c.code, jumpMap) && HonestHost(c.host)
    ensures B.BaselineRun(c, jumpMap, padded, pc, st) == B.BaselineRun(c, jumpMap, other, pc, st)
    decreases st.gas, |padded| - pc
  {
    hide B.IsJumpMap, HonestHost, B.BaselineStep, Frugal, IsBoundary;
    B.FetchSafe(c, padded, pc, st);
    B.FetchSafe(c, other, pc, st);
    if pc < |c.code| && NextPos(c.code, pc) > |c.code| {
      CutShort(c, jumpMap, padded, pc, st);
      CutShort(c, jumpMap, other, pc, st);
    } else {
      SameStep(c, jumpMap, padded, other, pc, st);
      var step := B.BaselineStep(c, jumpMap, padded, pc, st);
      if step.Go? {
        B.StepProgress(c, jumpMap, padded, pc, st);
        PaddingIndependent(c, jumpMap, padded, other, step.pc, step.st);
      }
    }
  }

  lemma SameStep(c: Context, jumpMap: seq<bool>, padded: seq<Byte>, other: seq<Byte>, pc: nat, st: State)
    requires B.Fetching(c, padded, pc, st) && B.Fetching(c, other, pc, st)
    requires pc < |c.code| ==> NextPos(c.code, pc) <= |c.code|
    requires pc < |padded| && pc + PushSize(padded[pc]) < |padded|
    requires pc < |other| && pc + PushSize(other[pc]) < |other|
    ensures B.BaselineStep(c, jumpMap, padded, pc, st) == B.BaselineStep(c, jumpMap, other, pc, st)
  {
    B.FetchSafe(c, padded, pc, st);
    B.FetchSafe(c, other, pc, st);
    if pc < |c.code| {
      var q := NextPos(c.code, pc);
      SliceOfPrefix(padded, |c.code|, pc + 1, q);
      SliceOfPrefix(other, |c.code|, pc + 1, q);
    }
    hide GasCost, StackRequired, StackChange, Ordinary, Halting, LoadWord, B.CheckRequirements;
  }

  lemma SliceOfPrefix(s: seq<Byte>, n: nat, a: nat, b: nat)
    requires a <= b <= n <= |s|
    ensures s[..n][a..b] == s[a..b]
  {
  }

  /** After a PUSH that the code cuts short, the run stops; its result does not show what was pushed. */
  lemma CutShort(c: Context, jumpMap: seq<bool>, padded: seq<Byte>, pc: nat, st: State)
    requires B.Fetching(c, padded, pc, st) && B.IsJumpMap(c.code, jumpMap) && HonestHost(c.host)
    requires pc < |c.code| && NextPos(c.code, pc) > |c.code|
    ensures B.BaselineRun(c, jumpMap, padded, pc, st) ==
            match B.CheckRequirements(c.rev, st, c.code[pc])
            case Err(status, trace) => MakeResult(Aborted(status, trace, st))
            case Ok(st') => Result(Success, st'.gas, [], st.trace)
  {
    hide B.IsJumpMap, HonestHost, IsBoundary, GasCost, LoadWord, Frugal;
    B.FetchSafe(c, padded, pc, st);
    var step := B.BaselineStep(c, jumpMap, padded, pc, st);
    if step.Go? {
      B.StepProgress(c, jumpMap, padded, pc, st);
      B.FetchSafe(c, padded, step.pc, step.st);
      FlowCosts(c.rev);
      StopNeedsNothing();
    }
  }

  lemma StopNeedsNothing()
    ensures StackRequired(OP_STOP) == 0 && StackChange(OP_STOP) == 0
  {
  }
}
