/** The result of a message, said by the last state of its run: the status, the gas left and the output, in
    Baseline and in Advanced. */
module ResultMeaning {
  import opened Words
  import opened InstructionTraits
  import opened Machine
  import opened MemoryExpansion
  import opened Instructions
  import opened CodeStructure
  import opened MemoryMeaning
  import opened HostMeaning
  import opened TraitsMeaning
  import opened StepMeaning
  import opened InstructionLaws
  import opened TableStructure
  import opened RunLaws
  import opened Refinement
  import A = Advanced
  import B = Baseline

  // ---------- from the last state to the result ----------

  /** A Baseline execution of c. */
  ghost predicate BaselineOf(c: Context, jumpMap: seq<bool>, padded: seq<Byte>) {
    HonestHost(c.host) && B.IsPadded(c.code, padded) && B.IsJumpMap(c.code, jumpMap)
  }

  /** After n steps Baseline is about to run this instruction on this state. */
  ghost predicate Arrives(c: Context, jumpMap: seq<bool>, padded: seq<Byte>, n: nat, pc: nat, op: Byte, st: State) {
    && BaselineOf(c, jumpMap, padded)
    && BaselineAfter(c, jumpMap, padded, n) == B.Go(pc, st)
    && pc < |padded| && padded[pc] == op
  }

  /** Both machines start with the gas of the message, an empty stack, an empty memory and no request, Baseline at
      the first byte of the code and Advanced at the first entry of the table. */
  lemma InitialMeaning(c: Context, jumpMap: seq<bool>, padded: seq<Byte>)
    requires BaselineOf(c, jumpMap, padded)
    ensures BaselineAfter(c, jumpMap, padded, 0) == B.Go(0, State(c.msg.gas, [], [], [], []))
    ensures AdvancedAfter(c, 0) == A.Go(0, State(c.msg.gas, [], [], [], []), 0)
  {
  }

  lemma {:induction false} RunFrom(c: Context, jumpMap: seq<bool>, padded: seq<Byte>, n: nat)
    requires BaselineOf(c, jumpMap, padded)
    ensures match BaselineAfter(c, jumpMap, padded, n)
            case Go(pc, st) => B.Execute(c, jumpMap, padded) == B.BaselineRun(c, jumpMap, padded, pc, st)
            case Done(h) => B.Execute(c, jumpMap, padded) == MakeResult(h)
  {
    hide B.BaselineStep, MakeResult, B.IsPadded, B.IsJumpMap, HonestHost, IsBoundary;
    if n > 0 {
      RunFrom(c, jumpMap, padded, n - 1);
    }
  }

  /** If the next step ends the run, then its halt gives the result. */
  lemma LastStep(c: Context, jumpMap: seq<bool>, padded: seq<Byte>, n: nat, pc: nat, op: Byte, st: State)
    requires Arrives(c, jumpMap, padded, n, pc, op, st)
    ensures pc + PushSize(op) < |padded| && |st.stack| <= 1024 && |st.mem| % 32 == 0
    ensures var step, r := B.BaselineStep(c, jumpMap, padded, pc, st), B.Execute(c, jumpMap, padded);
            step.Done? ==>
              if step.halt.status.Success? || step.halt.status.Revert? then
                r == Result(step.halt.status, step.halt.st.gas, step.halt.output, step.halt.st.trace)
              else r == Result(step.halt.status, 0, step.halt.output, step.halt.st.trace)
  {
    hide B.BaselineStep, B.IsPadded, B.IsJumpMap, HonestHost, IsBoundary, MemoryCost, TraceExtends;
    RunFrom(c, jumpMap, padded, n);
    BaselineStatesWithinMeans(c, jumpMap, padded, n);
    B.FetchSafe(c, padded, pc, st);
  }

  /** A failed message has no gas left and no output. */
  predicate IsFailure(r: Result) {
    !r.status.Success? && !r.status.Revert? && !r.status.UndefinedBehaviour? && r.gasLeft == 0 && r.output == []
  }

  // ---------- STOP, RETURN and REVERT ----------

  /** Whether RETURN or REVERT, neither of which has a base cost, passes its checks: there is no REVERT before
      Byzantium. */
  predicate CanReturn(c: Context, op: Byte, st: State) {
    && (op == OP_REVERT ==> c.rev >= 4)
    && |st.stack| >= 2
    && Allowed(Peek(st, 0), Peek(st, 1))
    && st.gas >= GrowthPrice(st.mem, Peek(st, 0), Peek(st, 1))
  }

  lemma ReturnPrices(rev: Revision)
    ensures Price(rev, OP_STOP) == 0 && Price(rev, OP_RETURN) == 0
    ensures if rev >= 4 then Price(rev, OP_REVERT) == 0 else Price(rev, OP_REVERT) < 0
    ensures Price(rev, OP_SELFDESTRUCT) == if rev >= 2 then 5000 else 0
  {
    GasTable(rev, OP_STOP);
    GasTable(rev, OP_RETURN);
    GasTable(rev, OP_REVERT);
    GasTable(rev, OP_SELFDESTRUCT);
    hide Price;
  }

  lemma HaltingStep(c: Context, jumpMap: seq<bool>, padded: seq<Byte>, pc: nat, st: State)
    requires pc < |padded| && pc + PushSize(padded[pc]) < |padded| && IsHalting(padded[pc])
    requires |st.stack| <= 1024 && Admits(c.rev, padded[pc], st)
    ensures |st.stack| >= StackRequired(padded[pc])
    ensures B.BaselineStep(c, jumpMap, padded, pc, st)
            == B.Done(Halting(c, padded[pc], Paid(c.rev, padded[pc], st)))
  {
    hide B.CheckRequirements, GasCost, StackRequired, StackChange, Halting, Items, Price;
    CheckMeaning(c.rev, st, padded[pc]);
  }

  lemma ReturnHalt(c: Context, op: Byte, st: State)
    requires (op == OP_RETURN || op == OP_REVERT) && |st.stack| >= 2 && st.gas >= 0 && |st.mem| % 32 == 0
    ensures var i, size, h := Peek(st, 0), Peek(st, 1), Halting(c, op, st);
            var price := GrowthPrice(st.mem, i, size);
            && (Allowed(i, size) && st.gas >= price ==>
                  h == Halt(if op == OP_RETURN then Success else Revert,
                            st.(gas := st.gas - price, mem := Extended(st.mem, i, size)), Window(st.mem, i, size)))
            && (!(Allowed(i, size) && st.gas >= price) ==> IsFailed(h))
  {
    hide CheckMemory, Slice, GrowthPrice, Extended, Window;
    CheckMemoryMeaning(st, Peek(st, 0), Peek(st, 1));
    SliceWindow(st.mem, Peek(st, 0), Peek(st, 1));
  }

  /** A message that arrives at STOP succeeds with all its gas and without output. One that arrives at RETURN or
      REVERT ends with the gas of that state less the growth of the memory, and with the zero-extended bytes of
      the memory that the two operands name; it succeeds at RETURN and reverts at REVERT. If a check does not
      pass the message fails. */
  lemma ReturnMeaning(c: Context, jumpMap: seq<bool>, padded: seq<Byte>, n: nat, pc: nat, op: Byte, st: State)
    requires Arrives(c, jumpMap, padded, n, pc, op, st)
    requires op == OP_STOP || op == OP_RETURN || op == OP_REVERT
    ensures var r := B.Execute(c, jumpMap, padded);
            if st.gas >= 0 && op == OP_STOP then r == Result(Success, st.gas, [], st.trace)
            else if st.gas >= 0 && CanReturn(c, op, st) then
              var i, size := Peek(st, 0), Peek(st, 1);
              r == Result(if op == OP_RETURN then Success else Revert, st.gas - GrowthPrice(st.mem, i, size),
                          Window(st.mem, i, size), st.trace)
            else IsFailure(r)
  {
    hide B.BaselineStep, B.Execute, Price, Halting, GrowthPrice, Window, StackRequired, Extended, BaselineOf,
         BaselineAfter, Allowed;
    ReturnPrices(c.rev);
    LastStep(c, jumpMap, padded, n, pc, op, st);
    if Admits(c.rev, op, st) {
      HaltingStep(c, jumpMap, padded, pc, st);
      assert Paid(c.rev, op, st) == st;
      if op == OP_STOP {
        StopHalt(c, st);
      } else {
        ReturnHalt(c, op, st);
      }
    } else {
      RefusedMeaning(c, jumpMap, padded, pc, st);
    }
  }

  lemma StopHalt(c: Context, st: State)
    ensures StackRequired(OP_STOP) == 0 && Halting(c, OP_STOP, st) == Halt(Success, st, [])
  {
  }

  // ---------- SELFDESTRUCT and all other ends ----------

  /** The base cost of SELFDESTRUCT from Tangerine Whistle on, and what it charges for the beneficiary. */
  function SelfDestructPrice(c: Context, st: State): nat
    requires |st.stack| >= 1
  {
    (if c.rev >= 2 then 5000 else 0) + EndPrice(c, st.trace, Peek(st, 0) % ADDRESS_MODULUS)
  }

  /** A message that arrives at SELFDESTRUCT succeeds without output exactly outside static mode and if the gas
      covers the price. */
  lemma SelfDestructResult(c: Context, jumpMap: seq<bool>, padded: seq<Byte>, n: nat, pc: nat, st: State)
    requires Arrives(c, jumpMap, padded, n, pc, OP_SELFDESTRUCT, st)
    ensures var r := B.Execute(c, jumpMap, padded);
            if |st.stack| >= 1 && st.gas >= SelfDestructPrice(c, st) && c.msg.flags % 2 == 0 then
              var a := Peek(st, 0) % ADDRESS_MODULUS;
              r == Result(Success, st.gas - SelfDestructPrice(c, st), [],
                          AskedBeforeEnd(c, st.trace, a) + [SelfDestruct(c.msg.recipient, a)])
            else IsFailure(r)
  {
    hide B.BaselineStep, B.Execute, Price, Halting, StackRequired, BaselineOf, BaselineAfter, EndPrice, AskedBeforeEnd;
    ReturnPrices(c.rev);
    LastStep(c, jumpMap, padded, n, pc, OP_SELFDESTRUCT, st);
    if Admits(c.rev, OP_SELFDESTRUCT, st) {
      HaltingStep(c, jumpMap, padded, pc, st);
      SelfDestructMeaning(c, Paid(c.rev, OP_SELFDESTRUCT, st));
    } else {
      RefusedMeaning(c, jumpMap, padded, pc, st);
    }
  }

  /** A step that is neither STOP, RETURN, REVERT nor SELFDESTRUCT goes on, or ends with a failure. */
  lemma OtherStep(c: Context, jumpMap: seq<bool>, padded: seq<Byte>, pc: nat, st: State)
    requires pc < |padded| && pc + PushSize(padded[pc]) < |padded| && |st.stack| <= 1024
    requires B.IsJumpMap(c.code, jumpMap)
    requires padded[pc] != OP_STOP && padded[pc] != OP_RETURN && padded[pc] != OP_REVERT
    requires padded[pc] != OP_SELFDESTRUCT
    ensures var step := B.BaselineStep(c, jumpMap, padded, pc, st);
            step.Done? ==> IsFailed(step.halt)
  {
    hide GasCost, StackRequired, StackChange, Ordinary, LoadWord, B.CheckRequirements, B.IsJumpMap;
  }

  /** Every message arrives at its last instruction. If it succeeds or reverts, then that is STOP, RETURN, REVERT or
      SELFDESTRUCT, and else it fails: the four cases above are all the results there are. */
  lemma EveryResult(c: Context, jumpMap: seq<bool>, padded: seq<Byte>)
    requires BaselineOf(c, jumpMap, padded)
    ensures exists n: nat, pc: nat, op: Byte, st: State ::
              && Arrives(c, jumpMap, padded, n, pc, op, st)
              && (IsFailure(B.Execute(c, jumpMap, padded))
                  || op == OP_STOP || op == OP_RETURN || op == OP_REVERT || op == OP_SELFDESTRUCT)
  {
    hide BaselineOf, B.Execute;
    InitialMeaning(c, jumpMap, padded);
    EveryResultFrom(c, jumpMap, padded, 0);
  }

  lemma {:induction false} EveryResultFrom(c: Context, jumpMap: seq<bool>, padded: seq<Byte>, n: nat)
    requires BaselineOf(c, jumpMap, padded) && BaselineAfter(c, jumpMap, padded, n).Go?
    ensures exists n: nat, pc: nat, op: Byte, st: State ::
              && Arrives(c, jumpMap, padded, n, pc, op, st)
              && (IsFailure(B.Execute(c, jumpMap, padded))
                  || op == OP_STOP || op == OP_RETURN || op == OP_REVERT || op == OP_SELFDESTRUCT)
    decreases BaselineAfter(c, jumpMap, padded, n).st.gas, |padded| - BaselineAfter(c, jumpMap, padded, n).pc
  {
    hide B.BaselineStep, B.Execute, B.IsPadded, B.IsJumpMap, HonestHost, IsBoundary, Frugal, StackDiscipline;
    var b := BaselineAfter(c, jumpMap, padded, n);
    B.FetchSafe(c, padded, b.pc, b.st);
    var op := padded[b.pc];
    assert Arrives(c, jumpMap, padded, n, b.pc, op, b.st);
    if B.BaselineStep(c, jumpMap, padded, b.pc, b.st).Go? {
      B.StepProgress(c, jumpMap, padded, b.pc, b.st);
      EveryResultFrom(c, jumpMap, padded, n + 1);
    } else if !(op == OP_STOP || op == OP_RETURN || op == OP_REVERT || op == OP_SELFDESTRUCT) {
      OtherStep(c, jumpMap, padded, b.pc, b.st);
      LastStep(c, jumpMap, padded, n, b.pc, op, b.st);
    }
  }

  // ---------- Advanced ----------

  /** Where Advanced refines Baseline, it ends with the same status, gas, output and requests. */
  lemma AdvancedResultMeaning(c: Context, jumpMap: seq<bool>, padded: seq<Byte>)
    requires BaselineOf(c, jumpMap, padded) && Indexable(c.code) && CostsFit(c.rev, c.code, c.msg.gas)
    ensures Addressable(c.code)
    ensures var b, a := B.Execute(c, jumpMap, padded), A.Execute(c);
            if b.status.Success? || b.status.Revert? then a == b
            else !a.status.Success? && !a.status.Revert? && !a.status.UndefinedBehaviour?
  {
    hide A.Execute, B.Execute, Indexable, Addressable, CostsFit, HonestHost, B.IsPadded, B.IsJumpMap;
    AdvancedRefinesBaseline(c, jumpMap, padded);
  }

  /** The same ends in Advanced: the gas of the state in which Baseline arrives at STOP, RETURN or REVERT, less the
      growth of the memory, and the bytes that the operands name. */
  lemma AdvancedReturnMeaning(c: Context, jumpMap: seq<bool>, padded: seq<Byte>, n: nat, pc: nat, op: Byte, st: State)
    requires Arrives(c, jumpMap, padded, n, pc, op, st)
    requires op == OP_STOP || op == OP_RETURN || op == OP_REVERT
    requires Indexable(c.code) && CostsFit(c.rev, c.code, c.msg.gas)
    ensures Addressable(c.code)
    ensures var a := A.Execute(c);
            if st.gas >= 0 && op == OP_STOP then a == Result(Success, st.gas, [], st.trace)
            else if st.gas >= 0 && CanReturn(c, op, st) then
              var i, size := Peek(st, 0), Peek(st, 1);
              a == Result(if op == OP_RETURN then Success else Revert, st.gas - GrowthPrice(st.mem, i, size),
                          Window(st.mem, i, size), st.trace)
            else !a.status.Success? && !a.status.Revert?
  {
    hide A.Execute, B.Execute, Indexable, Addressable, CostsFit, BaselineOf, BaselineAfter, GrowthPrice, Window,
         Allowed;
    ReturnMeaning(c, jumpMap, padded, n, pc, op, st);
    AdvancedResultMeaning(c, jumpMap, padded);
  }
}
