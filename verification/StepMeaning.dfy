/** What one step of Baseline does, said by the published tables, the digits of immediates and the valid
    destinations. */
module StepMeaning {
  import opened Words
  import opened InstructionTraits
  import opened Machine
  import opened Instructions
  import opened CodeStructure
  import opened MemoryMeaning
  import opened TraitsMeaning
  import A = Advanced
  import B = Baseline

  // ---------- the check ----------

  /** An instruction is defined, affordable, and keeps the stack within 1024 items. */
  predicate Admits(rev: Revision, op: Byte, st: State) {
    && 0 <= Price(rev, op) <= st.gas
    && Items(op).0 <= |st.stack| && |st.stack| + Items(op).1 <= 1024
  }

  function Paid(rev: Revision, op: Byte, st: State): State {
    st.(gas := st.gas - Price(rev, op))
  }

  /** A halt that ends the execution with a failure and without output. */
  predicate IsFailed(h: Halt) {
    !h.status.Success? && !h.status.Revert? && !h.status.UndefinedBehaviour? && h.output == []
  }

  lemma CheckMeaning(rev: Revision, st: State, op: Byte)
    requires |st.stack| <= 1024
    ensures B.CheckRequirements(rev, st, op).Ok? <==> Admits(rev, op, st)
    ensures Admits(rev, op, st) ==>
              && B.CheckRequirements(rev, st, op) == Ok(Paid(rev, op, st))
              && Defined(rev, op) && (StackRequired(op), StackChange(op)) == Items(op)
    ensures !Admits(rev, op, st) ==> B.CheckRequirements(rev, st, op) == Err(
              B.CheckRequirements(rev, st, op).status, st.trace)
  {
    hide GasCost, StackRequired, StackChange, Price, Items;
    TableBounds(rev, op);
    GasTable(rev, op);
    B.CheckRequirementsMeaning(rev, st, op);
    if Defined(rev, op) {
      StackTable(rev, op);
    }
  }

  /** An instruction that is not admitted ends the run with a failure, and does nothing. */
  lemma RefusedMeaning(c: Context, jumpMap: seq<bool>, padded: seq<Byte>, pc: nat, st: State)
    requires pc < |padded| && pc + PushSize(padded[pc]) < |padded| && |st.stack| <= 1024
    requires !Admits(c.rev, padded[pc], st)
    ensures var step := B.BaselineStep(c, jumpMap, padded, pc, st);
            step.Done? && IsFailed(step.halt) && step.halt.st == st
  {
    hide Admits, B.CheckRequirements, B.Dispatch;
    CheckMeaning(c.rev, st, padded[pc]);
  }

  // ---------- pushes and jumps ----------

  /** A number is written by its digits, the highest first. */
  predicate Spells(w: Word, bytes: seq<Byte>) {
    && w < Power(256, |bytes|)
    && forall place :: 0 <= place < |bytes| ==> Digit(w, place) == bytes[|bytes| - 1 - place]
  }

  lemma LoadSpells(bytes: seq<Byte>)
    requires |bytes| <= 32
    ensures Spells(LoadWord(bytes), bytes)
  {
    BeLoadBound(bytes);
    hide Power, Digit, BeLoad;
    forall place | 0 <= place < |bytes|
      ensures Digit(LoadWord(bytes), place) == bytes[|bytes| - 1 - place]
    {
      LoadDigits(bytes, |bytes| - 1 - place);
    }
  }

  /** PUSHn pushes the number that the n bytes behind the opcode spell, and goes on behind them. */
  lemma PushMeaning(c: Context, jumpMap: seq<bool>, padded: seq<Byte>, pc: nat, st: State, n: nat)
    requires 1 <= n <= 32 && pc + n < |padded| && padded[pc] == 0x5f + n
    requires |st.stack| <= 1024 && Admits(c.rev, padded[pc], st)
    ensures PushSize(padded[pc]) == n
    ensures exists w: Word ::
              && Spells(w, padded[pc + 1..pc + 1 + n])
              && B.BaselineStep(c, jumpMap, padded, pc, st) ==
                 B.Go(pc + 1 + n, st.(gas := st.gas - 3, stack := st.stack + [w]))
  {
    hide Price, Spells, LoadWord, B.CheckRequirements, GasCost, Halting, Ordinary;
    CheckMeaning(c.rev, st, padded[pc]);
    PushPrice(c.rev, padded[pc]);
    var bytes := padded[pc + 1..pc + 1 + n];
    LoadSpells(bytes);
    assert B.BaselineStep(c, jumpMap, padded, pc, st) ==
           B.Go(pc + 1 + n, Push(Paid(c.rev, padded[pc], st), LoadWord(bytes)));
  }

  lemma {:induction false} PushPrice(rev: Revision, op: Byte)
    requires 0x60 <= op <= 0x7f
    ensures Price(rev, op) == 3
  {
    if rev > 0 {
      PushPrice(rev - 1, op);
    }
  }

  /** Where a jump to dst leads: to the destination if it is valid, and else to a failure. */
  function Landing(code: seq<Byte>, dst: Word, st: State): B.Step {
    if IsJumpDest(code, dst) then B.Go(dst, st) else B.Done(Halt(BadJumpDestination, st, []))
  }

  /** JUMP lands at the top; JUMPI does so exactly if the second item is not zero, and else goes on. PC pushes the
      position of the instruction. */
  lemma JumpMeaning(c: Context, jumpMap: seq<bool>, padded: seq<Byte>, pc: nat, st: State)
    requires pc < |padded| && pc + PushSize(padded[pc]) < |padded| && B.IsJumpMap(c.code, jumpMap)
    requires |st.stack| <= 1024 && Admits(c.rev, padded[pc], st)
    ensures var paid, height := Paid(c.rev, padded[pc], st), |st.stack|;
            var step := B.BaselineStep(c, jumpMap, padded, pc, st);
            && (padded[pc] == 0x56 ==>
                  height >= 1 && step == Landing(c.code, st.stack[height - 1], paid.(stack := st.stack[..height - 1])))
            && (padded[pc] == 0x57 ==>
                  && height >= 2
                  && var rest := paid.(stack := st.stack[..height - 2]);
                     step == if st.stack[height - 2] != 0 then Landing(c.code, st.stack[height - 1], rest)
                             else B.Go(pc + 1, rest))
            && (padded[pc] == 0x58 ==>
                  step == B.Go(pc + 1, paid.(stack := st.stack + [pc % WORD_MODULUS])))
  {
    hide Price, IsBoundary, B.CheckRequirements, GasCost, Ordinary, Halting;
    CheckMeaning(c.rev, st, padded[pc]);
  }

  /** GAS pushes what is left after its own price. */
  lemma GasMeaning(c: Context, st: State)
    requires 0 <= st.gas < 0x1_0000_0000_0000_0000
    ensures Ordinary(c, OP_GAS, st) == Ok(st.(stack := st.stack + [st.gas]))
  {
  }

  /** Every other instruction that does not end the execution does what it does on the state that has paid its
      price, and goes on behind its opcode; if it fails, the run does. */
  lemma OrdinaryStepMeaning(c: Context, jumpMap: seq<bool>, padded: seq<Byte>, pc: nat, st: State)
    requires pc < |padded| && pc + PushSize(padded[pc]) < |padded| && IsOrdinary(padded[pc])
    requires |st.stack| <= 1024 && Admits(c.rev, padded[pc], st)
    ensures |st.stack| >= StackRequired(padded[pc])
    ensures var step := B.BaselineStep(c, jumpMap, padded, pc, st);
            match Ordinary(c, padded[pc], Paid(c.rev, padded[pc], st))
            case Ok(next) => step == B.Go(pc + 1, next)
            case Err(status, trace) => step.Done? && IsFailed(step.halt) && step.halt.st.trace == trace
  {
    hide Price, B.CheckRequirements, GasCost, Ordinary, Halting, Items, StackRequired, StackChange;
    CheckMeaning(c.rev, st, padded[pc]);
    A.ClassesDisjoint(padded[pc]);
  }
}
