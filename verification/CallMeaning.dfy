/** When a call or a creation reaches the host, what it sends and what it costs, said without the functions that
    define them: in operands by position, fields of the message and numbers. */
module CallMeaning {
  import opened Words
  import opened InstructionTraits
  import opened Machine
  import opened MemoryExpansion
  import opened Instructions
  import opened MemoryMeaning
  import opened CallLaws

  // ---------- the operands of a call ----------

  /** The account called: the low 160 bits of the second operand. */
  function Target(st: State): Address
    requires |st.stack| >= 6
  {
    Peek(st, 1) % ADDRESS_MODULUS
  }

  /** A value is an operand of CALL and CALLCODE only. */
  function ValueOf(op: Byte, st: State): Word
    requires |st.stack| >= 6
  {
    if op == OP_CALL || op == OP_CALLCODE then Peek(st, 2) else 0
  }

  /** The last four operands: offset and size of the input, offset and size of the output. */
  function RangeOf(op: Byte, st: State, k: nat): Word
    requires IsCall(op) && |st.stack| >= StackRequired(op) && k < 4
  {
    if op == OP_CALL || op == OP_CALLCODE then Peek(st, 3 + k) else Peek(st, 2 + k)
  }

  /** The memory with both ranges in it. */
  function CallMemory(op: Byte, st: State): seq<Byte>
    requires IsCall(op) && |st.stack| >= StackRequired(op)
  {
    Extended(Extended(st.mem, RangeOf(op, st, 0), RangeOf(op, st, 1)), RangeOf(op, st, 2), RangeOf(op, st, 3))
  }

  // ---------- the charges of a call ----------

  /** Only CALL and STATICCALL ask whether the account exists: for a value, and before Spurious Dragon always. */
  predicate AsksExistence(c: Context, op: Byte, value: Word) {
    (op == OP_CALL || op == OP_STATICCALL) && (value != 0 || c.rev < 3)
  }

  /** The requests before the split of the gas. */
  function AskedBeforeCall(c: Context, op: Byte, st: State): Trace
    requires |st.stack| >= 6
  {
    Accessed(c, st.trace, Target(st))
    + if AsksExistence(c, op, ValueOf(op, st)) then [AccountExists(Target(st))] else []
  }

  /** 2500 for a cold account, the growth of the memory, 9000 for a value, 25000 for an account to create. */
  function CallPrice(c: Context, op: Byte, st: State): int
    requires IsCall(op) && |st.stack| >= StackRequired(op)
  {
    var input := Extended(st.mem, RangeOf(op, st, 0), RangeOf(op, st, 1));
    ColdCharge(c, st.trace, Target(st), 2500)
    + GrowthPrice(st.mem, RangeOf(op, st, 0), RangeOf(op, st, 1))
    + GrowthPrice(input, RangeOf(op, st, 2), RangeOf(op, st, 3))
    + ValuePrice(c, op, ValueOf(op, st), Target(st), Accessed(c, st.trace, Target(st)))
  }

  function ValuePrice(c: Context, op: Byte, value: Word, target: Address, trace: Trace): nat {
    (if value != 0 then 9000 else 0)
    + if AsksExistence(c, op, value) && !c.host.accountExists(trace, AccountExists(target)) then 25000 else 0
  }

  /** What is left for the split. */
  function LeftToSplit(c: Context, op: Byte, st: State): int
    requires IsCall(op) && |st.stack| >= StackRequired(op)
  {
    st.gas - CallPrice(c, op, st)
  }

  /** The gas the callee gets, without the stipend: what is asked for, up to 2^63 - 1, and from Tangerine
      Whistle on (EIP-150) up to all but a 64th of what is left. */
  function Offer(rev: Revision, asked: Word, left: int): int {
    var wanted := if asked < 0x7fff_ffff_ffff_ffff then asked else 0x7fff_ffff_ffff_ffff;
    if rev < 2 || wanted <= left - left / 64 then wanted else left - left / 64
  }

  /** The conditions under which a call does not fail. Moving a value by CALL is refused in static mode. */
  predicate CallPasses(c: Context, op: Byte, st: State)
    requires IsCall(op) && |st.stack| >= StackRequired(op)
  {
    && Allowed(RangeOf(op, st, 0), RangeOf(op, st, 1)) && Allowed(RangeOf(op, st, 2), RangeOf(op, st, 3))
    && (op == OP_CALL && ValueOf(op, st) != 0 ==> c.msg.flags % 2 == 0)
    && LeftToSplit(c, op, st) >= 0
    && (c.rev < 2 ==> Offer(c.rev, Peek(st, 0), LeftToSplit(c, op, st)) <= LeftToSplit(c, op, st))
  }

  // ---------- the call ----------

  /** The balance is asked for only where a value is to be moved. */
  function AskedBalance(c: Context, value: Word, trace: Trace): Trace {
    if c.msg.depth < 1024 && value != 0 then trace + [GetBalance(c.msg.recipient)] else trace
  }

  /** Every field of the message that a call sends. */
  predicate IsCallMessage(c: Context, op: Byte, st: State, m: Message)
    requires IsCall(op) && |st.stack| >= StackRequired(op)
  {
    && m.depth == c.msg.depth + 1
    && m.codeAddress == Peek(st, 1) % ADDRESS_MODULUS
    && m.salt == 0
    && m.input == Window(st.mem, RangeOf(op, st, 0), RangeOf(op, st, 1))
    && m.gas == Offer(c.rev, Peek(st, 0), LeftToSplit(c, op, st)) + (if ValueOf(op, st) != 0 then 2300 else 0)
    && (op == OP_CALL ==>
          && m.kind == KindCall && m.flags == c.msg.flags && m.value == Peek(st, 2)
          && m.recipient == Peek(st, 1) % ADDRESS_MODULUS && m.sender == c.msg.recipient)
    && (op == OP_CALLCODE ==>
          && m.kind == KindCallCode && m.flags == c.msg.flags && m.value == Peek(st, 2)
          && m.recipient == c.msg.recipient && m.sender == c.msg.recipient)
    && (op == OP_DELEGATECALL ==>
          && m.kind == KindDelegateCall && m.flags == c.msg.flags && m.value == c.msg.value
          && m.recipient == c.msg.recipient && m.sender == c.msg.sender)
    && (op == OP_STATICCALL ==>
          && m.kind == KindCall && m.flags == 1 && m.value == 0
          && m.recipient == Peek(st, 1) % ADDRESS_MODULUS && m.sender == c.msg.recipient)
  }

  /** The memory after output has been written to a range as far as it fits. */
  ghost predicate Answered(before: seq<Byte>, after: seq<Byte>, offset: nat, size: nat, output: seq<Byte>) {
    forall k :: 0 <= k < |after| ==>
      after[k] == if offset <= k < offset + size && k - offset < |output| then output[k - offset] else ByteAt(before, k)
  }

  lemma OperandsByPosition(op: Byte, st: State)
    requires IsCall(op) && |st.stack| >= StackRequired(op)
    ensures |st.stack| >= 6
    ensures PopCallArgs(op, st) == CallArgs(Peek(st, 0), Target(st), ValueOf(op, st), RangeOf(op, st, 0),
                                            RangeOf(op, st, 1), RangeOf(op, st, 2), RangeOf(op, st, 3))
  {
  }

  lemma AccessMeaning(c: Context, a: CallArgs, st: State)
    requires st.gas >= 0 && |st.mem| % 32 == 0
    ensures var r := CallAccess(c, a, st);
            var mem := Extended(st.mem, a.inputOffset, a.inputSize);
            var price := ColdCharge(c, st.trace, a.dst, 2500) + GrowthPrice(st.mem, a.inputOffset, a.inputSize)
                         + GrowthPrice(mem, a.outputOffset, a.outputSize);
            && (r.Ok? <==> && Allowed(a.inputOffset, a.inputSize) && Allowed(a.outputOffset, a.outputSize)
                           && st.gas >= price)
            && (r.Ok? ==> r.st == st.(gas := st.gas - price, mem := Extended(mem, a.outputOffset, a.outputSize),
                                      trace := Accessed(c, st.trace, a.dst)))
  {
    hide CheckMemory, Extended, GrowthPrice;
    GrowthNonNegative(st.mem, a.inputOffset, a.inputSize);
    var mem := Extended(st.mem, a.inputOffset, a.inputSize);
    GrowthNonNegative(mem, a.outputOffset, a.outputSize);
    ExtendedBytes(st.mem, a.inputOffset, a.inputSize);
    var touched := TouchAccount(c, st, a.dst, 2500);
    if touched.Ok? {
      CheckMemoryMeaning(touched.st, a.inputOffset, a.inputSize);
      var checked := CheckMemory(touched.st, a.inputOffset, a.inputSize);
      if checked.Ok? {
        CheckMemoryMeaning(checked.st, a.outputOffset, a.outputSize);
      }
    }
  }

  lemma GrowthNonNegative(mem: seq<Byte>, offset: nat, size: nat)
    ensures GrowthPrice(mem, offset, size) >= 0
  {
    PriceNonNegative(|mem| / 32, WordsTouched(offset, size));
  }

  lemma ValueMeaning(c: Context, op: Byte, a: CallArgs, st: State)
    requires IsCall(op) && st.gas >= 0 && (op == OP_STATICCALL ==> a.value == 0)
    ensures var r, price := CallValueCharge(c, op, a, st), ValuePrice(c, op, a.value, a.dst, st.trace);
            && (r.Ok? <==> (op == OP_CALL && a.value != 0 ==> c.msg.flags % 2 == 0) && st.gas >= price)
            && (r.Ok? ==>
                  r.st == st.(gas := st.gas - price,
                              trace := st.trace + if AsksExistence(c, op, a.value) then [AccountExists(a.dst)] else []))
  {
    assert st.trace + [] == st.trace;
  }

  lemma SplitMeaning(c: Context, op: Byte, a: CallArgs, st: State)
    requires IsCall(op) && |st.stack| >= 1 && st.gas >= 0
    requires a.inputSize != 0 ==> a.inputOffset + a.inputSize <= |st.mem|
    requires a.outputSize != 0 ==> a.outputOffset + a.outputSize <= |st.mem|
    ensures var r, offer := CallSplit(c, op, a, st), Offer(c.rev, a.gas, st.gas);
            var stipend := if a.value != 0 then 2300 else 0;
            && (r.Ok? <==> (c.rev < 2 ==> offer <= st.gas))
            && (r.Ok? && !ReachesHost(c, a.value, st.trace) ==>
                  r.st == st.(gas := st.gas + stipend, returnData := [], trace := AskedBalance(c, a.value, st.trace)))
            && (r.Ok? && ReachesHost(c, a.value, st.trace) ==>
                  var m := CallMessage(c, op, a, offer + stipend, Slice(st.mem, a.inputOffset, a.inputSize));
                  var answer := c.host.call(AskedBalance(c, a.value, st.trace), m);
                  && r.st == State(st.gas + stipend - (offer + stipend - answer.gasLeft),
                                   st.stack[..|st.stack| - 1] + [if answer.success then 1 else 0], r.st.mem,
                                   answer.output, AskedBalance(c, a.value, st.trace) + [Call(m)])
                  && |r.st.mem| == |st.mem|
                  && Answered(st.mem, r.st.mem, a.outputOffset, a.outputSize, answer.output))
  {
    hide CallMessage, Store;
  }

  /** The message as it is built has the fields it should have. */
  lemma MessageMeaning(c: Context, op: Byte, st: State, input: seq<Byte>)
    requires IsCall(op) && |st.stack| >= StackRequired(op)
    requires input == Window(st.mem, RangeOf(op, st, 0), RangeOf(op, st, 1))
    ensures var value := ValueOf(op, st);
            var gas := Offer(c.rev, Peek(st, 0), LeftToSplit(c, op, st)) + if value != 0 then 2300 else 0;
            IsCallMessage(c, op, st, CallMessage(c, op, PopCallArgs(op, st), gas, input))
  {
    hide Offer, LeftToSplit, Window;
  }

  lemma InputWindow(op: Byte, st: State)
    requires IsCall(op) && |st.stack| >= StackRequired(op)
    ensures var mem, offset, size := CallMemory(op, st), RangeOf(op, st, 0), RangeOf(op, st, 1);
            && (size != 0 ==> offset + size <= |mem|)
            && Slice(mem, offset, size) == Window(st.mem, offset, size)
            && (forall i: nat :: ByteAt(mem, i) == ByteAt(st.mem, i))
  {
    hide Extended, RangeOf;
    ExtendedBytes(st.mem, RangeOf(op, st, 0), RangeOf(op, st, 1));
    ExtendedBytes(Extended(st.mem, RangeOf(op, st, 0), RangeOf(op, st, 1)), RangeOf(op, st, 2), RangeOf(op, st, 3));
  }

  lemma ChargesMeaning(c: Context, op: Byte, st: State)
    requires IsCall(op) && |st.stack| >= StackRequired(op) && st.gas >= 0 && |st.mem| % 32 == 0
    ensures var r := CallCharges(c, op, PopCallArgs(op, st), Replace(st, StackRequired(op), 0));
            && (r.Ok? <==>
                  && Allowed(RangeOf(op, st, 0), RangeOf(op, st, 1)) && Allowed(RangeOf(op, st, 2), RangeOf(op, st, 3))
                  && (op == OP_CALL && ValueOf(op, st) != 0 ==> c.msg.flags % 2 == 0)
                  && st.gas >= CallPrice(c, op, st))
            && (r.Ok? ==>
                  r.st == State(st.gas - CallPrice(c, op, st), st.stack[..|st.stack| - StackRequired(op)] + [0],
                                CallMemory(op, st), st.returnData, AskedBeforeCall(c, op, st)))
  {
    hide CallAccess, CallValueCharge, PopCallArgs, Extended, GrowthPrice, RangeOf;
    OperandsByPosition(op, st);
    var a := PopCallArgs(op, st);
    var popped := Replace(st, StackRequired(op), 0);
    AccessMeaning(c, a, popped);
    var r := CallAccess(c, a, popped);
    if r.Ok? {
      ValueMeaning(c, op, a, r.st);
    }
  }

  /** A call goes on exactly under the conditions above. It reaches the host exactly below depth 1024 and with
      a balance that covers the value. Then it sends the message above, pushes whether the answer is a success,
      keeps its output, and pays for the gas that the callee has used. Otherwise it pushes zero, and keeps the
      gas and the stipend. */
  lemma CallMeaning(c: Context, op: Byte, st: State)
    requires IsCall(op) && |st.stack| >= StackRequired(op) && st.gas >= 0 && |st.mem| % 32 == 0
    ensures var r := Ordinary(c, op, st);
            var value, left, asked := ValueOf(op, st), LeftToSplit(c, op, st), AskedBeforeCall(c, op, st);
            var stipend, rest := if value != 0 then 2300 else 0, st.stack[..|st.stack| - StackRequired(op)];
            && (r.Ok? <==> CallPasses(c, op, st))
            && (r.Ok? && !ReachesHost(c, value, asked) ==>
                  r.st == State(left + stipend, rest + [0], CallMemory(op, st), [], AskedBalance(c, value, asked)))
            && (r.Ok? && ReachesHost(c, value, asked) ==>
                  exists m: Message ::
                    && IsCallMessage(c, op, st, m)
                    && var answer := c.host.call(AskedBalance(c, value, asked), m);
                       && r.st == State(left + stipend - (m.gas - answer.gasLeft),
                                        rest + [if answer.success then 1 else 0], r.st.mem, answer.output,
                                        AskedBalance(c, value, asked) + [Call(m)])
                       && |r.st.mem| == |CallMemory(op, st)|
                       && Answered(st.mem, r.st.mem, RangeOf(op, st, 2), RangeOf(op, st, 3), answer.output))
  {
    hide CallAccess, CallValueCharge, CallSplit, CallCharges, PopCallArgs, Extended, GrowthPrice, Offer,
         CallMessage, CallPrice;
    OperandsByPosition(op, st);
    ChargesMeaning(c, op, st);
    var a := PopCallArgs(op, st);
    var r := CallCharges(c, op, a, Replace(st, StackRequired(op), 0));
    if r.Ok? {
      SplitMeaning(c, op, a, r.st);
      InputWindow(op, st);
      MessageMeaning(c, op, st, Slice(r.st.mem, a.inputOffset, a.inputSize));
    }
  }

  // ---------- creations ----------

  /** The growth of the memory by the init code, and for CREATE2 6 per word of it. */
  function CreatePrice(op: Byte, st: State): int
    requires |st.stack| >= 3
  {
    GrowthPrice(st.mem, Peek(st, 1), Peek(st, 2)) + if op == OP_CREATE2 then (Peek(st, 2) + 31) / 32 * 6 else 0
  }

  /** Every field of the message that a creation sends. The new account gets all the gas left, from Tangerine
      Whistle on all but a 64th. */
  predicate IsCreateMessage(c: Context, op: Byte, st: State, m: Message)
    requires IsCreate(op) && |st.stack| >= StackRequired(op)
  {
    var left := st.gas - CreatePrice(op, st);
    && m.flags == 0
    && m.depth == c.msg.depth + 1
    && m.gas == left - (if c.rev >= 2 then left / 64 else 0)
    && m.recipient == 0
    && m.sender == c.msg.recipient
    && m.codeAddress == 0
    && m.value == Peek(st, 0)
    && m.input == Window(st.mem, Peek(st, 1), Peek(st, 2))
    && (op == OP_CREATE ==> m.kind == KindCreate && m.salt == 0)
    && (op == OP_CREATE2 ==> m.kind == KindCreate2 && m.salt == Peek(st, 3))
  }

  /** A creation goes on exactly outside static mode, if its charges pass. It reaches the host exactly below
      depth 1024 and with a balance that covers the endowment. Then it sends the message above, pushes the new
      address or zero, and pays for the gas that was used. Otherwise it pushes zero and keeps the gas. */
  lemma CreateMeaning(c: Context, op: Byte, st: State)
    requires IsCreate(op) && |st.stack| >= StackRequired(op) && st.gas >= 0 && |st.mem| % 32 == 0
    ensures var r := Ordinary(c, op, st);
            var endowment, i, size, left := Peek(st, 0), Peek(st, 1), Peek(st, 2), st.gas - CreatePrice(op, st);
            var rest, mem := st.stack[..|st.stack| - StackRequired(op)], Extended(st.mem, i, size);
            && (r.Ok? <==> c.msg.flags % 2 == 0 && Allowed(i, size) && left >= 0)
            && (r.Ok? && !ReachesHost(c, endowment, st.trace) ==>
                  r.st == State(left, rest + [0], mem, [], AskedBalance(c, endowment, st.trace)))
            && (r.Ok? && ReachesHost(c, endowment, st.trace) ==>
                  exists m: Message ::
                    && IsCreateMessage(c, op, st, m)
                    && var answer := c.host.call(AskedBalance(c, endowment, st.trace), m);
                       r.st == State(left - (m.gas - answer.gasLeft),
                                     rest + [if answer.success then answer.createAddress else 0], mem,
                                     answer.output, AskedBalance(c, endowment, st.trace) + [Call(m)]))
  {
    hide CreateSplit, CreateCharges, Extended, CreatePrice, Window;
    CreateChargesMeaning(c, op, st);
    var r := CreateCharges(op, st);
    if r.Ok? {
      SliceWindow(st.mem, Peek(st, 1), Peek(st, 2));
      CreateSplitMeaning(c, op, Peek(st, 0), if op == OP_CREATE2 then Peek(st, 3) else 0,
                         Window(st.mem, Peek(st, 1), Peek(st, 2)), r.st);
    }
  }

  lemma CreateChargesMeaning(c: Context, op: Byte, st: State)
    requires IsCreate(op) && |st.stack| >= StackRequired(op) && st.gas >= 0 && |st.mem| % 32 == 0
    ensures var r, i, size := CreateCharges(op, st), Peek(st, 1), Peek(st, 2);
            && (r.Ok? <==> Allowed(i, size) && st.gas >= CreatePrice(op, st))
            && (r.Ok? ==>
                  r.st == State(st.gas - CreatePrice(op, st), st.stack[..|st.stack| - StackRequired(op)] + [0],
                                Extended(st.mem, i, size), [], st.trace))
  {
    hide CheckMemory, Extended, GrowthPrice;
    CheckMemoryMeaning(st, Peek(st, 1), Peek(st, 2));
  }

  lemma CreateSplitMeaning(c: Context, op: Byte, endowment: Word, salt: Word, code: seq<Byte>, st: State)
    requires IsCreate(op) && |st.stack| >= 1 && st.gas >= 0 && st.returnData == []
    ensures var r, asked := CreateSplit(c, op, endowment, salt, code, st), AskedBalance(c, endowment, st.trace);
            && r.Ok?
            && (!ReachesHost(c, endowment, st.trace) ==> r.st == st.(trace := asked))
            && (ReachesHost(c, endowment, st.trace) ==>
                  var m := Message(if op == OP_CREATE2 then KindCreate2 else KindCreate, 0, c.msg.depth + 1,
                                   st.gas - (if c.rev >= 2 then st.gas / 64 else 0), 0, c.msg.recipient, 0,
                                   endowment, salt, code);
                  var answer := c.host.call(asked, m);
                  r.st == State(st.gas - (m.gas - answer.gasLeft),
                                st.stack[..|st.stack| - 1] + [if answer.success then answer.createAddress else 0],
                                st.mem, answer.output, asked + [Call(m)]))
  {
  }
}
