/** The gas law of calls and creations: what is sent, returned, kept and granted adds up. */
module CallLaws {
  import opened Words
  import opened InstructionTraits
  import opened Machine
  import opened MemoryExpansion
  import opened Instructions
  import opened InstructionLaws

  function Stipend(value: Word): nat {
    if value != 0 then 2300 else 0
  }

  /** The last request of a trace is a call to the host, made after all the others. */
  predicate EndsWithCall(trace: Trace) {
    |trace| > 0 && trace[|trace| - 1].Call?
  }

  /** What the host answered to the call that ends the trace. */
  function LastAnswer(h: Host, trace: Trace): CallResult
    requires EndsWithCall(trace)
  {
    h.call(trace[..|trace| - 1], trace[|trace| - 1].message)
  }

  /** A call or a creation is made below depth 1024 if the balance covers the value. */
  predicate ReachesHost(c: Context, value: Word, trace: Trace) {
    c.msg.depth < 1024 && (value == 0 || c.host.word(trace, GetBalance(c.msg.recipient)) >= value)
  }

  /** What was asked when none is made: the balance, unless the depth is reached. */
  function Refusal(c: Context, trace: Trace): Trace {
    if c.msg.depth < 1024 then trace + [GetBalance(c.msg.recipient)] else trace
  }

  /** After the fixed costs are paid, a call keeps or offers what is left: if the host is called, the caller
      ends with what it kept plus what the callee returned; otherwise with everything and the stipend. From
      Tangerine Whistle on the caller keeps at least a 64th. Nothing leaves the 64-bit range. */
  lemma CallSplitAccounting(c: Context, op: Byte, a: CallArgs, st: State)
    requires IsCall(op) && |st.stack| >= 1 && 0 <= st.gas
    requires st.gas + Stipend(a.value) <= INT64_MAX
    requires a.inputSize != 0 ==> a.inputOffset + a.inputSize <= |st.mem|
    requires a.outputSize != 0 ==> a.outputOffset + a.outputSize <= |st.mem|
    requires HonestHost(c.host)
    ensures var r := CallSplit(c, op, a, st);
            var offered := OfferedGas(c.rev, a.gas, st.gas);
            && (r.Err? <==> c.rev < TANGERINE_WHISTLE && a.gas > st.gas && st.gas < INT64_MAX)
            && (r.Ok? ==>
                  && 0 <= offered <= st.gas
                  && (c.rev >= TANGERINE_WHISTLE ==> st.gas - offered >= st.gas / 64)
                  && (if ReachesHost(c, a.value, st.trace) then
                        && EndsWithCall(r.st.trace) && |r.st.trace| > |st.trace|
                        && var answer := LastAnswer(c.host, r.st.trace);
                        && r.st.trace[|r.st.trace| - 1].message.gas == offered + Stipend(a.value) <= INT64_MAX
                        && 0 <= answer.gasLeft <= offered + Stipend(a.value)
                        && r.st.gas == st.gas - offered + answer.gasLeft
                        && r.st.returnData == answer.output
                        && Peek(r.st, 0) == FromBool(answer.success)
                      else
                        && r.st.trace == Refusal(c, st.trace)
                        && r.st.gas == st.gas + Stipend(a.value)
                        && r.st.returnData == [] && r.st.stack == st.stack))
  {
    hide CallMessage, Slice, Store, CallHost;
    OfferedGasBound(c.rev, a.gas, st.gas);
    var offered, stipend := OfferedGas(c.rev, a.gas, st.gas), Stipend(a.value);
    if !(c.rev < TANGERINE_WHISTLE && offered > st.gas) {
      var s2 := st.(gas := st.gas + stipend, returnData := []);
      var balance := GetBalance(c.msg.recipient);
      var s3 := if a.value != 0 then Note(s2, balance) else s2;
      if c.msg.depth < CALL_DEPTH_LIMIT && !(a.value != 0 && c.host.word(s2.trace, balance) < a.value) {
        CallHostAccounting(c, op, a, offered + stipend, s3);
      }
    }
  }

  lemma CallHostAccounting(c: Context, op: Byte, a: CallArgs, msgGas: int, st: State)
    requires IsCall(op) && |st.stack| >= 1 && msgGas >= 0
    requires a.inputSize != 0 ==> a.inputOffset + a.inputSize <= |st.mem|
    requires a.outputSize != 0 ==> a.outputOffset + a.outputSize <= |st.mem|
    requires HonestHost(c.host)
    ensures var r := CallHost(c, op, a, msgGas, st);
            && r.Ok? && EndsWithCall(r.st.trace) && |r.st.trace| > |st.trace|
            && (var answer := LastAnswer(c.host, r.st.trace);
                && r.st.trace[|r.st.trace| - 1].message.gas == msgGas
                && 0 <= answer.gasLeft <= msgGas
                && r.st.gas == st.gas - msgGas + answer.gasLeft
                && r.st.returnData == answer.output
                && Peek(r.st, 0) == FromBool(answer.success))
  {
    var r := CallHost(c, op, a, msgGas, st);
    assert r.st.trace[..|r.st.trace| - 1] == st.trace;
  }

  /** A creation that is made sends all the gas but a 64th of it, or before Tangerine Whistle all of it, and gets
      back what the creation did not use. */
  lemma CreateSplitAccounting(c: Context, op: Byte, endowment: Word, salt: Word, initCode: seq<Byte>, st: State)
    requires IsCreate(op) && |st.stack| >= 1 && st.gas >= 0
    requires HonestHost(c.host)
    ensures var r := CreateSplit(c, op, endowment, salt, initCode, st);
            && r.Ok?
            && (if ReachesHost(c, endowment, st.trace) then
                  && EndsWithCall(r.st.trace) && |r.st.trace| > |st.trace|
                  && var answer, sent := LastAnswer(c.host, r.st.trace), CreateGas(c.rev, st.gas);
                  && r.st.trace[|r.st.trace| - 1].message.gas == sent
                  && 0 <= answer.gasLeft <= sent <= st.gas
                  && (c.rev >= TANGERINE_WHISTLE ==> st.gas - sent == st.gas / 64)
                  && r.st.gas == st.gas - sent + answer.gasLeft
                  && r.st.returnData == answer.output
                  && Peek(r.st, 0) == (if answer.success then answer.createAddress else 0)
                else r.st == st.(trace := Refusal(c, st.trace)))
  {
    hide CreateHost, CreateGas;
    var balance := GetBalance(c.msg.recipient);
    if c.msg.depth < CALL_DEPTH_LIMIT && !(endowment != 0 && c.host.word(st.trace, balance) < endowment) {
      CreateHostAccounting(c, op, endowment, salt, initCode, if endowment != 0 then Note(st, balance) else st);
    }
  }

  lemma CreateHostAccounting(c: Context, op: Byte, endowment: Word, salt: Word, initCode: seq<Byte>, st: State)
    requires IsCreate(op) && |st.stack| >= 1 && st.gas >= 0
    requires HonestHost(c.host)
    ensures var r, sent := CreateHost(c, op, endowment, salt, initCode, st), CreateGas(c.rev, st.gas);
            && r.Ok? && EndsWithCall(r.st.trace) && |r.st.trace| > |st.trace|
            && 0 <= sent <= st.gas && (c.rev >= TANGERINE_WHISTLE ==> st.gas - sent == st.gas / 64)
            && (var answer := LastAnswer(c.host, r.st.trace);
                && r.st.trace[|r.st.trace| - 1].message.gas == sent
                && 0 <= answer.gasLeft <= sent
                && r.st.gas == st.gas - sent + answer.gasLeft
                && r.st.returnData == answer.output
                && Peek(r.st, 0) == (if answer.success then answer.createAddress else 0))
  {
    var r := CreateHost(c, op, endowment, salt, initCode, st);
    assert r.st.trace[..|r.st.trace| - 1] == st.trace;
  }

  /** A whole CALL: from Tangerine Whistle on the caller keeps a 64th of what it held at the split. */
  lemma CallKeepsShare(c: Context, op: Byte, st: State)
    requires IsCall(op) && 0 <= StackRequired(op) <= |st.stack| && 0 <= st.gas <= INT64_MAX
    requires HonestHost(c.host) && c.rev >= TANGERINE_WHISTLE && CallInstr(c, op, st).Ok?
    ensures var a := PopCallArgs(op, st);
            var charged := CallCharges(c, op, a, Replace(st, StackRequired(op), 0));
            charged.Ok? && charged.st.gas / 64 <= CallInstr(c, op, st).st.gas <= st.gas
  {
    hide CallCharges, CallSplit, OfferedGas, StackRequired, TraceExtends, PaysForMemory, StackDiscipline;
    var a := PopCallArgs(op, st);
    var s0 := Replace(st, StackRequired(op), 0);
    CallChargesFrugal(c, op, a, s0);
    CallLawful(c, op, st);
    var charged := CallCharges(c, op, a, s0);
    CallSplitAccounting(c, op, a, charged.st);
  }
}
