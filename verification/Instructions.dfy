/** The instruction implementations that both interpreters share. */
module Instructions {
  import opened Words
  import opened InstructionTraits
  import opened Machine
  import opened MemoryExpansion

  // ---------- instruction classes ----------

  predicate IsBinary(op: Byte) {
    || OP_ADD <= op <= OP_SMOD || op == OP_SIGNEXTEND
    || OP_LT <= op <= OP_EQ || OP_AND <= op <= OP_XOR || OP_BYTE <= op <= OP_SAR
  }

  predicate IsTernary(op: Byte) {
    op == OP_ADDMOD || op == OP_MULMOD
  }

  predicate IsUnary(op: Byte) {
    op == OP_ISZERO || op == OP_NOT || op == OP_CALLDATALOAD
  }

  /** Instructions that push a value of the message, the block or the state. */
  predicate IsContextRead(op: Byte) {
    || op == OP_ADDRESS || OP_ORIGIN <= op <= OP_CALLVALUE || op == OP_CALLDATASIZE
    || op == OP_CODESIZE || op == OP_GASPRICE || op == OP_RETURNDATASIZE
    || OP_COINBASE <= op <= OP_CHAINID || op == OP_BASEFEE || op == OP_MSIZE
  }

  predicate IsStackOnly(op: Byte) {
    op == OP_POP || op == OP_JUMPDEST || OP_DUP1 <= op <= OP_SWAP16
  }

  /** Instructions that ask the host about an account, a slot or a block and push the answer. */
  predicate IsHostRead(op: Byte) {
    || op == OP_BALANCE || op == OP_EXTCODESIZE || op == OP_EXTCODEHASH
    || op == OP_SLOAD || op == OP_BLOCKHASH || op == OP_SELFBALANCE
  }

  predicate IsMemory(op: Byte) {
    op == OP_MLOAD || op == OP_MSTORE || op == OP_MSTORE8 || op == OP_KECCAK256 || op == OP_EXP
  }

  predicate IsCopy(op: Byte) {
    op == OP_CALLDATACOPY || op == OP_CODECOPY || op == OP_EXTCODECOPY || op == OP_RETURNDATACOPY
  }

  predicate IsLog(op: Byte) {
    OP_LOG0 <= op <= OP_LOG4
  }

  predicate IsCall(op: Byte) {
    op == OP_CALL || op == OP_CALLCODE || op == OP_DELEGATECALL || op == OP_STATICCALL
  }

  predicate IsCreate(op: Byte) {
    op == OP_CREATE || op == OP_CREATE2
  }

  /** Instructions that observe how much gas is left. */
  predicate ObservesGas(op: Byte) {
    op == OP_GAS || op == OP_SSTORE || IsCall(op) || IsCreate(op)
  }

  /** Instructions that cannot tell how much gas is left, except by running out of it. */
  predicate IgnoresGas(op: Byte) {
    || IsBinary(op) || IsTernary(op) || IsUnary(op) || IsContextRead(op) || IsStackOnly(op)
    || IsHostRead(op) || IsMemory(op) || IsCopy(op) || IsLog(op)
  }

  /** Instructions that neither move the code position nor end the execution by themselves. */
  predicate IsOrdinary(op: Byte) {
    IgnoresGas(op) || ObservesGas(op)
  }

  /** Instructions that end the execution. */
  predicate IsHalting(op: Byte) {
    op == OP_STOP || op == OP_RETURN || op == OP_REVERT || op == OP_INVALID || op == OP_SELFDESTRUCT
  }

  // ---------- pure stack instructions ----------

  function BinaryResult(op: Byte, x: Word, y: Word): Word
    requires IsBinary(op)
  {
    if op == OP_ADD then ToWord(x + y)
    else if op == OP_MUL then ToWord(x * y)
    else if op == OP_SUB then ToWord(x - y)
    else if op == OP_DIV then if y == 0 then 0 else Quotient(x, y)
    else if op == OP_SDIV then SignedDivide(x, y)
    else if op == OP_MOD then if y == 0 then 0 else x % y
    else if op == OP_SMOD then SignedModulo(x, y)
    else if op == OP_SIGNEXTEND then SignExtend(x, y)
    else if op == OP_LT then FromBool(x < y)
    else if op == OP_GT then FromBool(y < x)
    else if op == OP_SLT then FromBool(Signed(x) < Signed(y))
    else if op == OP_SGT then FromBool(Signed(y) < Signed(x))
    else if op == OP_EQ then FromBool(x == y)
    else if op == OP_AND then AndWord(x, y)
    else if op == OP_OR then OrWord(x, y)
    else if op == OP_XOR then ToWord(BitXor(x, y))
    else if op == OP_BYTE then ByteOf(x, y)
    else if op == OP_SHL then ShiftLeft(y, x)
    else if op == OP_SHR then ShiftRight(y, x)
    else ArithmeticShiftRight(x, y)
  }

  function Quotient(x: Word, y: Word): (r: Word)
    requires y != 0
    ensures r <= x
  {
    QuotientBound(x, y);
    x / y
  }

  lemma QuotientBound(x: nat, y: nat)
    requires y != 0
    ensures 0 <= x / y <= x
  {
    var q, m := x / y, x % y;
    assert x == y * q + m;
    FactorBound(q, y);
  }

  lemma {:induction false} FactorBound(q: int, y: nat)
    requires y != 0 && q >= 0
    ensures q <= y * q
  {
    if q > 0 {
      FactorBound(q - 1, y);
    }
  }

  function Binary(op: Byte, st: State): State
    requires IsBinary(op) && |st.stack| >= 2
  {
    Replace(st, 2, BinaryResult(op, Peek(st, 0), Peek(st, 1)))
  }

  function Ternary(op: Byte, st: State): State
    requires IsTernary(op) && |st.stack| >= 3
  {
    Replace(st, 3, TernaryResult(op, Peek(st, 0), Peek(st, 1), Peek(st, 2)))
  }

  function TernaryResult(op: Byte, x: Word, y: Word, m: Word): Word
    requires IsTernary(op)
  {
    if m == 0 then 0 else if op == OP_ADDMOD then (x + y) % m else (x * y) % m
  }

  function CallDataWord(input: seq<Byte>, index: Word): Word {
    if |input| < index then 0
    else
      var end := Min(index + 32, |input|);
      LoadWord(input[index..end] + Zeros(32 - (end - index)))
  }

  function Unary(c: Context, op: Byte, st: State): State
    requires IsUnary(op) && |st.stack| >= 1
  {
    var x := Peek(st, 0);
    Replace(st, 1,
      if op == OP_ISZERO then FromBool(x == 0)
      else if op == OP_NOT then NotWord(x)
      else CallDataWord(c.msg.input, x))
  }

  function ContextWord(c: Context, op: Byte, st: State): Word
    requires IsContextRead(op)
  {
    if op == OP_ADDRESS then c.msg.recipient
    else if op == OP_ORIGIN then c.tx.origin
    else if op == OP_CALLER then c.msg.sender
    else if op == OP_CALLVALUE then c.msg.value
    else if op == OP_CALLDATASIZE then ToWord(|c.msg.input|)
    else if op == OP_CODESIZE then ToWord(|c.code|)
    else if op == OP_GASPRICE then c.tx.gasPrice
    else if op == OP_RETURNDATASIZE then ToWord(|st.returnData|)
    else if op == OP_COINBASE then c.tx.coinbase
    else if op == OP_TIMESTAMP then c.tx.timestamp
    else if op == OP_NUMBER then c.tx.number
    else if op == OP_DIFFICULTY then c.tx.difficulty
    else if op == OP_GASLIMIT then c.tx.gasLimit
    else if op == OP_CHAINID then c.tx.chainId
    else if op == OP_BASEFEE then c.tx.baseFee
    else ToWord(|st.mem|)
  }

  function StackOnly(op: Byte, st: State): State
    requires IsStackOnly(op) && |st.stack| >= StackRequired(op)
  {
    if op == OP_JUMPDEST then st
    else if op == OP_POP then Drop(st, 1)
    else if op <= OP_DUP16 then Push(st, Peek(st, op - OP_DUP1))
    else
      var n := op - OP_SWAP1 + 1;
      var top := |st.stack| - 1;
      st.(stack := st.stack[top := st.stack[top - n]][top - n := st.stack[top]])
  }

  // ---------- instructions that ask the host for a value ----------

  function AddressOf(x: Word): Address {
    x % ADDRESS_MODULUS
  }

  /** From Berlin on, touching an account for the first time costs more. */
  function TouchAccount(c: Context, st: State, a: Address, surcharge: nat): Outcome {
    if c.rev >= BERLIN then
      var request := AccessAccount(a);
      if c.host.isCold(st.trace, request) then Charge(Note(st, request), surcharge)
      else Ok(Note(st, request))
    else Ok(st)
  }

  function AccountRead(c: Context, op: Byte, st: State): Outcome
    requires |st.stack| >= 1
  {
    var a := AddressOf(Peek(st, 0));
    var st :- TouchAccount(c, st, a, ADDITIONAL_COLD_ACCOUNT_ACCESS_COST);
    var request :=
      if op == OP_BALANCE then GetBalance(a)
      else if op == OP_EXTCODESIZE then GetCodeSize(a)
      else GetCodeHash(a);
    Ok(Replace(Note(st, request), 1, c.host.word(st.trace, request)))
  }

  function Sload(c: Context, st: State): Outcome
    requires |st.stack| >= 1
  {
    var key := Peek(st, 0);
    var access := AccessStorage(c.msg.recipient, key);
    var st :-
      if c.rev >= BERLIN then
        if c.host.isCold(st.trace, access)
        then Charge(Note(st, access), COLD_SLOAD_COST - WARM_STORAGE_READ_COST)
        else Ok(Note(st, access))
      else Ok(st);
    var request := GetStorage(c.msg.recipient, key);
    Ok(Replace(Note(st, request), 1, c.host.word(st.trace, request)))
  }

  function BlockHash(c: Context, st: State): State
    requires |st.stack| >= 1
  {
    var number := Peek(st, 0);
    if Max(c.tx.number - 256, 0) <= number < c.tx.number then
      var request := GetBlockHash(number);
      Replace(Note(st, request), 1, c.host.word(st.trace, request))
    else Replace(st, 1, 0)
  }

  function SelfBalance(c: Context, st: State): State {
    var request := GetBalance(c.msg.recipient);
    Push(Note(st, request), c.host.word(st.trace, request))
  }

  function HostRead(c: Context, op: Byte, st: State): Outcome
    requires IsHostRead(op) && |st.stack| >= StackRequired(op)
  {
    if op == OP_SLOAD then Sload(c, st)
    else if op == OP_BLOCKHASH then Ok(BlockHash(c, st))
    else if op == OP_SELFBALANCE then Ok(SelfBalance(c, st))
    else AccountRead(c, op, st)
  }

  // ---------- memory ----------

  function Exp(c: Context, st: State): Outcome
    requires |st.stack| >= 2
  {
    var base, exponent := Peek(st, 0), Peek(st, 1);
    var perByte := if c.rev >= SPURIOUS_DRAGON then 50 else 10;
    var st :- Charge(st, SignificantBytes(exponent) * perByte);
    Ok(Replace(st, 2, ToWord(Power(base, exponent))))
  }

  function Keccak256(c: Context, st: State): Outcome
    requires |st.stack| >= 2
  {
    var index, size := Peek(st, 0), Peek(st, 1);
    var st :- CheckMemory(st, index, size);
    var st :- Charge(st, NumWords(size) * 6);
    Ok(Replace(st, 2, c.keccak(Slice(st.mem, index, size))))
  }

  function Mload(st: State): Outcome
    requires |st.stack| >= 1
  {
    var index := Peek(st, 0);
    var st :- CheckMemorySmall(st, index, 32);
    Ok(Replace(st, 1, LoadWord(st.mem[index..index + 32])))
  }

  function Mstore(st: State): Outcome
    requires |st.stack| >= 2
  {
    var index, value := Peek(st, 0), Peek(st, 1);
    var st :- CheckMemorySmall(st, index, 32);
    Ok(Drop(st, 2).(mem := Store(st.mem, index, BeStore(value, 32))))
  }

  function Mstore8(st: State): Outcome
    requires |st.stack| >= 2
  {
    var index, value := Peek(st, 0), Peek(st, 1);
    var st :- CheckMemorySmall(st, index, 1);
    Ok(Drop(st, 2).(mem := Store(st.mem, index, [value % 256])))
  }

  function Memory(c: Context, op: Byte, st: State): Outcome
    requires IsMemory(op) && |st.stack| >= StackRequired(op)
  {
    if op == OP_EXP then Exp(c, st)
    else if op == OP_KECCAK256 then Keccak256(c, st)
    else if op == OP_MLOAD then Mload(st)
    else if op == OP_MSTORE then Mstore(st)
    else Mstore8(st)
  }

  // ---------- copies ----------

  /** Copies from a byte string, padding with zeros past its end. */
  function CopyPadded(source: seq<Byte>, st: State): Outcome
    requires |st.stack| >= 3
  {
    var memIndex, inputIndex, size := Peek(st, 0), Peek(st, 1), Peek(st, 2);
    var st :- CheckMemory(st, memIndex, size);
    var src := if |source| < inputIndex then |source| else inputIndex;
    var copySize := Min(size, |source| - src);
    var st :- Charge(st, NumWords(size) * 3);
    var mem := Store(st.mem, memIndex, source[src..src + copySize]);
    Ok(Drop(st, 3).(mem := Store(mem, memIndex + copySize, Zeros(size - copySize))))
  }

  function ExtCodeCopy(c: Context, st: State): Outcome
    requires |st.stack| >= 4
  {
    var a := AddressOf(Peek(st, 0));
    var memIndex, inputIndex, size := Peek(st, 1), Peek(st, 2), Peek(st, 3);
    var st :- CheckMemory(st, memIndex, size);
    var st :- Charge(st, NumWords(size) * 3);
    var st :- TouchAccount(c, st, a, ADDITIONAL_COLD_ACCOUNT_ACCESS_COST);
    if size == 0 then Ok(Drop(st, 4))
    else
      var request := CopyCode(a, Min(MAX_BUFFER_SIZE, inputIndex), size);
      var answer := c.host.bytes(st.trace, request);
      var copied := if |answer| <= size then answer else answer[..size];
      var mem := Store(st.mem, memIndex, copied);
      Ok(Note(Drop(st, 4), request).(mem := Store(mem, memIndex + |copied|, Zeros(size - |copied|))))
  }

  function ReturnDataCopy(st: State): Outcome
    requires |st.stack| >= 3
  {
    var memIndex, inputIndex, size := Peek(st, 0), Peek(st, 1), Peek(st, 2);
    var st :- CheckMemory(st, memIndex, size);
    if |st.returnData| < inputIndex then Fail(InvalidMemoryAccess, st)
    else if inputIndex + size > |st.returnData| then Fail(InvalidMemoryAccess, st)
    else
      var st :- Charge(st, NumWords(size) * 3);
      Ok(Drop(st, 3).(mem := Store(st.mem, memIndex, st.returnData[inputIndex..inputIndex + size])))
  }

  function Copy(c: Context, op: Byte, st: State): Outcome
    requires IsCopy(op) && |st.stack| >= StackRequired(op)
  {
    if op == OP_CALLDATACOPY then CopyPadded(c.msg.input, st)
    else if op == OP_CODECOPY then CopyPadded(c.code, st)
    else if op == OP_EXTCODECOPY then ExtCodeCopy(c, st)
    else ReturnDataCopy(st)
  }

  // ---------- logs and storage ----------

  /** The n items below the first two, from the top down. */
  function Topics(st: State, n: nat): seq<Word>
    requires |st.stack| >= n + 2
  {
    seq(n, i requires 0 <= i < n => Peek(st, i + 2))
  }

  function LogEvent(c: Context, op: Byte, st: State): Outcome
    requires IsLog(op) && |st.stack| >= StackRequired(op)
  {
    if IsStatic(c.msg) then Fail(StaticModeViolation, st)
    else
      var offset, size := Peek(st, 0), Peek(st, 1);
      var topics := Topics(st, op - OP_LOG0);
      var st :- CheckMemory(st, offset, size);
      var st :- Charge(st, size * 8);
      Ok(Note(Drop(st, op - OP_LOG0 + 2), EmitLog(c.msg.recipient, Slice(st.mem, offset, size), topics)))
  }

  function SstoreCost(rev: Revision, accessCost: nat, status: StorageStatus): nat {
    match status
    case Unchanged | ModifiedAgain =>
      if rev >= BERLIN then accessCost + WARM_STORAGE_READ_COST
      else if rev == ISTANBUL then 800
      else if rev == CONSTANTINOPLE then 200
      else 5000
    case Modified | Deleted =>
      if rev >= BERLIN then accessCost + 5000 - COLD_SLOAD_COST else 5000
    case Added => accessCost + 20000
  }

  function Sstore(c: Context, st: State): Outcome
    requires |st.stack| >= 2
  {
    if IsStatic(c.msg) then Fail(StaticModeViolation, st)
    else if c.rev >= ISTANBUL && st.gas <= 2300 then Fail(OutOfGas, st)
    else
      var key, value := Peek(st, 0), Peek(st, 1);
      var access := AccessStorage(c.msg.recipient, key);
      var accessCost := if c.rev >= BERLIN && c.host.isCold(st.trace, access) then COLD_SLOAD_COST else 0;
      var st := if c.rev >= BERLIN then Note(st, access) else st;
      var request := SetStorage(c.msg.recipient, key, value);
      var status := c.host.status(st.trace, request);
      Charge(Drop(Note(st, request), 2), SstoreCost(c.rev, accessCost, status))
  }

  // ---------- calls ----------

  const CALL_DEPTH_LIMIT := 1024
  const CALL_STIPEND := 2300

  /** The operands of a call, in source order. */
  datatype CallArgs = CallArgs(gas: Word, dst: Address, value: Word, inputOffset: Word, inputSize: Word,
                               outputOffset: Word, outputSize: Word)

  predicate HasValueOperand(op: Byte) {
    op == OP_CALL || op == OP_CALLCODE
  }

  function PopCallArgs(op: Byte, st: State): CallArgs
    requires IsCall(op) && |st.stack| >= StackRequired(op)
  {
    var k := if HasValueOperand(op) then 1 else 0;
    CallArgs(Peek(st, 0), AddressOf(Peek(st, 1)), if k == 1 then Peek(st, 2) else 0,
             Peek(st, 2 + k), Peek(st, 3 + k), Peek(st, 4 + k), Peek(st, 5 + k))
  }

  function CallMessage(c: Context, op: Byte, a: CallArgs, gas: int, input: seq<Byte>): Message
    requires IsCall(op)
  {
    Message(
      if op == OP_CALLCODE then KindCallCode else if op == OP_DELEGATECALL then KindDelegateCall else KindCall,
      if op == OP_STATICCALL then STATIC_FLAG else c.msg.flags,
      c.msg.depth + 1,
      gas,
      if op == OP_CALL || op == OP_STATICCALL then a.dst else c.msg.recipient,
      if op == OP_DELEGATECALL then c.msg.sender else c.msg.recipient,
      a.dst,
      if op == OP_DELEGATECALL then c.msg.value else a.value,
      0,
      input)
  }

  /** The part before the split of the gas: access, memory, value and account costs. */
  function CallCharges(c: Context, op: Byte, a: CallArgs, st: State): (r: Outcome)
    requires IsCall(op)
    ensures r.Ok? ==>
      && |r.st.stack| == |st.stack|
      && (a.inputSize != 0 ==> a.inputOffset + a.inputSize <= |r.st.mem|)
      && (a.outputSize != 0 ==> a.outputOffset + a.outputSize <= |r.st.mem|)
  {
    hide CallAccess, CallValueCharge;
    var st :- CallAccess(c, a, st);
    CallValueCharge(c, op, a, st)
  }

  function CallAccess(c: Context, a: CallArgs, st: State): (r: Outcome)
    ensures r.Ok? ==>
      && |r.st.stack| == |st.stack|
      && (a.inputSize != 0 ==> a.inputOffset + a.inputSize <= |r.st.mem|)
      && (a.outputSize != 0 ==> a.outputOffset + a.outputSize <= |r.st.mem|)
  {
    hide MemoryCost;
    var st :- TouchAccount(c, st, a.dst, ADDITIONAL_COLD_ACCOUNT_ACCESS_COST);
    var st :- CheckMemory(st, a.inputOffset, a.inputSize);
    CheckMemory(st, a.outputOffset, a.outputSize)
  }

  function CallValueCharge(c: Context, op: Byte, a: CallArgs, st: State): (r: Outcome)
    requires IsCall(op)
    ensures r.Ok? ==> r.st.stack == st.stack && r.st.mem == st.mem
  {
    var hasValue := a.value != 0;
    if (op == OP_CALL || op == OP_STATICCALL) && hasValue && IsStatic(c.msg) then Fail(StaticModeViolation, st)
    else
      var request := AccountExists(a.dst);
      var asks := (op == OP_CALL || op == OP_STATICCALL) && (hasValue || c.rev < SPURIOUS_DRAGON);
      var cost := (if hasValue then 9000 else 0)
                  + (if asks && !c.host.accountExists(st.trace, request) then 25000 else 0);
      Charge(if asks then Note(st, request) else st, cost)
  }

  /** Division by 64 that truncates toward zero. */
  function SixtyFourth(gas: int): int {
    if gas >= 0 then gas / 64 else -(-gas / 64)
  }

  /** The gas offered to the callee, before the stipend. */
  function OfferedGas(rev: Revision, requested: Word, gasLeft: int): int {
    var wanted := if requested < INT64_MAX then requested else INT64_MAX;
    if rev >= TANGERINE_WHISTLE then Min(wanted, gasLeft - SixtyFourth(gasLeft)) else wanted
  }

  function CallInstr(c: Context, op: Byte, st: State): Outcome
    requires IsCall(op) && |st.stack| >= StackRequired(op)
  {
    hide CallAccess, CallValueCharge;
    var a := PopCallArgs(op, st);
    var st :- CallCharges(c, op, a, Replace(st, StackRequired(op), 0));
    CallSplit(c, op, a, st)
  }

  /** The split of the gas between caller and callee, and the call itself unless the depth or the balance
      forbids it. */
  function CallSplit(c: Context, op: Byte, a: CallArgs, st: State): Outcome
    requires IsCall(op) && |st.stack| >= 1
    requires a.inputSize != 0 ==> a.inputOffset + a.inputSize <= |st.mem|
    requires a.outputSize != 0 ==> a.outputOffset + a.outputSize <= |st.mem|
  {
    var offered := OfferedGas(c.rev, a.gas, st.gas);
    if c.rev < TANGERINE_WHISTLE && offered > st.gas then Fail(OutOfGas, st)
    else
      var stipend := if a.value != 0 then CALL_STIPEND else 0;
      var msgGas := offered + stipend;
      var st := st.(gas := st.gas + stipend, returnData := []);
      if c.msg.depth >= CALL_DEPTH_LIMIT then Ok(st)
      else
        var balance := GetBalance(c.msg.recipient);
        if a.value != 0 && c.host.word(st.trace, balance) < a.value then Ok(Note(st, balance))
        else
          var st := if a.value != 0 then Note(st, balance) else st;
          CallHost(c, op, a, msgGas, st)
  }

  /** The part after every check has passed: call the host and account for the gas used. */
  function CallHost(c: Context, op: Byte, a: CallArgs, msgGas: int, st: State): Outcome
    requires IsCall(op) && |st.stack| >= 1
    requires a.inputSize != 0 ==> a.inputOffset + a.inputSize <= |st.mem|
    requires a.outputSize != 0 ==> a.outputOffset + a.outputSize <= |st.mem|
  {
    var msg := CallMessage(c, op, a, msgGas, Slice(st.mem, a.inputOffset, a.inputSize));
    var result := c.host.call(st.trace, msg);
    var copySize := Min(a.outputSize, |result.output|);
    Ok(Replace(Note(st, Call(msg)), 1, FromBool(result.success)).(
         mem := Store(st.mem, a.outputOffset, result.output[..copySize]),
         returnData := result.output,
         gas := st.gas - (msgGas - result.gasLeft)))
  }

  function CreateInstr(c: Context, op: Byte, st: State): Outcome
    requires IsCreate(op) && |st.stack| >= StackRequired(op)
  {
    if IsStatic(c.msg) then Fail(StaticModeViolation, st)
    else
      var a := PopCreateArgs(op, st);
      var st :- CreateCharges(op, st);
      CreateSplit(c, op, a.endowment, a.salt, Slice(st.mem, a.offset, a.size), st)
  }

  /** The operands of a creation; CREATE has no salt. */
  datatype CreateArgs = CreateArgs(endowment: Word, offset: Word, size: Word, salt: Word)

  function PopCreateArgs(op: Byte, st: State): CreateArgs
    requires IsCreate(op) && |st.stack| >= StackRequired(op)
  {
    CreateArgs(Peek(st, 0), Peek(st, 1), Peek(st, 2), if op == OP_CREATE2 then Peek(st, 3) else 0)
  }

  /** The memory and salt costs of a creation; the operands give way to a zero. */
  function CreateCharges(op: Byte, st: State): (r: Outcome)
    requires IsCreate(op) && |st.stack| >= StackRequired(op)
    ensures r.Ok? ==> |r.st.stack| >= 1 && (Peek(st, 2) != 0 ==> Peek(st, 1) + Peek(st, 2) <= |r.st.mem|)
  {
    var offset, size := Peek(st, 1), Peek(st, 2);
    var st :- CheckMemory(st, offset, size);
    var st :- if op == OP_CREATE2 then Charge(st, NumWords(size) * 6) else Ok(st);
    Ok(Replace(st, StackRequired(op), 0).(returnData := []))
  }

  /** The creation itself, unless the depth or the balance forbids it. */
  function CreateSplit(c: Context, op: Byte, endowment: Word, salt: Word, initCode: seq<Byte>, st: State): Outcome
    requires IsCreate(op) && |st.stack| >= 1
  {
    if c.msg.depth >= CALL_DEPTH_LIMIT then Ok(st)
    else
      var balance := GetBalance(c.msg.recipient);
      if endowment != 0 && c.host.word(st.trace, balance) < endowment then Ok(Note(st, balance))
      else CreateHost(c, op, endowment, salt, initCode, if endowment != 0 then Note(st, balance) else st)
  }

  function CreateGas(rev: Revision, gasLeft: int): int {
    if rev >= TANGERINE_WHISTLE then gasLeft - SixtyFourth(gasLeft) else gasLeft
  }

  function CreateHost(c: Context, op: Byte, endowment: Word, salt: Word, initCode: seq<Byte>, st: State): Outcome
    requires IsCreate(op) && |st.stack| >= 1
  {
    var msgGas := CreateGas(c.rev, st.gas);
    var msg := Message(
      if op == OP_CREATE2 then KindCreate2 else KindCreate, 0, c.msg.depth + 1, msgGas,
      0, c.msg.recipient, 0, endowment, salt, initCode);
    var result := c.host.call(st.trace, msg);
    Ok(Replace(Note(st, Call(msg)), 1, if result.success then result.createAddress else 0).(
         gas := st.gas - (msgGas - result.gasLeft),
         returnData := result.output))
  }

  // ---------- dispatch ----------

  /** An instruction that cannot observe the gas left. */
  function GasBlind(c: Context, op: Byte, st: State): Outcome
    requires IgnoresGas(op) && |st.stack| >= StackRequired(op)
  {
    if IsBinary(op) then Ok(Binary(op, st))
    else if IsTernary(op) then Ok(Ternary(op, st))
    else if IsUnary(op) then Ok(Unary(c, op, st))
    else if IsContextRead(op) then Ok(Push(st, ContextWord(c, op, st)))
    else if IsStackOnly(op) then Ok(StackOnly(op, st))
    else if IsHostRead(op) then HostRead(c, op, st)
    else if IsMemory(op) then Memory(c, op, st)
    else if IsCopy(op) then Copy(c, op, st)
    else LogEvent(c, op, st)
  }

  /** The gas counter as an unsigned 64-bit number. */
  function GasWord(gas: int): Word {
    gas % LIMB
  }

  /** An instruction whose behaviour depends on the gas left. */
  function GasAware(c: Context, op: Byte, st: State): Outcome
    requires ObservesGas(op) && |st.stack| >= StackRequired(op)
  {
    if op == OP_GAS then Ok(Push(st, GasWord(st.gas)))
    else if op == OP_SSTORE then Sstore(c, st)
    else if IsCall(op) then CallInstr(c, op, st)
    else CreateInstr(c, op, st)
  }

  function Ordinary(c: Context, op: Byte, st: State): Outcome
    requires IsOrdinary(op) && |st.stack| >= StackRequired(op)
  {
    if ObservesGas(op) then GasAware(c, op, st) else GasBlind(c, op, st)
  }

  // ---------- instructions that end the execution ----------

  function ReturnWith(status: Status, st: State): Halt
    requires |st.stack| >= 2
  {
    var offset, size := Peek(st, 0), Peek(st, 1);
    match CheckMemory(st, offset, size)
    case Err(status, trace) => Aborted(status, trace, st)
    case Ok(st') => Halt(status, st', Slice(st'.mem, offset, size))
  }

  function SelfDestructCharges(c: Context, beneficiary: Address, st: State): Outcome {
    var st :- TouchAccount(c, st, beneficiary, COLD_ACCOUNT_ACCESS_COST);
    if c.rev >= TANGERINE_WHISTLE then
      var balance := GetBalance(c.msg.recipient);
      var sends := c.rev == TANGERINE_WHISTLE || c.host.word(st.trace, balance) != 0;
      var st := if c.rev == TANGERINE_WHISTLE then st else Note(st, balance);
      if sends then
        var request := AccountExists(beneficiary);
        Charge(Note(st, request), if c.host.accountExists(st.trace, request) then 0 else 25000)
      else Ok(st)
    else Ok(st)
  }

  function SelfDestructInstr(c: Context, st: State): Halt
    requires |st.stack| >= 1
  {
    if IsStatic(c.msg) then Halt(StaticModeViolation, st, [])
    else
      var beneficiary := AddressOf(Peek(st, 0));
      match SelfDestructCharges(c, beneficiary, st)
      case Err(status, trace) => Aborted(status, trace, st)
      case Ok(st') => Halt(Success, Note(st', SelfDestruct(c.msg.recipient, beneficiary)), [])
  }

  function Halting(c: Context, op: Byte, st: State): Halt
    requires IsHalting(op) && |st.stack| >= StackRequired(op)
  {
    if op == OP_STOP then Halt(Success, st, [])
    else if op == OP_RETURN then ReturnWith(Success, st)
    else if op == OP_REVERT then ReturnWith(Revert, st)
    else if op == OP_SELFDESTRUCT then SelfDestructInstr(c, st)
    else Halt(InvalidInstruction, st, [])
  }
}
