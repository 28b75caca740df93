/** What the two interpreters share: the message, the host, the execution state
    and the outcome of an instruction. */
module Machine {
  import opened Words
  import opened InstructionTraits

  type Address = Word

  const INT64_MIN := -0x8000_0000_0000_0000
  const INT64_MAX := 0x7fff_ffff_ffff_ffff

  /** The type of the gas counter. */
  type Int64 = x: int | -0x8000_0000_0000_0000 <= x <= 0x7fff_ffff_ffff_ffff

  /** A message gas from which the first charge, of at most 2^32 - 1, stays in the range of the counter. */
  predicate GasFits(gas: int) {
    INT64_MIN + 0xffff_ffff <= gas <= INT64_MAX
  }

  datatype CallKind = KindCall | KindCallCode | KindDelegateCall | KindCreate | KindCreate2

  datatype Message = Message(
    kind: CallKind, flags: nat, depth: nat, gas: int,
    recipient: Address, sender: Address, codeAddress: Address,
    value: Word, salt: Word, input: seq<Byte>)

  /** The least significant flag marks a static call. */
  predicate IsStatic(m: Message) {
    m.flags % 2 == 1
  }

  const STATIC_FLAG := 1

  datatype StorageStatus = Unchanged | Modified | ModifiedAgain | Added | Deleted

  datatype CallResult = CallResult(success: bool, gasLeft: int, output: seq<Byte>, createAddress: Address)

  /** One request made to the host. */
  datatype HostCall =
    | AccessAccount(address: Address)
    | AccessStorage(address: Address, key: Word)
    | AccountExists(address: Address)
    | GetBalance(address: Address)
    | GetStorage(address: Address, key: Word)
    | SetStorage(address: Address, key: Word, value: Word)
    | GetCodeSize(address: Address)
    | GetCodeHash(address: Address)
    | CopyCode(address: Address, offset: nat, size: nat)
    | GetBlockHash(number: nat)
    | EmitLog(address: Address, data: seq<Byte>, topics: seq<Word>)
    | SelfDestruct(address: Address, beneficiary: Address)
    | Call(message: Message)

  type Trace = seq<HostCall>

  /** A deterministic host: what it answers is a function of everything it was asked before. */
  datatype Host = Host(
    word: (Trace, HostCall) -> Word,
    isCold: (Trace, HostCall) -> bool,
    accountExists: (Trace, HostCall) -> bool,
    status: (Trace, HostCall) -> StorageStatus,
    bytes: (Trace, HostCall) -> seq<Byte>,
    call: (Trace, Message) -> CallResult)

  /** The host returns no more gas than it was given, and copies no more bytes than asked. */
  ghost predicate HonestHost(h: Host) {
    && (forall t: Trace, m: Message :: m.gas >= 0 ==> 0 <= h.call(t, m).gasLeft <= m.gas)
    && (forall t: Trace, a: Address, offset: nat, size: nat ::
          |h.bytes(t, CopyCode(a, offset, size))| <= size)
  }

  /** The transaction and block values that the simple context instructions push. */
  datatype TxContext = TxContext(
    origin: Word, gasPrice: Word, coinbase: Word, timestamp: Word, number: Word,
    difficulty: Word, gasLimit: Word, chainId: Word, baseFee: Word)

  /** Everything that stays fixed during one execution. */
  datatype Context = Context(
    rev: Revision, msg: Message, code: seq<Byte>, host: Host, tx: TxContext,
    keccak: seq<Byte> -> Word)

  /** The execution state. The top of the stack is its last element. */
  datatype State = State(gas: int, stack: seq<Word>, mem: seq<Byte>, returnData: seq<Byte>, trace: Trace)

  datatype Status =
    | Success | Revert | OutOfGas | StackOverflow | StackUnderflow | UndefinedInstruction
    | InvalidInstruction | BadJumpDestination | StaticModeViolation | InvalidMemoryAccess
    | UndefinedBehaviour

  type FailureStatus = s: Status | !s.Success? && !s.Revert? && !s.UndefinedBehaviour? witness OutOfGas

  function InitialState(c: Context): State {
    State(c.msg.gas, [], [], [], [])
  }

  /** The outcome of an instruction that does not end the execution by itself. A failed instruction
      leaves nothing behind but the requests it made before it failed. */
  datatype Outcome = Ok(st: State) | Err(status: FailureStatus, trace: Trace) {
    predicate IsFailure() {
      Err?
    }

    function PropagateFailure(): Outcome
      requires Err?
    {
      this
    }

    function Extract(): State
      requires Ok?
    {
      st
    }
  }

  /** The end of an execution. */
  datatype Halt = Halt(status: Status, st: State, output: seq<Byte>)

  datatype Result = Result(status: Status, gasLeft: int, output: seq<Byte>, trace: Trace)

  /** The result construction at the end of both execute functions. */
  function MakeResult(h: Halt): Result {
    Result(h.status, if h.status.Success? || h.status.Revert? then h.st.gas else 0, h.output, h.st.trace)
  }

  /** What a caller may observe of a result: the requests made by a failed execution are undone,
      and which failure it was is left to the interpreter. A stuck execution has undefined behaviour. */
  datatype Observation =
    | Completed(reverted: bool, gasLeft: int, output: seq<Byte>, trace: Trace)
    | Failed
    | Stuck

  function Observe(r: Result): Observation {
    if r.status.Success? || r.status.Revert? then Completed(r.status.Revert?, r.gasLeft, r.output, r.trace)
    else if r.status.UndefinedBehaviour? then Stuck
    else Failed
  }

  // ---------- stack and gas helpers ----------

  function Peek(st: State, i: nat): Word
    requires i < |st.stack|
  {
    st.stack[|st.stack| - 1 - i]
  }

  function Drop(st: State, n: nat): State
    requires n <= |st.stack|
  {
    st.(stack := st.stack[..|st.stack| - n])
  }

  function Push(st: State, w: Word): State {
    st.(stack := st.stack + [w])
  }

  /** Pops n items and pushes one. */
  function Replace(st: State, n: nat, w: Word): State
    requires n <= |st.stack|
  {
    Push(Drop(st, n), w)
  }

  function Fail(status: FailureStatus, st: State): Outcome {
    Err(status, st.trace)
  }

  /** The end of an execution whose last instruction failed. */
  function Aborted(status: FailureStatus, trace: Trace, st: State): Halt {
    Halt(status, st.(trace := trace), [])
  }

  function Charge(st: State, cost: int): Outcome {
    if st.gas - cost < 0 then Fail(OutOfGas, st) else Ok(st.(gas := st.gas - cost))
  }

  function Note(st: State, call: HostCall): State {
    st.(trace := st.trace + [call])
  }
}
