/** What the instructions that read from the host or write to it ask, push and cost, said without the functions
    that define them. */
module HostMeaning {
  import opened Words
  import opened InstructionTraits
  import opened Machine
  import opened MemoryExpansion
  import opened Instructions
  import opened MemoryMeaning

  // ---------- reads ----------

  /** The question that an account instruction puts to the host. */
  function AccountQuestion(op: Byte, a: Address): HostCall
    requires op == OP_BALANCE || op == OP_EXTCODESIZE || op == OP_EXTCODEHASH
  {
    if op == OP_BALANCE then GetBalance(a) else if op == OP_EXTCODESIZE then GetCodeSize(a) else GetCodeHash(a)
  }

  /** BALANCE, EXTCODESIZE and EXTCODEHASH push what the host answers about the account whose number is given by
      the low 160 bits of the operand; a cold account costs 2500 on top of the base cost. */
  lemma AccountReadMeaning(c: Context, op: Byte, st: State)
    requires (op == OP_BALANCE || op == OP_EXTCODESIZE || op == OP_EXTCODEHASH) && |st.stack| >= 1 && st.gas >= 0
    ensures var a := Peek(st, 0) % ADDRESS_MODULUS;
            var asked := Accessed(c, st.trace, a);
            var r, price := Ordinary(c, op, st), ColdCharge(c, st.trace, a, 2500);
            && (r.Ok? <==> st.gas >= price)
            && (r.Ok? ==>
                  r.st == st.(gas := st.gas - price, trace := asked + [AccountQuestion(op, a)],
                              stack := st.stack[..|st.stack| - 1] + [c.host.word(asked, AccountQuestion(op, a))]))
  {
  }

  /** SLOAD pushes the slot of the executing account; a cold slot costs 2000 on top of the base cost. */
  lemma SloadMeaning(c: Context, st: State)
    requires |st.stack| >= 1 && st.gas >= 0
    ensures var slot := Peek(st, 0);
            var access, request := AccessStorage(c.msg.recipient, slot), GetStorage(c.msg.recipient, slot);
            var asked := if c.rev >= 8 then st.trace + [access] else st.trace;
            var price := if c.rev >= 8 && c.host.isCold(st.trace, access) then 2000 else 0;
            var r := Ordinary(c, OP_SLOAD, st);
            && (r.Ok? <==> st.gas >= price)
            && (r.Ok? ==>
                  r.st == st.(gas := st.gas - price, trace := asked + [request],
                              stack := st.stack[..|st.stack| - 1] + [c.host.word(asked, request)]))
  {
  }

  /** BLOCKHASH asks for the hash of one of the last 256 blocks and pushes zero for any other number;
      SELFBALANCE asks for the balance of the executing account. */
  lemma BlockHashMeaning(c: Context, st: State)
    requires |st.stack| >= 1
    ensures var number := Peek(st, 0);
            var recent := 1 <= c.tx.number - number <= 256;
            Ordinary(c, OP_BLOCKHASH, st) ==
            Ok(st.(stack := st.stack[..|st.stack| - 1]
                              + [if recent then c.host.word(st.trace, GetBlockHash(number)) else 0],
                   trace := st.trace + if recent then [GetBlockHash(number)] else []))
    ensures var request := GetBalance(c.msg.recipient);
            Ordinary(c, OP_SELFBALANCE, st) ==
            Ok(st.(stack := st.stack + [c.host.word(st.trace, request)], trace := st.trace + [request]))
  {
    assert st.trace + [] == st.trace;
  }

  // ---------- writes ----------

  /** The price of a write to a slot, in numbers. From Berlin on (EIP-2929) a cold slot costs 2100 on top of a
      write that costs 100, 2900 or 20000; before, a write that changes nothing new has its own price in
      Constantinople (EIP-1283) and Istanbul (EIP-2200). */
  function WritePrice(rev: Revision, cold: bool, status: StorageStatus): nat {
    (if rev >= 8 && cold then 2100 else 0)
    + match status
      case Added => 20000
      case Modified => if rev >= 8 then 2900 else 5000
      case Deleted => if rev >= 8 then 2900 else 5000
      case Unchanged => [5000, 5000, 5000, 5000, 5000, 200, 5000, 800, 100, 100, 100][rev]
      case ModifiedAgain => [5000, 5000, 5000, 5000, 5000, 200, 5000, 800, 100, 100, 100][rev]
  }

  /** SSTORE tells the host to set the slot named by the top of the stack to the value below it, after
      announcing the slot from Berlin on. It does so exactly outside static mode, with more than 2300 gas from
      Istanbul on, and if the gas covers the price. */
  lemma SstoreMeaning(c: Context, st: State)
    requires |st.stack| >= 2 && st.gas >= 0
    ensures var slot, value := Peek(st, 0), Peek(st, 1);
            var access, request := AccessStorage(c.msg.recipient, slot), SetStorage(c.msg.recipient, slot, value);
            var asked := if c.rev >= 8 then st.trace + [access] else st.trace;
            var price := WritePrice(c.rev, c.host.isCold(st.trace, access), c.host.status(asked, request));
            var r := Ordinary(c, OP_SSTORE, st);
            && (r.Ok? <==> c.msg.flags % 2 == 0 && (c.rev >= 7 ==> st.gas > 2300) && st.gas >= price)
            && (r.Ok? ==>
                  r.st == st.(gas := st.gas - price, stack := st.stack[..|st.stack| - 2], trace := asked + [request]))
            && (r.Err? ==> r.status == if c.msg.flags % 2 == 1 then StaticModeViolation else OutOfGas)
  {
  }

  /** LOGn emits the range of memory with the n items below its bounds as topics, from the top down, for 8 per
      byte. Static mode refuses it. */
  lemma LogMeaning(c: Context, n: nat, st: State)
    requires n <= 4 && |st.stack| >= n + 2 && st.gas >= 0 && |st.mem| % 32 == 0
    ensures var i, size := Peek(st, 0), Peek(st, 1);
            var r, price := Ordinary(c, OP_LOG0 + n, st), GrowthPrice(st.mem, i, size) + 8 * size;
            && (r.Ok? <==> c.msg.flags % 2 == 0 && Allowed(i, size) && st.gas >= price)
            && (r.Ok? ==>
                  exists topics: seq<Word> {:trigger EmitLog(c.msg.recipient, Window(st.mem, i, size), topics)} ::
                    && |topics| == n && (forall k :: 0 <= k < n ==> topics[k] == Peek(st, 2 + k))
                    && r.st == st.(gas := st.gas - price, mem := Extended(st.mem, i, size),
                                   stack := st.stack[..|st.stack| - 2 - n],
                                   trace := st.trace
                                            + [EmitLog(c.msg.recipient, Window(st.mem, i, size), topics)]))
  {
    hide CheckMemory, Slice, GrowthPrice, Extended, Window, Topics;
    var i, size := Peek(st, 0), Peek(st, 1);
    CheckMemoryMeaning(st, i, size);
    SliceWindow(st.mem, i, size);
    TopicsBelow(st, n);
  }

  lemma TopicsBelow(st: State, n: nat)
    requires |st.stack| >= n + 2
    ensures |Topics(st, n)| == n && forall k :: 0 <= k < n ==> Topics(st, n)[k] == Peek(st, 2 + k)
  {
  }

  // ---------- self-destruction ----------

  /** What SELFDESTRUCT asks before it acts: the access from Berlin on, the own balance from Spurious Dragon
      on, and in Tangerine Whistle always, later only with a balance, whether the beneficiary exists. */
  function AskedBeforeEnd(c: Context, trace: Trace, a: Address): Trace {
    var accessed := Accessed(c, trace, a);
    var own := if c.rev >= 3 then [GetBalance(c.msg.recipient)] else [];
    accessed + own + if FundsBeneficiary(c, trace, a) then [AccountExists(a)] else []
  }

  predicate FundsBeneficiary(c: Context, trace: Trace, a: Address) {
    || c.rev == 2
    || (c.rev >= 3 && c.host.word(Accessed(c, trace, a), GetBalance(c.msg.recipient)) > 0)
  }

  /** 2600 for a cold beneficiary, and 25000 for one that is to be created. */
  function EndPrice(c: Context, trace: Trace, a: Address): nat {
    var accessed := Accessed(c, trace, a);
    var asked := if c.rev >= 3 then accessed + [GetBalance(c.msg.recipient)] else accessed;
    ColdCharge(c, trace, a, 2600)
    + if FundsBeneficiary(c, trace, a) && !c.host.accountExists(asked, AccountExists(a)) then 25000 else 0
  }

  /** SELFDESTRUCT ends the execution with success and without output exactly outside static mode and if the gas
      covers the price, after naming the executing account and the beneficiary to the host. */
  lemma SelfDestructMeaning(c: Context, st: State)
    requires |st.stack| >= 1 && st.gas >= 0
    ensures var a := Peek(st, 0) % ADDRESS_MODULUS;
            var price := EndPrice(c, st.trace, a);
            var h := Halting(c, OP_SELFDESTRUCT, st);
            if c.msg.flags % 2 == 1 then h.status == StaticModeViolation && h.output == []
            else if st.gas < price then h.status == OutOfGas && h.output == []
            else h == Halt(Success, st.(gas := st.gas - price,
                                        trace := AskedBeforeEnd(c, st.trace, a)
                                                 + [SelfDestruct(c.msg.recipient, a)]), [])
  {
    var a := Peek(st, 0) % ADDRESS_MODULUS;
    var accessed := Accessed(c, st.trace, a);
    assert accessed + [] == accessed;
    assert accessed + [GetBalance(c.msg.recipient)] + [] == accessed + [GetBalance(c.msg.recipient)];
    assert accessed + [] + [AccountExists(a)] == accessed + [AccountExists(a)];
  }
}
