/** Opcodes, revisions, base gas costs and stack traits: the tables that both
    interpreters are built from. */
module InstructionTraits {
  import opened Words

  // Revisions, in the order in which they were introduced.
  const FRONTIER := 0
  const HOMESTEAD := 1
  const TANGERINE_WHISTLE := 2
  const SPURIOUS_DRAGON := 3
  const BYZANTIUM := 4
  const CONSTANTINOPLE := 5
  const PETERSBURG := 6
  const ISTANBUL := 7
  const BERLIN := 8
  const LONDON := 9
  const SHANGHAI := 10
  const LATEST_REVISION := SHANGHAI

  type Revision = r: nat | r <= 10

  const OP_STOP: Byte := 0x00
  const OP_ADD: Byte := 0x01
  const OP_MUL: Byte := 0x02
  const OP_SUB: Byte := 0x03
  const OP_DIV: Byte := 0x04
  const OP_SDIV: Byte := 0x05
  const OP_MOD: Byte := 0x06
  const OP_SMOD: Byte := 0x07
  const OP_ADDMOD: Byte := 0x08
  const OP_MULMOD: Byte := 0x09
  const OP_EXP: Byte := 0x0a
  const OP_SIGNEXTEND: Byte := 0x0b
  const OP_LT: Byte := 0x10
  const OP_GT: Byte := 0x11
  const OP_SLT: Byte := 0x12
  const OP_SGT: Byte := 0x13
  const OP_EQ: Byte := 0x14
  const OP_ISZERO: Byte := 0x15
  const OP_AND: Byte := 0x16
  const OP_OR: Byte := 0x17
  const OP_XOR: Byte := 0x18
  const OP_NOT: Byte := 0x19
  const OP_BYTE: Byte := 0x1a
  const OP_SHL: Byte := 0x1b
  const OP_SHR: Byte := 0x1c
  const OP_SAR: Byte := 0x1d
  const OP_KECCAK256: Byte := 0x20
  const OP_ADDRESS: Byte := 0x30
  const OP_BALANCE: Byte := 0x31
  const OP_ORIGIN: Byte := 0x32
  const OP_CALLER: Byte := 0x33
  const OP_CALLVALUE: Byte := 0x34
  const OP_CALLDATALOAD: Byte := 0x35
  const OP_CALLDATASIZE: Byte := 0x36
  const OP_CALLDATACOPY: Byte := 0x37
  const OP_CODESIZE: Byte := 0x38
  const OP_CODECOPY: Byte := 0x39
  const OP_GASPRICE: Byte := 0x3a
  const OP_EXTCODESIZE: Byte := 0x3b
  const OP_EXTCODECOPY: Byte := 0x3c
  const OP_RETURNDATASIZE: Byte := 0x3d
  const OP_RETURNDATACOPY: Byte := 0x3e
  const OP_EXTCODEHASH: Byte := 0x3f
  const OP_BLOCKHASH: Byte := 0x40
  const OP_COINBASE: Byte := 0x41
  const OP_TIMESTAMP: Byte := 0x42
  const OP_NUMBER: Byte := 0x43
  const OP_DIFFICULTY: Byte := 0x44
  const OP_GASLIMIT: Byte := 0x45
  const OP_CHAINID: Byte := 0x46
  const OP_SELFBALANCE: Byte := 0x47
  const OP_BASEFEE: Byte := 0x48
  const OP_POP: Byte := 0x50
  const OP_MLOAD: Byte := 0x51
  const OP_MSTORE: Byte := 0x52
  const OP_MSTORE8: Byte := 0x53
  const OP_SLOAD: Byte := 0x54
  const OP_SSTORE: Byte := 0x55
  const OP_JUMP: Byte := 0x56
  const OP_JUMPI: Byte := 0x57
  const OP_PC: Byte := 0x58
  const OP_MSIZE: Byte := 0x59
  const OP_GAS: Byte := 0x5a
  const OP_JUMPDEST: Byte := 0x5b
  const OP_PUSH1: Byte := 0x60
  const OP_PUSH8: Byte := 0x67
  const OP_PUSH32: Byte := 0x7f
  const OP_DUP1: Byte := 0x80
  const OP_DUP16: Byte := 0x8f
  const OP_SWAP1: Byte := 0x90
  const OP_SWAP16: Byte := 0x9f
  const OP_LOG0: Byte := 0xa0
  const OP_LOG4: Byte := 0xa4
  const OP_CREATE: Byte := 0xf0
  const OP_CALL: Byte := 0xf1
  const OP_CALLCODE: Byte := 0xf2
  const OP_RETURN: Byte := 0xf3
  const OP_DELEGATECALL: Byte := 0xf4
  const OP_CREATE2: Byte := 0xf5
  const OP_STATICCALL: Byte := 0xfa
  const OP_REVERT: Byte := 0xfd
  const OP_INVALID: Byte := 0xfe
  const OP_SELFDESTRUCT: Byte := 0xff

  /** The marker of an instruction that a revision does not define. */
  const UNDEFINED := -1

  const COLD_SLOAD_COST := 2100
  const COLD_ACCOUNT_ACCESS_COST := 2600
  const WARM_STORAGE_READ_COST := 100
  const ADDITIONAL_COLD_ACCOUNT_ACCESS_COST := 2500

  const STACK_LIMIT := 1024

  predicate IsPush(op: Byte) {
    OP_PUSH1 <= op <= OP_PUSH32
  }

  /** The number of immediate bytes that follow the opcode. */
  function PushSize(op: Byte): (n: nat)
    ensures n <= 32
  {
    if IsPush(op) then op - OP_PUSH1 + 1 else 0
  }

  function Since(rev: Revision, first: nat, cost: int): int {
    if rev >= first then cost else UNDEFINED
  }

  /** The base gas cost of an instruction in a revision, or UNDEFINED. */
  function GasCost(rev: Revision, op: Byte): int {
    if op < 0x50 then ComputeGasCost(rev, op)
    else if op <= OP_JUMPDEST then StorageAndFlowGasCost(rev, op)
    else if OP_PUSH1 <= op <= OP_SWAP16 then 3
    else if OP_LOG0 <= op <= OP_LOG4 then (op - OP_LOG0 + 1) * 375
    else SystemGasCost(rev, op)
  }

  function ComputeGasCost(rev: Revision, op: Byte): int {
    if op == OP_STOP then 0
    else if op == OP_ADD || op == OP_SUB then 3
    else if op == OP_ADDMOD || op == OP_MULMOD then 8
    else if op == OP_EXP then 10
    else if op <= OP_SIGNEXTEND then 5
    else if OP_LT <= op <= OP_BYTE then 3
    else if OP_SHL <= op <= OP_SAR then Since(rev, CONSTANTINOPLE, 3)
    else if op == OP_KECCAK256 then 30
    else if op == OP_BALANCE then
      if rev >= BERLIN then WARM_STORAGE_READ_COST
      else if rev >= ISTANBUL then 700 else if rev >= TANGERINE_WHISTLE then 400 else 20
    else if op == OP_CALLDATALOAD || op == OP_CALLDATACOPY || op == OP_CODECOPY then 3
    else if op == OP_EXTCODESIZE || op == OP_EXTCODECOPY then
      if rev >= BERLIN then WARM_STORAGE_READ_COST else if rev >= TANGERINE_WHISTLE then 700 else 20
    else if op == OP_RETURNDATASIZE then Since(rev, BYZANTIUM, 2)
    else if op == OP_RETURNDATACOPY then Since(rev, BYZANTIUM, 3)
    else if op == OP_EXTCODEHASH then
      if rev >= BERLIN then WARM_STORAGE_READ_COST
      else if rev >= ISTANBUL then 700 else Since(rev, CONSTANTINOPLE, 400)
    else if OP_ADDRESS <= op <= OP_GASPRICE then 2
    else if op == OP_BLOCKHASH then 20
    else if OP_COINBASE <= op <= OP_GASLIMIT then 2
    else if op == OP_CHAINID then Since(rev, ISTANBUL, 2)
    else if op == OP_SELFBALANCE then Since(rev, ISTANBUL, 5)
    else if op == OP_BASEFEE then Since(rev, LONDON, 2)
    else UNDEFINED
  }

  function StorageAndFlowGasCost(rev: Revision, op: Byte): int {
    if op == OP_POP || op == OP_PC || op == OP_MSIZE || op == OP_GAS then 2
    else if OP_MLOAD <= op <= OP_MSTORE8 then 3
    else if op == OP_SLOAD then
      if rev >= BERLIN then WARM_STORAGE_READ_COST
      else if rev >= ISTANBUL then 800 else if rev >= TANGERINE_WHISTLE then 200 else 50
    else if op == OP_SSTORE then 0
    else if op == OP_JUMP then 8
    else if op == OP_JUMPI then 10
    else if op == OP_JUMPDEST then 1
    else UNDEFINED
  }

  function SystemGasCost(rev: Revision, op: Byte): int {
    if op == OP_CREATE then 32000
    else if op == OP_CALL || op == OP_CALLCODE then CallGasCost(rev)
    else if op == OP_RETURN || op == OP_INVALID then 0
    else if op == OP_DELEGATECALL then if rev >= HOMESTEAD then CallGasCost(rev) else UNDEFINED
    else if op == OP_CREATE2 then Since(rev, CONSTANTINOPLE, 32000)
    else if op == OP_STATICCALL then if rev >= BYZANTIUM then CallGasCost(rev) else UNDEFINED
    else if op == OP_REVERT then Since(rev, BYZANTIUM, 0)
    else if op == OP_SELFDESTRUCT then if rev >= TANGERINE_WHISTLE then 5000 else 0
    else UNDEFINED
  }

  function CallGasCost(rev: Revision): nat {
    if rev >= BERLIN then WARM_STORAGE_READ_COST else if rev >= TANGERINE_WHISTLE then 700 else 40
  }

  predicate Defined(rev: Revision, op: Byte) {
    GasCost(rev, op) != UNDEFINED
  }

  /** The number of stack items an instruction accesses. */
  function StackRequired(op: Byte): int {
    if op == OP_STOP then 0
    else if op == OP_ADDMOD || op == OP_MULMOD then 3
    else if op == OP_ISZERO || op == OP_NOT then 1
    else if op <= OP_SIGNEXTEND || OP_LT <= op <= OP_SAR || op == OP_KECCAK256 then 2
    else if op == OP_BALANCE || op == OP_CALLDATALOAD || op == OP_EXTCODESIZE || op == OP_EXTCODEHASH then 1
    else if op == OP_CALLDATACOPY || op == OP_CODECOPY || op == OP_RETURNDATACOPY then 3
    else if op == OP_EXTCODECOPY then 4
    else if op == OP_BLOCKHASH then 1
    else if op == OP_POP || op == OP_MLOAD || op == OP_SLOAD || op == OP_JUMP then 1
    else if op == OP_MSTORE || op == OP_MSTORE8 || op == OP_SSTORE || op == OP_JUMPI then 2
    else if OP_DUP1 <= op <= OP_DUP16 then op - OP_DUP1 + 1
    else if OP_SWAP1 <= op <= OP_SWAP16 then op - OP_SWAP1 + 2
    else if OP_LOG0 <= op <= OP_LOG4 then op - OP_LOG0 + 2
    else if op == OP_CREATE then 3
    else if op == OP_CALL || op == OP_CALLCODE then 7
    else if op == OP_RETURN || op == OP_REVERT then 2
    else if op == OP_DELEGATECALL || op == OP_STATICCALL then 6
    else if op == OP_CREATE2 then 4
    else if op == OP_SELFDESTRUCT then 1
    else 0
  }

  /** The change of the stack height an instruction causes. */
  function StackChange(op: Byte): int {
    if op == OP_STOP then 0
    else if op == OP_ADDMOD || op == OP_MULMOD then -2
    else if op == OP_ISZERO || op == OP_NOT then 0
    else if op <= OP_SIGNEXTEND || OP_LT <= op <= OP_SAR || op == OP_KECCAK256 then -1
    else if op == OP_BALANCE || op == OP_CALLDATALOAD || op == OP_EXTCODESIZE || op == OP_EXTCODEHASH then 0
    else if op == OP_CALLDATACOPY || op == OP_CODECOPY || op == OP_RETURNDATACOPY then -3
    else if op == OP_EXTCODECOPY then -4
    else if op == OP_BLOCKHASH then 0
    else if OP_ADDRESS <= op <= OP_BASEFEE then 1
    else if op == OP_POP || op == OP_JUMP then -1
    else if op == OP_MLOAD || op == OP_SLOAD then 0
    else if op == OP_MSTORE || op == OP_MSTORE8 || op == OP_SSTORE || op == OP_JUMPI then -2
    else if op == OP_PC || op == OP_MSIZE || op == OP_GAS then 1
    else if IsPush(op) || OP_DUP1 <= op <= OP_DUP16 then 1
    else if OP_LOG0 <= op <= OP_LOG4 then OP_LOG0 - op - 2
    else if op == OP_CREATE then -2
    else if op == OP_CALL || op == OP_CALLCODE then -6
    else if op == OP_RETURN || op == OP_REVERT then -2
    else if op == OP_DELEGATECALL || op == OP_STATICCALL then -5
    else if op == OP_CREATE2 then -3
    else if op == OP_SELFDESTRUCT then -1
    else 0
  }

  /** The Advanced op table: an undefined instruction costs nothing and asks nothing of the stack. */
  function TableCost(rev: Revision, op: Byte): int {
    if Defined(rev, op) then GasCost(rev, op) else 0
  }

  function TableRequired(rev: Revision, op: Byte): int {
    if Defined(rev, op) then StackRequired(op) else 0
  }

  function TableChange(rev: Revision, op: Byte): int {
    if Defined(rev, op) then StackChange(op) else 0
  }

  /** The bounds on the tables that both interpreters rely on. */
  lemma TableBounds(rev: Revision, op: Byte)
    ensures UNDEFINED <= GasCost(rev, op) <= 32000
    ensures 0 <= TableCost(rev, op) <= 32000
    ensures 0 <= StackRequired(op) <= 17 && -6 <= StackChange(op) <= 1
    ensures StackRequired(op) + StackChange(op) >= 0
    ensures 0 <= TableRequired(rev, op) <= 17 && -6 <= TableChange(rev, op) <= 1
    ensures TableRequired(rev, op) + TableChange(rev, op) >= 0
  {
  }

  /** The instructions whose cost and meaning the block structure depends on. */
  lemma FlowCosts(rev: Revision)
    ensures GasCost(rev, OP_JUMPDEST) == 1
    ensures GasCost(rev, OP_JUMP) == 8 && GasCost(rev, OP_JUMPI) == 10
    ensures GasCost(rev, OP_STOP) == 0
  {
  }
}
