/** The gas and stack tables as they are published: by opcode number, the gas table as the Frontier prices and
    what each revision changes in them. */
module TraitsMeaning {
  import opened InstructionTraits
  import opened Words

  /** The numbers behind the names, in the order of the revisions and of the opcodes. */
  lemma Numbers()
    ensures [FRONTIER, HOMESTEAD, TANGERINE_WHISTLE, SPURIOUS_DRAGON, BYZANTIUM, CONSTANTINOPLE, PETERSBURG, ISTANBUL,
             BERLIN, LONDON, SHANGHAI] == [0, 1, 2, 3, 4, 5, 6, 7, 8, 9, 10]
    ensures [OP_STOP, OP_ADD, OP_MUL, OP_SUB, OP_DIV, OP_SDIV, OP_MOD, OP_SMOD, OP_ADDMOD, OP_MULMOD, OP_EXP,
             OP_SIGNEXTEND] == [0x00, 0x01, 0x02, 0x03, 0x04, 0x05, 0x06, 0x07, 0x08, 0x09, 0x0a, 0x0b]
    ensures [OP_LT, OP_GT, OP_SLT, OP_SGT, OP_EQ, OP_ISZERO, OP_AND, OP_OR, OP_XOR, OP_NOT, OP_BYTE, OP_SHL, OP_SHR,
             OP_SAR, OP_KECCAK256] == [0x10, 0x11, 0x12, 0x13, 0x14, 0x15, 0x16, 0x17, 0x18, 0x19, 0x1a, 0x1b, 0x1c,
                                       0x1d, 0x20]
    ensures [OP_ADDRESS, OP_BALANCE, OP_ORIGIN, OP_CALLER, OP_CALLVALUE, OP_CALLDATALOAD, OP_CALLDATASIZE,
             OP_CALLDATACOPY, OP_CODESIZE, OP_CODECOPY, OP_GASPRICE, OP_EXTCODESIZE, OP_EXTCODECOPY,
             OP_RETURNDATASIZE, OP_RETURNDATACOPY, OP_EXTCODEHASH]
            == [0x30, 0x31, 0x32, 0x33, 0x34, 0x35, 0x36, 0x37, 0x38, 0x39, 0x3a, 0x3b, 0x3c, 0x3d, 0x3e, 0x3f]
    ensures [OP_BLOCKHASH, OP_COINBASE, OP_TIMESTAMP, OP_NUMBER, OP_DIFFICULTY, OP_GASLIMIT, OP_CHAINID,
             OP_SELFBALANCE, OP_BASEFEE] == [0x40, 0x41, 0x42, 0x43, 0x44, 0x45, 0x46, 0x47, 0x48]
    ensures [OP_POP, OP_MLOAD, OP_MSTORE, OP_MSTORE8, OP_SLOAD, OP_SSTORE, OP_JUMP, OP_JUMPI, OP_PC, OP_MSIZE, OP_GAS,
             OP_JUMPDEST] == [0x50, 0x51, 0x52, 0x53, 0x54, 0x55, 0x56, 0x57, 0x58, 0x59, 0x5a, 0x5b]
    ensures [OP_PUSH1, OP_PUSH32, OP_DUP1, OP_DUP16, OP_SWAP1, OP_SWAP16, OP_LOG0, OP_LOG4]
            == [0x60, 0x7f, 0x80, 0x8f, 0x90, 0x9f, 0xa0, 0xa4]
    ensures [OP_CREATE, OP_CALL, OP_CALLCODE, OP_RETURN, OP_DELEGATECALL, OP_CREATE2, OP_STATICCALL, OP_REVERT,
             OP_INVALID, OP_SELFDESTRUCT] == [0xf0, 0xf1, 0xf2, 0xf3, 0xf4, 0xf5, 0xfa, 0xfd, 0xfe, 0xff]
  {
  }

  /** The prices of Frontier, -1 for an instruction that it does not define. */
  function FrontierPrice(op: Byte): int {
    if 0x60 <= op <= 0x9f then 3
    else
      match op
      case 0x00 | 0x55 | 0xf3 | 0xfe | 0xff => 0
      case 0x5b => 1
      case 0x30 | 0x32 | 0x33 | 0x34 | 0x36 | 0x38 | 0x3a => 2
      case 0x41 | 0x42 | 0x43 | 0x44 | 0x45 | 0x50 | 0x58 | 0x59 | 0x5a => 2
      case 0x01 | 0x03 | 0x10 | 0x11 | 0x12 | 0x13 | 0x14 | 0x15 | 0x16 | 0x17 | 0x18 | 0x19 | 0x1a => 3
      case 0x35 | 0x37 | 0x39 | 0x51 | 0x52 | 0x53 => 3
      case 0x02 | 0x04 | 0x05 | 0x06 | 0x07 | 0x0b => 5
      case 0x08 | 0x09 | 0x56 => 8
      case 0x0a | 0x57 => 10
      case 0x31 | 0x3b | 0x3c | 0x40 => 20
      case 0x20 => 30
      case 0xf1 | 0xf2 => 40
      case 0x54 => 50
      case 0xa0 => 375
      case 0xa1 => 750
      case 0xa2 => 1125
      case 0xa3 => 1500
      case 0xa4 => 1875
      case 0xf0 => 32000
      case _ => -1
  }

  /** The price that a revision introduces or changes, -1 where it leaves the table as it is. Homestead is 1,
      Tangerine Whistle 2, Byzantium 4, Constantinople 5, Istanbul 7, Berlin 8 and London 9. */
  function NewPrice(rev: Revision, op: Byte): int {
    match (rev, op)
    case (1, 0xf4) => 40
    case (2, 0x31) => 400
    case (2, 0x3b) => 700
    case (2, 0x3c) => 700
    case (2, 0x54) => 200
    case (2, 0xf1) => 700
    case (2, 0xf2) => 700
    case (2, 0xf4) => 700
    case (2, 0xff) => 5000
    case (4, 0x3d) => 2
    case (4, 0x3e) => 3
    case (4, 0xfa) => 700
    case (4, 0xfd) => 0
    case (5, 0x1b) => 3
    case (5, 0x1c) => 3
    case (5, 0x1d) => 3
    case (5, 0x3f) => 400
    case (5, 0xf5) => 32000
    case (7, 0x31) => 700
    case (7, 0x3f) => 700
    case (7, 0x46) => 2
    case (7, 0x47) => 5
    case (7, 0x54) => 800
    case (8, 0x31) => 100
    case (8, 0x3b) => 100
    case (8, 0x3c) => 100
    case (8, 0x3f) => 100
    case (8, 0x54) => 100
    case (8, 0xf1) => 100
    case (8, 0xf2) => 100
    case (8, 0xf4) => 100
    case (8, 0xfa) => 100
    case (9, 0x48) => 2
    case _ => -1
  }

  /** The price in a revision is the last one that has been set up to it. */
  function Price(rev: Revision, op: Byte): int {
    if rev == 0 then FrontierPrice(op)
    else if NewPrice(rev, op) >= 0 then NewPrice(rev, op)
    else Price(rev - 1, op)
  }

  /** The base cost of every instruction in every revision. */
  lemma {:induction false} GasTable(rev: Revision, op: Byte)
    ensures GasCost(rev, op) == Price(rev, op)
  {
    hide GasCost, FrontierPrice, NewPrice;
    if rev == 0 {
      FrontierTable(op);
    } else {
      GasTable(rev - 1, op);
      NextTable(rev, op);
    }
  }

  lemma FrontierTable(op: Byte)
    ensures GasCost(FRONTIER, op) == FrontierPrice(op)
  {
  }

  lemma NextTable(rev: Revision, op: Byte)
    requires rev > FRONTIER
    ensures GasCost(rev, op) == if NewPrice(rev, op) >= 0 then NewPrice(rev, op) else GasCost(rev - 1, op)
  {
  }

  /** The items that an instruction accesses and how many it adds, by number. An instruction that no revision
      defines has neither. */
  function Items(op: Byte): (int, int) {
    if 0x60 <= op <= 0x7f then (0, 1)
    else if 0x80 <= op <= 0x8f then (op - 0x7f, 1)
    else if 0x90 <= op <= 0x9f then (op - 0x8e, 0)
    else
      match op
      case 0x01 | 0x02 | 0x03 | 0x04 | 0x05 | 0x06 | 0x07 | 0x0a | 0x0b => (2, -1)
      case 0x08 | 0x09 => (3, -2)
      case 0x10 | 0x11 | 0x12 | 0x13 | 0x14 | 0x16 | 0x17 | 0x18 | 0x1a | 0x1b | 0x1c | 0x1d | 0x20 => (2, -1)
      case 0x15 | 0x19 | 0x31 | 0x35 | 0x3b | 0x3f | 0x40 | 0x51 | 0x54 => (1, 0)
      case 0x30 | 0x32 | 0x33 | 0x34 | 0x36 | 0x38 | 0x3a | 0x3d => (0, 1)
      case 0x41 | 0x42 | 0x43 | 0x44 | 0x45 | 0x46 | 0x47 | 0x48 | 0x58 | 0x59 | 0x5a => (0, 1)
      case 0x37 | 0x39 | 0x3e => (3, -3)
      case 0x3c => (4, -4)
      case 0x50 | 0x56 | 0xff => (1, -1)
      case 0x52 | 0x53 | 0x55 | 0x57 | 0xa0 | 0xf3 | 0xfd => (2, -2)
      case 0xa1 => (3, -3)
      case 0xa2 => (4, -4)
      case 0xa3 => (5, -5)
      case 0xa4 => (6, -6)
      case 0xf0 => (3, -2)
      case 0xf1 | 0xf2 => (7, -6)
      case 0xf4 | 0xfa => (6, -5)
      case 0xf5 => (4, -3)
      case _ => (0, 0)
  }

  /** The stack numbers of every instruction that a revision defines. */
  lemma StackTable(rev: Revision, op: Byte)
    requires Defined(rev, op)
    ensures (StackRequired(op), StackChange(op)) == Items(op)
  {
  }
}
