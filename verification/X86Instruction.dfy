/** The subset of x86-64 instructions that the fault-skip decoder knows (arch/x86_64/decode.h). */
module X86Instruction {
  import opened Bits

  datatype Register =
    | RAX | RCX | RDX | RBX | RSP | RBP | RSI | RDI | R8 | R9 | R10 | R11 | R12 | R13 | R14 | R15
    | EAX | ECX | EDX | EBX | ESP | EBP | ESI | EDI | R8D | R9D | R10D | R11D | R12D | R13D | R14D | R15D
    | AX | CX | DX | BX | SP | BP | SI | DI | R8W | R9W | R10W | R11W | R12W | R13W | R14W | R15W
    | AL | CL | DL | BL | SPL | BPL | SIL | DIL | R8B | R9B | R10B | R11B | R12B | R13B | R14B | R15B
    | AH | CH | DH | BH
    | RIZ

  /** Operands as the decoder fills them in. Memory operands and the accumulator of a direct-offset move get
      no size. */
  datatype Operand =
    | RegisterOperand(reg: Register, size: nat)
    | AccumulatorOperand(reg: Register)
    | MemoryOperand(displacement: int, base: Register, scale: int, index: Register)
    | MemOffOperand(offset: Word)

  /** A MOV instruction: operands[0] is the source and operands[1] the destination. */
  datatype Instruction = Instruction(src: Operand, dst: Operand, length: nat)

  /** What decoding can come to. Running off the end of the readable bytes is `Truncated`; the opcode 0xcd ends
      in a function that returns no value, which C leaves undefined. */
  datatype Outcome = Decoded(inst: Instruction) | Rejected | Truncated | Undefined

  datatype Prefixes = Prefixes(addressSize: bool, operandSize: bool, rex: bool, w: bool, r: bool, x: bool, b: bool)

  const NONE: Prefixes := Prefixes(false, false, false, false, false, false, false)

  // Register files, by hardware number.

  function Reg64(n: nat): Register {
    match n
    case 0 => RAX case 1 => RCX case 2 => RDX case 3 => RBX case 4 => RSP case 5 => RBP case 6 => RSI
    case 7 => RDI case 8 => R8 case 9 => R9 case 10 => R10 case 11 => R11 case 12 => R12 case 13 => R13
    case 14 => R14 case _ => R15
  }

  function Reg32(n: nat): Register {
    match n
    case 0 => EAX case 1 => ECX case 2 => EDX case 3 => EBX case 4 => ESP case 5 => EBP case 6 => ESI
    case 7 => EDI case 8 => R8D case 9 => R9D case 10 => R10D case 11 => R11D case 12 => R12D case 13 => R13D
    case 14 => R14D case _ => R15D
  }

  function Reg16(n: nat): Register {
    match n
    case 0 => AX case 1 => CX case 2 => DX case 3 => BX case 4 => SP case 5 => BP case 6 => SI case 7 => DI
    case 8 => R8W case 9 => R9W case 10 => R10W case 11 => R11W case 12 => R12W case 13 => R13W
    case 14 => R14W case _ => R15W
  }

  /** Numbers 4 to 7 are the high halves of the first four registers, unless there is a REX prefix. */
  function Reg8(n: nat, rex: bool): Register {
    if 4 <= n < 8 && !rex then (match n case 4 => AH case 5 => CH case 6 => DH case _ => BH)
    else
      match n
      case 0 => AL case 1 => CL case 2 => DL case 3 => BL case 4 => SPL case 5 => BPL case 6 => SIL case 7 => DIL
      case 8 => R8B case 9 => R9B case 10 => R10B case 11 => R11B case 12 => R12B case 13 => R13B
      case 14 => R14B case _ => R15B
  }

  function Number(r: Register): nat {
    match r
    case AH => 4 case CH => 5 case DH => 6 case BH => 7
    case RAX | EAX | AX | AL => 0
    case RCX | ECX | CX | CL => 1
    case RDX | EDX | DX | DL => 2
    case RBX | EBX | BX | BL => 3
    case RSP | ESP | SP | SPL => 4
    case RBP | EBP | BP | BPL => 5
    case RSI | ESI | SI | SIL => 6
    case RDI | EDI | DI | DIL => 7
    case R8 | R8D | R8W | R8B => 8
    case R9 | R9D | R9W | R9B => 9
    case R10 | R10D | R10W | R10B => 10
    case R11 | R11D | R11W | R11B => 11
    case R12 | R12D | R12W | R12B => 12
    case R13 | R13D | R13W | R13B => 13
    case R14 | R14D | R14W | R14B => 14
    case R15 | R15D | R15W | R15B => 15
    case RIZ => 16
  }

  function Width(r: Register): nat {
    match r
    case RAX | RCX | RDX | RBX | RSP | RBP | RSI | RDI | R8 | R9 | R10 | R11 | R12 | R13 | R14 | R15 => 8
    case EAX | ECX | EDX | EBX | ESP | EBP | ESI | EDI | R8D | R9D | R10D | R11D | R12D | R13D | R14D | R15D => 4
    case AX | CX | DX | BX | SP | BP | SI | DI | R8W | R9W | R10W | R11W | R12W | R13W | R14W | R15W => 2
    case _ => 1
  }

  // The register files as the manual lists them (Intel SDM Vol. 2A, tables 2-2 and 3-1), by number.

  lemma RegisterFile64()
    ensures Reg64(0) == RAX && Reg64(1) == RCX && Reg64(2) == RDX && Reg64(3) == RBX
    ensures Reg64(4) == RSP && Reg64(5) == RBP && Reg64(6) == RSI && Reg64(7) == RDI
    ensures Reg64(8) == R8 && Reg64(9) == R9 && Reg64(10) == R10 && Reg64(11) == R11
    ensures Reg64(12) == R12 && Reg64(13) == R13 && Reg64(14) == R14 && Reg64(15) == R15
  {
  }

  lemma RegisterFile32()
    ensures Reg32(0) == EAX && Reg32(1) == ECX && Reg32(2) == EDX && Reg32(3) == EBX
    ensures Reg32(4) == ESP && Reg32(5) == EBP && Reg32(6) == ESI && Reg32(7) == EDI
    ensures Reg32(8) == R8D && Reg32(9) == R9D && Reg32(10) == R10D && Reg32(11) == R11D
    ensures Reg32(12) == R12D && Reg32(13) == R13D && Reg32(14) == R14D && Reg32(15) == R15D
  {
  }

  lemma RegisterFile16()
    ensures Reg16(0) == AX && Reg16(1) == CX && Reg16(2) == DX && Reg16(3) == BX
    ensures Reg16(4) == SP && Reg16(5) == BP && Reg16(6) == SI && Reg16(7) == DI
    ensures Reg16(8) == R8W && Reg16(9) == R9W && Reg16(10) == R10W && Reg16(11) == R11W
    ensures Reg16(12) == R12W && Reg16(13) == R13W && Reg16(14) == R14W && Reg16(15) == R15W
  {
  }

  lemma RegisterFile8()
    ensures Reg8(0, true) == AL && Reg8(1, true) == CL && Reg8(2, true) == DL && Reg8(3, true) == BL
    ensures Reg8(4, true) == SPL && Reg8(5, true) == BPL && Reg8(6, true) == SIL && Reg8(7, true) == DIL
    ensures Reg8(8, true) == R8B && Reg8(9, true) == R9B && Reg8(10, true) == R10B && Reg8(11, true) == R11B
    ensures Reg8(12, true) == R12B && Reg8(13, true) == R13B && Reg8(14, true) == R14B && Reg8(15, true) == R15B
  {
  }

  lemma RegisterFile8WithoutRex()
    ensures Reg8(0, false) == AL && Reg8(1, false) == CL && Reg8(2, false) == DL && Reg8(3, false) == BL
    ensures Reg8(4, false) == AH && Reg8(5, false) == CH && Reg8(6, false) == DH && Reg8(7, false) == BH
    ensures Reg8(8, false) == R8B && Reg8(9, false) == R9B && Reg8(10, false) == R10B && Reg8(11, false) == R11B
    ensures Reg8(12, false) == R12B && Reg8(13, false) == R13B && Reg8(14, false) == R14B && Reg8(15, false) == R15B
  {
  }
}
