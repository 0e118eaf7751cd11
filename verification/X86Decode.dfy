/** The partial x86-64 decoder behind the data-fault skip handler (arch/x86_64/decode.c). */
module X86Decode {
  import opened Bits
  import opened X86Instruction

  type Code = seq<Byte>

  // What the decoder accepts and reports, as a function of the bytes.

  predicate IsPrefix(b: Byte) {
    b == 0x67 || b == 0x66 || 0x40 <= b < 0x50
  }

  /** Fold one prefix byte in. The low four bits of a REX prefix are W, R, X and B. */
  function WithPrefix(p: Prefixes, b: Byte): Prefixes
    requires IsPrefix(b)
  {
    if b == 0x67 then p.(addressSize := true)
    else if b == 0x66 then p.(operandSize := true)
    else Prefixes(p.addressSize, p.operandSize, true, p.w || b / 8 % 2 == 1, p.r || b / 4 % 2 == 1,
                  p.x || b / 2 % 2 == 1, p.b || b % 2 == 1)
  }

  function PrefixesFrom(code: Code, pos: nat, p: Prefixes): Prefixes
    decreases |code| - pos
  {
    if pos < |code| && IsPrefix(code[pos]) then PrefixesFrom(code, pos + 1, WithPrefix(p, code[pos])) else p
  }

  /** The position of the first byte that is no prefix. */
  function OpcodeAt(code: Code, pos: nat): (at: nat)
    ensures at >= pos
    decreases |code| - pos
  {
    if pos < |code| && IsPrefix(code[pos]) then OpcodeAt(code, pos + 1) else pos
  }

  function RegOperand(p: Prefixes, reg: nat, byteWide: bool): Operand {
    var n := reg + if p.r then 8 else 0;
    if byteWide then RegisterOperand(Reg8(n, p.rex), 1)
    else if p.w then RegisterOperand(Reg64(n), 8)
    else if p.operandSize then RegisterOperand(Reg16(n), 2)
    else RegisterOperand(Reg32(n), 4)
  }

  function BaseRegister(p: Prefixes, rm: nat): Register {
    var n := rm + if p.b then 8 else 0;
    if p.addressSize then Reg32(n) else Reg64(n)
  }

  /** Little-endian values of four and eight bytes. */
  function Little32(code: Code, pos: nat): Word32
    requires pos + 4 <= |code|
  {
    var b0: nat, b1: nat, b2: nat, b3: nat := code[pos], code[pos + 1], code[pos + 2], code[pos + 3];
    b0 + 0x100 * b1 + 0x1_0000 * b2 + 0x100_0000 * b3
  }

  function Little64(code: Code, pos: nat): Word
    requires pos + 8 <= |code|
  {
    Little32(code, pos) + TWO32 * Little32(code, pos + 4)
  }

  function Signed32(v: nat): int {
    if v < 0x8000_0000 then v else v - 0x1_0000_0000
  }

  /** Displacement bytes that follow the ModRM byte. */
  function DispSize(mod: nat): nat {
    if mod == 1 then 1 else if mod == 2 then 4 else 0
  }

  function Displacement(code: Code, pos: nat, mod: nat): int
    requires pos + DispSize(mod) <= |code|
  {
    if mod == 1 then code[pos] else if mod == 2 then Signed32(Little32(code, pos)) else 0
  }

  /** A register move to or from memory: ModRM at `pos`. */
  function DecodeRM(code: Code, p: Prefixes, pos: nat, load: bool, byteWide: bool): Outcome {
    if pos >= |code| then Truncated
    else
      var mod, reg, rm := code[pos] / 64, code[pos] / 8 % 8, code[pos] % 8;
      var end := pos + 1 + DispSize(mod);
      if end > |code| then Truncated
      else if mod == 3 || rm == 4 || rm == 5 then Rejected
      else
        var register := RegOperand(p, reg, byteWide);
        var memory := MemoryOperand(Displacement(code, pos + 1, mod), BaseRegister(p, rm), 0, RIZ);
        Decoded(if load then Instruction(memory, register, end) else Instruction(register, memory, end))
  }

  /** A move from a direct 64-bit offset to the accumulator, at `pos`. */
  function DecodeMoffs(code: Code, p: Prefixes, pos: nat): Outcome {
    if pos + 8 > |code| then Truncated
    else Decoded(Instruction(MemOffOperand(Little64(code, pos)), AccumulatorOperand(if p.operandSize then RAX else EAX), pos + 8))
  }

  function Decode(code: Code): Outcome {
    var p, at := PrefixesFrom(code, 0, NONE), OpcodeAt(code, 0);
    if at >= |code| then Truncated
    else if code[at] == 0x0f then (if at + 1 >= |code| then Truncated else Rejected)
    else if code[at] == 0x88 then DecodeRM(code, p, at + 1, false, true)
    else if code[at] == 0x89 then DecodeRM(code, p, at + 1, false, false)
    else if code[at] == 0x8a then DecodeRM(code, p, at + 1, true, true)
    else if code[at] == 0x8b then DecodeRM(code, p, at + 1, true, false)
    else if code[at] == 0xa1 then DecodeMoffs(code, p, at + 1)
    else if code[at] == 0xcd then (if at + 1 >= |code| then Truncated else Undefined)
    else Rejected
  }

  // The decoder itself, a cursor that advances over the bytes.

  datatype Step = Ok | Reject | OffEnd

  class Decoder {
    const code: Code
    var pos: nat

    constructor (code: Code)
      ensures this.code == code && pos == 0
    {
      this.code := code;
      pos := 0;
    }

    /** Stops after the last prefix; fails when the bytes end first. */
    method ReadPrefixes() returns (step: Step, p: Prefixes)
      modifies this
      ensures p == PrefixesFrom(code, old(pos), NONE) && pos == OpcodeAt(code, old(pos))
      ensures step == if pos < |code| then Ok else OffEnd
    {
      p := NONE;
      var prefixesComplete := false;
      while !prefixesComplete
        invariant PrefixesFrom(code, pos, p) == PrefixesFrom(code, old(pos), NONE)
        invariant OpcodeAt(code, pos) == OpcodeAt(code, old(pos))
        invariant prefixesComplete ==> pos < |code| && !IsPrefix(code[pos])
        decreases !prefixesComplete, |code| - pos
      {
        if pos >= |code| { step := OffEnd; return; }
        var isPrefix, next := AddPrefix(p, code[pos]);
        if !isPrefix { prefixesComplete := true; continue; }
        p := next;
        pos := pos + 1;
      }
      step := Ok;
    }

    method ReadModRM() returns (step: Step, mod: nat, reg: nat, rm: nat)
      modifies this
      ensures step == (if old(pos) < |code| then Ok else OffEnd)
      ensures step.Ok? ==>
        && pos == old(pos) + 1 && mod == code[old(pos)] / 64 && reg == code[old(pos)] / 8 % 8 && rm == code[old(pos)] % 8
    {
      mod, reg, rm := 0, 0, 0;
      if pos >= |code| { step := OffEnd; return; }
      var val := code[pos];
      ModRMFields(val);
      mod, reg, rm := And(Shr(val, 6), 3), And(Shr(val, 3), 7), And(val, 7);
      pos := pos + 1;
      step := Ok;
    }

    method DecodeRmOperand(p: Prefixes, mod: nat, rm: nat) returns (step: Step, operand: Operand)
      requires mod < 4 && rm < 8 && pos <= |code|
      modifies this
      ensures step == (if old(pos) + DispSize(mod) > |code| then OffEnd else if mod == 3 || rm == 4 || rm == 5 then Reject else Ok)
      ensures step.Ok? ==>
        && pos == old(pos) + DispSize(mod)
        && operand == MemoryOperand(Displacement(code, old(pos), mod), BaseRegister(p, rm), 0, RIZ)
    {
      var displacement: int;
      operand := MemoryOperand(0, RIZ, 0, RIZ);
      match mod {
        case 0 =>
          displacement := 0;
        case 1 =>
          if pos >= |code| { step := OffEnd; return; }
          displacement := code[pos];
          pos := pos + 1;
        case 2 =>
          if pos + 4 > |code| { step := OffEnd; return; }
          displacement := Signed32(Little32(code, pos));
          pos := pos + 4;
        case _ =>
          step := Reject;
          return;
      }
      if rm == 4 || rm == 5 { step := Reject; return; }
      var base: Register;
      if p.b {
        base := if p.addressSize then Reg32(rm + 8) else Reg64(rm + 8);
      } else {
        base := if p.addressSize then Reg32(rm) else Reg64(rm);
      }
      operand := MemoryOperand(displacement, base, 0, RIZ);
      step := Ok;
    }

    /** The two ModRM forms of `decode_mov`. */
    method DecodeMovRM(p: Prefixes, load: bool, byteWide: bool) returns (outcome: Outcome)
      requires pos <= |code|
      modifies this
      ensures outcome == DecodeRM(code, p, old(pos), load, byteWide)
    {
      var step, mod, reg, rm := ReadModRM();
      if step.OffEnd? { return Truncated; }
      var register := DecodeRegOperand(p, reg, byteWide);
      var memory;
      step, memory := DecodeRmOperand(p, mod, rm);
      match step {
        case OffEnd => outcome := Truncated;
        case Reject => outcome := Rejected;
        case Ok => outcome := Decoded(if load then Instruction(memory, register, pos) else Instruction(register, memory, pos));
      }
    }

    /** The direct-offset form of `decode_mov`. */
    method DecodeMovMoffs(p: Prefixes) returns (outcome: Outcome)
      modifies this
      ensures outcome == DecodeMoffs(code, p, old(pos))
    {
      if pos + 8 > |code| { return Truncated; }
      var src := MemOffOperand(Little64(code, pos));
      pos := pos + 8;
      var dst := AccumulatorOperand(if p.operandSize then RAX else EAX);
      outcome := Decoded(Instruction(src, dst, pos));
    }

    method DecodeInstruction() returns (outcome: Outcome)
      requires pos == 0
      modifies this
      ensures outcome == Decode(code)
    {
      hide Or, DecodeRM, DecodeMoffs, PrefixesFrom, OpcodeAt, IsPrefix;
      var step, p := ReadPrefixes();
      if step.OffEnd? { return Truncated; }
      var opcode: nat := 0;
      if code[pos] == 0x0f {
        OrZero(0x100);
        opcode := Or(opcode, 0x100);
        pos := pos + 1;
        if pos >= |code| { return Truncated; }
      }
      OrByte(opcode, code[pos]);
      opcode := Or(opcode, code[pos]);
      pos := pos + 1;
      match opcode {
        case 0xa1 => outcome := DecodeMovMoffs(p);
        case 0x88 => outcome := DecodeMovRM(p, false, true);
        case 0x89 => outcome := DecodeMovRM(p, false, false);
        case 0x8a => outcome := DecodeMovRM(p, true, true);
        case 0x8b => outcome := DecodeMovRM(p, true, false);
        case 0xc7 => outcome := Rejected;
        case 0xcd => outcome := if pos < |code| then Undefined else Truncated;
        case _ => outcome := Rejected;
      }
    }
  }

  /** The register named by ModRM, with the size that goes with its name. */
  method DecodeRegOperand(p: Prefixes, reg: nat, byteWide: bool) returns (operand: Operand)
    requires reg < 8
    ensures operand == RegOperand(p, reg, byteWide)
  {
    hide Reg8, Reg16, Reg32, Reg64, Width;
    Widths(reg); ByteWidth(reg, p.rex);
    Widths(reg + 8); ByteWidth(reg + 8, true);
    var r: Register;
    if byteWide {
      HighByteRegister(reg, p.rex);
      if p.r { r := Reg8(reg + 8, true); } else { r := Reg8(reg, p.rex); }
    } else if p.r {
      r := if p.w then Reg64(reg + 8) else if p.operandSize then Reg16(reg + 8) else Reg32(reg + 8);
    } else {
      r := if p.w then Reg64(reg) else if p.operandSize then Reg16(reg) else Reg32(reg);
    }
    operand := RegisterOperand(r, Width(r));
  }

  lemma Widths(n: nat)
    ensures Width(Reg64(n)) == 8 && Width(Reg32(n)) == 4 && Width(Reg16(n)) == 2
  {
  }

  lemma ByteWidth(n: nat, rex: bool)
    ensures Width(Reg8(n, rex)) == 1
  {
  }

  lemma HighByteRegister(n: nat, rex: bool)
    ensures Reg8(n + 8, rex) == Reg8(n + 8, true)
  {
  }

  lemma OrByte(opcode: nat, b: Byte)
    requires opcode == 0 || opcode == 0x100
    ensures Or(opcode, b) == opcode + b
  {
    hide Or;
    assert Pow2(8) == 0x100;
    OrDisjoint(opcode, b, 8);
  }

  /** The switch of `read_prefixes`. */
  method AddPrefix(p: Prefixes, b: Byte) returns (isPrefix: bool, next: Prefixes)
    ensures isPrefix == IsPrefix(b)
    ensures isPrefix ==> next == WithPrefix(p, b)
  {
    isPrefix := true;
    match b {
      case 0x67 => next := p.(addressSize := true);
      case 0x66 => next := p.(operandSize := true);
      case 0x40 => next := Rex(p, false, false, false, false);
      case 0x41 => next := Rex(p, false, false, false, true);
      case 0x42 => next := Rex(p, false, false, true, false);
      case 0x43 => next := Rex(p, false, false, true, true);
      case 0x44 => next := Rex(p, false, true, false, false);
      case 0x45 => next := Rex(p, false, true, false, true);
      case 0x46 => next := Rex(p, false, true, true, false);
      case 0x47 => next := Rex(p, false, true, true, true);
      case 0x48 => next := Rex(p, true, false, false, false);
      case 0x49 => next := Rex(p, true, false, false, true);
      case 0x4a => next := Rex(p, true, false, true, false);
      case 0x4b => next := Rex(p, true, false, true, true);
      case 0x4c => next := Rex(p, true, true, false, false);
      case 0x4d => next := Rex(p, true, true, false, true);
      case 0x4e => next := Rex(p, true, true, true, false);
      case 0x4f => next := Rex(p, true, true, true, true);
      case _ => isPrefix, next := false, p;
    }
  }

  function Rex(p: Prefixes, w: bool, r: bool, x: bool, b: bool): Prefixes {
    Prefixes(p.addressSize, p.operandSize, true, p.w || w, p.r || r, p.x || x, p.b || b)
  }

  lemma ModRMFields(val: Byte)
    ensures And(Shr(val, 6), 3) == val / 64 && And(Shr(val, 3), 7) == val / 8 % 8 && And(val, 7) == val % 8
  {
    ShiftRight(val, 6, 64); ShiftRight(val, 3, 8);
    Mask(val / 64, 0, 2, 1, 4); Mask(val / 8, 0, 3, 1, 8); Mask(val, 0, 3, 1, 8);
  }
}
