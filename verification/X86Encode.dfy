/** An encoder for the moves the decoder accepts (Intel SDM Vol. 2A, sections 2.1.5 and 2.2.1), and what
    decoding its output gives back. */
module X86Encode {
  import opened Bits
  import opened X86Instruction
  import opened X86Decode

  /** A move between a register and memory at a base register plus displacement. */
  datatype Mov = Mov(load: bool, reg: Register, base: Register, disp: int)

  predicate IsHighByte(r: Register) {
    r == AH || r == CH || r == DH || r == BH
  }

  predicate IsLowByteOfPointer(r: Register) {
    r == SPL || r == BPL || r == SIL || r == DIL
  }

  /** Any register may be moved; the base is a 32-bit or 64-bit register that ModRM can name without a SIB
      byte or a displacement-only form; a high-byte register cannot be combined with a REX prefix. */
  predicate Encodable(m: Mov) {
    && m.reg != RIZ && m.base != RIZ
    && Width(m.base) >= 4 && Number(m.base) % 8 != 4 && Number(m.base) % 8 != 5
    && -0x8000_0000 <= m.disp < 0x8000_0000
    && (IsHighByte(m.reg) ==> Number(m.base) < 8)
  }

  predicate NeedsRex(m: Mov) {
    Width(m.reg) == 8 || Number(m.reg) >= 8 || Number(m.base) >= 8 || IsLowByteOfPointer(m.reg)
  }

  function RexByte(m: Mov): Byte {
    0x40 + (if Width(m.reg) == 8 then 8 else 0) + (if Number(m.reg) >= 8 then 4 else 0) + (if Number(m.base) >= 8 then 1 else 0)
  }

  function PrefixBytes(m: Mov): Code {
    (if Width(m.base) == 4 then [0x67] else []) + (if Width(m.reg) == 2 then [0x66] else [])
      + (if NeedsRex(m) then [RexByte(m)] else [])
  }

  function Opcode(m: Mov): Byte {
    0x88 + (if m.load then 2 else 0) + (if Width(m.reg) == 1 then 0 else 1)
  }

  /** The displacement form. `signed` also uses one byte for negative displacements, as the architecture, which
      sign-extends that byte, allows. */
  function Mod(m: Mov, signed: bool): nat {
    if m.disp == 0 then 0
    else if 0 < m.disp < 0x80 || (signed && -0x80 <= m.disp < 0) then 1
    else 2
  }

  function ModRM(m: Mov, signed: bool): Byte {
    Mod(m, signed) * 64 + Number(m.reg) % 8 * 8 + Number(m.base) % 8
  }

  function DispBytes(m: Mov, signed: bool): Code
    requires Encodable(m)
  {
    var mod, v := Mod(m, signed), m.disp % TWO32;
    if mod == 0 then [] else if mod == 1 then [v % 0x100]
    else [v % 0x100, v / 0x100 % 0x100, v / 0x1_0000 % 0x100, v / 0x100_0000]
  }

  function Encode(m: Mov, signed: bool): Code
    requires Encodable(m)
  {
    PrefixBytes(m) + [Opcode(m)] + [ModRM(m, signed)] + DispBytes(m, signed)
  }

  /** The decoded form of a move, with displacement and length as given. */
  function AsInstruction(m: Mov, disp: int, length: nat): Instruction {
    var register, memory := RegisterOperand(m.reg, Width(m.reg)), MemoryOperand(disp, m.base, 0, RIZ);
    if m.load then Instruction(memory, register, length) else Instruction(register, memory, length)
  }

  /** What the decoder makes of the displacement: it zero-extends a single byte. */
  function ReadBack(m: Mov, signed: bool): int {
    if signed && -0x80 <= m.disp < 0 then m.disp + 0x100 else m.disp
  }

  // Prefixes.

  function PrefixSet(m: Mov): Prefixes {
    Prefixes(Width(m.base) == 4, Width(m.reg) == 2, NeedsRex(m), Width(m.reg) == 8, Number(m.reg) >= 8, false, Number(m.base) >= 8)
  }

  lemma {:induction false} ScanAppend(before: Code, prefixes: Code, tail: Code, p: Prefixes)
    requires forall k :: 0 <= k < |prefixes| ==> IsPrefix(prefixes[k])
    requires tail != [] && !IsPrefix(tail[0])
    ensures OpcodeAt(before + prefixes + tail, |before|) == |before| + |prefixes|
    ensures PrefixesFrom(before + prefixes + tail, |before|, p) == Fold(prefixes, p)
    decreases |prefixes|
  {
    var code := before + prefixes + tail;
    if prefixes == [] {
      assert code[|before|] == tail[0];
    } else {
      assert code[|before|] == prefixes[0];
      ScanAppend(before + [prefixes[0]], prefixes[1..], tail, WithPrefix(p, prefixes[0]));
      assert before + [prefixes[0]] + prefixes[1..] + tail == code;
    }
  }

  function Fold(prefixes: Code, p: Prefixes): Prefixes
    requires forall k :: 0 <= k < |prefixes| ==> IsPrefix(prefixes[k])
  {
    if prefixes == [] then p else Fold(prefixes[1..], WithPrefix(p, prefixes[0]))
  }

  lemma FoldAppend(a: Code, b: Byte, p: Prefixes)
    requires IsPrefix(b) && forall k :: 0 <= k < |a| ==> IsPrefix(a[k])
    ensures forall k :: 0 <= k < |a + [b]| ==> IsPrefix((a + [b])[k])
    ensures Fold(a + [b], p) == WithPrefix(Fold(a, p), b)
  {
    if a != [] {
      FoldAppend(a[1..], b, WithPrefix(p, a[0]));
      assert (a + [b])[1..] == a[1..] + [b];
    } else {
      assert a + [b] == [b] && [b][1..] == [];
    }
  }

  lemma PrefixesDecode(m: Mov, tail: Code)
    requires Encodable(m) && tail != [] && !IsPrefix(tail[0])
    ensures OpcodeAt(PrefixBytes(m) + tail, 0) == |PrefixBytes(m)|
    ensures PrefixesFrom(PrefixBytes(m) + tail, 0, NONE) == PrefixSet(m)
  {
    var a: Code := if Width(m.base) == 4 then [0x67] else [];
    var b: Code := a + if Width(m.reg) == 2 then [0x66] else [];
    assert PrefixBytes(m) == b + if NeedsRex(m) then [RexByte(m)] else [];
    FoldAppend([], 0x67, NONE);
    assert [] + [0x67] == [0x67];
    FoldAppend(a, 0x66, NONE);
    assert a + [] == a && b + [] == b;
    FoldAppend(b, RexByte(m), NONE);
    RexBits(m);
    ScanAppend([], PrefixBytes(m), tail, NONE);
    assert [] + PrefixBytes(m) == PrefixBytes(m);
  }

  lemma RexBits(m: Mov)
    ensures IsPrefix(RexByte(m)) && RexByte(m) != 0x66 && RexByte(m) != 0x67
    ensures RexByte(m) / 8 % 2 == (if Width(m.reg) == 8 then 1 else 0)
    ensures RexByte(m) / 4 % 2 == (if Number(m.reg) >= 8 then 1 else 0)
    ensures RexByte(m) / 2 % 2 == 0
    ensures RexByte(m) % 2 == (if Number(m.base) >= 8 then 1 else 0)
  {
  }

  // Register numbers, ModRM and displacement.

  lemma NumberRange(r: Register)
    requires r != RIZ
    ensures Number(r) < 16
  {
  }

  /** The register fields of the encoding name the register that was encoded. */
  lemma RegisterReadBack(m: Mov)
    requires Encodable(m)
    ensures RegOperand(PrefixSet(m), Number(m.reg) % 8, Width(m.reg) == 1) == RegisterOperand(m.reg, Width(m.reg))
  {
    WideRegister(m.reg);
    if Width(m.reg) == 1 { ByteRegister(m); }
  }

  lemma WideRegister(r: Register)
    requires r != RIZ
    ensures Number(r) == Number(r) % 8 + if Number(r) >= 8 then 8 else 0
    ensures Width(r) == 8 ==> Reg64(Number(r)) == r
    ensures Width(r) == 4 ==> Reg32(Number(r)) == r
    ensures Width(r) == 2 ==> Reg16(Number(r)) == r
  {
    hide Reg64, Reg32, Reg16, Width, Number;
    NumberRange(r); ReadBack64(r); ReadBack32(r); ReadBack16(r);
  }

  lemma ReadBack64(r: Register)
    ensures Width(r) == 8 ==> Reg64(Number(r)) == r
  {
  }

  lemma ReadBack32(r: Register)
    ensures Width(r) == 4 ==> Reg32(Number(r)) == r
  {
  }

  lemma ReadBack16(r: Register)
    ensures Width(r) == 2 ==> Reg16(Number(r)) == r
  {
  }

  lemma ByteRegister(m: Mov)
    requires Encodable(m) && Width(m.reg) == 1
    ensures Reg8(Number(m.reg), NeedsRex(m)) == m.reg
  {
  }

  lemma BaseReadBack(m: Mov)
    requires Encodable(m)
    ensures BaseRegister(PrefixSet(m), Number(m.base) % 8) == m.base
  {
    WideRegister(m.base);
  }

  lemma ModRMReadBack(m: Mov, signed: bool)
    requires Encodable(m)
    ensures var b := ModRM(m, signed);
            b / 64 == Mod(m, signed) && b / 8 % 8 == Number(m.reg) % 8 && b % 8 == Number(m.base) % 8
  {
    var b := ModRM(m, signed);
    DivModUnique(b, 64, Mod(m, signed), Number(m.reg) % 8 * 8 + Number(m.base) % 8);
    DivModUnique(b, 8, Mod(m, signed) * 8 + Number(m.reg) % 8, Number(m.base) % 8);
    DivModUnique(b / 8, 8, Mod(m, signed), Number(m.reg) % 8);
  }

  lemma DisplacementReadBack(m: Mov, signed: bool, head: Code, rest: Code)
    requires Encodable(m)
    ensures |DispBytes(m, signed)| == DispSize(Mod(m, signed))
    ensures Displacement(head + DispBytes(m, signed) + rest, |head|, Mod(m, signed)) == ReadBack(m, signed)
  {
    var d := DispBytes(m, signed);
    var v := m.disp % TWO32;
    Wrap32(m.disp);
    if Mod(m, signed) == 1 {
      assert (head + d + rest)[|head|] == d[0];
      if m.disp < 0 { DivModUnique(v, 0x100, 0xff_ffff, m.disp + 0x100); }
    } else if Mod(m, signed) == 2 {
      FourBytes(v);
      ReadFourBytes(head, d, rest, v);
    }
  }

  lemma Wrap32(v: int)
    requires -0x8000_0000 <= v < 0x8000_0000
    ensures v % TWO32 == if v < 0 then v + TWO32 else v
  {
  }

  lemma ReadFourBytes(head: Code, d: Code, rest: Code, v: nat)
    requires |d| == 4
    requires var b0: nat, b1: nat, b2: nat, b3: nat := d[0], d[1], d[2], d[3];
             v == b0 + 0x100 * b1 + 0x1_0000 * b2 + 0x100_0000 * b3
    ensures Little32(head + d + rest, |head|) == v
  {
    var code := head + d + rest;
    assert code[|head|] == d[0] && code[|head| + 1] == d[1] && code[|head| + 2] == d[2] && code[|head| + 3] == d[3];
  }

  lemma FourBytes(v: nat)
    requires v < TWO32
    ensures v == v % 0x100 + 0x100 * (v / 0x100 % 0x100) + 0x1_0000 * (v / 0x1_0000 % 0x100) + 0x100_0000 * (v / 0x100_0000)
    ensures v / 0x100_0000 < 0x100
  {
  }

  /** Decoding an encoding, whatever follows it, gives back the move, its register's size, and the length. The
      displacement comes back as `ReadBack` says. */
  lemma RoundTrip(m: Mov, signed: bool, rest: Code)
    requires Encodable(m)
    ensures Decode(Encode(m, signed) + rest) == Decoded(AsInstruction(m, ReadBack(m, signed), |Encode(m, signed)|))
  {
    hide Number, Width, ModRM, DispBytes, PrefixSet, NeedsRex, Mod, DecodeRM, PrefixBytes, PrefixesFrom, OpcodeAt;
    var pre := PrefixBytes(m);
    var tail := [Opcode(m)] + [ModRM(m, signed)] + DispBytes(m, signed) + rest;
    var code := Encode(m, signed) + rest;
    assert code == pre + tail;
    PrefixesDecode(m, tail);
    assert code[|pre|] == Opcode(m);
    ModRMDecodes(m, signed, pre + [Opcode(m)], rest);
  }

  /** The part of the encoding from the ModRM byte on. */
  lemma ModRMDecodes(m: Mov, signed: bool, before: Code, rest: Code)
    requires Encodable(m)
    ensures DecodeRM(before + [ModRM(m, signed)] + DispBytes(m, signed) + rest, PrefixSet(m), |before|, m.load, Width(m.reg) == 1)
         == Decoded(AsInstruction(m, ReadBack(m, signed), |before| + 1 + |DispBytes(m, signed)|))
  {
    hide Number, Width, RegOperand, BaseRegister, Displacement, PrefixSet, ModRM, NeedsRex, DispBytes, Mod;
    var head := before + [ModRM(m, signed)];
    var code := head + DispBytes(m, signed) + rest;
    assert code[|before|] == ModRM(m, signed);
    ModRMReadBack(m, signed);
    ModIsSmall(m, signed);
    DisplacementReadBack(m, signed, head, rest);
    RegisterReadBack(m);
    BaseReadBack(m);
    BaseIsPlain(m);
  }

  lemma ModIsSmall(m: Mov, signed: bool)
    ensures Mod(m, signed) <= 2
  {
  }

  lemma BaseIsPlain(m: Mov)
    requires Encodable(m)
    ensures Number(m.base) % 8 != 4 && Number(m.base) % 8 != 5
  {
  }

  /** The decoder reads the shortest encoding back correctly exactly when the displacement does not rely on the
      sign extension of a byte. */
  lemma ReadsDisplacementIff(m: Mov, signed: bool, rest: Code)
    requires Encodable(m)
    ensures Decode(Encode(m, signed) + rest) == Decoded(AsInstruction(m, m.disp, |Encode(m, signed)|))
       <==> !(signed && -0x80 <= m.disp < 0)
  {
    RoundTrip(m, signed, rest);
  }

  /** The concrete case: mov -8(%rdi), %eax as compilers emit it, 8b 47 f8, decodes with displacement 248. */
  lemma NegativeByteDisplacement()
    ensures Decode([0x8b, 0x47, 0xf8]) == Decoded(Instruction(MemoryOperand(248, RDI, 0, RIZ), RegisterOperand(EAX, 4), 3))
  {
    hide Decode, ReadBack, Number, NeedsRex, Encodable;
    var m := Mov(true, EAX, RDI, -8);
    NegativeByteEncoding(m);
    RoundTrip(m, true, []);
    assert Encode(m, true) + [] == [0x8b, 0x47, 0xf8];
  }

  lemma NegativeByteEncoding(m: Mov)
    requires m == Mov(true, EAX, RDI, -8)
    ensures Encodable(m) && Encode(m, true) == [0x8b, 0x47, 0xf8] && ReadBack(m, true) == 248
  {
    assert Width(EAX) == 4 && Width(RDI) == 8 && Number(EAX) == 0 && Number(RDI) == 7;
    assert PrefixBytes(m) == [];
    Wrap32(m.disp);
    DivModUnique(0xffff_fff8, 0x100, 0xff_ffff, 0xf8);
  }

  // Little-endian numbers, and the direct-offset move.

  /** The n low-order bytes of a number, lowest first. */
  function LittleBytes(v: nat, n: nat): (bytes: Code)
    ensures |bytes| == n
  {
    if n == 0 then [] else [v % 0x100] + LittleBytes(v / 0x100, n - 1)
  }

  /** The number that n bytes spell, lowest first. */
  function LittleEndian(code: Code, pos: nat, n: nat): nat
    requires pos + n <= |code|
    decreases n
  {
    if n == 0 then 0 else
      var b: nat := code[pos];
      b + 0x100 * LittleEndian(code, pos + 1, n - 1)
  }

  lemma {:induction false} LittleEndianInverts(before: Code, v: nat, n: nat, rest: Code)
    requires v < Pow2(8 * n)
    ensures LittleEndian(before + LittleBytes(v, n) + rest, |before|, n) == v
    decreases n
  {
    if n > 0 {
      var first := [v % 0x100];
      BytesShrink(v, n);
      LittleEndianInverts(before + first, v / 0x100, n - 1, rest);
      var code := before + LittleBytes(v, n) + rest;
      assert code == before + first + LittleBytes(v / 0x100, n - 1) + rest && code[|before|] == v % 0x100;
    }
  }

  lemma BytesShrink(v: nat, n: nat)
    requires n > 0 && v < Pow2(8 * n)
    ensures v / 0x100 < Pow2(8 * (n - 1))
  {
    PowSum(8, 8 * (n - 1));
    assert Pow2(8) == 0x100 && 8 + 8 * (n - 1) == 8 * n;
  }

  /** What the decoder reads as four and eight bytes. */
  lemma LittleAgrees(code: Code, pos: nat)
    ensures pos + 4 <= |code| ==> Little32(code, pos) == LittleEndian(code, pos, 4)
    ensures pos + 8 <= |code| ==> Little64(code, pos) == LittleEndian(code, pos, 8)
  {
    if pos + 4 <= |code| { FourAgree(code, pos); }
    if pos + 8 <= |code| {
      FourAgree(code, pos + 4);
      SplitEndian(code, pos, 4, 4);
    }
  }

  lemma FourAgree(code: Code, pos: nat)
    requires pos + 4 <= |code|
    ensures Little32(code, pos) == LittleEndian(code, pos, 4)
  {
    assert LittleEndian(code, pos + 4, 0) == 0;
    assert LittleEndian(code, pos + 2, 2) == code[pos + 2] as int + 0x100 * code[pos + 3] as int;
  }

  lemma {:induction false} SplitEndian(code: Code, pos: nat, n: nat, m: nat)
    requires pos + n + m <= |code|
    ensures LittleEndian(code, pos, n + m) == LittleEndian(code, pos, n) + Pow2(8 * n) * LittleEndian(code, pos + n, m)
    ensures n == 4 ==> Pow2(8 * n) == TWO32
    decreases n
  {
    hide Pow2;
    FourBytePower();
    if n == 0 {
      assert Pow2(8 * n) == 1 by { Powers(); }
    } else {
      SplitEndian(code, pos + 1, n - 1, m);
      PowSum(8, 8 * (n - 1));
      assert 8 + 8 * (n - 1) == 8 * n;
      Regroup(code[pos], LittleEndian(code, pos + 1, n - 1), Pow2(8 * (n - 1)), LittleEndian(code, pos + n, m));
    }
  }

  lemma Regroup(b: nat, low: nat, p: nat, high: nat)
    ensures b + 0x100 * (low + p * high) == b + 0x100 * low + 0x100 * p * high
  {
  }

  lemma FourBytePower()
    ensures Pow2(8) == 0x100 && Pow2(32) == TWO32 && Pow2(64) == TWO64
  {
    Powers();
    assert Pow2(16) == 0x1_0000;
    PowSum(16, 16);
  }

  /** For every offset, opcode a1 with the offset's eight bytes, followed by any bytes, loads EAX from that offset. */
  lemma MoffsRoundTrip(v: Word, rest: Code)
    ensures Decode([0xa1] + LittleBytes(v, 8) + rest) == Decoded(Instruction(MemOffOperand(v), AccumulatorOperand(EAX), 9))
  {
    hide Little64, LittleEndian, LittleBytes, DecodeRM, WithPrefix, NeedsRex;
    var code := [0xa1] + LittleBytes(v, 8) + rest;
    assert code[0] == 0xa1 && PrefixesFrom(code, 0, NONE) == NONE && OpcodeAt(code, 0) == 0;
    FourBytePower();
    LittleEndianInverts([0xa1], v, 8, rest);
    LittleAgrees(code, 1);
  }

  lemma LittleStep(v: nat, n: nat)
    ensures LittleBytes(v, n) == if n == 0 then [] else [v % 0x100] + LittleBytes(v / 0x100, n - 1)
  {
  }

  /** a1 00 00 e0 fe 00 00 00 00 loads EAX from 0xfee00000. */
  lemma LoadFromApic()
    ensures Decode([0xa1, 0x00, 0x00, 0xe0, 0xfe, 0x00, 0x00, 0x00, 0x00])
         == Decoded(Instruction(MemOffOperand(0xfee0_0000), AccumulatorOperand(EAX), 9))
  {
    hide Decode, LittleBytes;
    MoffsRoundTrip(0xfee0_0000, []);
    LittleStep(0xfee0_0000, 8); LittleStep(0xfe_e000, 7); LittleStep(0xfee0, 6); LittleStep(0xfe, 5);
    LittleStep(0, 4); LittleStep(0, 3); LittleStep(0, 2); LittleStep(0, 1); LittleStep(0, 0);
    assert [0xa1] + LittleBytes(0xfee0_0000, 8) + [] == [0xa1, 0x00, 0x00, 0xe0, 0xfe, 0x00, 0x00, 0x00, 0x00];
  }

  // Every accepted move is an encodable one, and its canonical encoding decodes the same.

  predicate IsRegisterMove(i: Instruction) {
    (i.src.RegisterOperand? && i.dst.MemoryOperand?) || (i.src.MemoryOperand? && i.dst.RegisterOperand?)
  }

  /** The move a decoded instruction describes. */
  function MovOf(i: Instruction): Mov
    requires IsRegisterMove(i)
  {
    if i.src.MemoryOperand? then Mov(true, i.dst.reg, i.src.base, i.src.displacement)
    else Mov(false, i.src.reg, i.dst.base, i.dst.displacement)
  }

  lemma {:induction false} RexGuards(code: Code, pos: nat, p: Prefixes)
    requires p.w || p.r || p.x || p.b ==> p.rex
    ensures var q := PrefixesFrom(code, pos, p); q.w || q.r || q.x || q.b ==> q.rex
    decreases |code| - pos
  {
    if pos < |code| && IsPrefix(code[pos]) { RexGuards(code, pos + 1, WithPrefix(p, code[pos])); }
  }

  lemma DecodedIsEncodable(code: Code)
    requires Decode(code).Decoded? && IsRegisterMove(Decode(code).inst)
    ensures var i := Decode(code).inst;
            Encodable(MovOf(i)) && i == AsInstruction(MovOf(i), MovOf(i).disp, i.length)
  {
    hide DecodeRM, AsInstruction, Encodable;
    var p, at := PrefixesFrom(code, 0, NONE), OpcodeAt(code, 0);
    RexGuards(code, 0, NONE);
    MoveIsEncodable(code, p, at + 1, code[at] / 2 % 2 == 1, code[at] % 2 == 0);
  }

  lemma MoveIsEncodable(code: Code, p: Prefixes, pos: nat, load: bool, byteWide: bool)
    requires (p.b ==> p.rex) && DecodeRM(code, p, pos, load, byteWide).Decoded?
    ensures var i := DecodeRM(code, p, pos, load, byteWide).inst;
            IsRegisterMove(i) && Encodable(MovOf(i)) && i == AsInstruction(MovOf(i), MovOf(i).disp, i.length)
  {
    hide Number, Width, RegOperand, BaseRegister;
    DecodedRegister(p, code[pos] / 8 % 8, byteWide);
    DecodedBase(p, code[pos] % 8);
  }

  lemma DecodedRegister(p: Prefixes, reg: nat, byteWide: bool)
    requires reg < 8 && (p.b ==> p.rex)
    ensures var o := RegOperand(p, reg, byteWide);
            o.RegisterOperand? && o.reg != RIZ && Width(o.reg) == o.size && (IsHighByte(o.reg) ==> !p.b)
  {
    hide Reg8, Reg16, Reg32, Reg64, Width;
    var n := reg + if p.r then 8 else 0;
    Widths(n);
    ByteWidth(n, p.rex);
    RealRegisters(n, p.rex);
  }

  lemma RealRegisters(n: nat, rex: bool)
    ensures Reg64(n) != RIZ && Reg32(n) != RIZ && Reg16(n) != RIZ && Reg8(n, rex) != RIZ
    ensures !IsHighByte(Reg64(n)) && !IsHighByte(Reg32(n)) && !IsHighByte(Reg16(n)) && (rex ==> !IsHighByte(Reg8(n, rex)))
  {
    hide Reg64, Reg32, Reg16, Reg8, IsHighByte;
    Real64(n); Real32(n); Real16(n); Real8(n, rex);
  }

  lemma Real64(n: nat)
    ensures Reg64(n) != RIZ && !IsHighByte(Reg64(n))
  {
  }

  lemma Real32(n: nat)
    ensures Reg32(n) != RIZ && !IsHighByte(Reg32(n))
  {
  }

  lemma Real16(n: nat)
    ensures Reg16(n) != RIZ && !IsHighByte(Reg16(n))
  {
  }

  lemma Real8(n: nat, rex: bool)
    ensures Reg8(n, rex) != RIZ && (rex ==> !IsHighByte(Reg8(n, rex)))
  {
  }

  lemma DecodedBase(p: Prefixes, rm: nat)
    requires rm < 8 && rm != 4 && rm != 5
    ensures var r := BaseRegister(p, rm);
            && r != RIZ && Width(r) >= 4 && Number(r) % 8 != 4 && Number(r) % 8 != 5
            && (!p.b ==> Number(r) < 8)
  {
  }

  /** Decoding any accepted register move, encoding it again, and decoding that, gives the same operands. */
  lemma Canonical(code: Code, rest: Code)
    requires Decode(code).Decoded? && IsRegisterMove(Decode(code).inst)
    ensures Encodable(MovOf(Decode(code).inst))
    ensures var m := MovOf(Decode(code).inst);
            var again := Decode(Encode(m, false) + rest);
            && again == Decoded(Decode(code).inst.(length := |Encode(m, false)|))
            && MovOf(again.inst) == m
  {
    DecodedIsEncodable(code);
    RoundTrip(MovOf(Decode(code).inst), false, rest);
  }
}
