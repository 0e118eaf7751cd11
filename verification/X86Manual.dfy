/** The same instructions as the architecture manual reads them (Intel SDM Vol. 2A, sections 2.1 and 2.2, and the
    MOV entry of Vol. 2B), and exactly where the decoder agrees. SIB and RIP-relative forms, register-direct
    forms, and all other opcodes, which the decoder rejects, are not described. */
module X86Manual {
  import opened Bits
  import opened X86Instruction
  import opened X86Decode
  import opened X86Encode
  import opened X86Skip
  import opened Wrappers

  // Prefixes.

  predicate IsRex(b: Byte) {
    0x40 <= b < 0x50
  }

  function RexBit(b: Byte, weight: nat): bool
    requires weight > 0
  {
    IsRex(b) && b / weight % 2 == 1
  }

  /** A REX prefix counts only directly before the opcode: any prefix after it makes it void. */
  function ManualPrefix(p: Prefixes, b: Byte): Prefixes
    requires IsPrefix(b)
  {
    Prefixes(p.addressSize || b == 0x67, p.operandSize || b == 0x66, IsRex(b),
             RexBit(b, 8), RexBit(b, 4), RexBit(b, 2), RexBit(b, 1))
  }

  function ManualPrefixes(code: Code, pos: nat, p: Prefixes): Prefixes
    decreases |code| - pos
  {
    if pos < |code| && IsPrefix(code[pos]) then ManualPrefixes(code, pos + 1, ManualPrefix(p, code[pos])) else p
  }

  predicate HasRex(code: Code) {
    exists b :: b in code && IsRex(b)
  }

  predicate HasBit(code: Code, weight: nat)
    requires weight > 0
  {
    exists b :: b in code && RexBit(b, weight)
  }

  lemma {:induction false} PrefixRange(code: Code, pos: nat)
    requires pos <= |code|
    ensures OpcodeAt(code, pos) <= |code| && forall k :: pos <= k < OpcodeAt(code, pos) ==> IsPrefix(code[k])
    decreases |code| - pos
  {
    if pos < |code| && IsPrefix(code[pos]) { PrefixRange(code, pos + 1); }
  }

  /** The decoder collects the flags of all prefixes, wherever they stand. */
  lemma {:induction false} CollectedFlags(code: Code, pos: nat, p: Prefixes)
    requires pos <= |code|
    ensures pos <= OpcodeAt(code, pos) <= |code|
    ensures var q, run := PrefixesFrom(code, pos, p), code[pos..OpcodeAt(code, pos)];
            && q.addressSize == (p.addressSize || 0x67 in run) && q.operandSize == (p.operandSize || 0x66 in run)
            && q.rex == (p.rex || HasRex(run)) && q.w == (p.w || HasBit(run, 8)) && q.r == (p.r || HasBit(run, 4))
            && q.x == (p.x || HasBit(run, 2)) && q.b == (p.b || HasBit(run, 1))
    decreases |code| - pos
  {
    hide HasRex, HasBit, RexBit, IsRex, WithPrefix;
    NoBytes();
    PrefixRange(code, pos);
    if pos < |code| && IsPrefix(code[pos]) {
      var b, rest := code[pos], code[pos + 1..OpcodeAt(code, pos + 1)];
      CollectedFlags(code, pos + 1, WithPrefix(p, b));
      assert code[pos..OpcodeAt(code, pos)] == [b] + rest;
      OneMoreByte(b, rest);
      WithPrefixFlags(p, b);
    }
  }

  lemma NoBytes()
    ensures !HasRex([]) && forall weight: nat :: weight > 0 ==> !HasBit([], weight)
  {
  }

  lemma OneMoreByte(b: Byte, rest: Code)
    ensures forall c: Byte :: c in [b] + rest <==> c == b || c in rest
    ensures HasRex([b] + rest) == (IsRex(b) || HasRex(rest))
    ensures forall weight: nat :: weight > 0 ==> HasBit([b] + rest, weight) == (RexBit(b, weight) || HasBit(rest, weight))
  {
    assert b in [b] + rest && forall c :: c in rest ==> c in [b] + rest;
  }

  lemma WithPrefixFlags(p: Prefixes, b: Byte)
    requires IsPrefix(b)
    ensures WithPrefix(p, b) == Prefixes(p.addressSize || b == 0x67, p.operandSize || b == 0x66, p.rex || IsRex(b),
                                         p.w || RexBit(b, 8), p.r || RexBit(b, 4), p.x || RexBit(b, 2), p.b || RexBit(b, 1))
  {
  }

  /** The manual's flags: the size overrides of all prefixes, the REX bits of the last byte only. */
  lemma {:induction false} LastFlags(code: Code, pos: nat, p: Prefixes)
    requires pos <= |code|
    ensures pos <= OpcodeAt(code, pos) <= |code|
    ensures var q, at := ManualPrefixes(code, pos, p), OpcodeAt(code, pos);
            && q.addressSize == (p.addressSize || 0x67 in code[pos..at]) && q.operandSize == (p.operandSize || 0x66 in code[pos..at])
            && if at == pos then q == p
               else var b := code[at - 1];
                    q.rex == IsRex(b) && q.w == RexBit(b, 8) && q.r == RexBit(b, 4) && q.x == RexBit(b, 2) && q.b == RexBit(b, 1)
    decreases |code| - pos
  {
    PrefixRange(code, pos);
    if pos < |code| && IsPrefix(code[pos]) {
      LastFlags(code, pos + 1, ManualPrefix(p, code[pos]));
      assert code[pos..OpcodeAt(code, pos)] == [code[pos]] + code[pos + 1..OpcodeAt(code, pos + 1)];
    }
  }

  predicate Within(a: Byte, b: Byte) {
    (IsRex(a) ==> IsRex(b)) && (RexBit(a, 8) ==> RexBit(b, 8)) && (RexBit(a, 4) ==> RexBit(b, 4))
    && (RexBit(a, 2) ==> RexBit(b, 2)) && (RexBit(a, 1) ==> RexBit(b, 1))
  }

  /** No REX prefix says anything that the last prefix byte, as a REX prefix, does not say too. */
  predicate RexPlaced(prefixes: Code) {
    forall b :: b in prefixes ==> Within(b, prefixes[|prefixes| - 1])
  }

  /** The decoder reads the prefixes as the manual does exactly when every REX byte is covered by the last byte. */
  lemma PrefixesIffPlaced(code: Code)
    ensures OpcodeAt(code, 0) <= |code|
    ensures PrefixesFrom(code, 0, NONE) == ManualPrefixes(code, 0, NONE) <==> RexPlaced(code[..OpcodeAt(code, 0)])
  {
    CollectedFlags(code, 0, NONE);
    LastFlags(code, 0, NONE);
    var run := code[..OpcodeAt(code, 0)];
    assert run == code[0..OpcodeAt(code, 0)];
    if run != [] { CoveredIff(run, run[|run| - 1]); }
  }

  lemma CoveredIff(run: Code, last: Byte)
    requires last in run
    ensures (forall b :: b in run ==> Within(b, last))
       <==> HasRex(run) == IsRex(last) && HasBit(run, 8) == RexBit(last, 8) && HasBit(run, 4) == RexBit(last, 4)
            && HasBit(run, 2) == RexBit(last, 2) && HasBit(run, 1) == RexBit(last, 1)
  {
  }

  /** A concrete misplaced prefix: 48 66 8b 07 loads AX, since the 66 voids the 48; the decoder makes it RAX. */
  lemma MisplacedRex()
    ensures var code := [0x48, 0x66, 0x8b, 0x07];
            && RegOperand(PrefixesFrom(code, 0, NONE), 0, false) == RegisterOperand(RAX, 8)
            && RegOperand(ManualPrefixes(code, 0, NONE), 0, false) == RegisterOperand(AX, 2)
  {
    var code: Code := [0x48, 0x66, 0x8b, 0x07];
    assert OpcodeAt(code, 2) == 2 && OpcodeAt(code, 1) == 2 && OpcodeAt(code, 0) == 2;
    CollectedFlags(code, 0, NONE);
    LastFlags(code, 0, NONE);
    assert code[0..2] == [0x48, 0x66] && RexBit(0x48, 8) && !RexBit(0x48, 4) && !RexBit(0x66, 4);
  }

  // The direct-offset move, opcode 0xa1.

  /** RAX under REX.W, else AX under 66, else EAX. */
  function Accumulator(p: Prefixes): Register {
    if p.w then RAX else if p.operandSize then AX else EAX
  }

  /** The offset is as wide as an address: eight bytes, or four under 67, zero-extended. */
  function ManualMoffs(code: Code, p: Prefixes, pos: nat): Outcome {
    var n := if p.addressSize then 4 else 8;
    if pos + n > |code| then Truncated
    else
      OffsetFits(code, pos, n);
      Decoded(Instruction(MemOffOperand(LittleEndian(code, pos, n)), AccumulatorOperand(Accumulator(p)), pos + n))
  }

  lemma OffsetFits(code: Code, pos: nat, n: nat)
    requires (n == 4 || n == 8) && pos + n <= |code|
    ensures LittleEndian(code, pos, n) < TWO64
  {
    hide LittleEndian;
    LittleAgrees(code, pos);
  }

  /** With eight bytes to read, the decoder is right exactly when there is no 67, and 66 and REX.W come together
      or not at all; with fewer, exactly when the manual's offset is cut off as well. */
  lemma MoffsIff(code: Code, p: Prefixes, pos: nat)
    ensures DecodeMoffs(code, p, pos) == ManualMoffs(code, p, pos)
       <==> if pos + 8 <= |code| then !p.addressSize && p.w == p.operandSize else p.addressSize ==> pos + 4 > |code|
  {
    hide Little32, Little64, LittleEndian;
    LittleAgrees(code, pos);
  }

  /** Concrete inputs: 48 a1 loads RAX, 66 a1 loads AX, and 67 a1 is six bytes long. */
  lemma WrongMoffs(tail: Code)
    requires |tail| == 8
    ensures Decode([0x48, 0xa1] + tail).Decoded? && Decode([0x48, 0xa1] + tail).inst.dst == AccumulatorOperand(EAX)
    ensures Manual([0x48, 0xa1] + tail).Decoded? && Manual([0x48, 0xa1] + tail).inst.dst == AccumulatorOperand(RAX)
    ensures Decode([0x66, 0xa1] + tail).Decoded? && Decode([0x66, 0xa1] + tail).inst.dst == AccumulatorOperand(RAX)
    ensures Manual([0x66, 0xa1] + tail).Decoded? && Manual([0x66, 0xa1] + tail).inst.dst == AccumulatorOperand(AX)
    ensures Decode([0x67, 0xa1] + tail).Decoded? && Decode([0x67, 0xa1] + tail).inst.length == 10
    ensures Manual([0x67, 0xa1] + tail).Decoded? && Manual([0x67, 0xa1] + tail).inst.length == 6
  {
    hide Little32, Little64;
    OnePrefix(0x48, 0xa1, tail); OnePrefix(0x66, 0xa1, tail); OnePrefix(0x67, 0xa1, tail);
  }

  lemma OnePrefix(prefix: Byte, opcode: Byte, tail: Code)
    requires IsPrefix(prefix) && !IsPrefix(opcode)
    ensures var code := [prefix, opcode] + tail;
            && OpcodeAt(code, 0) == 1
            && PrefixesFrom(code, 0, NONE) == WithPrefix(NONE, prefix)
            && ManualPrefixes(code, 0, NONE) == ManualPrefix(NONE, prefix)
  {
    var code := [prefix, opcode] + tail;
    assert code[0] == prefix && code[1] == opcode;
    assert OpcodeAt(code, 1) == 1 && PrefixesFrom(code, 1, WithPrefix(NONE, prefix)) == WithPrefix(NONE, prefix);
  }

  // Register moves, and the whole.

  /** A two's complement number of n bits. */
  function SignExtended(v: nat, n: nat): int
    requires n > 0
  {
    if v < Pow2(n - 1) then v else v - Pow2(n)
  }

  /** Displacements of one and four bytes are sign-extended. */
  function ManualDisplacement(code: Code, pos: nat, mod: nat): int
    requires pos + DispSize(mod) <= |code|
  {
    if mod == 1 then SignExtended(LittleEndian(code, pos, 1), 8)
    else if mod == 2 then SignExtended(LittleEndian(code, pos, 4), 32)
    else 0
  }

  lemma DisplacementIff(code: Code, pos: nat, mod: nat)
    requires pos + DispSize(mod) <= |code| && mod < 3
    ensures Displacement(code, pos, mod) == ManualDisplacement(code, pos, mod) <==> (mod == 1 ==> code[pos] < 0x80)
  {
    hide Little32;
    LittleAgrees(code, pos);
    FourBytePower();
    assert Pow2(7) == 0x80 && Pow2(8) == 0x100 && 2 * Pow2(31) == Pow2(32);
    if mod == 1 { assert LittleEndian(code, pos + 1, 0) == 0; }
  }

  function ManualRM(code: Code, p: Prefixes, pos: nat, load: bool, byteWide: bool): Outcome {
    if pos >= |code| then Truncated
    else
      var mod, reg, rm := code[pos] / 64, code[pos] / 8 % 8, code[pos] % 8;
      var end := pos + 1 + DispSize(mod);
      if end > |code| then Truncated
      else if mod == 3 || rm == 4 || rm == 5 then Rejected
      else
        var register := RegOperand(p, reg, byteWide);
        var memory := MemoryOperand(ManualDisplacement(code, pos + 1, mod), BaseRegister(p, rm), 0, RIZ);
        Decoded(if load then Instruction(memory, register, end) else Instruction(register, memory, end))
  }

  function Manual(code: Code): Outcome {
    var p, at := ManualPrefixes(code, 0, NONE), OpcodeAt(code, 0);
    if at >= |code| then Truncated
    else if 0x88 <= code[at] <= 0x8b then ManualRM(code, p, at + 1, code[at] >= 0x8a, code[at] % 2 == 0)
    else if code[at] == 0xa1 then ManualMoffs(code, p, at + 1)
    else Rejected
  }

  /** Two readings of the prefixes give the same register and base exactly when the flags that matter for this
      ModRM byte agree: R, B, W for a wide move, and for a byte move the presence of REX where it decides between
      SPL to DIL and AH to BH. */
  predicate SameRegisters(p: Prefixes, q: Prefixes, modrm: Byte, byteWide: bool) {
    && p.r == q.r && p.b == q.b
    && (if byteWide then !p.r && modrm / 8 % 8 >= 4 ==> p.rex == q.rex else p.w == q.w)
  }

  lemma RegistersIff(p: Prefixes, q: Prefixes, modrm: Byte, byteWide: bool)
    requires p.addressSize == q.addressSize && p.operandSize == q.operandSize
    ensures RegOperand(p, modrm / 8 % 8, byteWide) == RegOperand(q, modrm / 8 % 8, byteWide) && BaseRegister(p, modrm % 8) == BaseRegister(q, modrm % 8)
       <==> SameRegisters(p, q, modrm, byteWide)
  {
    hide Reg8, Reg16, Reg32, Reg64;
    BaseIff(p, q, modrm % 8);
    if byteWide { ByteIff(p, q, modrm / 8 % 8); } else { WideIff(p, q, modrm / 8 % 8); }
  }

  lemma Numbered(n: nat, rex: bool)
    requires n < 16
    ensures Number(Reg64(n)) == n && Number(Reg32(n)) == n && Number(Reg16(n)) == n && Number(Reg8(n, rex)) == n
  {
    hide Reg64, Reg32, Reg16, Reg8, Number;
    Numbered64(n); Numbered32(n); Numbered16(n); Numbered8(n, rex);
  }

  lemma Numbered64(n: nat)
    requires n < 16
    ensures Number(Reg64(n)) == n
  {
  }

  lemma Numbered32(n: nat)
    requires n < 16
    ensures Number(Reg32(n)) == n
  {
  }

  lemma Numbered16(n: nat)
    requires n < 16
    ensures Number(Reg16(n)) == n
  {
  }

  lemma Numbered8(n: nat, rex: bool)
    requires n < 16
    ensures Number(Reg8(n, rex)) == n
  {
    hide Number, Reg8;
    if n < 8 { LowNumbered8(n, rex); } else { HighNumbered8(n, rex); }
  }

  lemma LowNumbered8(n: nat, rex: bool)
    requires n < 8
    ensures Number(Reg8(n, rex)) == n
  {
  }

  lemma HighNumbered8(n: nat, rex: bool)
    requires 8 <= n < 16
    ensures Number(Reg8(n, rex)) == n
  {
  }

  lemma HighBytes(n: nat, rex: bool)
    ensures IsHighByte(Reg8(n, rex)) <==> 4 <= n < 8 && !rex
  {
  }

  lemma SameEverywhere(n: nat, rex: bool)
    requires n < 4 || n >= 8
    ensures Reg8(n, rex) == Reg8(n, true)
  {
  }

  lemma BaseIff(p: Prefixes, q: Prefixes, rm: nat)
    requires rm < 8 && p.addressSize == q.addressSize
    ensures BaseRegister(p, rm) == BaseRegister(q, rm) <==> p.b == q.b
  {
    hide Reg32, Reg64, Number;
    Numbered(rm, true);
    Numbered(rm + 8, true);
  }

  lemma ByteIff(p: Prefixes, q: Prefixes, reg: nat)
    requires reg < 8
    ensures RegOperand(p, reg, true) == RegOperand(q, reg, true) <==> p.r == q.r && (!p.r && reg >= 4 ==> p.rex == q.rex)
  {
    hide Reg8, Number, IsHighByte;
    var n, m := reg + (if p.r then 8 else 0), reg + if q.r then 8 else 0;
    Numbered(n, p.rex); Numbered(m, q.rex);
    HighBytes(n, p.rex); HighBytes(m, q.rex);
    if n < 4 || n >= 8 { SameEverywhere(n, p.rex); SameEverywhere(n, q.rex); }
  }

  lemma WideIff(p: Prefixes, q: Prefixes, reg: nat)
    requires reg < 8 && p.operandSize == q.operandSize
    ensures RegOperand(p, reg, false) == RegOperand(q, reg, false) <==> p.r == q.r && p.w == q.w
  {
    hide Reg16, Reg32, Reg64, Width, Number;
    var n, m := reg + (if p.r then 8 else 0), reg + if q.r then 8 else 0;
    Numbered(n, true); Numbered(m, true);
  }

  lemma RMIff(code: Code, p: Prefixes, q: Prefixes, pos: nat, load: bool, byteWide: bool)
    requires DecodeRM(code, p, pos, load, byteWide).Decoded? && p.addressSize == q.addressSize && p.operandSize == q.operandSize
    ensures pos < |code| && (code[pos] / 64 == 1 ==> pos + 1 < |code|)
    ensures DecodeRM(code, p, pos, load, byteWide) == ManualRM(code, q, pos, load, byteWide)
       <==> (code[pos] / 64 == 1 ==> code[pos + 1] < 0x80) && SameRegisters(p, q, code[pos], byteWide)
  {
    hide Displacement, ManualDisplacement, RegOperand, BaseRegister, SameRegisters;
    if pos < |code| {
      RegistersIff(p, q, code[pos], byteWide);
      if code[pos] / 64 < 3 && pos + 1 + DispSize(code[pos] / 64) <= |code| { DisplacementIff(code, pos + 1, code[pos] / 64); }
    }
  }

  /** What a caller can check in the bytes: a one-byte displacement is below 128; for 0xa1, no 67, and 66 with
      REX.W or neither. */
  predicate Plain(code: Code) {
    var p, at := ManualPrefixes(code, 0, NONE), OpcodeAt(code, 0);
    if at < |code| && code[at] == 0xa1 then !p.addressSize && p.w == p.operandSize
    else at + 2 < |code| && code[at + 1] / 64 == 1 ==> code[at + 2] < 0x80
  }

  /** A REX bit is set by some prefix exactly when the last prefix sets it as a REX prefix. */
  predicate Settled(prefixes: Code, weight: nat)
    requires weight > 0
  {
    HasBit(prefixes, weight) == (prefixes != [] && RexBit(prefixes[|prefixes| - 1], weight))
  }

  /** No misplaced REX byte changes a bit that this instruction uses: always so for 0xa1; for the register moves R
      and B, and W of a wide move; for a byte move with register number 4 to 7, also whether there is a REX. */
  predicate RexHarmless(code: Code) {
    var at := OpcodeAt(code, 0);
    if at + 1 >= |code| || code[at] == 0xa1 then true
    else
      var run := code[..at];
      && Settled(run, 4) && Settled(run, 1)
      && (if code[at] % 2 == 0 then
            !HasBit(run, 4) && code[at + 1] / 8 % 8 >= 4 ==> HasRex(run) == (run != [] && IsRex(run[|run| - 1]))
          else Settled(run, 8))
  }

  lemma HarmlessIff(code: Code)
    ensures OpcodeAt(code, 0) <= |code|
    ensures var p, q, at := PrefixesFrom(code, 0, NONE), ManualPrefixes(code, 0, NONE), OpcodeAt(code, 0);
            && p.addressSize == q.addressSize && p.operandSize == q.operandSize
            && (at + 1 < |code| && code[at] != 0xa1 ==> (SameRegisters(p, q, code[at + 1], code[at] % 2 == 0) <==> RexHarmless(code)))
  {
    hide PrefixesFrom, ManualPrefixes, HasRex, HasBit, RexBit, IsRex;
    CollectedFlags(code, 0, NONE);
    LastFlags(code, 0, NONE);
    NoBytes();
    var run := code[..OpcodeAt(code, 0)];
    assert run == code[0..OpcodeAt(code, 0)];
    assert run != [] ==> run[|run| - 1] == code[OpcodeAt(code, 0) - 1];
  }

  /** Every instruction the decoder accepts is read as the manual says exactly when it is plain and no misplaced
      REX prefix does harm. */
  lemma AcceptedIffPlain(code: Code)
    requires Decode(code).Decoded?
    ensures Decode(code) == Manual(code) <==> Plain(code) && RexHarmless(code)
  {
    hide DecodeRM, DecodeMoffs, ManualRM, ManualMoffs, PrefixesFrom, ManualPrefixes, OpcodeAt, Settled, SameRegisters;
    HarmlessIff(code);
    var p, q, at := PrefixesFrom(code, 0, NONE), ManualPrefixes(code, 0, NONE), OpcodeAt(code, 0);
    if code[at] == 0xa1 {
      MoffsIff(code, q, at + 1);
      MoffsRoom(code, p, at + 1);
      MoffsUses(code, p, q, at + 1);
    } else {
      RMIff(code, p, q, at + 1, code[at] >= 0x8a, code[at] % 2 == 0);
    }
  }

  /** 48 66 88 07 has a misplaced REX byte that does no harm. */
  lemma HarmlessRex()
    ensures var code := [0x48, 0x66, 0x88, 0x07];
            !RexPlaced(code[..OpcodeAt(code, 0)]) && Decode(code).Decoded? && Decode(code) == Manual(code)
  {
    var code: Code := [0x48, 0x66, 0x88, 0x07];
    assert OpcodeAt(code, 2) == 2 && OpcodeAt(code, 1) == 2 && OpcodeAt(code, 0) == 2;
    assert code[..2] == [0x48, 0x66] && 0x48 in code[..2] && 0x66 in code[..2];
    assert RexBit(0x48, 8) && !RexBit(0x48, 4) && !RexBit(0x48, 1) && !IsRex(0x66);
    AcceptedIffPlain(code);
  }

  /** The decoder looks at one prefix only. */
  lemma MoffsUses(code: Code, p: Prefixes, q: Prefixes, pos: nat)
    requires p.operandSize == q.operandSize
    ensures DecodeMoffs(code, p, pos) == DecodeMoffs(code, q, pos)
  {
  }

  lemma MoffsRoom(code: Code, p: Prefixes, pos: nat)
    requires DecodeMoffs(code, p, pos).Decoded?
    ensures pos + 8 <= |code|
  {
  }

  // The length, on which skipping depends.

  /** Bytes after the ModRM byte, without those of a SIB form. */
  function ModRMTail(modrm: Byte): nat {
    if modrm / 64 == 1 then 1
    else if modrm / 64 == 2 || (modrm / 64 == 0 && modrm % 8 == 5) then 4
    else 0
  }

  /** Prefixes, opcode, and ModRM byte with displacement, or offset. */
  function ManualLength(code: Code): nat
    requires OpcodeAt(code, 0) + 1 < |code|
  {
    var at := OpcodeAt(code, 0);
    if code[at] == 0xa1 then at + 1 + (if 0x67 in code[..at] then 4 else 8) else at + 2 + ModRMTail(code[at + 1])
  }

  /** The decoder's length is the manual's for every accepted instruction but 0xa1 with a 67 prefix. */
  lemma LengthIff(code: Code)
    requires Decode(code).Decoded?
    ensures OpcodeAt(code, 0) + 1 < |code|
    ensures Decode(code).inst.length == ManualLength(code)
       <==> !(code[OpcodeAt(code, 0)] == 0xa1 && 0x67 in code[..OpcodeAt(code, 0)])
  {
    hide RegOperand, BaseRegister, Little32, Little64, Displacement, PrefixesFrom;
    CollectedFlags(code, 0, NONE);
    assert code[0..OpcodeAt(code, 0)] == code[..OpcodeAt(code, 0)];
  }

  /** The fault handler resumes at the next instruction exactly then. */
  lemma SkipIff(memory: Code, rip: nat)
    requires rip <= |memory| && Decode(memory[rip..]).Decoded?
    ensures var here := memory[rip..];
            && OpcodeAt(here, 0) + 1 < |here|
            && (Skip(memory, rip) == Some(rip + ManualLength(here))
                <==> !(here[OpcodeAt(here, 0)] == 0xa1 && 0x67 in here[..OpcodeAt(here, 0)]))
  {
    hide Decode, ManualLength, OpcodeAt;
    LengthIff(memory[rip..]);
  }

  /** Concretely: the handler takes 67 a1 with its four-byte offset and the two instructions behind it for one. */
  lemma SkipsTooFar()
    ensures Skip([0x67, 0xa1, 1, 2, 3, 4, 0x88, 0x07, 0x88, 0x07], 0) == Some(10)
    ensures Manual([0x67, 0xa1, 1, 2, 3, 4, 0x88, 0x07, 0x88, 0x07]).Decoded?
         && Manual([0x67, 0xa1, 1, 2, 3, 4, 0x88, 0x07, 0x88, 0x07]).inst.length == 6
  {
    hide Decode, Manual;
    var memory: Code := [0x67, 0xa1, 1, 2, 3, 4, 0x88, 0x07, 0x88, 0x07];
    assert memory[0..] == memory == [0x67, 0xa1] + memory[2..];
    WrongMoffs(memory[2..]);
  }
}
