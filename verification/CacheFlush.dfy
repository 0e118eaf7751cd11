/** The ARMv7 clean-and-invalidate by set and way (arch/arm/cache.S; ARM DDI 0406C, section B4.2.1). */
module CacheFlush {
  import opened Bits

  /** One cache line position: level, way and set, all from zero. */
  datatype Line = Line(level: nat, way: nat, index: nat)

  // Fields of CLIDR and CCSIDR.

  function LevelOfCoherency(clidr: Word32): (loc: nat)
    ensures loc <= 7
  {
    clidr / 0x100_0000 % 8
  }

  function CacheType(clidr: Word32, level: nat): nat {
    clidr / Pow2(3 * level) % 8
  }

  function LineShift(csidr: Word32): nat {
    csidr % 8 + 4
  }

  function MaxWay(csidr: Word32): (w: nat)
    ensures BitLength(w) <= 10
  {
    Powers();
    BitLengthBounds(csidr / 8 % 0x400, 10);
    csidr / 8 % 0x400
  }

  function MaxSet(csidr: Word32): nat {
    csidr / 0x2000 % 0x8000
  }

  function BitLength(v: nat): nat {
    if v == 0 then 0 else 1 + BitLength(v / 2)
  }

  lemma {:induction false} BitLengthBounds(v: nat, n: nat)
    ensures v < Pow2(BitLength(v))
    ensures v < Pow2(n) ==> BitLength(v) <= n
  {
    if v > 0 {
      BitLengthBounds(v / 2, if n > 0 then n - 1 else 0);
    }
  }

  /** Count leading zeros of a 32-bit number: 32 for zero. */
  function Clz(v: nat): nat
    requires BitLength(v) <= 32
  {
    32 - BitLength(v)
  }

  /** Does the flush cover this line: below the level of coherency, a data or unified cache, inside the cache. */
  predicate Covered(clidr: Word32, ccsidr: seq<Word32>, l: Line)
    requires |ccsidr| == 7
  {
    l.level < LevelOfCoherency(clidr) && CacheType(clidr, l.level) >= 2
    && l.way <= MaxWay(ccsidr[l.level]) && l.index <= MaxSet(ccsidr[l.level])
  }

  // The order in which the loops visit the lines.

  function SetLines(level: nat, way: nat, sets: nat): seq<Line> {
    if sets == 0 then [] else [Line(level, way, sets - 1)] + SetLines(level, way, sets - 1)
  }

  function WayLines(level: nat, ways: nat, sets: nat): seq<Line> {
    if ways == 0 then [] else SetLines(level, ways - 1, sets) + WayLines(level, ways - 1, sets)
  }

  function LevelLines(clidr: Word32, ccsidr: seq<Word32>, level: nat): seq<Line>
    requires |ccsidr| == 7
    decreases 7 - level
  {
    if level >= LevelOfCoherency(clidr) then []
    else
      (if CacheType(clidr, level) >= 2 then WayLines(level, MaxWay(ccsidr[level]) + 1, MaxSet(ccsidr[level]) + 1) else [])
        + LevelLines(clidr, ccsidr, level + 1)
  }

  ghost predicate Distinct(lines: seq<Line>) {
    forall i, j :: 0 <= i < j < |lines| ==> lines[i] != lines[j]
  }

  lemma {:induction false} SetLinesOnce(level: nat, way: nat, sets: nat)
    ensures Distinct(SetLines(level, way, sets))
    ensures forall l :: l in SetLines(level, way, sets) <==> l.level == level && l.way == way && l.index < sets
  {
    if sets > 0 { SetLinesOnce(level, way, sets - 1); }
  }

  lemma {:induction false} WayLinesOnce(level: nat, ways: nat, sets: nat)
    ensures Distinct(WayLines(level, ways, sets))
    ensures forall l :: l in WayLines(level, ways, sets) <==> l.level == level && l.way < ways && l.index < sets
  {
    if ways > 0 {
      WayLinesOnce(level, ways - 1, sets);
      SetLinesOnce(level, ways - 1, sets);
      DistinctConcat(SetLines(level, ways - 1, sets), WayLines(level, ways - 1, sets));
    }
  }

  lemma DistinctConcat(a: seq<Line>, b: seq<Line>)
    requires Distinct(a) && Distinct(b) && forall l :: l in a ==> l !in b
    ensures Distinct(a + b)
  {
    forall i, j | 0 <= i < j < |a + b| ensures (a + b)[i] != (a + b)[j] {
      if i < |a| <= j { assert (a + b)[j] in b && (a + b)[i] in a; }
    }
  }

  /** Exactly one visit to each line of every data or unified cache below the level of coherency, and no other. */
  lemma {:induction false} LevelLinesOnce(clidr: Word32, ccsidr: seq<Word32>, level: nat)
    requires |ccsidr| == 7
    ensures Distinct(LevelLines(clidr, ccsidr, level))
    ensures forall l :: l in LevelLines(clidr, ccsidr, level) <==> l.level >= level && Covered(clidr, ccsidr, l)
    decreases 7 - level
  {
    hide MaxWay, MaxSet, CacheType, LevelOfCoherency;
    if level < LevelOfCoherency(clidr) {
      LevelLinesOnce(clidr, ccsidr, level + 1);
      var first := if CacheType(clidr, level) >= 2 then WayLines(level, MaxWay(ccsidr[level]) + 1, MaxSet(ccsidr[level]) + 1) else [];
      WayLinesOnce(level, MaxWay(ccsidr[level]) + 1, MaxSet(ccsidr[level]) + 1);
      DistinctConcat(first, LevelLines(clidr, ccsidr, level + 1));
    }
  }

  // The operand of the clean-and-invalidate instruction.

  function Operand(csidr: Word32, l: Line): nat {
    Or(Or(2 * l.level, Shl(l.way, Clz(MaxWay(csidr)))), Shl(l.index, LineShift(csidr)))
  }

  /** The set field stays below the way field. */
  predicate FieldsFit(csidr: Word32) {
    MaxSet(csidr) * Pow2(LineShift(csidr)) < Pow2(Clz(MaxWay(csidr)))
  }

  /** The operand of the instruction for a line of the machine. */
  function OperandOf(ccsidr: seq<Word32>, l: Line): nat
    requires |ccsidr| == 7 && l.level < 7
  {
    Operand(ccsidr[l.level], l)
  }

  /** When the fields fit, the operand is their sum: the level in bits 3:1, the set above the line offset, the
      way at the top. */
  lemma OperandIsSum(csidr: Word32, l: Line)
    requires FieldsFit(csidr)
    requires l.level < 7 && l.index <= MaxSet(csidr)
    ensures var s, c := LineShift(csidr), Clz(MaxWay(csidr));
            && 4 <= s <= c
            && l.index < Pow2(c - s)
            && Operand(csidr, l) == 2 * l.level + Pow2(s) * (l.index + Pow2(c - s) * l.way)
  {
    var s, c := LineShift(csidr), Clz(MaxWay(csidr));
    hide MaxWay, MaxSet, LineShift, Clz, BitLength, Or, Shl, Pow2, FieldsFit;
    LineShiftRange(csidr);
    SetFieldFits(csidr, l);
    PackFields(l.level, l.index, l.way, s, c);
  }

  lemma SetFieldFits(csidr: Word32, l: Line)
    requires FieldsFit(csidr) && l.index <= MaxSet(csidr)
    requires LineShift(csidr) <= Clz(MaxWay(csidr))
    ensures l.index < Pow2(Clz(MaxWay(csidr)) - LineShift(csidr))
  {
    hide MaxWay, MaxSet, LineShift, Clz, BitLength, Pow2;
    var s, c := LineShift(csidr), Clz(MaxWay(csidr));
    PowSum(s, c - s);
    assert s + (c - s) == c;
    IndexBound(Pow2(s), Pow2(c - s), l.index, MaxSet(csidr), Pow2(c));
  }

  lemma LineShiftRange(csidr: Word32)
    ensures 4 <= LineShift(csidr) <= 11 && 22 <= Clz(MaxWay(csidr))
  {
  }

  lemma PackFields(level: nat, index: nat, way: nat, s: nat, c: nat)
    requires level < 7 && 4 <= s <= c && index < Pow2(c - s)
    ensures Or(Or(2 * level, Shl(way, c)), Shl(index, s)) == 2 * level + Pow2(s) * (index + Pow2(c - s) * way)
  {
    hide Or, Shl, Pow2;
    LevelAndWay(level, way, s, c);
    AddSet(level, index, way, s, Pow2(c - s) * way, c);
    Distribute(Pow2(s), index, Pow2(c - s) * way);
  }

  lemma LevelAndWay(level: nat, way: nat, s: nat, c: nat)
    requires level < 7 && 4 <= s <= c
    ensures Or(2 * level, Shl(way, c)) == Pow2(s) * (Pow2(c - s) * way) + 2 * level
  {
    hide Or, Shl, Pow2;
    var high := Pow2(c - s) * way;
    ShlIsTimes(way, c);
    PowSum(s, c - s);
    Reorder(way, Pow2(s), Pow2(c - s));
    AboveLevel(high, s);
    OrDisjoint(Pow2(s) * high, 2 * level, 4);
    OrCommutes(2 * level, Pow2(s) * high);
  }

  lemma AddSet(level: nat, index: nat, way: nat, s: nat, high: nat, c: nat)
    requires level < 7 && 4 <= s <= c && index < Pow2(c - s) && high == Pow2(c - s) * way
    ensures Or(Pow2(s) * high + 2 * level, Shl(index, s)) == Pow2(s) * high + 2 * level + index * Pow2(s)
  {
    hide Or, Shl, Pow2;
    var low := Pow2(s) * high + 2 * level;
    ShlIsTimes(index, s);
    AboveLevel(high, s);
    DivModUnique(low, Pow2(s), high, 2 * level);
    DivModUnique(high, Pow2(c - s), way, 0);
    OrField(low, index, s, c - s);
  }

  lemma Distribute(p: nat, x: nat, y: nat)
    ensures p * y + x * p == p * (x + y)
  {
  }

  lemma AboveLevel(high: nat, s: nat)
    requires s >= 4
    ensures (Pow2(s) * high) % Pow2(4) == 0 && Pow2(4) == 16 && Pow2(s) >= 16
  {
    hide Pow2;
    Sixteen();
    PowSum(4, s - 4);
    PowMono(4, s);
    assert 4 + (s - 4) == s;
    var q := Pow2(s - 4);
    Associate(16, q, high);
    DivModUnique(Pow2(s) * high, 16, q * high, 0);
  }

  lemma Sixteen()
    ensures Pow2(4) == 16
  {
  }

  lemma Associate(a: nat, b: nat, c: nat)
    ensures (a * b) * c == a * (b * c)
  {
  }

  lemma Reorder(x: nat, a: nat, b: nat)
    ensures x * (a * b) == a * (b * x)
  {
    assert a * (b * x) == (a * b) * x;
  }

  lemma IndexBound(ps: nat, pw: nat, index: nat, max: nat, total: nat)
    requires max * ps < total == ps * pw && index <= max
    ensures index < pw
  {
    if pw <= index { MulMono(ps, pw, max); }
  }

  /** The fields of every cache that is flushed fit. */
  predicate AllFit(clidr: Word32, ccsidr: seq<Word32>)
    requires |ccsidr| == 7
  {
    forall k: nat :: k < LevelOfCoherency(clidr) && CacheType(clidr, k) >= 2 ==> FieldsFit(ccsidr[k])
  }

  /** No two lines that are flushed share an operand. */
  ghost predicate OperandsDiffer(clidr: Word32, ccsidr: seq<Word32>)
    requires |ccsidr| == 7
  {
    forall a, b :: Covered(clidr, ccsidr, a) && Covered(clidr, ccsidr, b) && a != b ==> OperandOf(ccsidr, a) != OperandOf(ccsidr, b)
  }

  /** Different lines of the machine have different operands. */
  lemma OperandsDistinct(clidr: Word32, ccsidr: seq<Word32>, a: Line, b: Line)
    requires |ccsidr| == 7 && Covered(clidr, ccsidr, a) && Covered(clidr, ccsidr, b)
    requires AllFit(clidr, ccsidr)
    requires OperandOf(ccsidr, a) == OperandOf(ccsidr, b)
    ensures a == b
  {
    hide Operand, FieldsFit, LineShift, MaxWay, MaxSet, Clz;
    OperandParts(ccsidr[a.level], a);
    OperandParts(ccsidr[b.level], b);
  }

  /** Level, set and way can be read back from the operand. */
  lemma OperandParts(csidr: Word32, l: Line)
    requires FieldsFit(csidr) && l.level < 7 && l.index <= MaxSet(csidr)
    ensures var s, w := Pow2(LineShift(csidr)), Pow2(Clz(MaxWay(csidr)) - LineShift(csidr));
            var op := Operand(csidr, l);
            op % 16 / 2 == l.level && op / s % w == l.index && op / s / w == l.way
  {
    OperandIsSum(csidr, l);
    hide Operand, FieldsFit, LineShift, MaxWay, MaxSet, Clz, Pow2, BitLength, Or, Shl;
    SplitFields(l.level, l.index, l.way, LineShift(csidr), Clz(MaxWay(csidr)), Operand(csidr, l));
  }

  lemma SplitFields(level: nat, index: nat, way: nat, s: nat, c: nat, op: nat)
    requires level < 7 && 4 <= s <= c && index < Pow2(c - s)
    requires op == 2 * level + Pow2(s) * (index + Pow2(c - s) * way)
    ensures op % 16 / 2 == level && op / Pow2(s) % Pow2(c - s) == index && op / Pow2(s) / Pow2(c - s) == way
  {
    hide Pow2;
    AboveLevel(index + Pow2(c - s) * way, s);
    UnpackFields(level, index, way, Pow2(s), Pow2(c - s), op);
  }

  lemma UnpackFields(level: nat, index: nat, way: nat, ps: nat, pw: nat, op: nat)
    requires level < 7 && ps >= 16 && index < pw && (ps * (index + pw * way)) % 16 == 0
    requires op == 2 * level + ps * (index + pw * way)
    ensures op % 16 / 2 == level && op / ps % pw == index && op / ps / pw == way
  {
    var rest := index + pw * way;
    var q := ps * rest;
    DivModUnique(op, 16, q / 16, 2 * level);
    DivModUnique(op, ps, rest, 2 * level);
    DivModUnique(rest, pw, way, index);
  }

  /** The condition is exact: when the fields of a cache do not fit, two of its lines share an operand. */
  lemma OperandsCollide(csidr: Word32, level: nat)
    requires !FieldsFit(csidr)
    ensures var index := Pow2(Clz(MaxWay(csidr)) - LineShift(csidr));
            && 1 <= MaxWay(csidr) && 0 < index <= MaxSet(csidr)
            && Operand(csidr, Line(level, 1, 0)) == Operand(csidr, Line(level, 0, index))
  {
    hide MaxWay, MaxSet, LineShift, Clz, BitLength, Or, Shl, Pow2;
    LineShiftRange(csidr);
    NotFittingHasWays(csidr);
    var s, c := LineShift(csidr), Clz(MaxWay(csidr));
    SameOperand(2 * level, s, c);
    PowSum(s, c - s);
    assert s + (c - s) == c;
    NotBelow(MaxSet(csidr), Pow2(s), Pow2(c - s), Pow2(c));
  }

  /** A cache whose fields do not fit: 1024 ways of 32768 sets, with lines of 2 KiB. */
  lemma FieldsThatDoNotFit()
    ensures !FieldsFit(0x0fff_ffff)
  {
    hide BitLength, Pow2;
    Powers();
    BitLengthBounds(0x3ff, 0);
    if BitLength(0x3ff) <= 9 { PowMono(BitLength(0x3ff), 9); }
    PowMono(Clz(MaxWay(0x0fff_ffff)), 22);
    PowSum(21, 1);
    PowMono(10, 11);
    MulMono(0x7fff, 0x400, Pow2(11));
  }

  lemma SameOperand(level2: nat, s: nat, c: nat)
    requires s <= c
    ensures Or(Or(level2, Shl(1, c)), Shl(0, s)) == Or(Or(level2, Shl(0, c)), Shl(Pow2(c - s), s))
  {
    hide Or, Shl, Pow2;
    ShlIsTimes(1, c); ShlIsTimes(0, c); ShlIsTimes(0, s); ShlIsTimes(Pow2(c - s), s);
    PowSum(c - s, s);
    OrZero(level2); OrZero(Or(level2, Pow2(c)));
  }

  lemma NotBelow(max: nat, ps: nat, pw: nat, total: nat)
    requires max * ps >= total == ps * pw && ps >= 1
    ensures pw <= max
  {
    if max < pw { MulMono(ps, max + 1, pw); BelowNext(max, ps); }
  }

  lemma BelowNext(x: nat, p: nat)
    requires p >= 1
    ensures x * p < p * (x + 1)
  {
  }

  /** With a single way the set field has all of the upper bits to itself. */
  lemma NotFittingHasWays(csidr: Word32)
    requires !FieldsFit(csidr)
    ensures MaxWay(csidr) >= 1
  {
    if MaxWay(csidr) == 0 {
      Powers();
      PowMono(LineShift(csidr), 12);
      assert Pow2(24) == 0x100_0000;
      assert Pow2(32) == 0x1_0000_0000;
      MulMono(MaxSet(csidr), Pow2(LineShift(csidr)), 0x1000);
    }
  }

  // The routine: three nested loops over r10, r4 and r9.

  /** `loop2`: one way, all sets, from the highest down. */
  method FlushSets(r10: nat, r4: nat, r5: nat, r2: nat, r7: nat, csidr: Word32) returns (ops: seq<nat>)
    requires r10 % 2 == 0 && r5 == Clz(MaxWay(csidr)) && r2 == LineShift(csidr)
    ensures ops == Operands(csidr, SetLines(r10 / 2, r4, r7 + 1))
  {
    hide Or, Shl, Pow2, BitLength, Clz, MaxWay, LineShift;
    ops := [];
    var r9: int := r7;
    while true
      invariant 0 <= r9 <= r7
      invariant ops + Operands(csidr, SetLines(r10 / 2, r4, r9 + 1)) == Operands(csidr, SetLines(r10 / 2, r4, r7 + 1))
      decreases r9
    {
      var r11 := Or(r10, Shl(r4, r5));
      r11 := Or(r11, Shl(r9, r2));
      ghost var line := Line(r10 / 2, r4, r9);
      assert r11 == Operand(csidr, line);
      assert Operands(csidr, SetLines(r10 / 2, r4, r9 + 1)) == [r11] + Operands(csidr, SetLines(r10 / 2, r4, r9));
      ops := ops + [r11];
      r9 := r9 - 1;
      if r9 < 0 { break; }
    }
    assert SetLines(r10 / 2, r4, 0) == [];
  }

  function Operands(csidr: Word32, lines: seq<Line>): seq<nat> {
    seq(|lines|, k requires 0 <= k < |lines| => Operand(csidr, lines[k]))
  }

  /** `loop1`: one cache, all ways, from the highest down. */
  method FlushWays(r10: nat, csidr: Word32) returns (ops: seq<nat>)
    requires r10 % 2 == 0
    ensures ops == Operands(csidr, WayLines(r10 / 2, MaxWay(csidr) + 1, MaxSet(csidr) + 1))
  {
    hide MaxWay, MaxSet, LineShift, Operand, BitLength, SetLines;
    var r2 := LineField(csidr);
    var r4: int, r7 := SizeFields(csidr);
    var r5 := 32 - BitLength(r4);
    ghost var sets := r7 + 1;
    ops := [];
    while true
      invariant 0 <= r4 <= MaxWay(csidr)
      invariant ops + Operands(csidr, WayLines(r10 / 2, r4 + 1, sets)) == Operands(csidr, WayLines(r10 / 2, MaxWay(csidr) + 1, sets))
      decreases r4
    {
      var more := FlushSets(r10, r4, r5, r2, r7, csidr);
      OperandsConcat(csidr, SetLines(r10 / 2, r4, sets), WayLines(r10 / 2, r4, sets));
      ops := ops + more;
      r4 := r4 - 1;
      if r4 < 0 { break; }
    }
    assert WayLines(r10 / 2, 0, sets) == [];
  }

  lemma OperandsConcat(csidr: Word32, a: seq<Line>, b: seq<Line>)
    ensures Operands(csidr, a + b) == Operands(csidr, a) + Operands(csidr, b)
  {
  }

  /** `and r2, r1, #7; add r2, r2, #4` */
  method LineField(csidr: Word32) returns (r2: nat)
    ensures r2 == LineShift(csidr)
  {
    Mask(csidr, 0, 3, 1, 8);
    r2 := And(csidr, 7) + 4;
  }

  /** `0x3ff & csidr >> 3` and `0x7fff & csidr >> 13` */
  method SizeFields(csidr: Word32) returns (r4: nat, r7: nat)
    ensures r4 == MaxWay(csidr) && r7 == MaxSet(csidr)
  {
    ShiftRight(csidr, 3, 8); ShiftRight(csidr, 13, 0x2000);
    Mask(csidr / 8, 0, 10, 1, 0x400); Mask(csidr / 0x2000, 0, 15, 1, 0x8000);
    r4, r7 := And(Shr(csidr, 3), 0x3ff), And(Shr(csidr, 13), 0x7fff);
  }

  predicate LevelsInRange(lines: seq<Line>) {
    forall k :: 0 <= k < |lines| ==> lines[k].level < 7
  }

  /** The operands of all lines, in the order of `lines`. */
  function AllOperands(ccsidr: seq<Word32>, lines: seq<Line>): seq<nat>
    requires |ccsidr| == 7 && LevelsInRange(lines)
  {
    seq(|lines|, k requires 0 <= k < |lines| => OperandOf(ccsidr, lines[k]))
  }

  /** `flush_cache_kernel`: `clidr` is CLIDR, and `ccsidr[n]` what CCSIDR reads for the data cache of level n. */
  method FlushCacheKernel(clidr: Word32, ccsidr: seq<Word32>) returns (ops: seq<nat>)
    requires |ccsidr| == 7
    ensures LevelsInRange(LevelLines(clidr, ccsidr, 0))
    ensures ops == AllOperands(ccsidr, LevelLines(clidr, ccsidr, 0))
  {
    hide MaxWay, MaxSet, CacheType, LevelOfCoherency, Operands, AllOperands, LevelLines, WayLines, BitLength, LevelsInRange;
    LevelsBelow(clidr, ccsidr, 0);
    ops := [];
    var r3 := LocTimesTwo(clidr);
    if r3 == 0 { NoLevels(clidr, ccsidr, 0); return; }
    var r10 := 0;
    ghost var n: nat, all := 0, AllOperands(ccsidr, LevelLines(clidr, ccsidr, 0));
    while true
      invariant r10 == 2 * n && r10 < r3 && r3 == 2 * LevelOfCoherency(clidr)
      invariant LevelsInRange(LevelLines(clidr, ccsidr, n))
      invariant ops + AllOperands(ccsidr, LevelLines(clidr, ccsidr, n)) == all
      decreases r3 - r10
    {
      LevelStep(clidr, ccsidr, n);
      var r1 := TypeField(clidr, r10);
      ghost var rest := AllOperands(ccsidr, LevelLines(clidr, ccsidr, n + 1));
      if r1 >= 2 {
        var more := FlushWays(r10, ccsidr[r10 / 2]);
        ConcatAssoc(ops, more, rest);
        ops := ops + more;
      }
      r10, n := r10 + 2, n + 1;
      if r3 <= r10 { break; }
    }
    NoLevels(clidr, ccsidr, n);
    assert ops + [] == ops;
  }

  lemma ConcatAssoc(a: seq<nat>, b: seq<nat>, c: seq<nat>)
    ensures a + (b + c) == a + b + c
  {
  }

  /** One turn of the outer loop, on the specification. */
  lemma LevelStep(clidr: Word32, ccsidr: seq<Word32>, n: nat)
    requires |ccsidr| == 7 && n < LevelOfCoherency(clidr)
    ensures LevelsInRange(LevelLines(clidr, ccsidr, n)) && LevelsInRange(LevelLines(clidr, ccsidr, n + 1))
    ensures AllOperands(ccsidr, LevelLines(clidr, ccsidr, n))
         == if CacheType(clidr, n) >= 2 then
              Operands(ccsidr[n], WayLines(n, MaxWay(ccsidr[n]) + 1, MaxSet(ccsidr[n]) + 1))
                + AllOperands(ccsidr, LevelLines(clidr, ccsidr, n + 1))
            else AllOperands(ccsidr, LevelLines(clidr, ccsidr, n + 1))
  {
    hide MaxWay, MaxSet, CacheType, WayLines, BitLength, LevelOfCoherency, Operands, AllOperands, LevelsInRange;
    LevelsBelow(clidr, ccsidr, n);
    LevelsBelow(clidr, ccsidr, n + 1);
    var first := WayLines(n, MaxWay(ccsidr[n]) + 1, MaxSet(ccsidr[n]) + 1);
    var rest := LevelLines(clidr, ccsidr, n + 1);
    if CacheType(clidr, n) >= 2 {
      WayLinesOnce(n, MaxWay(ccsidr[n]) + 1, MaxSet(ccsidr[n]) + 1);
      OneLevel(ccsidr, n, first, rest);
    } else {
      assert [] + rest == rest;
    }
  }

  lemma NoLevels(clidr: Word32, ccsidr: seq<Word32>, n: nat)
    requires |ccsidr| == 7 && n >= LevelOfCoherency(clidr)
    ensures LevelLines(clidr, ccsidr, n) == [] && LevelsInRange([]) && AllOperands(ccsidr, []) == []
  {
  }

  lemma LevelsBelow(clidr: Word32, ccsidr: seq<Word32>, n: nat)
    requires |ccsidr| == 7
    ensures LevelsInRange(LevelLines(clidr, ccsidr, n))
  {
    hide LevelLines, CacheType, MaxWay, MaxSet;
    LevelLinesOnce(clidr, ccsidr, n);
    var lines := LevelLines(clidr, ccsidr, n);
    forall k | 0 <= k < |lines| ensures lines[k].level < 7 {
      assert lines[k] in lines;
    }
  }

  lemma OneLevel(ccsidr: seq<Word32>, n: nat, lines: seq<Line>, rest: seq<Line>)
    requires |ccsidr| == 7 && n < 7
    requires (forall l :: l in lines ==> l.level == n) && LevelsInRange(rest)
    ensures LevelsInRange(lines + rest)
    ensures AllOperands(ccsidr, lines + rest) == Operands(ccsidr[n], lines) + AllOperands(ccsidr, rest)
  {
    hide Operand, MaxWay, BitLength;
    forall k | 0 <= k < |lines| ensures lines[k].level == n {
      assert lines[k] in lines;
    }
  }

  /** `lsr #23`, `ands #7 << 1` */
  method LocTimesTwo(clidr: Word32) returns (r3: nat)
    ensures r3 == 2 * LevelOfCoherency(clidr)
  {
    assert Pow2(16) == 0x1_0000 && Pow2(23) == 0x80_0000;
    ShiftRight(clidr, 23, 0x80_0000);
    var v := Shr(clidr, 23);
    Mask(v, 1, 3, 2, 8);
    r3 := And(v, 14);
    DivDiv(clidr, 0x80_0000, 2);
  }

  /** `add r2, r10, r10 lsr #1; lsr r2; and #7` */
  method TypeField(clidr: Word32, r10: nat) returns (r1: nat)
    requires r10 % 2 == 0
    ensures r1 == CacheType(clidr, r10 / 2)
  {
    var r2 := r10 + Shr(r10, 1);
    ShiftRight(r10, 1, 2);
    assert r2 == 3 * (r10 / 2);
    ShrIsDiv(clidr, r2);
    Mask(Shr(clidr, r2), 0, 3, 1, 8);
    r1 := And(Shr(clidr, r2), 7);
  }

  /** The whole flush: one operation for each covered line, and all operations different exactly when the
      fields of the flushed caches fit. */
  lemma FlushIsExact(clidr: Word32, ccsidr: seq<Word32>)
    requires |ccsidr| == 7
    ensures var lines := LevelLines(clidr, ccsidr, 0);
            Distinct(lines) && (forall l :: l in lines <==> Covered(clidr, ccsidr, l))
    ensures OperandsDiffer(clidr, ccsidr) <==> AllFit(clidr, ccsidr)
  {
    LevelLinesOnce(clidr, ccsidr, 0);
    hide OperandOf, FieldsFit;
    if AllFit(clidr, ccsidr) {
      forall a, b | Covered(clidr, ccsidr, a) && Covered(clidr, ccsidr, b) && a != b
        ensures OperandOf(ccsidr, a) != OperandOf(ccsidr, b)
      {
        if OperandOf(ccsidr, a) == OperandOf(ccsidr, b) { OperandsDistinct(clidr, ccsidr, a, b); }
      }
    }
    forall k: nat | k < LevelOfCoherency(clidr) && CacheType(clidr, k) >= 2 && !FieldsFit(ccsidr[k])
      ensures !OperandsDiffer(clidr, ccsidr)
    {
      CoveredCollision(clidr, ccsidr, k);
    }
  }

  lemma CoveredCollision(clidr: Word32, ccsidr: seq<Word32>, k: nat)
    requires |ccsidr| == 7 && k < LevelOfCoherency(clidr) && CacheType(clidr, k) >= 2 && !FieldsFit(ccsidr[k])
    ensures !OperandsDiffer(clidr, ccsidr)
  {
    hide FieldsFit, Operand, MaxWay, MaxSet, CacheType, LevelOfCoherency, Clz, LineShift, Pow2, BitLength;
    LineShiftRange(ccsidr[k]);
    OperandsCollide(ccsidr[k], k);
    var a, b := Line(k, 1, 0), Line(k, 0, Pow2(Clz(MaxWay(ccsidr[k])) - LineShift(ccsidr[k])));
    assert Covered(clidr, ccsidr, a) && Covered(clidr, ccsidr, b);
    assert OperandOf(ccsidr, a) == OperandOf(ccsidr, b);
  }
}
