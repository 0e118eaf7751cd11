/** The cache flush on machines described by their own parameters: the registers are built from the parameters by the
    bit positions of CLIDR and CCSIDR (ARM DDI 0406C, sections B4.1.20 and B4.1.19), and the operands are those of the
    set/way operations (section B4.2.1). */
module CacheMachine {
  import opened Bits
  import opened CacheFlush

  datatype Kind = NoCache | InstructionOnly | DataOnly | Separate | Unified

  /** The data cache of a level; a line is 2^lineLog bytes. */
  datatype Geometry = Geometry(ways: nat, sets: nat, lineLog: nat)

  /** Levels below the level of coherency, and what each level has. */
  datatype Machine = Machine(coherency: nat, kinds: seq<Kind>, caches: seq<Geometry>)

  predicate Possible(g: Geometry) {
    1 <= g.ways <= 0x400 && 1 <= g.sets <= 0x8000 && 4 <= g.lineLog <= 11
  }

  predicate Valid(m: Machine) {
    m.coherency <= 7 && |m.kinds| == |m.caches| == 7 && forall k :: 0 <= k < 7 ==> Possible(m.caches[k])
  }

  /** The lines to flush: those of every data or unified cache below the level of coherency. */
  predicate Present(m: Machine, l: Line)
    requires Valid(m)
  {
    && l.level < m.coherency && m.kinds[l.level] in {DataOnly, Separate, Unified}
    && l.way < m.caches[l.level].ways && l.index < m.caches[l.level].sets
  }

  // The registers.

  function TypeCode(kind: Kind): nat {
    match kind
    case NoCache => 0
    case InstructionOnly => 1
    case DataOnly => 2
    case Separate => 3
    case Unified => 4
  }

  /** Three bits for each level, the first level lowest. */
  function Types(kinds: seq<Kind>): nat {
    if kinds == [] then 0 else TypeCode(kinds[0]) + 8 * Types(kinds[1..])
  }

  lemma {:induction false} TypesRange(kinds: seq<Kind>)
    ensures Types(kinds) < Pow2(3 * |kinds|)
  {
    if kinds != [] {
      TypesRange(kinds[1..]);
      PowSum(3, 3 * |kinds[1..]|);
      assert Pow2(3) == 8 && 3 + 3 * |kinds[1..]| == 3 * |kinds|;
    }
  }

  /** CLIDR: cache types in bits 20:0, level of unification inner shareable in 23:21, level of coherency in 26:24, and
      above it the level of unification and bits that do not matter here. */
  function Clidr(m: Machine, inner: nat, upper: nat): Word32
    requires Valid(m) && inner < 8 && upper < 32
  {
    TypesRange(m.kinds);
    Powers();
    Types(m.kinds) + 0x20_0000 * inner + 0x100_0000 * m.coherency + 0x800_0000 * upper
  }

  /** CCSIDR: line size in words, as a power of two less 2, in bits 2:0, ways less one in 12:3, sets less one in 27:13,
      write policies above. */
  function Ccsidr(g: Geometry, policies: nat): Word32
    requires Possible(g) && policies < 16
  {
    (g.lineLog - 4) + 8 * (g.ways - 1) + 0x2000 * (g.sets - 1) + 0x1000_0000 * policies
  }

  function Ccsidrs(m: Machine, policies: seq<nat>): (r: seq<Word32>)
    requires Valid(m) && |policies| == 7 && forall k :: 0 <= k < 7 ==> policies[k] < 16
    ensures |r| == 7
  {
    seq(7, k requires 0 <= k < 7 => Ccsidr(m.caches[k], policies[k]))
  }

  lemma CoherencyField(m: Machine, inner: nat, upper: nat)
    requires Valid(m) && inner < 8 && upper < 32
    ensures LevelOfCoherency(Clidr(m, inner, upper)) == m.coherency
  {
    TypesRange(m.kinds);
    Powers();
    DivModUnique(Clidr(m, inner, upper), 0x100_0000, m.coherency + 8 * upper, Types(m.kinds) + 0x20_0000 * inner);
    DivModUnique(m.coherency + 8 * upper, 8, upper, m.coherency);
  }

  lemma {:induction false} TypesField(kinds: seq<Kind>, k: nat, high: nat)
    requires k < |kinds|
    ensures (Types(kinds) + Pow2(3 * |kinds|) * high) / Pow2(3 * k) % 8 == TypeCode(kinds[k])
  {
    hide Pow2, Types;
    var rest := kinds[1..];
    var word, next := Types(kinds) + Pow2(3 * |kinds|) * high, Types(rest) + Pow2(3 * |rest|) * high;
    TypesStep(kinds, high);
    DivModUnique(word, 8, next, TypeCode(kinds[0]));
    if k == 0 {
      Powers();
    } else {
      TypesField(rest, k - 1, high);
      EightTimes(3 * (k - 1));
      assert 3 + 3 * (k - 1) == 3 * k;
      DivDiv(word, 8, Pow2(3 * (k - 1)));
    }
  }

  lemma TypesStep(kinds: seq<Kind>, high: nat)
    requires kinds != []
    ensures TypeCode(kinds[0]) < 8
    ensures Types(kinds) + Pow2(3 * |kinds|) * high == 8 * (Types(kinds[1..]) + Pow2(3 * |kinds[1..]|) * high) + TypeCode(kinds[0])
  {
    hide Pow2, Types, TypeCode;
    var n := 3 * |kinds[1..]|;
    TypesHead(kinds);
    EightTimes(n);
    assert 3 + n == 3 * |kinds|;
    Combine(TypeCode(kinds[0]), Types(kinds[1..]), Pow2(3 * |kinds|), Pow2(n), high);
  }

  lemma TypesHead(kinds: seq<Kind>)
    requires kinds != []
    ensures TypeCode(kinds[0]) < 8 && Types(kinds) == TypeCode(kinds[0]) + 8 * Types(kinds[1..])
  {
  }

  lemma Combine(code: nat, rest: nat, p: nat, q: nat, high: nat)
    requires p == 8 * q
    ensures code + 8 * rest + p * high == 8 * (rest + q * high) + code
  {
    assert p * high == 8 * (q * high);
  }

  lemma EightTimes(n: nat)
    ensures Pow2(3 + n) == 8 * Pow2(n)
  {
    PowSum(3, n);
    assert Pow2(3) == 8;
  }

  lemma TypeFields(m: Machine, inner: nat, upper: nat, k: nat)
    requires Valid(m) && inner < 8 && upper < 32 && k < 7
    ensures CacheType(Clidr(m, inner, upper), k) == TypeCode(m.kinds[k])
  {
    hide Pow2, Types;
    Powers();
    TypesField(m.kinds, k, inner + 8 * m.coherency + 64 * upper);
  }

  lemma SizeRegister(g: Geometry, policies: nat)
    requires Possible(g) && policies < 16
    ensures LineShift(Ccsidr(g, policies)) == g.lineLog && MaxWay(Ccsidr(g, policies)) == g.ways - 1 && MaxSet(Ccsidr(g, policies)) == g.sets - 1
  {
    var word, ways, sets := Ccsidr(g, policies), g.ways - 1, g.sets - 1;
    DivModUnique(word, 8, ways + 0x400 * sets + 0x200_0000 * policies, g.lineLog - 4);
    DivModUnique(ways + 0x400 * sets + 0x200_0000 * policies, 0x400, sets + 0x8000 * policies, ways);
    DivModUnique(word, 0x2000, sets + 0x8000 * policies, g.lineLog - 4 + 8 * ways);
    DivModUnique(sets + 0x8000 * policies, 0x8000, policies, sets);
  }

  // The operands.

  /** The number of bits that number n ways: the smallest a with n <= 2^a. */
  function LogUp(n: nat): nat {
    if n <= 1 then 0 else 1 + LogUp((n + 1) / 2)
  }

  lemma {:induction false} LogUpIsSmallest(n: nat)
    ensures n <= Pow2(LogUp(n)) && (n > 1 ==> LogUp(n) > 0 && Pow2(LogUp(n) - 1) < n)
  {
    if n > 1 { LogUpIsSmallest((n + 1) / 2); }
  }

  lemma {:induction false} LogUpIsBitLength(n: nat)
    requires n >= 1
    ensures LogUp(n) == BitLength(n - 1)
  {
    if n > 1 { LogUpIsBitLength((n + 1) / 2); }
  }

  lemma WaysBelow(n: nat)
    requires 1 <= n <= 0x400
    ensures LogUp(n) <= 10
  {
    Powers();
    LogUpIsBitLength(n);
    BitLengthBounds(n - 1, 10);
  }

  /** Level in bits 3:1, set from the line offset on, way in the topmost bits. */
  function MachineOperand(g: Geometry, l: Line): nat
    requires Possible(g)
  {
    WaysBelow(g.ways);
    Or(Or(2 * l.level, Shl(l.way, 32 - LogUp(g.ways))), Shl(l.index, g.lineLog))
  }

  /** The sets do not reach into the bits of the way. */
  predicate SetsFit(g: Geometry)
    requires Possible(g)
  {
    WaysBelow(g.ways);
    (g.sets - 1) * Pow2(g.lineLog) < Pow2(32 - LogUp(g.ways))
  }

  lemma OperandOfRegister(g: Geometry, policies: nat, l: Line)
    requires Possible(g) && policies < 16
    ensures Operand(Ccsidr(g, policies), l) == MachineOperand(g, l)
    ensures FieldsFit(Ccsidr(g, policies)) <==> SetsFit(g)
  {
    hide Or, Shl, Pow2, BitLength, LogUp, Ccsidr;
    SizeRegister(g, policies);
    LogUpIsBitLength(g.ways);
  }

  /** When the sets fit, the operand of a line is the sum of its level, its set's offset and its way at the top. */
  lemma OperandFields(g: Geometry, l: Line)
    requires Possible(g) && SetsFit(g) && l.level < 7 && l.index < g.sets
    ensures LogUp(g.ways) <= 10
    ensures MachineOperand(g, l) == 2 * l.level + l.index * Pow2(g.lineLog) + l.way * Pow2(32 - LogUp(g.ways))
  {
    hide Or, Shl, Pow2, BitLength, LogUp, Ccsidr, Operand, FieldsFit, SetsFit, MachineOperand;
    WaysBelow(g.ways);
    SizeRegister(g, 0);
    LogUpIsBitLength(g.ways);
    OperandOfRegister(g, 0, l);
    OperandIsSum(Ccsidr(g, 0), l);
    var s, c := g.lineLog, 32 - LogUp(g.ways);
    PowSum(s, c - s);
    assert s + (c - s) == c;
    Expand(Pow2(s), l.index, Pow2(c - s), l.way);
  }

  lemma Expand(p: nat, index: nat, q: nat, way: nat)
    ensures p * (index + q * way) == index * p + way * (p * q)
  {
    assert p * (q * way) == way * (p * q);
  }

  // The flush.

  lemma CoveredIsPresent(m: Machine, inner: nat, upper: nat, policies: seq<nat>, l: Line)
    requires Valid(m) && inner < 8 && upper < 32 && |policies| == 7 && forall k :: 0 <= k < 7 ==> policies[k] < 16
    ensures Covered(Clidr(m, inner, upper), Ccsidrs(m, policies), l) <==> Present(m, l)
  {
    hide Clidr, Ccsidr, LevelOfCoherency, CacheType, MaxWay, MaxSet;
    CoherencyField(m, inner, upper);
    if l.level < 7 {
      TypeFields(m, inner, upper, l.level);
      SizeRegister(m.caches[l.level], policies[l.level]);
    }
  }

  /** The operations are those of the machine's lines, in some order, one for each. */
  ghost predicate OneForEachLine(m: Machine, ops: seq<nat>)
    requires Valid(m)
  {
    exists lines: seq<Line> :: Enumerates(m, lines) && OperandsOf(m, lines, ops)
  }

  ghost predicate Enumerates(m: Machine, lines: seq<Line>)
    requires Valid(m)
  {
    Distinct(lines) && forall l :: l in lines <==> Present(m, l)
  }

  predicate OperandsOf(m: Machine, lines: seq<Line>, ops: seq<nat>)
    requires Valid(m)
  {
    && |ops| == |lines|
    && forall k :: 0 <= k < |ops| ==> Present(m, lines[k]) && ops[k] == MachineOperand(m.caches[lines[k].level], lines[k])
  }

  /** The routine on any machine: one operation for each line that is present, and no other. */
  method FlushMachine(m: Machine, inner: nat, upper: nat, policies: seq<nat>) returns (ops: seq<nat>)
    requires Valid(m) && inner < 8 && upper < 32 && |policies| == 7 && forall k :: 0 <= k < 7 ==> policies[k] < 16
    ensures OneForEachLine(m, ops)
  {
    hide Clidr, Ccsidr, Covered, Operand, MachineOperand, LevelLines, Present;
    ops := FlushCacheKernel(Clidr(m, inner, upper), Ccsidrs(m, policies));
    ghost var lines := LevelLines(Clidr(m, inner, upper), Ccsidrs(m, policies), 0);
    LevelLinesOnce(Clidr(m, inner, upper), Ccsidrs(m, policies), 0);
    forall l ensures l in lines <==> Present(m, l) { CoveredIsPresent(m, inner, upper, policies, l); }
    forall k | 0 <= k < |ops| ensures Present(m, lines[k]) && ops[k] == MachineOperand(m.caches[lines[k].level], lines[k]) {
      assert lines[k] in lines;
      PresentLevel(m, lines[k]);
      OperandOfRegister(m.caches[lines[k].level], policies[lines[k].level], lines[k]);
    }
    assert Enumerates(m, lines) && OperandsOf(m, lines, ops);
  }

  lemma PresentLevel(m: Machine, l: Line)
    requires Valid(m) && Present(m, l)
    ensures l.level < 7
  {
  }

  ghost predicate MachineOperandsDiffer(m: Machine)
    requires Valid(m)
  {
    forall a, b :: Present(m, a) && Present(m, b) && a != b ==>
      MachineOperand(m.caches[a.level], a) != MachineOperand(m.caches[b.level], b)
  }

  predicate MachineFits(m: Machine)
    requires Valid(m)
  {
    forall k: nat :: k < m.coherency && m.kinds[k] in {DataOnly, Separate, Unified} ==> SetsFit(m.caches[k])
  }

  /** No two lines share an operand exactly when the sets of every flushed cache fit. */
  lemma OperandsDifferIff(m: Machine)
    requires Valid(m)
    ensures MachineOperandsDiffer(m) <==> MachineFits(m)
  {
    hide MachineOperandsDiffer, MachineFits, OperandsDiffer, AllFit, Clidr;
    FlushIsExact(Clidr(m, 0, 0), Ccsidrs(m, ZeroPolicies()));
    DifferBridge(m);
    FitsBridge(m);
  }

  function ZeroPolicies(): (r: seq<nat>)
    ensures |r| == 7 && forall k :: 0 <= k < 7 ==> r[k] == 0
  {
    [0, 0, 0, 0, 0, 0, 0]
  }

  lemma DifferBridge(m: Machine)
    requires Valid(m)
    ensures OperandsDiffer(Clidr(m, 0, 0), Ccsidrs(m, ZeroPolicies())) <==> MachineOperandsDiffer(m)
  {
    hide Clidr, Ccsidr, Covered, Present, Operand, MachineOperand, ZeroPolicies, FieldsFit, SetsFit;
    var clidr, ccsidrs := Clidr(m, 0, 0), Ccsidrs(m, ZeroPolicies());
    forall l
      ensures Covered(clidr, ccsidrs, l) <==> Present(m, l)
      ensures Present(m, l) ==> l.level < 7 && OperandOf(ccsidrs, l) == MachineOperand(m.caches[l.level], l)
    {
      CoveredIsPresent(m, 0, 0, ZeroPolicies(), l);
      if Present(m, l) {
        PresentLevel(m, l);
        OperandOfRegister(m.caches[l.level], 0, l);
      }
    }
  }

  lemma FitsBridge(m: Machine)
    requires Valid(m)
    ensures AllFit(Clidr(m, 0, 0), Ccsidrs(m, ZeroPolicies())) <==> MachineFits(m)
  {
    hide Clidr, Ccsidr, Operand, MachineOperand, ZeroPolicies, FieldsFit, SetsFit, CacheType, LevelOfCoherency;
    var clidr, ccsidrs := Clidr(m, 0, 0), Ccsidrs(m, ZeroPolicies());
    CoherencyField(m, 0, 0);
    forall k: nat | k < 7
      ensures CacheType(clidr, k) == TypeCode(m.kinds[k]) && (FieldsFit(ccsidrs[k]) <==> SetsFit(m.caches[k]))
    {
      TypeFields(m, 0, 0, k);
      OperandOfRegister(m.caches[k], 0, Line(0, 0, 0));
    }
  }

  /** CLIDR 0x0a200023 is a machine with split first-level caches, a unified second level, and level of coherency 2. */
  lemma TwoLevels(caches: seq<Geometry>)
    requires |caches| == 7 && forall k :: 0 <= k < 7 ==> Possible(caches[k])
    ensures Clidr(Machine(2, [Separate, Unified, NoCache, NoCache, NoCache, NoCache, NoCache], caches), 1, 1) == 0x0a20_0023
  {
    var kinds := [Separate, Unified, NoCache, NoCache, NoCache, NoCache, NoCache];
    assert kinds[2..] == [NoCache, NoCache, NoCache, NoCache, NoCache];
    assert Types(kinds[2..][2..]) == 0 by { assert Types(kinds[2..][2..][2..]) == 0; }
    assert kinds[1..][1..] == kinds[2..];
  }
}
