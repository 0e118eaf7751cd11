/** The page tables the boot code builds at 0x8000 before it enables paging (arch/x86_64/boot.S). */
module X86Boot {
  import opened Bits
  import opened Radix
  import opened X86Walk
  import opened X86Tree
  import opened Wrappers

  const INIT_PGT: nat := 0x8000
  const PML4: nat := 8      // frame numbers
  const PDPT: nat := 9
  const PD: nat := 10

  // Stores narrower than a word.

  method StoreDword(mem: array<Frame>, f: nat, i: nat, high: bool, value: nat)
    requires f < mem.Length && i < ENTRIES && value < TWO32
    modifies mem
    ensures mem[..] == SetEntry(old(mem[..]), f, i, WithDword(old(mem[f][i]), high, value))
  {
    mem[f] := mem[f][i := WithDword(mem[f][i], high, value)];
  }

  function WithDword(d: Word, high: bool, value: nat): Word
    requires value < TWO32
  {
    if high then value * TWO32 + d % TWO32 else d / TWO32 * TWO32 + value
  }

  method StoreByte(mem: array<Frame>, f: nat, i: nat, value: Byte)
    requires f < mem.Length && i < ENTRIES
    modifies mem
    ensures mem[..] == SetEntry(old(mem[..]), f, i, old(mem[f][i]) / 0x100 * 0x100 + value)
  {
    mem[f] := mem[f][i := mem[f][i] / 0x100 * 0x100 + value];
  }

  /** `rep stosl` of 0x400 zero double words. */
  method ClearFrame(mem: array<Frame>, f: nat)
    requires f < mem.Length
    modifies mem
    ensures mem[..] == old(mem[..])[f := ZeroFrame()]
  {
    var k := 0;
    while k < 0x400
      invariant 0 <= k <= 0x400
      invariant forall g :: 0 <= g < mem.Length && g != f ==> mem[g] == old(mem[g])
      invariant forall i :: 0 <= i < k / 2 ==> mem[f][i] == 0
      invariant k % 2 == 1 ==> mem[f][k / 2] % TWO32 == 0
    {
      StoreDword(mem, f, k / 2, k % 2 == 1, 0);
      k := k + 1;
    }
    assert mem[f] == ZeroFrame();
    assert mem[..] == old(mem[..])[f := ZeroFrame()];
  }

  // The tables.

  function Single(d: Word): Frame {
    ZeroFrame()[0 := d]
  }

  /** The k-th entry of the page directory: the k-th 2 MiB page, present, writable, PS. */
  function PdEntry(k: nat): Word
    requires k < ENTRIES
  {
    k * 0x20_0000 + 0x83
  }

  function BootPd(): (t: Frame)
    ensures forall k: nat :: k < ENTRIES ==> t[k] == PdEntry(k)
  {
    seq(ENTRIES, k requires 0 <= k < ENTRIES => PdEntry(k))
  }

  function BootTables(m: seq<Frame>, gib: bool): seq<Frame>
    requires |m| > PD
  {
    if gib then m[PML4 := Single(0x9003)][PDPT := Single(0x83)]
    else m[PML4 := Single(0x9003)][PDPT := Single(0xa003)][PD := BootPd()]
  }

  /** `build_pagetables`; `gib` is bit 26 of EDX from CPUID leaf 0x80000001, 1 GiB page support. */
  method BuildPagetables(mem: array<Frame>, gib: bool)
    requires mem.Length > PD
    modifies mem
    ensures mem[..] == BootTables(old(mem[..]), gib)
  {
    hide BootPd, ZeroFrame;
    ClearFrame(mem, PML4);
    var edx := PresentWritable(INIT_PGT + 0x1000);
    StoreDword(mem, PML4, 0, false, edx);
    assert mem[PML4] == Single(0x9003);
    ClearFrame(mem, PDPT);
    assert mem[..] == old(mem[..])[PML4 := Single(0x9003)][PDPT := ZeroFrame()];
    if gib {
      StoreByte(mem, PDPT, 0, 0x83);
      assert mem[PDPT] == Single(0x83);
      return;
    }
    edx := PresentWritable(INIT_PGT + 0x2000);
    StoreDword(mem, PDPT, 0, false, edx);
    assert mem[PDPT] == Single(0xa003);
    ClearFrame(mem, PD);
    FillDirectory(mem);
  }

  /** `or $3, %edx` */
  method PresentWritable(address: nat) returns (edx: nat)
    requires address % PAGE_SIZE == 0
    ensures edx == address + 3
  {
    hide Or, Pow2;
    Powers(); DivModUnique(address, 4, address / PAGE_SIZE * 0x400, 0); OrDisjoint(address, 3, 2);
    edx := Or(address, 3);
  }

  method FillDirectory(mem: array<Frame>)
    requires mem.Length > PD && mem[PD] == ZeroFrame()
    modifies mem
    ensures mem[..] == old(mem[..])[PD := BootPd()]
  {
    var eax, ecx := 0x83, 0;
    while ecx != 0x200
      invariant 0 <= ecx <= 0x200 && eax == ecx * 0x20_0000 + 0x83
      invariant forall g :: 0 <= g < mem.Length && g != PD ==> mem[g] == old(mem[g])
      invariant forall k: nat :: k < ecx ==> mem[PD][k] == PdEntry(k)
      invariant forall k: nat :: ecx <= k < ENTRIES ==> mem[PD][k] == 0
      decreases 0x200 - ecx
    {
      StoreDword(mem, PD, ecx, false, eax);
      eax := (eax + 0x20_0000) % TWO32;
      ecx := ecx + 1;
    }
    assert mem[PD] == BootPd();
    assert mem[..] == old(mem[..])[PD := BootPd()];
  }

  /** Whichever branch runs, the translation is the identity on the first gibibyte and nothing else. */
  lemma BootIdentity(m: seq<Frame>, gib: bool, vp: nat)
    requires |m| > PD && vp < VPAGES
    ensures Walk(BootTables(m, gib), 0, PML4, vp, true, true)
         == if vp < FIRST_GIB then Some(Translation(vp, true, false)) else None
  {
    var t := BootTables(m, gib);
    EntryFields(9, 3, 0x9003);
    EntryFields(10, 3, 0xa003);
    assert t[PML4][Index(vp, 0)] == if vp < 0x800_0000 then 0x9003 else 0;
    if vp < 0x800_0000 {
      assert Index(vp, 1) == 0 <==> vp < FIRST_GIB;
      if vp < FIRST_GIB {
        BootLeaf(t, gib, vp);
      } else {
        assert t[PDPT][Index(vp, 1)] == 0;
      }
    }
  }

  lemma BootLeaf(t: seq<Frame>, gib: bool, vp: nat)
    requires |t| > PD && vp < FIRST_GIB
    requires t[PDPT][0] == if gib then 0x83 else 0xa003
    requires !gib ==> t[PD] == BootPd()
    ensures Walk(t, 1, PDPT, vp, true, false) == Some(Translation(vp, true, false))
  {
    hide FrameOf, Bit, BootPd;
    EntryFields(10, 3, 0xa003);
    LargeEntry(0, 0x83);
    assert Index(vp, 1) == 0;
    if !gib {
      var k := Index(vp, 2);
      assert k == vp / 0x200 && vp == 0x200 * k + vp % 0x200;
      LargeEntry(k, PdEntry(k));
      assert t[PD][k] == PdEntry(k);
    }
  }

  lemma LargeEntry(k: nat, d: Word)
    requires k < ENTRIES && d == PdEntry(k)
    ensures FrameOf(d) == k * 0x200 && Large(d)
    ensures Bit(d, PF_PRESENT) && Bit(d, PF_WRITABLE) && !Bit(d, PF_USER)
  {
    DivModUnique(d, PAGE_SIZE, k * 0x200, 0x83);
    DivModUnique(d, 0x80, k * 0x4000 + 1, 3);
    DivModUnique(k * 0x4000 + 1, 2, k * 0x2000, 1);
    DivModUnique(d, 2, k * 0x10_0000 + 0x41, 1);
    DivModUnique(k * 0x10_0000 + 0x41, 2, k * 0x8_0000 + 0x20, 1);
    DivModUnique(d, 4, k * 0x8_0000 + 0x20, 3);
    DivModUnique(k * 0x8_0000 + 0x20, 2, k * 0x4_0000 + 0x10, 0);
  }

  function BootPages(gib: bool): Pages {
    if gib then map[Root(BOOT) := PML4, Node(BOOT, 1, 0) := PDPT]
    else map[Root(BOOT) := PML4, Node(BOOT, 1, 0) := PDPT, Node(BOOT, 2, 0) := PD]
  }

  lemma BootTree(m: seq<Frame>, gib: bool)
    requires |m| > PD
    ensures TreeOk(BootTables(m, gib), BootPages(gib))
  {
    var t, pages := BootTables(m, gib), BootPages(gib);
    forall n, i: nat | n in pages && n.level < 3 && i < ENTRIES ensures NodeOk(t, pages, n) && LinkOk(t, pages, n, i) {
      LargeEntry(0, 0x83);
      if n == Node(BOOT, 2, 0) { LargeEntry(i, PdEntry(i)); }
    }
    forall n, i: nat | Child(n, i) in pages && i < ENTRIES ensures n in pages {
    }
  }

  // Mapping a page below 1 GiB in these tables. The program does not look at the PS flag, so it takes the large
  // page that is there for a table.

  /** The table the program descends to from an entry. */
  function Followed(m: seq<Frame>, table: nat, vp: nat, level: nat): nat
    requires table < |m|
  {
    m[table][Index(vp, level)] / PAGE_SIZE
  }

  /** The boot code's entries for the first gibibyte are in place. */
  predicate LowTables(m: seq<Frame>, gib: bool) {
    |m| > PD && m[PML4][0] == 0x9003 && (if gib then m[PDPT][0] == 0x83 else m[PDPT][0] == 0xa003 && m[PD] == BootPd())
  }

  lemma LowWalk(m: seq<Frame>, gib: bool, vp: nat)
    requires LowTables(m, gib) && vp < FIRST_GIB
    ensures Walk(m, 0, PML4, vp, true, true) == Some(Translation(vp, true, false))
  {
    hide FrameOf, Bit, Large, LeafFrame, BootPd;
    EntryFields(9, 3, 0x9003);
    assert Index(vp, 0) == 0;
    BootLeaf(m, gib, vp);
  }

  /** With 2 MiB pages every level is already present, and the program ends up in the first frame of the page. */
  lemma LowDescent(m: seq<Frame>, vp: nat)
    requires LowTables(m, false) && vp < FIRST_GIB
    ensures Bit(m[PML4][Index(vp, 0)], PF_PRESENT) && Bit(m[PDPT][Index(vp, 1)], PF_PRESENT) && Bit(m[PD][Index(vp, 2)], PF_PRESENT)
    ensures Followed(m, PML4, vp, 0) == PDPT && Followed(m, PDPT, vp, 1) == PD && Followed(m, PD, vp, 2) == Index(vp, 2) * 0x200
  {
    hide BootPd, Bit, FrameOf, Index;
    LowIndices(vp);
    EntryFields(9, 3, 0x9003);
    EntryFields(10, 3, 0xa003);
    LargeEntry(Index(vp, 2), PdEntry(Index(vp, 2)));
    DivModUnique(PdEntry(Index(vp, 2)), PAGE_SIZE, Index(vp, 2) * 0x200, 0x83);
    assert m[PD][Index(vp, 2)] == PdEntry(Index(vp, 2));
  }

  lemma LowIndices(vp: nat)
    requires vp < FIRST_GIB
    ensures Index(vp, 0) == 0 && Index(vp, 1) == 0
  {
  }

  /** What it writes there leaves the page's translation as it was, so a mapping below 1 GiB does what it should
      exactly when it is an identity mapping. */
  lemma LowMappingIff(m: seq<Frame>, vp: nat, phys: Word)
    requires LowTables(m, false) && vp < FIRST_GIB && Index(vp, 2) * 0x200 < |m|
    ensures var m' := SetEntry(m, Index(vp, 2) * 0x200, Index(vp, 3), phys / PAGE_SIZE * PAGE_SIZE + 7);
            && Walk(m', 0, PML4, vp, true, true) == Walk(m, 0, PML4, vp, true, true)
            && (Walk(m', 0, PML4, vp, true, true) == Some(Mapped(BOOT, phys, vp)) <==> phys / PAGE_SIZE % FRAMES == vp)
  {
    hide Walk, BootPd, Index;
    var f := Index(vp, 2) * 0x200;
    var m' := SetEntry(m, f, Index(vp, 3), phys / PAGE_SIZE * PAGE_SIZE + 7);
    assert f != PML4 && f != PDPT && f != PD;
    LowWalk(m, false, vp);
    LowWalk(m', false, vp);
  }

  /** A 4 KiB mapping of virtual page 0x200 to physical page 0 has no effect. */
  lemma LowMappingIgnored(m: seq<Frame>)
    requires LowTables(m, false) && |m| > 0x200
    ensures Walk(SetEntry(m, 0x200, 0, 7), 0, PML4, 0x200, true, true) == Some(Translation(0x200, true, false))
    ensures Mapped(BOOT, 0, 0x200) == Translation(0, true, false)
  {
    hide Walk, BootPd, LowTables;
    LowMappingIff(m, 0x200, 0);
    LowWalk(m, false, 0x200);
  }

  // With a 1 GiB page the program takes frame 0 for the page directory.

  /** The directory entry in frame 0, made present: as it is, or with the next heap page `free`, zeroed, if its
      address is zero, or with the address it happens to hold. */
  function Directory(m: seq<Frame>, k: nat, free: nat): seq<Frame>
    requires 0 < free < |m| && free * PAGE_SIZE + 7 < TWO64 && k < ENTRIES
  {
    var e := m[0][k];
    if Bit(e, PF_PRESENT) then m
    else if e / PAGE_SIZE == 0 then SetEntry(m[free := ZeroFrame()], 0, k, free * PAGE_SIZE + 7)
    else SetEntry(m, 0, k, e / PAGE_SIZE * PAGE_SIZE + 7)
  }

  /** The frame the program then takes for the page table. */
  function PageTable(m: seq<Frame>, k: nat, free: nat): nat
    requires |m| > 0 && k < ENTRIES
  {
    var e := m[0][k];
    if !Bit(e, PF_PRESENT) && e / PAGE_SIZE == 0 then free else e / PAGE_SIZE
  }

  /** The writes of `__create_page_mapping` for a page below 1 GiB. Unless the entry found in frame 0 leads to one of
      the two boot tables, the page keeps its translation, so again only an identity mapping does what it should. */
  lemma LowMappingGibIff(m: seq<Frame>, vp: nat, phys: Word, free: nat)
    requires LowTables(m, true) && vp < FIRST_GIB && PD < free < |m| && free * PAGE_SIZE + 7 < TWO64
    requires PageTable(m, Index(vp, 2), free) < |m| && PageTable(m, Index(vp, 2), free) != PML4 && PageTable(m, Index(vp, 2), free) != PDPT
    ensures Followed(m, PML4, vp, 0) == PDPT && Followed(m, PDPT, vp, 1) == 0
    ensures Followed(Directory(m, Index(vp, 2), free), 0, vp, 2) == PageTable(m, Index(vp, 2), free)
    ensures var m' := SetEntry(Directory(m, Index(vp, 2), free), PageTable(m, Index(vp, 2), free), Index(vp, 3), phys / PAGE_SIZE * PAGE_SIZE + 7);
            && Walk(m', 0, PML4, vp, true, true) == Walk(m, 0, PML4, vp, true, true)
            && (Walk(m', 0, PML4, vp, true, true) == Some(Mapped(BOOT, phys, vp)) <==> phys / PAGE_SIZE % FRAMES == vp)
  {
    hide Walk, BootPd, Index, Bit;
    LowIndices(vp);
    var k := Index(vp, 2);
    var m' := SetEntry(Directory(m, k, free), PageTable(m, k, free), Index(vp, 3), phys / PAGE_SIZE * PAGE_SIZE + 7);
    DivModUnique(free * PAGE_SIZE + 7, PAGE_SIZE, free, 7);
    DivModUnique(m[0][k] / PAGE_SIZE * PAGE_SIZE + 7, PAGE_SIZE, m[0][k] / PAGE_SIZE, 7);
    LowWalk(m, true, vp);
    LowWalk(m', true, vp);
  }
}
