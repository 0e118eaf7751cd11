/** ARMv8 stage-1 translation with the 4 KiB granule: the descriptors that the translation-table code
    writes, and the walk the hardware performs over them (Arm ARM DDI 0487, section D4.3). */
module Armv8Walk {
  import opened Bits
  import opened Radix
  import opened Wrappers

  /** The three kinds of mapping the program creates. */
  datatype Kind = Data | Code | Device

  /** Output of a successful walk: the physical frame, bits 63:48, and the attribute fields of the descriptor: AP[2:1]
      (bits 7:6), AttrIndx (bits 4:2), nG (bit 11), SH (bits 9:8) and NS (bit 5). */
  datatype Translation = Translation(frame: nat, upper: nat, access: nat, attrIndex: nat, notGlobal: nat, shareability: nat, nonSecure: nat)

  const PRIVS_DATA: nat := 1
  const PRIVS_CODE: nat := 3

  /** Read and write at every level for data and devices, read only for code. */
  function Access(kind: Kind): nat {
    if kind == Code then 3 else 1
  }

  /** Attribute index 0 is normal memory, 1 device memory. */
  function AttrIndex(kind: Kind): nat {
    if kind == Device then 1 else 0
  }

  /** What a page mapped by the program should translate to. */
  function Mapped(kind: Kind, phys: Word): Translation {
    Translation(phys / PAGE_SIZE % VPAGES, phys / 0x1_0000_0000_0000, Access(kind), AttrIndex(kind), 0, 0, 0)
  }

  /** Bits 11:2 of the descriptor the program writes: AF (bit 10), AP[2:1] and AttrIndx. */
  function LowerAttributes(kind: Kind): nat {
    match kind
    case Data => 0x100 + 0x10
    case Code => 0x100 + 0x30
    case Device => 0x100 + 0x10 + 0x1
  }

  /** A level 3 page descriptor: output address and upper attributes, lower attributes, valid page. */
  function PageDescriptor(kind: Kind, phys: Word): Word {
    phys / PAGE_SIZE * PAGE_SIZE + LowerAttributes(kind) * 4 + 3
  }

  /** The descriptor with its type bits 1:0 cleared: invalid, but the table address still in place. */
  function Invalidated(d: Word): Word {
    d - d % 4
  }

  // The words as the program computes them.

  method ValidBits(d: Word) returns (r: nat)
    ensures r == d % 4
  {
    hide And, Pow2;
    Powers(); Mask(d, 0, 2, 1, 4);
    r := And(d, 0x3);
  }

  method ClearValidBits(d: Word) returns (r: Word)
    ensures r == Invalidated(d)
  {
    hide And, Pow2;
    Powers(); Mask(d, 2, 62, 4, 0x4000_0000_0000_0000);
    r := And(d, TWO64 - 1 - 0x3);
  }

  method TableAddress(d: Word) returns (r: Word)
    ensures r == FrameOf(d) * PAGE_SIZE
  {
    hide And, Pow2;
    Powers(); Mask(d, 12, 36, PAGE_SIZE, VPAGES);
    r := And(d, 0xffff_ffff_f000);
  }

  method TableDescriptor(page: Word) returns (r: Word)
    requires page % PAGE_SIZE == 0
    ensures r == page + 3
  {
    hide Or, Pow2;
    Powers(); DivModUnique(page, 4, page / PAGE_SIZE * 0x400, 0); OrDisjoint(page, 0x3, 2);
    r := Or(page, 0x3);
  }

  method MappingDescriptor(phys: Word, privs: nat) returns (d: Word)
    requires privs == PRIVS_DATA || privs == PRIVS_CODE
    ensures d == PageDescriptor(if privs == PRIVS_DATA then Data else Code, phys)
  {
    hide Or, Shl, Pow2;
    Powers();
    ghost var frame := phys / PAGE_SIZE;
    d := FrameAndType(phys);
    OrFlag(frame, 12, PAGE_SIZE, 3, privs, 6, 2, 64);
    d := Or(d, Shl(privs, 6));
    OrFlag(frame, 12, PAGE_SIZE, 3 + privs * 64, 1, 10, 1, 1024);
    d := Or(d, Shl(1, 10));
  }

  method DeviceMappingDescriptor(phys: Word) returns (d: Word)
    ensures d == PageDescriptor(Device, phys)
  {
    hide Or, Shl, Pow2;
    Powers();
    ghost var frame := phys / PAGE_SIZE;
    d := FrameAndType(phys);
    OrFlag(frame, 12, PAGE_SIZE, 3, 1, 6, 1, 64);
    d := Or(d, Shl(1, 6));
    OrFlag(frame, 12, PAGE_SIZE, 67, 1, 2, 1, 4);
    d := Or(d, Shl(1, 2));
    OrFlag(frame, 12, PAGE_SIZE, 71, 1, 10, 1, 1024);
    d := Or(d, Shl(1, 10));
  }

  method FrameAndType(phys: Word) returns (d: Word)
    ensures d == PAGE_SIZE * (phys / PAGE_SIZE) + 3
  {
    hide And, Or, Pow2;
    Powers(); Mask(phys, 12, 52, PAGE_SIZE, 0x10_0000_0000_0000);
    ghost var frame := phys / PAGE_SIZE;
    DivModUnique(PAGE_SIZE * frame, 4, 0x400 * frame, 0); OrDisjoint(PAGE_SIZE * frame, 0x3, 2);
    d := Or(And(phys, TWO64 - 1 - 0xfff), 0x3);
  }

  // The hardware walk.

  /** The frame a descriptor points to, bits 47:12. */
  function FrameOf(d: Word): nat {
    d / PAGE_SIZE % VPAGES
  }

  /** AF, bit 10: without it the first access faults. */
  function AccessFlag(d: Word): bool {
    d / 0x400 % 2 == 1
  }

  /** The output of a page (level 3) or block (levels 1 and 2) descriptor. */
  function Leaf(d: Word, level: nat, vp: nat): Translation {
    var span := Span(level);
    Translation(FrameOf(d) / span * span + vp % span, d / 0x1_0000_0000_0000,
                d / 0x40 % 4, d / 4 % 8, d / 0x800 % 2, d / 0x100 % 4, d / 0x20 % 2)
  }

  /** An access through a page or block descriptor. */
  function LeafAccess(d: Word, level: nat, vp: nat): Option<Translation> {
    if AccessFlag(d) then Some(Leaf(d, level, vp)) else None
  }

  /** Translation of virtual page `vp` from the table in frame `table` at `level`. Bit 0 clear is an invalid
      entry; 0b11 is a table or, at level 3, a page; 0b01 is a block at levels 1 and 2, reserved elsewhere. */
  function Walk(m: seq<Frame>, level: nat, table: nat, vp: nat): Option<Translation>
    decreases 3 - level
  {
    if table >= |m| || m[table][Index(vp, level)] % 2 == 0 then None
    else
      var d := m[table][Index(vp, level)];
      if d / 2 % 2 == 1 then
        if level >= 3 then LeafAccess(d, level, vp) else Walk(m, level + 1, FrameOf(d), vp)
      else if level == 1 || level == 2 then LeafAccess(d, level, vp)
      else None
  }

  lemma LeafOfPageDescriptor(kind: Kind, phys: Word, vp: nat)
    ensures LeafAccess(PageDescriptor(kind, phys), 3, vp) == Some(Mapped(kind, phys))
    ensures PageDescriptor(kind, phys) % 4 == 3
  {
    hide LowerAttributes, Access, AttrIndex;
    var frame, low := phys / PAGE_SIZE, LowerAttributes(kind) * 4 + 3;
    LowAttributes(kind);
    LowFields(frame, low);
    FrameField(frame, low);
    DivDiv(phys, PAGE_SIZE, VPAGES);
  }

  lemma LowAttributes(kind: Kind)
    ensures var low := LowerAttributes(kind) * 4 + 3;
            && low < PAGE_SIZE && low % 4 == 3 && low / 0x400 % 2 == 1 && low / 0x40 % 4 == Access(kind)
            && low / 4 % 8 == AttrIndex(kind) && low / 0x800 % 2 == 0 && low / 0x100 % 4 == 0 && low / 0x20 % 2 == 0
  {
  }

  lemma FrameField(frame: nat, low: nat)
    requires low < PAGE_SIZE
    ensures var d := frame * PAGE_SIZE + low; d / PAGE_SIZE == frame && d / 0x1_0000_0000_0000 == frame / VPAGES
  {
    DivModUnique(frame * PAGE_SIZE + low, PAGE_SIZE, frame, low);
    DivDiv(frame * PAGE_SIZE + low, PAGE_SIZE, VPAGES);
  }

  /** The fields below bit 12 do not depend on the frame. */
  lemma LowFields(frame: nat, low: nat)
    requires low < PAGE_SIZE
    ensures var d := frame * PAGE_SIZE + low;
            && d % 4 == low % 4
            && d / 0x400 % 2 == low / 0x400 % 2
            && d / 0x40 % 4 == low / 0x40 % 4
            && d / 0x4 % 8 == low / 0x4 % 8
            && d / 0x800 % 2 == low / 0x800 % 2
            && d / 0x100 % 4 == low / 0x100 % 4
            && d / 0x20 % 2 == low / 0x20 % 2
  {
    var d := frame * PAGE_SIZE + low;
    SplitQuotient(d, low, 4, 0x400 * frame);
    SplitQuotient(0x400 * frame + low / 4, low / 4, 8, 0x80 * frame);
    SplitQuotient(d, low, 0x20, 0x80 * frame);
    SplitQuotient(0x80 * frame + low / 0x20, low / 0x20, 2, 0x40 * frame);
    SplitQuotient(d, low, 0x40, 0x40 * frame);
    SplitQuotient(0x40 * frame + low / 0x40, low / 0x40, 4, 0x10 * frame);
    SplitQuotient(d, low, 0x100, 0x10 * frame);
    SplitQuotient(0x10 * frame + low / 0x100, low / 0x100, 4, 4 * frame);
    SplitQuotient(d, low, 0x400, 4 * frame);
    SplitQuotient(4 * frame + low / 0x400, low / 0x400, 2, 2 * frame);
    SplitQuotient(d, low, 0x800, 2 * frame);
    SplitQuotient(2 * frame + low / 0x800, low / 0x800, 2, frame);
  }

  lemma SplitQuotient(d: nat, low: nat, p: nat, x: nat)
    requires p > 0 && d == p * x + low
    ensures d / p == x + low / p && d % p == low % p
  {
    var a := low / p;
    assert low == p * a + low % p && p * (x + a) == p * x + p * a;
    DivModUnique(d, p, x + a, low % p);
  }

  /** What the hardware reads in the written descriptors, in figures: the page is accessible; data and device pages have
      AP 0b01 and code pages 0b11; device pages have attribute index 1 and the others 0; nG, SH and NS are zero. */
  lemma WrittenPages(phys: Word, vp: nat)
    ensures var f, u := phys / 0x1000 % 0x10_0000_0000, phys / 0x1_0000_0000_0000;
            && LeafAccess(PageDescriptor(Data, phys), 3, vp) == Some(Translation(f, u, 1, 0, 0, 0, 0))
            && LeafAccess(PageDescriptor(Code, phys), 3, vp) == Some(Translation(f, u, 3, 0, 0, 0, 0))
            && LeafAccess(PageDescriptor(Device, phys), 3, vp) == Some(Translation(f, u, 1, 1, 0, 0, 0))
  {
    hide PageDescriptor, LeafAccess;
    LeafOfPageDescriptor(Data, phys, vp); LeafOfPageDescriptor(Code, phys, vp); LeafOfPageDescriptor(Device, phys, vp);
  }
}
