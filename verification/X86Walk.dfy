/** IA-32e paging: page-table entries and the hardware walk (Intel SDM Vol. 3A, section 4.5). */
module X86Walk {
  import opened Bits
  import opened Radix
  import opened Wrappers

  const PF_PRESENT: nat := 1
  const PF_WRITABLE: nat := 2
  const PF_USER: nat := 4
  const FRAMES: nat := 0x100_0000_0000

  datatype Translation = Translation(frame: nat, writable: bool, user: bool)

  /** Physical address bits 51:12 of an entry. */
  function FrameOf(d: Word): nat {
    d / PAGE_SIZE % FRAMES
  }

  function Bit(d: Word, p: nat): bool
    requires p > 0
  {
    d / p % 2 == 1
  }

  /** The PS flag: the entry maps a 1 GiB (level 1) or 2 MiB (level 2) page. */
  function Large(d: Word): bool {
    Bit(d, 0x80)
  }

  function LeafFrame(d: Word, level: nat, vp: nat): nat {
    FrameOf(d) / Span(level) * Span(level) + vp % Span(level)
  }

  /** Translation of virtual page `vp` from the table in frame `table` at `level`: present bit, write and
      user permission of every level combined, large pages at levels 1 and 2, PS reserved at level 0. */
  function Walk(m: seq<Frame>, level: nat, table: nat, vp: nat, w: bool, u: bool): Option<Translation>
    decreases 3 - level
  {
    if table >= |m| || !Bit(m[table][Index(vp, level)], PF_PRESENT) then None
    else
      var d := m[table][Index(vp, level)];
      var w', u' := w && Bit(d, PF_WRITABLE), u && Bit(d, PF_USER);
      if level >= 3 || ((level == 1 || level == 2) && Large(d)) then Some(Translation(LeafFrame(d, level, vp), w', u'))
      else if Large(d) then None
      else Walk(m, level + 1, FrameOf(d), vp, w', u')
  }

  /** What an entry made of a frame and low flag bits says. */
  lemma EntryFields(frame: nat, flags: nat, d: Word)
    requires flags < 0x80 && d == frame * PAGE_SIZE + flags
    ensures FrameOf(d) == frame % FRAMES && !Large(d)
    ensures Bit(d, PF_PRESENT) == (flags % 2 == 1)
    ensures Bit(d, PF_WRITABLE) == (flags / 2 % 2 == 1)
    ensures Bit(d, PF_USER) == (flags / 4 % 2 == 1)
  {
    DivModUnique(d, PAGE_SIZE, frame, flags);
    DivModUnique(d, 0x80, 32 * frame, flags);
    DivModUnique(32 * frame, 2, 16 * frame, 0);
    DivModUnique(d, 2, 2048 * frame + flags / 2, flags % 2);
    DivModUnique(2048 * frame + flags / 2, 2, 1024 * frame + flags / 4, flags / 2 % 2);
    DivModUnique(d, 4, 1024 * frame + flags / 4, flags % 4);
    DivModUnique(1024 * frame + flags / 4, 2, 512 * frame + flags / 8, flags / 4 % 2);
  }

  // The pte accessors of the program.

  method SetBaseAddress(pte: Word, base: Word) returns (r: Word)
    ensures r == base / PAGE_SIZE * PAGE_SIZE + pte % PAGE_SIZE
  {
    hide And, Or, Pow2;
    PageMasks(base); PageMasks(pte);
    JoinPage(base / PAGE_SIZE, pte % PAGE_SIZE);
    r := Or(And(base, TWO64 - PAGE_SIZE), And(pte, 0xfff));
  }

  method GetBaseAddress(pte: Word) returns (r: Word)
    ensures r == pte / PAGE_SIZE * PAGE_SIZE
  {
    PageMasks(pte);
    r := And(pte, TWO64 - PAGE_SIZE);
  }

  method SetFlags(pte: Word, flags: Word) returns (r: Word)
    ensures r == pte / PAGE_SIZE * PAGE_SIZE + flags % PAGE_SIZE
  {
    hide And, Or, Pow2;
    PageMasks(pte); PageMasks(flags);
    JoinPage(pte / PAGE_SIZE, flags % PAGE_SIZE);
    r := Or(And(flags, 0xfff), And(pte, TWO64 - PAGE_SIZE));
  }

  method IsPresent(pte: Word) returns (r: bool)
    ensures r == Bit(pte, PF_PRESENT)
  {
    hide And, Pow2;
    PageMasks(pte);
    var flags := And(pte, 0xfff);
    Powers(); Mask(flags, 0, 1, 1, 2);
    r := And(flags, PF_PRESENT) != 0;
    DivModUnique(pte, 2, pte / PAGE_SIZE * 0x800 + flags / 2, flags % 2);
  }

  /** The two masks of the accessors split an entry into its base address and its flags. */
  lemma PageMasks(d: Word)
    ensures And(d, TWO64 - PAGE_SIZE) == d / PAGE_SIZE * PAGE_SIZE && And(d, 0xfff) == d % PAGE_SIZE
  {
    hide And, Pow2;
    Powers(); Mask(d, 12, 52, PAGE_SIZE, 0x10_0000_0000_0000); Mask(d, 0, 12, 1, PAGE_SIZE);
  }

  lemma JoinPage(frame: nat, flags: nat)
    requires flags < PAGE_SIZE
    ensures Or(frame * PAGE_SIZE, flags) == frame * PAGE_SIZE + flags == Or(flags, frame * PAGE_SIZE)
  {
    hide Or, Pow2;
    Powers(); DivModUnique(frame * PAGE_SIZE, PAGE_SIZE, frame, 0);
    OrDisjoint(frame * PAGE_SIZE, flags, 12); OrCommutes(flags, frame * PAGE_SIZE);
  }

  /** Present, writable and user: 7. */
  method TableFlags() returns (flags: Word)
    ensures flags == 7
  {
    hide Or, Pow2;
    Powers(); OrDisjoint(2, 1, 1); OrDisjoint(4, 3, 2); OrCommutes(PF_PRESENT, PF_WRITABLE); OrCommutes(3, 4);
    flags := Or(Or(PF_PRESENT, PF_WRITABLE), PF_USER);
  }

  /** One field of `calculate_indicies`: `(virt_addr >> shift) & 0x1ff` */
  method TableIndex(va: Word, level: nat) returns (idx: nat)
    requires level <= 3
    ensures idx == Index(VirtualPage(va), level)
  {
    hide And, Shr, Pow2;
    Powers();
    var shift := if level == 0 then 39 else if level == 1 then 30 else if level == 2 then 21 else 12;
    ShiftRight(va, shift, PAGE_SIZE * Span(level));
    var shifted := Shr(va, shift);
    Mask(shifted, 0, 9, 1, ENTRIES);
    idx := And(shifted, 0x1ff);
    IndexBits(va, level);
  }
}
