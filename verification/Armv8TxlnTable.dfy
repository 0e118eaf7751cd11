/** The ARMv8 translation table and the page heap under it (arch/armv8/txln_table.c, arch/armv8/heap.c). */
module Armv8TxlnTable {
  import opened Bits
  import opened Radix
  import opened Armv8Walk
  import opened Armv8Tree
  import opened Wrappers

  /** The calls a client makes: fetch the table's address, invalidate everything, map one page. */
  datatype Op = GetTable | Clear | Map(kind: Kind, phys: Word, virt: Word)

  type View = map<nat, Translation>

  // The specification: a plain map from virtual pages to translations.

  function Apply(view: View, op: Op): View {
    match op
    case GetTable => view
    case Clear => map[]
    case Map(kind, phys, virt) => view[VirtualPage(virt) := Mapped(kind, phys)]
  }

  function Replay(ops: seq<Op>): View {
    if ops == [] then map[] else Apply(Replay(ops[..|ops| - 1]), ops[|ops| - 1])
  }

  function Lookup(view: View, vp: nat): Option<Translation> {
    if vp in view then Some(view[vp]) else None
  }

  /** The tables a call needs: the root, and for a mapping one table per level below it. */
  function Needs(op: Op): set<Node> {
    match op
    case GetTable => {Root(0)}
    case Clear => {Root(0)}
    case Map(_, _, virt) => Path(0, VirtualPage(virt))
  }

  function Touched(ops: seq<Op>): set<Node> {
    if ops == [] then {} else Touched(ops[..|ops| - 1]) + Needs(ops[|ops| - 1])
  }

  lemma TouchedStep(ops: seq<Op>, op: Op)
    ensures Touched(ops + [op]) == Touched(ops) + Needs(op)
    ensures Replay(ops + [op]) == Apply(Replay(ops), op)
  {
    assert (ops + [op])[..|ops|] == ops;
  }

  class TxlnTable {
    const mem: array<Frame>     // physical memory
    const heapStart: Word       // _HEAP_START
    const heapEnd: Word         // _HEAP_END
    var heapPtr: Word
    var l0Table: Word
    ghost var pages: Pages
    ghost var history: seq<Op>

    ghost predicate WellFormed()
      reads this, mem
    {
      && TablesOk(mem[..], pages, heapStart, heapPtr, heapEnd)
      && (if Root(0) in pages then l0Table == PAGE_SIZE * pages[Root(0)] else l0Table == 0)
    }

    /** What the hardware translates a virtual page to, with the table's address in TTBR0. */
    ghost function Translate(vp: nat): Option<Translation>
      reads this, mem
    {
      if l0Table == 0 then None else Walk(mem[..], 0, l0Table / PAGE_SIZE, vp)
    }

    lemma TranslateIsWalk()
      requires WellFormed() && Root(0) in pages
      ensures l0Table / PAGE_SIZE == pages[Root(0)]
      ensures forall vp: nat :: Translate(vp) == Walk(mem[..], 0, pages[Root(0)], vp)
    {
      assert NodeOk(mem[..], pages, Root(0));
      DivModUnique(l0Table, PAGE_SIZE, pages[Root(0)], 0);
    }

    /** The lazy tables mean exactly what replaying the history on a plain map means. */
    ghost predicate Valid()
      reads this, mem
    {
      && WellFormed()
      && pages.Keys == Touched(history)
      && forall vp: nat :: vp < VPAGES ==> Translate(vp) == Lookup(Replay(history), vp)
    }

    /** The heap has given out exactly the pages of the tables the history touched. */
    lemma PagesConsumed()
      requires Valid()
      ensures heapPtr == heapStart + PAGE_SIZE * |Touched(history)| && heapPtr <= heapEnd
    {
      HeapCount(mem[..], pages, heapStart, heapPtr, heapEnd);
    }

    /** Boot: `armv8_heap_init` over zeroed RAM. */
    constructor (ram: array<Frame>, start: Word, end: Word)
      requires 0 < start <= end <= PAGE_SIZE * ram.Length && end <= VPAGES * PAGE_SIZE && start % PAGE_SIZE == 0
      requires forall f: nat, i: nat :: start <= PAGE_SIZE * f && PAGE_SIZE * (f + 1) <= end && i < ENTRIES ==> ram[f][i] == 0
      ensures Valid() && history == [] && mem == ram && heapStart == start && heapEnd == end
    {
      mem, heapStart, heapEnd := ram, start, end;
      heapPtr := start;
      l0Table := 0;
      pages := map[];
      history := [];
    }

    method HeapGetPage() returns (halted: bool, page: Word)
      requires heapPtr + PAGE_SIZE < TWO64
      modifies this`heapPtr
      ensures page == old(heapPtr) && heapPtr == old(heapPtr) + PAGE_SIZE
      ensures halted == (heapPtr > heapEnd)
    {
      page := heapPtr;
      heapPtr := heapPtr + PAGE_SIZE;
      halted := heapPtr > heapEnd;
    }

    method GetL0Table() returns (halted: bool, table: Word)
      requires WellFormed()
      modifies this`heapPtr, this`l0Table, this`pages
      ensures halted == (Root(0) !in old(pages) && old(heapPtr) + PAGE_SIZE > heapEnd)
      ensures !halted ==>
        && WellFormed() && Root(0) in pages && table == l0Table
        && pages.Keys == old(pages.Keys) + {Root(0)}
        && forall vp: nat :: vp < VPAGES ==> Translate(vp) == old(Translate(vp))
    {
      halted, table := false, 0;
      assert Root(0) in pages ==> NodeOk(mem[..], pages, Root(0));
      if l0Table == 0 {
        var page;
        halted, page := HeapGetPage();
        if halted { return; }
        AddRoot(mem[..], pages, heapStart, page, heapEnd);
        FreshPage(mem[..], pages, heapStart, page, heapEnd);
        l0Table := page;
        pages := pages[Root(0) := page / PAGE_SIZE];
      }
      table := l0Table;
    }

    /** The loops of `clear_l0_table` to `clear_l3_table`: drop the type bits of all 512 entries. */
    method ClearEntries(table: Word)
      requires table / PAGE_SIZE < mem.Length
      modifies mem
      ensures mem[..] == ClearTable(old(mem[..]), table / PAGE_SIZE)
    {
      var f := table / PAGE_SIZE;
      ghost var before := mem[f];
      for i := 0 to ENTRIES
        invariant forall g :: 0 <= g < mem.Length && g != f ==> mem[g] == old(mem[g])
        invariant forall j :: 0 <= j < i ==> mem[f][j] == Invalidated(before[j])
        invariant forall j :: i <= j < ENTRIES ==> mem[f][j] == before[j]
      {
        var d := ClearValidBits(mem[f][i]);
        mem[f] := mem[f][i := d];
      }
      assert mem[f] == InvalidateAll(before);
      assert mem[..] == ClearTable(old(mem[..]), f);
    }

    /** The page an invalid entry will point to: the one it remembers, or else a new one. */
    method ChildPage(descriptor: Word, ghost child: Node) returns (halted: bool, page: Word)
      requires WellFormed()
      requires descriptor == if child in pages then Link(pages[child], false) else 0
      requires child in pages ==> NodeOk(mem[..], pages, child)
      modifies this`heapPtr
      ensures halted == (child !in pages && old(heapPtr) + PAGE_SIZE > heapEnd)
      ensures heapPtr == if child in pages then old(heapPtr) else old(heapPtr) + PAGE_SIZE
      ensures !halted ==> page == PAGE_SIZE * if child in pages then pages[child] else old(heapPtr) / PAGE_SIZE
    {
      hide TreeOk;
      halted := false;
      page := TableAddress(descriptor);
      HeapAligned(mem[..], pages, heapStart, heapPtr, heapEnd);
      if child in pages { LinkFacts(pages[child], descriptor); }
      if page == 0 {
        halted, page := HeapGetPage();
      }
    }

    /** Invalidate the child's entries, then write the entry that points to it. */
    method LinkChild(table: Word, idx: nat, page: Word, ghost p: nat, ghost f: nat) returns (descriptor: Word)
      requires table == PAGE_SIZE * p && p < mem.Length && idx < ENTRIES
      requires page == PAGE_SIZE * f && f < mem.Length && f < VPAGES
      modifies mem
      ensures descriptor == Link(f, true)
      ensures mem[..] == Relink(old(mem[..]), p, idx, f)
    {
      ClearEntries(page);
      descriptor := TableDescriptor(page);
      mem[table / PAGE_SIZE] := mem[table / PAGE_SIZE][idx := descriptor];
    }

    /** `get_l0_descriptor`, `get_l1_descriptor` and `get_l2_descriptor`, which differ in the level only. */
    method GetDescriptor(table: Word, va: Word, level: nat) returns (halted: bool, descriptor: Word)
      requires WellFormed() && level < 3 && Reaches(mem[..], pages, VirtualPage(va), level)
      requires table == PAGE_SIZE * pages[NodeAt(0, VirtualPage(va), level)]
      modifies mem, this`heapPtr, this`pages
      ensures halted == (NodeAt(0, VirtualPage(va), level + 1) !in old(pages) && old(heapPtr) + PAGE_SIZE > heapEnd)
      ensures !halted ==>
        && WellFormed() && Reaches(mem[..], pages, VirtualPage(va), level + 1)
        && FrameOf(descriptor) == pages[NodeAt(0, VirtualPage(va), level + 1)]
        && pages.Keys == old(pages.Keys) + {NodeAt(0, VirtualPage(va), level + 1)}
        && forall vp: nat :: vp < VPAGES ==> Translate(vp) == old(Translate(vp))
    {
      hide NodeAt, Index, VirtualPage, Walk, FrameOf, Reaches, TablesOk, Relink, Link;
      ghost var vp, m := VirtualPage(va), mem[..];
      RootReached(m, pages, vp, level);
      TranslateIsWalk();
      ghost var n, c := NodeAt(0, vp, level), NodeAt(0, vp, level + 1);
      var idx := TableIndex(va, level);
      DescriptorAt(m, pages, heapStart, heapPtr, heapEnd, vp, level);
      halted := false;
      descriptor := mem[table / PAGE_SIZE][idx];
      var valid := ValidBits(descriptor);
      if valid == 0 {
        var page;
        halted, page := ChildPage(descriptor, c);
        if halted { return; }
        ghost var f := page / PAGE_SIZE;
        RelinkStep(m, pages, heapStart, old(heapPtr), heapEnd, vp, level, f);
        descriptor := LinkChild(table, idx, page, pages[n], f);
        pages := pages[c := f];
        LinkFacts(f, descriptor);
        TranslateIsWalk();
      }
    }

    /** `get_l3_descriptor` with `insert_mapping` or `insert_mapping_device`. */
    method InsertMapping(table: Word, kind: Kind, phys: Word, va: Word, ghost p: nat)
      requires table == PAGE_SIZE * p && p < mem.Length
      modifies mem
      ensures mem[..] == SetEntry(old(mem[..]), p, Index(VirtualPage(va), 3), PageDescriptor(kind, phys))
    {
      var idx := TableIndex(va, 3);
      var d;
      match kind {
        case Data => d := MappingDescriptor(phys, PRIVS_DATA);
        case Code => d := MappingDescriptor(phys, PRIVS_CODE);
        case Device => d := DeviceMappingDescriptor(phys);
      }
      mem[table / PAGE_SIZE] := mem[table / PAGE_SIZE][idx := d];
    }

    /** The chain `get_l0_table` to `get_l3_table`, creating or reviving the tables on the way. */
    method LeafTable(virt: Word) returns (halted: bool, table: Word)
      requires WellFormed()
      modifies this`heapPtr, this`l0Table, this`pages, mem
      ensures halted == (heapStart + PAGE_SIZE * Size(old(pages.Keys) + Path(0, VirtualPage(virt))) > heapEnd)
      ensures !halted ==>
        && WellFormed() && pages.Keys == old(pages.Keys) + Path(0, VirtualPage(virt))
        && Reaches(mem[..], pages, VirtualPage(virt), 3)
        && table == PAGE_SIZE * pages[NodeAt(0, VirtualPage(virt), 3)]
        && forall vp: nat :: vp < VPAGES ==> Translate(vp) == old(Translate(vp))
    {
      hide NodeAt, Index, VirtualPage, Walk, FrameOf, Reaches, TablesOk, TxlnTable.Translate, Size;
      ghost var vp := VirtualPage(virt);
      ghost var total := pages.Keys + Path(0, vp);
      PathParts(0, vp);
      HeapCount(mem[..], pages, heapStart, heapPtr, heapEnd);
      halted, table := GetL0Table();
      if halted { OneMore(old(pages.Keys), Root(0), total); return; }
      ReachesRoot(mem[..], pages, vp);

      halted, table := NextTable(table, virt, 0, total);
      if halted { return; }
      halted, table := NextTable(table, virt, 1, total);
      if halted { return; }
      halted, table := NextTable(table, virt, 2, total);
      if halted { return; }
      HeapCount(mem[..], pages, heapStart, heapPtr, heapEnd);
      assert pages.Keys == total;
    }

    /** `get_l1_table`, `get_l2_table` and `get_l3_table`: the address in the entry one level up. `total` is
        any set of tables that includes the present ones and the one asked for. */
    method NextTable(table: Word, virt: Word, level: nat, ghost total: set<Node>) returns (halted: bool, next: Word)
      requires WellFormed() && level < 3 && Reaches(mem[..], pages, VirtualPage(virt), level)
      requires table == PAGE_SIZE * pages[NodeAt(0, VirtualPage(virt), level)]
      requires pages.Keys <= total && NodeAt(0, VirtualPage(virt), level + 1) in total
      modifies mem, this`heapPtr, this`pages
      ensures halted ==> heapStart + PAGE_SIZE * Size(total) > heapEnd
      ensures !halted ==>
        && WellFormed() && Reaches(mem[..], pages, VirtualPage(virt), level + 1)
        && pages.Keys == old(pages.Keys) + {NodeAt(0, VirtualPage(virt), level + 1)}
        && next == PAGE_SIZE * pages[NodeAt(0, VirtualPage(virt), level + 1)]
        && forall vp: nat :: vp < VPAGES ==> Translate(vp) == old(Translate(vp))
    {
      hide NodeAt, Index, VirtualPage, Walk, FrameOf, Reaches, TablesOk, Size;
      HeapCount(mem[..], pages, heapStart, heapPtr, heapEnd);
      var descriptor;
      halted, descriptor := GetDescriptor(table, virt, level);
      next := 0;
      if halted { OneMore(old(pages.Keys), NodeAt(0, VirtualPage(virt), level + 1), total); return; }
      next := TableAddress(descriptor);
    }

    /** `mem_create_page_mapping_data`, `_code` and `_device`. The call halts exactly when the heap cannot
        hold the tables of the whole history; otherwise the translation is that of the extended history. */
    method MapPage(kind: Kind, phys: Word, virt: Word) returns (halted: bool)
      requires Valid()
      modifies this`heapPtr, this`l0Table, this`pages, this`history, mem
      ensures halted == (heapStart + PAGE_SIZE * |Touched(old(history) + [Map(kind, phys, virt)])| > heapEnd)
      ensures !halted ==> Valid() && history == old(history) + [Map(kind, phys, virt)]
      ensures !halted ==> Translate(VirtualPage(virt)) == Some(Mapped(kind, phys))
    {
      hide NodeAt, Index, VirtualPage, Walk, Reaches, TablesOk, Mapped, PageDescriptor, SetEntry;
      ghost var op, vp, view := Map(kind, phys, virt), VirtualPage(virt), Replay(history);
      TouchedStep(history, op);
      var table;
      halted, table := LeafTable(virt);
      if halted { return; }
      assert forall p: nat :: p < VPAGES ==> Translate(p) == Lookup(view, p);
      InsertStep(mem[..], pages, heapStart, heapPtr, heapEnd, vp, kind, phys);
      TranslateIsWalk();
      ghost var m, p3 := mem[..], pages[NodeAt(0, vp, 3)];
      InsertMapping(table, kind, phys, virt, p3);
      assert mem[..] == SetEntry(m, p3, Index(vp, 3), PageDescriptor(kind, phys));
      assert WellFormed();
      TranslateIsWalk();
      history := history + [op];
      forall p: nat | p < VPAGES ensures Translate(p) == Lookup(Replay(history), p) {
        assert Translate(p) == if p == vp then Some(Mapped(kind, phys)) else Lookup(view, p);
      }
    }

    method ClearTxlnTable() returns (halted: bool)
      requires Valid()
      modifies this`heapPtr, this`l0Table, this`pages, this`history, mem
      ensures halted == (heapStart + PAGE_SIZE * |Touched(old(history) + [Clear])| > heapEnd)
      ensures !halted ==> Valid() && history == old(history) + [Clear]
    {
      hide NodeAt, Index, Walk, TablesOk;
      TouchedStep(history, Clear);
      HeapCount(mem[..], pages, heapStart, heapPtr, heapEnd);
      var table;
      halted, table := GetL0Table();
      if halted { OneMore(old(pages.Keys), Root(0), old(pages.Keys) + {Root(0)}); return; }
      HeapCount(mem[..], pages, heapStart, heapPtr, heapEnd);
      ClearStep(mem[..], pages, heapStart, heapPtr, heapEnd);
      TranslateIsWalk();
      ClearEntries(table);
      TranslateIsWalk();
      history := history + [Clear];
    }

    /** `get_txln_table`, whose result goes into TTBR0. */
    method GetTxlnTable() returns (halted: bool, table: Word)
      requires Valid()
      modifies this`heapPtr, this`l0Table, this`pages, this`history
      ensures halted == (heapStart + PAGE_SIZE * |Touched(old(history) + [GetTable])| > heapEnd)
      ensures !halted ==> Valid() && history == old(history) + [GetTable] && table == l0Table
    {
      hide NodeAt, Index, Walk, TablesOk;
      TouchedStep(history, GetTable);
      HeapCount(mem[..], pages, heapStart, heapPtr, heapEnd);
      halted, table := GetL0Table();
      if halted { OneMore(old(pages.Keys), Root(0), old(pages.Keys) + {Root(0)}); return; }
      HeapCount(mem[..], pages, heapStart, heapPtr, heapEnd);
      history := history + [GetTable];
    }
  }

  /** The entry the walk for `vp` finds at a level it reaches. */
  lemma DescriptorAt(m: seq<Frame>, pages: Pages, start: nat, ptr: nat, end: nat, vp: nat, level: nat)
    requires TablesOk(m, pages, start, ptr, end) && Reaches(m, pages, vp, level) && level < 3
    ensures var n, c := NodeAt(0, vp, level), NodeAt(0, vp, level + 1);
            && n in pages && NodeOk(m, pages, n)
            && var d := m[pages[n]][Index(vp, level)];
               if c in pages then
                 && NodeOk(m, pages, c) && (d % 4 == 0 || d % 4 == 3)
                 && FrameOf(d) == pages[c]
                 && (d % 4 == 0 ==> d == Link(pages[c], false))
                 && (d % 4 != 0 ==> Reaches(m, pages, vp, level + 1))
               else d == 0
  {
    var n, i := NodeAt(0, vp, level), Index(vp, level);
    PathStep(0, vp, level);
    assert NodeOk(m, pages, n) && LinkOk(m, pages, n, i);
    if Child(n, i) in pages {
      assert NodeOk(m, pages, Child(n, i));
      LinkFacts(pages[Child(n, i)], m[pages[n]][i]);
    }
  }

  /** The shift of the virtual address that exposes a level's index. */
  function Shift(level: nat): nat {
    if level == 0 then 39 else if level == 1 then 30 else if level == 2 then 21 else 12
  }

  /** `(uint32_t)(virt_addr >> shift) & 511` */
  method TableIndex(va: Word, level: nat) returns (idx: nat)
    requires level <= 3
    ensures idx == Index(VirtualPage(va), level)
  {
    Powers();
    var p := PAGE_SIZE * Span(level);
    ShiftRight(va, Shift(level), p);
    var shifted := Shr(va, Shift(level)) % TWO32;
    Mask(shifted, 0, 9, 1, ENTRIES);
    idx := And(shifted, ENTRIES - 1);
    IndexBits32(va, level);
  }
}
