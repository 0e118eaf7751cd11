/** Run-time paging on x86-64: the zeroing page heap, map-update in two coexisting page-table trees, and
    the start-up mappings (arch/x86_64/mem.c, arch/x86_64/heap.c). */
module X86Mem {
  import opened Bits
  import opened Radix
  import opened X86Walk
  import opened X86Tree
  import opened X86Boot
  import opened Wrappers

  type View = map<nat, Translation>

  function Lookup(view: View, vp: nat): Option<Translation> {
    if vp in view then Some(view[vp]) else None
  }

  /** What the boot code leaves mapped: the first gibibyte, on itself, for the supervisor. */
  ghost function BootView(): View {
    map vp: nat | vp < FIRST_GIB :: Translation(vp, true, false)
  }

  const LAPIC: Word := 0xfee0_0000
  const FRAMEBUFFER: Word := 0xb_8000

  lemma BootState(m: seq<Frame>, gib: bool)
    requires |m| > PD
    ensures var t, pages := BootTables(m, gib), BootPages(gib);
            && TreeOk(t, pages)
            && Root(BOOT) in pages && pages[Root(BOOT)] == PML4 && Node(BOOT, 1, 0) in pages
            && (forall n :: n in pages ==> n.root == BOOT && pages[n] <= PD)
            && (forall vp: nat :: vp < VPAGES ==> Translate(t, pages, BOOT, vp) == Lookup(BootView(), vp))
            && (forall vp: nat :: vp < VPAGES ==> Translate(t, pages, RUNTIME, vp) == None)
  {
    BootTree(m, gib);
    forall vp: nat | vp < VPAGES ensures Translate(BootTables(m, gib), BootPages(gib), BOOT, vp) == Lookup(BootView(), vp) {
      BootIdentity(m, gib, vp);
    }
  }

  /** Every table lies below the heap pointer or outside the heap, so a new page is nobody's table. */
  ghost predicate HeapInv(pages: Pages, base: nat, cur: nat, end: nat, frames: nat) {
    && base % PAGE_SIZE == 0 && end % PAGE_SIZE == 0 && cur % PAGE_SIZE == 0
    && 0 < base <= cur <= end <= PAGE_SIZE * frames && end <= PAGE_SIZE * FRAMES
    && (forall n :: n in pages ==> PAGE_SIZE * pages[n] < cur || PAGE_SIZE * pages[n] >= end)
    && (forall n :: n in pages && n.root == RUNTIME ==> base <= PAGE_SIZE * pages[n] < cur)
  }

  /** The page at the heap pointer, when there is one left, is no table yet; the next table may take it. */
  lemma FreshFrame(pages: Pages, base: nat, cur: nat, end: nat, frames: nat, n: Node, c: Node)
    requires HeapInv(pages, base, cur, end, frames) && n in pages
    ensures cur == PAGE_SIZE * (cur / PAGE_SIZE) && 0 < cur / PAGE_SIZE
    ensures PAGE_SIZE * pages[n] < cur || PAGE_SIZE * pages[n] >= end
    ensures cur < end ==>
      && cur / PAGE_SIZE < frames && cur / PAGE_SIZE < FRAMES && cur + PAGE_SIZE <= end
      && (forall k :: k in pages ==> pages[k] != cur / PAGE_SIZE)
      && HeapInv(pages[c := cur / PAGE_SIZE], base, cur + PAGE_SIZE, end, frames)
  {
  }

  /** A run-time table is one of the heap's pages. */
  lemma HeapTable(pages: Pages, base: Word, cur: nat, end: Word, frames: nat, n: Node)
    requires HeapInv(pages, base, cur, end, frames) && n in pages && n.root == RUNTIME && end < 0x1_0000_0000_0000
    requires (end - base) / PAGE_SIZE < 0x8000_0000
    ensures base <= end && InPages(base, HeapPages(base, end), pages[n]) && pages[n] < VPAGES
  {
  }

  class Paging {
    const mem: array<Frame>       // physical memory
    const heapBase: Word
    const heapEnd: Word
    var heapCur: Word
    var initialPagetables: Word
    var runtimePagetables: Word
    var memInited: bool
    ghost var pages: Pages
    ghost var bootView: View
    ghost var runtimeView: View

    ghost predicate HeapOk()
      reads this
    {
      HeapInv(pages, heapBase, heapCur, heapEnd, mem.Length)
    }

    ghost predicate RootsOk()
      reads this
    {
      && Root(BOOT) in pages && pages[Root(BOOT)] == PML4 && Node(BOOT, 1, 0) in pages
      && (initialPagetables == 0 || initialPagetables == INIT_PGT)
      && (memInited <==> Root(RUNTIME) in pages)
      && (memInited ==> runtimePagetables == PAGE_SIZE * pages[Root(RUNTIME)])
    }

    ghost predicate Tables()
      reads this, mem
    {
      HeapOk() && RootsOk() && TreeOk(mem[..], pages)
    }

    /** Each tree translates as its plain map says. */
    ghost predicate Valid()
      reads this, mem
    {
      && Tables()
      && (!memInited ==> runtimeView == map[])
      && (forall vp: nat :: vp < VPAGES ==> Translate(mem[..], pages, BOOT, vp) == Lookup(bootView, vp))
      && (forall vp: nat :: vp < VPAGES ==> Translate(mem[..], pages, RUNTIME, vp) == Lookup(runtimeView, vp))
    }

    /** Boot: `build_pagetables`, then `heap_init`. */
    constructor (ram: array<Frame>, gib: bool, heapStart: Word, heapSize: Word)
      requires heapStart % PAGE_SIZE == 0 && heapSize % PAGE_SIZE == 0 && heapStart > PAGE_SIZE * PD
      requires heapStart + heapSize <= PAGE_SIZE * ram.Length && heapStart + heapSize <= PAGE_SIZE * FRAMES
      modifies ram
      ensures Valid() && mem == ram && heapBase == heapCur == heapStart && heapEnd == heapStart + heapSize
      ensures pages == BootPages(gib) && bootView == BootView() && runtimeView == map[] && !memInited
    {
      BuildPagetables(ram, gib);
      mem, heapBase, heapCur, heapEnd := ram, heapStart, heapStart, heapStart + heapSize;
      initialPagetables, runtimePagetables, memInited := 0, 0, false;
      pages, bootView, runtimeView := BootPages(gib), BootView(), map[];
      new;
      hide BootTables, TreeOk, Translate, BootPages, BootView;
      BootState(old(ram[..]), gib);
    }

    method HeapAllocPage() returns (halted: bool, page: Word)
      requires HeapOk()
      modifies this`heapCur, mem
      ensures halted == (old(heapCur) >= heapEnd)
      ensures !halted ==>
        && page == old(heapCur) && heapCur == old(heapCur) + PAGE_SIZE
        && page / PAGE_SIZE < mem.Length && mem[..] == old(mem[..])[page / PAGE_SIZE := ZeroFrame()]
      ensures halted ==> heapCur == old(heapCur)
    {
      page := heapCur;
      halted := heapCur >= heapEnd;
      if halted { return; }
      heapCur := heapCur + 0x1000;
      FastZeroPage(page / PAGE_SIZE);
    }

    /** `rep stosq` of 0x200 zero words. */
    method FastZeroPage(f: nat)
      requires f < mem.Length
      modifies mem
      ensures mem[..] == old(mem[..])[f := ZeroFrame()]
    {
      for i := 0 to 0x200
        invariant forall g :: 0 <= g < mem.Length && g != f ==> mem[g] == old(mem[g])
        invariant forall j :: 0 <= j < i ==> mem[f][j] == 0
      {
        mem[f] := mem[f][i := 0];
      }
      assert mem[f] == ZeroFrame();
      assert mem[..] == old(mem[..])[f := ZeroFrame()];
    }

    /** The body of the three "if not present" blocks of `__create_page_mapping`, on an empty entry. */
    method FillEntry(t: nat, idx: nat) returns (halted: bool)
      requires HeapOk() && t < mem.Length && idx < ENTRIES && mem[t][idx] == 0
      requires PAGE_SIZE * t < heapCur || PAGE_SIZE * t >= heapEnd
      modifies this`heapCur, mem
      ensures halted == (old(heapCur) >= heapEnd)
      ensures !halted ==>
        && heapCur == old(heapCur) + PAGE_SIZE
        && old(heapCur) / PAGE_SIZE < mem.Length && old(heapCur) / PAGE_SIZE < FRAMES
        && mem[..] == AddTable(old(mem[..]), t, idx, old(heapCur) / PAGE_SIZE)
    {
      halted := false;
      ghost var f := heapCur / PAGE_SIZE;
      var base := GetBaseAddress(mem[t][idx]);
      if base == 0 {
        var page;
        halted, page := HeapAllocPage();
        if halted { return; }
        assert page == PAGE_SIZE * f && t != f;
        base := SetBaseAddress(mem[t][idx], page);
        mem[t] := mem[t][idx := base];
      }
      var flags := TableFlags();
      assert mem[t][idx] == PAGE_SIZE * f;
      var entry := SetFlags(mem[t][idx], flags);
      assert entry == Link(f, false);
      mem[t] := mem[t][idx := entry];
      assert mem[t] == old(mem[t])[idx := entry];
      assert mem[..] == AddTable(old(mem[..]), t, idx, f);
    }

    /** One level of `__create_page_mapping`: make sure the entry is present, and follow it. */
    method NextTable(ghost root: nat, table: Word, virt: Word, level: nat, ghost total: set<Node>) returns (halted: bool, next: Word)
      requires Tables() && level < 3 && Mappable(root, VirtualPage(virt)) && NodeAt(root, VirtualPage(virt), level) in pages
      requires table == PAGE_SIZE * pages[NodeAt(root, VirtualPage(virt), level)]
      requires pages.Keys <= total && NodeAt(root, VirtualPage(virt), level + 1) in total
      modifies this`heapCur, this`pages, mem
      ensures halted ==> old(heapCur) + PAGE_SIZE * (Size(total) - Size(old(pages.Keys))) > heapEnd
      ensures !halted ==>
        && Tables() && pages.Keys == old(pages.Keys) + {NodeAt(root, VirtualPage(virt), level + 1)}
        && next == PAGE_SIZE * pages[NodeAt(root, VirtualPage(virt), level + 1)]
        && heapCur == old(heapCur) + PAGE_SIZE * (Size(pages.Keys) - Size(old(pages.Keys)))
        && SameTranslation(old(mem[..]), old(pages), mem[..], pages)
    {
      hide NodeAt, Index, Walk, Mappable, TreeOk, Link, HeapInv, Size;
      ghost var vp, m := VirtualPage(virt), mem[..];
      ghost var n, c := NodeAt(root, vp, level), NodeAt(root, vp, level + 1);
      ghost var f := heapCur / PAGE_SIZE;
      EntryAt(m, pages, root, vp, level);
      FreshFrame(pages, heapBase, heapCur, heapEnd, mem.Length, n, c);
      var t := table / PAGE_SIZE;
      var idx := TableIndex(virt, level);
      var present := IsPresent(mem[t][idx]);
      halted, next := false, 0;
      AddOne(pages.Keys, c);
      if !present {
        if heapCur < heapEnd { AddStep(m, pages, root, vp, level, f); }
        halted := FillEntry(t, idx);
        if halted { OneMore(pages.Keys, c, total); return; }
        pages := pages[c := f];
        RootUnaffected(root, vp, level);
        PresentEntry(mem[..], pages, root, vp, level);
      }
      next := GetBaseAddress(mem[t][idx]);
    }

    /** The three levels of tables, created as needed. */
    method ReachTable(ghost root: nat, pml4: Word, virt: Word) returns (halted: bool, table: Word)
      requires Tables() && Mappable(root, VirtualPage(virt)) && Root(root) in pages && pml4 == PAGE_SIZE * pages[Root(root)]
      modifies this`heapCur, this`pages, mem
      ensures halted == (old(heapCur) + PAGE_SIZE * (Size(old(pages.Keys) + Path(root, VirtualPage(virt))) - Size(old(pages.Keys))) > heapEnd)
      ensures !halted ==>
        && Tables() && pages.Keys == old(pages.Keys) + Path(root, VirtualPage(virt))
        && heapCur == old(heapCur) + PAGE_SIZE * (Size(pages.Keys) - Size(old(pages.Keys)))
        && table == PAGE_SIZE * pages[NodeAt(root, VirtualPage(virt), 3)]
        && SameTranslation(old(mem[..]), old(pages), mem[..], pages)
    {
      hide NodeAt, VirtualPage, Mappable, TreeOk, HeapInv, Size, SameTranslation;
      ghost var vp, m0, p0 := VirtualPage(virt), mem[..], pages;
      ghost var total := pages.Keys + Path(root, vp);
      MappableRoot(root, vp);
      halted, table := NextTable(root, pml4, virt, 0, total);
      if halted { return; }
      ghost var m1, p1 := mem[..], pages;
      halted, table := NextTable(root, table, virt, 1, total);
      if halted { return; }
      SameTranslationTransitive(m0, p0, m1, p1, mem[..], pages);
      ghost var m2, p2 := mem[..], pages;
      halted, table := NextTable(root, table, virt, 2, total);
      if halted { return; }
      SameTranslationTransitive(m0, p0, m2, p2, mem[..], pages);
      HeapWithin(pages, heapBase, heapCur, heapEnd, mem.Length);
      assert pages.Keys == total;
    }

    /** `__create_page_mapping`: sets the walk of one page in one tree, and no other walk in either tree. */
    method CreatePageMapping(ghost root: nat, pml4: Word, phys: Word, virt: Word) returns (halted: bool)
      requires Valid() && Mappable(root, VirtualPage(virt)) && Root(root) in pages && pml4 == PAGE_SIZE * pages[Root(root)]
      modifies this`heapCur, this`pages, this`bootView, this`runtimeView, mem
      ensures halted == (old(heapCur) + PAGE_SIZE * (Size(old(pages.Keys) + Path(root, VirtualPage(virt))) - Size(old(pages.Keys))) > heapEnd)
      ensures !halted ==>
        && Valid() && pages.Keys == old(pages.Keys) + Path(root, VirtualPage(virt))
        && heapCur == old(heapCur) + PAGE_SIZE * (Size(pages.Keys) - Size(old(pages.Keys)))
        && bootView == (if root == BOOT then old(bootView)[VirtualPage(virt) := Mapped(root, phys, VirtualPage(virt))] else old(bootView))
        && runtimeView == (if root == RUNTIME then old(runtimeView)[VirtualPage(virt) := Mapped(root, phys, VirtualPage(virt))] else old(runtimeView))
    {
      hide NodeAt, VirtualPage, Mappable, TreeOk, HeapInv, Size, Translate, Mapped;
      ghost var vp := VirtualPage(virt);
      MappableRoot(root, vp);
      var table;
      halted, table := ReachTable(root, pml4, virt);
      if halted { return; }
      InsertEntry(root, table, phys, virt);
      if root == BOOT {
        bootView := bootView[vp := Mapped(root, phys, vp)];
      } else {
        runtimeView := runtimeView[vp := Mapped(root, phys, vp)];
      }
    }

    /** The last two statements of `__create_page_mapping`. */
    method InsertEntry(ghost root: nat, table: Word, phys: Word, virt: Word)
      requires Tables() && Mappable(root, VirtualPage(virt)) && NodeAt(root, VirtualPage(virt), 3) in pages
      requires table == PAGE_SIZE * pages[NodeAt(root, VirtualPage(virt), 3)]
      modifies mem
      ensures Tables() && Root(root) in pages
      ensures Translate(mem[..], pages, root, VirtualPage(virt)) == Some(Mapped(root, phys, VirtualPage(virt)))
      ensures forall r: nat, p: nat :: p < VPAGES && (r != root || p != VirtualPage(virt)) ==>
                Translate(mem[..], pages, r, p) == old(Translate(mem[..], pages, r, p))
    {
      hide NodeAt, Index, Walk, TreeOk, HeapInv, Translate;
      ghost var vp, m := VirtualPage(virt), mem[..];
      InsertStep(m, pages, root, vp, phys, phys / PAGE_SIZE * PAGE_SIZE + 7);
      var t := table / PAGE_SIZE;
      var idx := TableIndex(virt, 3);
      var entry := SetBaseAddress(mem[t][idx], phys);
      mem[t] := mem[t][idx := entry];
      var flags := TableFlags();
      entry := SetFlags(mem[t][idx], flags);
      assert entry == phys / PAGE_SIZE * PAGE_SIZE + 7;
      mem[t] := mem[t][idx := entry];
      assert mem[t] == m[t][idx := entry];
      assert mem[..] == SetEntry(m, t, idx, entry);
    }

    /** `mem_create_page_mapping_data` and `_code`: into the run-time tables. */
    method MapRuntimePage(phys: Word, virt: Word) returns (halted: bool)
      requires Valid() && Root(RUNTIME) in pages
      modifies this`heapCur, this`pages, this`bootView, this`runtimeView, mem
      ensures halted == (old(heapCur) + PAGE_SIZE * (Size(old(pages.Keys) + Path(RUNTIME, VirtualPage(virt))) - Size(old(pages.Keys))) > heapEnd)
      ensures !halted ==>
        && Valid() && Root(RUNTIME) in pages && pages.Keys == old(pages.Keys) + Path(RUNTIME, VirtualPage(virt))
        && heapCur == old(heapCur) + PAGE_SIZE * (Size(pages.Keys) - Size(old(pages.Keys)))
        && bootView == old(bootView)
        && runtimeView == old(runtimeView)[VirtualPage(virt) := Mapped(RUNTIME, phys, VirtualPage(virt))]
    {
      hide Size, Path;
      halted := CreatePageMapping(RUNTIME, runtimePagetables, phys, virt);
    }

    /** `map_page_ranges` */
    method MapPageRanges(phys: Word, virt: Word, nrPages: nat) returns (halted: bool)
      requires Valid() && Root(RUNTIME) in pages
      requires phys + PAGE_SIZE * nrPages < TWO64 && virt + PAGE_SIZE * nrPages < TWO64
      modifies this`heapCur, this`pages, this`bootView, this`runtimeView, mem
      ensures halted == (old(heapCur) + PAGE_SIZE * (Size(old(pages.Keys) + RangeNodes(virt, nrPages)) - Size(old(pages.Keys))) > heapEnd)
      ensures !halted ==>
        && Valid() && Root(RUNTIME) in pages && pages.Keys == old(pages.Keys) + RangeNodes(virt, nrPages)
        && heapCur == old(heapCur) + PAGE_SIZE * (Size(pages.Keys) - Size(old(pages.Keys)))
        && bootView == old(bootView) && runtimeView == MapRange(old(runtimeView), phys, virt, nrPages)
    {
      hide Size, Path, Paging.Valid, Mapped;
      var p, v := phys, virt;
      ghost var keys := pages.Keys;
      for i := 0 to nrPages
        invariant p == phys + PAGE_SIZE * i && v == virt + PAGE_SIZE * i
        invariant Valid() && Root(RUNTIME) in pages && pages.Keys == keys + RangeNodes(virt, i)
        invariant heapCur == old(heapCur) + PAGE_SIZE * (Size(pages.Keys) - Size(keys))
        invariant bootView == old(bootView) && runtimeView == MapRange(old(runtimeView), phys, virt, i)
      {
        ghost var next := pages.Keys + Path(RUNTIME, VirtualPage(v));
        RangeNodesGrow(keys, virt, i + 1, nrPages);
        assert next == keys + RangeNodes(virt, i + 1);
        halted := MapRuntimePage(p, v);
        if halted { return; }
        p, v := p + 0x1000, v + 0x1000;
      }
      WithinHeap();
      halted := false;
    }

    lemma WithinHeap()
      requires Valid()
      ensures heapBase <= heapCur <= heapEnd
    {
    }

    /** `early_mem_init`: the local APIC's page, in the boot tables. */
    method EarlyMemInit() returns (halted: bool)
      requires Valid()
      modifies this`initialPagetables, this`heapCur, this`pages, this`bootView, this`runtimeView, mem
      ensures halted == (old(heapCur) + PAGE_SIZE * (Size(old(pages.Keys) + Path(BOOT, VirtualPage(LAPIC))) - Size(old(pages.Keys))) > heapEnd)
      ensures !halted ==>
        && Valid() && initialPagetables == INIT_PGT && runtimeView == old(runtimeView)
        && pages.Keys == old(pages.Keys) + Path(BOOT, VirtualPage(LAPIC))
        && heapCur == old(heapCur) + PAGE_SIZE * (Size(pages.Keys) - Size(old(pages.Keys)))
        && bootView == old(bootView)[VirtualPage(LAPIC) := Translation(LAPIC / PAGE_SIZE, true, false)]
    {
      hide Size, Path, TreeOk, HeapInv, Translate, Mapped;
      initialPagetables := INIT_PGT;
      LapicPage();
      halted := CreatePageMapping(BOOT, initialPagetables, LAPIC, LAPIC);
    }

    /** `prepare_runtime_pagetables` */
    method PrepareRuntimePagetables(textStart: Word, textEnd: Word, dataStart: Word, dataEnd: Word) returns (halted: bool)
      requires Valid() && Root(RUNTIME) in pages
      requires SectionOk(textStart, textEnd) && SectionOk(dataStart, dataEnd) && heapEnd < 0x1_0000_0000_0000
      modifies this`heapCur, this`pages, this`bootView, this`runtimeView, mem
      ensures halted ==
        (old(heapCur) + PAGE_SIZE * (Size(old(pages.Keys) + RuntimeNodes(textStart, textEnd, dataStart, dataEnd, heapBase, heapEnd))
                                     - Size(old(pages.Keys))) > heapEnd)
      ensures !halted ==>
        && Valid() && Root(RUNTIME) in pages && bootView == old(bootView)
        && pages.Keys == old(pages.Keys) + RuntimeNodes(textStart, textEnd, dataStart, dataEnd, heapBase, heapEnd)
        && runtimeView == RuntimeView(old(runtimeView), textStart, textEnd, dataStart, dataEnd, heapBase, heapEnd)
    {
      hide Size, Path, Paging.Valid, Mapped, MapRange, RangeNodes;
      WithinHeap();
      ghost var keys := pages.Keys;
      ghost var total := keys + RuntimeNodes(textStart, textEnd, dataStart, dataEnd, heapBase, heapEnd);
      SizeMono(keys + RangeNodes(FRAMEBUFFER, 1), total);
      halted := MapPageRanges(FRAMEBUFFER, FRAMEBUFFER, 1);
      if halted { return; }
      SizeMono(pages.Keys + RangeNodes(textStart, SectionPages(textStart, textEnd)), total);
      halted := MapPageRanges(textStart, textStart, SectionPages(textStart, textEnd));
      if halted { return; }
      SizeMono(pages.Keys + RangeNodes(dataStart, SectionPages(dataStart, dataEnd)), total);
      halted := MapPageRanges(dataStart, dataStart, SectionPages(dataStart, dataEnd));
      if halted { return; }
      WithinHeap();
      SizeMono(pages.Keys + RangeNodes(heapBase, HeapPages(heapBase, heapEnd)), total);
      halted := MapPageRanges(heapBase, heapBase, HeapPages(heapBase, heapEnd));
      if halted { return; }
      assert pages.Keys + Path(RUNTIME, VirtualPage(LAPIC)) == total;
      halted := MapRuntimePage(LAPIC, LAPIC);
    }

    /** `mem_init`: once only. */
    method MemInit(textStart: Word, textEnd: Word, dataStart: Word, dataEnd: Word) returns (halted: bool)
      requires Valid()
      requires SectionOk(textStart, textEnd) && SectionOk(dataStart, dataEnd) && heapEnd < 0x1_0000_0000_0000
      modifies this, mem
      ensures old(memInited) ==> !halted && unchanged(this) && unchanged(mem)
      ensures !old(memInited) ==>
        halted == (old(heapCur)
          + PAGE_SIZE * (Size(old(pages.Keys) + {Root(RUNTIME)} + RuntimeNodes(textStart, textEnd, dataStart, dataEnd, heapBase, heapEnd))
                         - Size(old(pages.Keys))) > heapEnd)
      ensures !halted && !old(memInited) ==>
        && Valid() && memInited && Root(RUNTIME) in pages && bootView == old(bootView)
        && pages.Keys == old(pages.Keys) + {Root(RUNTIME)} + RuntimeNodes(textStart, textEnd, dataStart, dataEnd, heapBase, heapEnd)
        && runtimeView == RuntimeView(map[], textStart, textEnd, dataStart, dataEnd, heapBase, heapEnd)
    {
      hide RuntimeView, RuntimeNodes, Walk, TreeOk, Translate, HeapInv, Size;
      halted := false;
      if memInited { return; }
      memInited := true;
      HeapWithin(pages, heapBase, heapCur, heapEnd, mem.Length);
      AddOne(pages.Keys, Root(RUNTIME));
      SizeMono(pages.Keys + {Root(RUNTIME)}, pages.Keys + {Root(RUNTIME)} + RuntimeNodes(textStart, textEnd, dataStart, dataEnd, heapBase, heapEnd));
      ghost var f := heapCur / PAGE_SIZE;
      FreshFrame(pages, heapBase, heapCur, heapEnd, mem.Length, Root(BOOT), Root(RUNTIME));
      if heapCur < heapEnd { AddRuntimeRoot(mem[..], pages, f); }
      halted, runtimePagetables := HeapAllocPage();
      if halted { return; }
      assert pages[Root(RUNTIME) := f].Keys == pages.Keys + {Root(RUNTIME)};
      pages := pages[Root(RUNTIME) := f];
      halted := PrepareRuntimePagetables(textStart, textEnd, dataStart, dataEnd);
    }

    /** Once the run-time tables are active, every page that holds one of them can still be reached, at its
        own address: also those allocated while the heap was being mapped. */
    lemma TablesMapThemselves(textStart: Word, textEnd: Word, dataStart: Word, dataEnd: Word, n: Node)
      requires Valid() && n in pages && n.root == RUNTIME
      requires SectionOk(textStart, textEnd) && SectionOk(dataStart, dataEnd) && heapEnd < 0x1_0000_0000_0000
      requires (heapEnd - heapBase) / PAGE_SIZE < 0x8000_0000
      requires runtimeView == RuntimeView(map[], textStart, textEnd, dataStart, dataEnd, heapBase, heapEnd)
      ensures Translate(mem[..], pages, RUNTIME, pages[n]) == Some(Translation(pages[n], true, true))
    {
      hide HeapInv, InPages, HeapPages, TreeOk, Translate, RuntimeView, SectionPages;
      HeapTable(pages, heapBase, heapCur, heapEnd, mem.Length, n);
      RuntimeIdentity(textStart, textEnd, dataStart, dataEnd, heapBase, heapEnd, pages[n]);
    }
  }

  /** The whole start-up: boot code, `heap_init`, `early_mem_init`, and the first `mem_init`. It succeeds exactly
      when the heap holds the tables; then the boot tree maps the first gibibyte and the local APIC, the run-time
      tree what `RuntimeIdentity` says, and every run-time table itself. */
  method StartUp(ram: array<Frame>, gib: bool, heapStart: Word, heapSize: Word,
                 textStart: Word, textEnd: Word, dataStart: Word, dataEnd: Word) returns (halted: bool, paging: Paging)
    requires heapStart % PAGE_SIZE == 0 && heapSize % PAGE_SIZE == 0 && heapStart > PAGE_SIZE * PD
    requires heapStart + heapSize <= PAGE_SIZE * ram.Length && heapStart + heapSize < 0x1_0000_0000_0000
    requires SectionOk(textStart, textEnd) && SectionOk(dataStart, dataEnd) && heapSize / PAGE_SIZE < 0x8000_0000
    modifies ram
    ensures paging.mem == ram
    ensures halted ==
      (heapStart + PAGE_SIZE * (Size(StartTables(gib, textStart, textEnd, dataStart, dataEnd, heapStart, heapStart + heapSize))
                                - Size(BootPages(gib).Keys)) > heapStart + heapSize)
    ensures !halted ==>
      && paging.Valid() && paging.memInited
      && paging.bootView == BootView()[LAPIC / PAGE_SIZE := Translation(LAPIC / PAGE_SIZE, true, false)]
      && paging.runtimeView == RuntimeView(map[], textStart, textEnd, dataStart, dataEnd, heapStart, heapStart + heapSize)
      && paging.pages.Keys == StartTables(gib, textStart, textEnd, dataStart, dataEnd, heapStart, heapStart + heapSize)
      && (forall n :: n in paging.pages && n.root == RUNTIME ==>
            Translate(ram[..], paging.pages, RUNTIME, paging.pages[n]) == Some(Translation(paging.pages[n], true, true)))
    ensures !halted && WholeSection((textStart, textEnd)) && WholeSection((dataStart, dataEnd)) ==>
      StartUpTranslations(paging, (textStart, textEnd), (dataStart, dataEnd), heapStart, heapStart + heapSize)
  {
    hide StartUpTranslations, WholeSection, Paging.Valid, RuntimeView, RuntimeNodes, Translate, Size, Path, BootPages;
    paging := new Paging(ram, gib, heapStart, heapSize);
    LapicPage();
    ghost var total := StartTables(gib, textStart, textEnd, dataStart, dataEnd, heapStart, heapStart + heapSize);
    SizeMono(paging.pages.Keys + Path(BOOT, VirtualPage(LAPIC)), total);
    halted := paging.EarlyMemInit();
    if halted { return; }
    halted := paging.MemInit(textStart, textEnd, dataStart, dataEnd);
    if halted { return; }
    forall n | n in paging.pages && n.root == RUNTIME
      ensures Translate(ram[..], paging.pages, RUNTIME, paging.pages[n]) == Some(Translation(paging.pages[n], true, true))
    {
      paging.TablesMapThemselves(textStart, textEnd, dataStart, dataEnd, n);
    }
    if WholeSection((textStart, textEnd)) && WholeSection((dataStart, dataEnd)) {
      StartUpInFigures(paging, (textStart, textEnd), (dataStart, dataEnd), heapStart, heapStart + heapSize);
    }
  }

  /** All tables of both trees after start-up. */
  ghost function StartTables(gib: bool, textStart: Word, textEnd: Word, dataStart: Word, dataEnd: Word,
                             heapBase: Word, heapEnd: Word): set<Node>
    requires SectionOk(textStart, textEnd) && SectionOk(dataStart, dataEnd) && heapBase <= heapEnd < 0x1_0000_0000_0000
  {
    BootPages(gib).Keys + Path(BOOT, VirtualPage(LAPIC)) + {Root(RUNTIME)}
      + RuntimeNodes(textStart, textEnd, dataStart, dataEnd, heapBase, heapEnd)
  }

  lemma LapicPage()
    ensures VirtualPage(LAPIC) == LAPIC / PAGE_SIZE && Mapped(BOOT, LAPIC, LAPIC / PAGE_SIZE) == Translation(LAPIC / PAGE_SIZE, true, false)
    ensures Mappable(BOOT, VirtualPage(LAPIC))
  {
  }

  // The mappings set up at start, as plain maps.

  function MapRange(view: View, phys: Word, virt: Word, n: nat): View
    requires phys + PAGE_SIZE * n < TWO64 && virt + PAGE_SIZE * n < TWO64
  {
    if n == 0 then view
    else
      var p, vp := phys + PAGE_SIZE * (n - 1), VirtualPage(virt + PAGE_SIZE * (n - 1));
      MapRange(view, phys, virt, n - 1)[vp := Mapped(RUNTIME, p, vp)]
  }

  function RangeNodes(virt: Word, n: nat): set<Node>
    requires virt + PAGE_SIZE * n < TWO64
  {
    if n == 0 then {} else RangeNodes(virt, n - 1) + Path(RUNTIME, VirtualPage(virt + PAGE_SIZE * (n - 1)))
  }

  lemma {:induction false} RangeNodesGrow(keys: set<Node>, virt: Word, k: nat, n: nat)
    requires k <= n && virt + PAGE_SIZE * n < TWO64
    ensures RangeNodes(virt, k) <= RangeNodes(virt, n)
    ensures Size(keys + RangeNodes(virt, k)) <= Size(keys + RangeNodes(virt, n))
  {
    if k < n { RangeNodesGrow(keys, virt, k, n - 1); }
    SubsetSize(keys + RangeNodes(virt, k), keys + RangeNodes(virt, n));
  }

  /** The tables that the start-up mappings need. */
  ghost function RuntimeNodes(textStart: Word, textEnd: Word, dataStart: Word, dataEnd: Word, heapBase: Word, heapEnd: Word): set<Node>
    requires SectionOk(textStart, textEnd) && SectionOk(dataStart, dataEnd) && heapBase <= heapEnd < 0x1_0000_0000_0000
  {
    RangeNodes(FRAMEBUFFER, 1) + RangeNodes(textStart, SectionPages(textStart, textEnd)) + RangeNodes(dataStart, SectionPages(dataStart, dataEnd))
      + RangeNodes(heapBase, HeapPages(heapBase, heapEnd)) + Path(RUNTIME, VirtualPage(LAPIC))
  }

  lemma SizeMono(a: set<Node>, b: set<Node>)
    requires a <= b
    ensures Size(a) <= Size(b)
  {
    SubsetSize(a, b);
  }

  /** Sections the linker script lays out, in the 48-bit address space. */
  predicate SectionOk(start: Word, end: Word) {
    start <= end && end + PAGE_SIZE < 0x1_0000_0000_0000
  }

  /** A page count as the int parameter of `map_page_ranges`: cut to 32 bits, and none when that is negative. */
  function IntPages(n: nat): (r: nat)
    ensures r <= n && (r == n <==> n < 0x8000_0000)
  {
    var cut := n % TWO32;
    if cut < 0x8000_0000 then cut else 0
  }

  /** `NR_PAGES` counts the pages that meet the inclusive range, exactly when the end lies no earlier in its page
      than the start does in its own; otherwise it misses the last page. */
  lemma NrPagesIff(start: Word, end: Word)
    requires start <= end
    ensures (forall vp: nat :: InPages(start, NrPages(start, end), vp) <==> start / PAGE_SIZE <= vp <= end / PAGE_SIZE)
       <==> start % PAGE_SIZE <= end % PAGE_SIZE
  {
    var a, b := start / PAGE_SIZE, end / PAGE_SIZE;
    var x, y := start % PAGE_SIZE, end % PAGE_SIZE;
    if x <= y {
      DivModUnique(end - start, PAGE_SIZE, b - a, y - x);
    } else {
      DivModUnique(end - start, PAGE_SIZE, b - a - 1, PAGE_SIZE + y - x);
      assert !InPages(start, NrPages(start, end), b);
    }
  }

  /** From 0xfff to 0x1000 is two pages, of which the macro counts one. */
  lemma MissedPage()
    ensures NrPages(0xfff, 0x1000) == 1 && 0x1000 / PAGE_SIZE == 1 && !InPages(0xfff, NrPages(0xfff, 0x1000), 1)
  {
  }

  /** 2^31 pages, 8 TiB, become none. */
  lemma CutPages()
    ensures IntPages(0x8000_0000) == 0
  {
  }

  function SectionPages(start: Word, end: Word): nat
    requires start <= end
  {
    IntPages(NrPages(start, end))
  }

  function HeapPages(base: Word, end: Word): nat
    requires base <= end
  {
    IntPages((end - base) / PAGE_SIZE)
  }

  /** The macro `NR_PAGES` */
  function NrPages(start: Word, end: Word): nat
    requires start <= end
  {
    (end - start) / 0x1000 + 1
  }

  function RuntimeView(view: View, textStart: Word, textEnd: Word, dataStart: Word, dataEnd: Word, heapBase: Word, heapEnd: Word): View
    requires SectionOk(textStart, textEnd) && SectionOk(dataStart, dataEnd) && heapBase <= heapEnd < 0x1_0000_0000_0000
  {
    var v1 := MapRange(view, FRAMEBUFFER, FRAMEBUFFER, 1);
    var v2 := MapRange(v1, textStart, textStart, SectionPages(textStart, textEnd));
    var v3 := MapRange(v2, dataStart, dataStart, SectionPages(dataStart, dataEnd));
    var v4 := MapRange(v3, heapBase, heapBase, HeapPages(heapBase, heapEnd));
    v4[VirtualPage(LAPIC) := Mapped(RUNTIME, LAPIC, VirtualPage(LAPIC))]
  }

  predicate InPages(start: Word, n: nat, vp: nat) {
    start / PAGE_SIZE <= vp < start / PAGE_SIZE + n
  }

  lemma {:induction false} MapRangeIdentity(view: View, start: Word, n: nat, vp: nat)
    requires start + PAGE_SIZE * n < 0x1_0000_0000_0000 && vp < VPAGES
    ensures Lookup(MapRange(view, start, start, n), vp)
         == if InPages(start, n, vp) then Some(Translation(vp, true, true)) else Lookup(view, vp)
  {
    if n > 0 {
      MapRangeIdentity(view, start, n - 1, vp);
      var a := start + PAGE_SIZE * (n - 1);
      IdentityMapping(a, start / PAGE_SIZE + (n - 1), start % PAGE_SIZE);
    }
  }

  lemma IdentityMapping(a: Word, page: nat, offset: nat)
    requires a == PAGE_SIZE * page + offset && offset < PAGE_SIZE && page < VPAGES
    ensures VirtualPage(a) == page && Mapped(RUNTIME, a, page) == Translation(page, true, true)
  {
    DivModUnique(a, PAGE_SIZE, page, offset);
  }

  /** The run-time translation is the identity, writable for the user, on exactly the framebuffer page, the
      text, data and heap pages, and the local APIC's page. */
  lemma RuntimeIdentity(textStart: Word, textEnd: Word, dataStart: Word, dataEnd: Word, heapBase: Word, heapEnd: Word, vp: nat)
    requires SectionOk(textStart, textEnd) && SectionOk(dataStart, dataEnd) && heapBase <= heapEnd < 0x1_0000_0000_0000
    requires vp < VPAGES
    ensures Lookup(RuntimeView(map[], textStart, textEnd, dataStart, dataEnd, heapBase, heapEnd), vp)
         == if vp == FRAMEBUFFER / PAGE_SIZE || InPages(textStart, SectionPages(textStart, textEnd), vp)
               || InPages(dataStart, SectionPages(dataStart, dataEnd), vp)
               || InPages(heapBase, HeapPages(heapBase, heapEnd), vp) || vp == LAPIC / PAGE_SIZE
            then Some(Translation(vp, true, true)) else None
  {
    hide MapRange;
    var v1 := MapRange(map[], FRAMEBUFFER, FRAMEBUFFER, 1);
    var v2 := MapRange(v1, textStart, textStart, SectionPages(textStart, textEnd));
    var v3 := MapRange(v2, dataStart, dataStart, SectionPages(dataStart, dataEnd));
    MapRangeIdentity(map[], FRAMEBUFFER, 1, vp);
    MapRangeIdentity(v1, textStart, SectionPages(textStart, textEnd), vp);
    MapRangeIdentity(v2, dataStart, SectionPages(dataStart, dataEnd), vp);
    MapRangeIdentity(v3, heapBase, HeapPages(heapBase, heapEnd), vp);
  }

  // The outcome in figures.

  /** The pages of the start-up mappings: the framebuffer's, those that meet the text and data sections, the
      heap's, and the local APIC's. */
  predicate StartUpPage(text: (Word, Word), data: (Word, Word), heapBase: Word, heapEnd: Word, vp: nat) {
    || vp == 0xb8
    || text.0 / PAGE_SIZE <= vp <= text.1 / PAGE_SIZE
    || data.0 / PAGE_SIZE <= vp <= data.1 / PAGE_SIZE
    || heapBase / PAGE_SIZE <= vp < heapEnd / PAGE_SIZE
    || vp == 0xf_ee00
  }

  /** The end lies no earlier in its page than the start, and there are fewer than 2^31 pages. */
  predicate WholeSection(section: (Word, Word)) {
    && section.0 <= section.1 && section.0 % PAGE_SIZE <= section.1 % PAGE_SIZE
    && section.1 / PAGE_SIZE - section.0 / PAGE_SIZE < 0x7fff_ffff
  }

  lemma SectionInFigures(section: (Word, Word), vp: nat)
    requires WholeSection(section)
    ensures InPages(section.0, SectionPages(section.0, section.1), vp) <==> section.0 / PAGE_SIZE <= vp <= section.1 / PAGE_SIZE
  {
    var a, b, x, y := section.0 / PAGE_SIZE, section.1 / PAGE_SIZE, section.0 % PAGE_SIZE, section.1 % PAGE_SIZE;
    DivModUnique(section.1 - section.0, PAGE_SIZE, b - a, y - x);
  }

  lemma HeapInFigures(base: Word, end: Word, vp: nat)
    requires base <= end && base % PAGE_SIZE == 0 && end % PAGE_SIZE == 0 && (end - base) / PAGE_SIZE < 0x8000_0000
    ensures InPages(base, HeapPages(base, end), vp) <==> base / PAGE_SIZE <= vp < end / PAGE_SIZE
  {
    DivModUnique(end - base, PAGE_SIZE, end / PAGE_SIZE - base / PAGE_SIZE, 0);
  }

  lemma RuntimeInFigures(text: (Word, Word), data: (Word, Word), heapBase: Word, heapEnd: Word, vp: nat)
    requires SectionOk(text.0, text.1) && SectionOk(data.0, data.1) && WholeSection(text) && WholeSection(data)
    requires heapBase <= heapEnd < 0x1_0000_0000_0000 && heapBase % PAGE_SIZE == 0 && heapEnd % PAGE_SIZE == 0
    requires (heapEnd - heapBase) / PAGE_SIZE < 0x8000_0000 && vp < VPAGES
    ensures Lookup(RuntimeView(map[], text.0, text.1, data.0, data.1, heapBase, heapEnd), vp)
         == if StartUpPage(text, data, heapBase, heapEnd, vp) then Some(Translation(vp, true, true)) else None
  {
    hide RuntimeView, InPages, SectionPages, HeapPages;
    SectionInFigures(text, vp);
    SectionInFigures(data, vp);
    HeapInFigures(heapBase, heapEnd, vp);
    RuntimeIdentity(text.0, text.1, data.0, data.1, heapBase, heapEnd, vp);
  }

  /** The run-time translation is the identity, writable for the user, on exactly the start-up pages; the boot
      translation is the identity, for the supervisor, on exactly the first gibibyte and the local APIC's page. */
  ghost predicate StartUpTranslations(paging: Paging, text: (Word, Word), data: (Word, Word), heapBase: Word, heapEnd: Word)
    reads paging, paging.mem
  {
    forall vp: nat :: vp < VPAGES ==>
      && Translate(paging.mem[..], paging.pages, RUNTIME, vp)
         == (if StartUpPage(text, data, heapBase, heapEnd, vp) then Some(Translation(vp, true, true)) else None)
      && Translate(paging.mem[..], paging.pages, BOOT, vp)
         == (if vp < 0x4_0000 || vp == 0xf_ee00 then Some(Translation(vp, true, false)) else None)
  }

  lemma StartUpInFigures(paging: Paging, text: (Word, Word), data: (Word, Word), heapBase: Word, heapEnd: Word)
    requires SectionOk(text.0, text.1) && SectionOk(data.0, data.1) && WholeSection(text) && WholeSection(data)
    requires heapBase <= heapEnd < 0x1_0000_0000_0000 && heapBase % PAGE_SIZE == 0 && heapEnd % PAGE_SIZE == 0
    requires (heapEnd - heapBase) / PAGE_SIZE < 0x8000_0000
    requires paging.Valid() && paging.bootView == BootView()[LAPIC / PAGE_SIZE := Translation(LAPIC / PAGE_SIZE, true, false)]
    requires paging.runtimeView == RuntimeView(map[], text.0, text.1, data.0, data.1, heapBase, heapEnd)
    ensures StartUpTranslations(paging, text, data, heapBase, heapEnd)
  {
    hide Translate, RuntimeView, Paging.Tables, StartUpPage;
    forall vp: nat | vp < VPAGES
      ensures Lookup(paging.runtimeView, vp) == if StartUpPage(text, data, heapBase, heapEnd, vp) then Some(Translation(vp, true, true)) else None
      ensures Lookup(paging.bootView, vp) == if vp < 0x4_0000 || vp == 0xf_ee00 then Some(Translation(vp, true, false)) else None
    {
      RuntimeInFigures(text, data, heapBase, heapEnd, vp);
    }
  }

  lemma MappableRoot(root: nat, vp: nat)
    requires Mappable(root, vp)
    ensures NodeAt(root, vp, 0) == Root(root) && (root == BOOT || root == RUNTIME) && vp < VPAGES
  {
    RootIsOnEveryPath(root, vp);
  }

  lemma SameTranslationTransitive(m: seq<Frame>, p: Pages, m': seq<Frame>, p': Pages, m'': seq<Frame>, p'': Pages)
    requires SameTranslation(m, p, m', p') && SameTranslation(m', p', m'', p'')
    ensures SameTranslation(m, p, m'', p'')
  {
  }

  lemma HeapWithin(pages: Pages, base: nat, cur: nat, end: nat, frames: nat)
    requires HeapInv(pages, base, cur, end, frames)
    ensures base <= cur <= end
  {
  }

  lemma AddOne(have: set<Node>, c: Node)
    ensures Size(have + {c}) == if c in have then Size(have) else Size(have) + 1
  {
    if c in have { assert have + {c} == have; }
  }

  lemma RootUnaffected(root: nat, vp: nat, level: nat)
    ensures NodeAt(root, vp, level + 1) != Root(BOOT) && NodeAt(root, vp, level + 1) != Root(RUNTIME)
    ensures NodeAt(root, vp, level + 1).root == root
  {
  }

  /** The entry that maps towards vp at a level whose table exists: a link to the next table, or zero. */
  lemma EntryAt(m: seq<Frame>, pages: Pages, root: nat, vp: nat, level: nat)
    requires TreeOk(m, pages) && Mappable(root, vp) && level < 3 && Node(BOOT, 1, 0) in pages
    requires NodeAt(root, vp, level) in pages
    ensures var n, c := NodeAt(root, vp, level), NodeAt(root, vp, level + 1);
            && NodeOk(m, pages, n)
            && var d := m[pages[n]][Index(vp, level)];
               if c in pages then Bit(d, PF_PRESENT) && d / PAGE_SIZE * PAGE_SIZE == PAGE_SIZE * pages[c]
               else d == 0 && !Bit(d, PF_PRESENT)
  {
    var n, i := NodeAt(root, vp, level), Index(vp, level);
    PathStep(root, vp, level);
    MappableEntry(root, vp, level);
    assert NodeOk(m, pages, n) && LinkOk(m, pages, n, i);
    if Child(n, i) in pages { PresentEntry(m, pages, root, vp, level); }
  }
}
