/** Mapping of memory regions at start-up (arch/armv8/mem.c). */
module Armv8Mem {
  import opened Bits
  import opened Radix
  import opened Armv8Walk
  import opened Armv8TxlnTable
  import Armv8History
  import WrappingLoop
  import opened Wrappers

  /** An inclusive range of addresses to map onto themselves. */
  datatype Region = Region(kind: Kind, start: Word, end: Word)

  /** The calls a region loop makes from address `i` on. */
  function PageOps(kind: Kind, i: nat, end: Word): seq<Op>
    requires end + PAGE_SIZE < TWO64
    decreases end + PAGE_SIZE - i
  {
    if i > end then [] else [Map(kind, i, i)] + PageOps(kind, i + PAGE_SIZE, end)
  }

  function RegionOps(r: Region): seq<Op>
    requires r.end + PAGE_SIZE < TWO64
  {
    PageOps(r.kind, r.start - r.start % PAGE_SIZE, r.end)
  }

  ghost predicate NoOverflow(regions: seq<Region>) {
    forall k :: 0 <= k < |regions| ==> regions[k].end + PAGE_SIZE < TWO64
  }

  function RegionsOps(regions: seq<Region>): seq<Op>
    requires NoOverflow(regions)
  {
    if regions == [] then []
    else RegionsOps(regions[..|regions| - 1]) + RegionOps(regions[|regions| - 1])
  }

  // The loop variable is 64 bits wide and wraps.

  const PAGES: nat := 0x10_0000_0000_0000   // in the 64-bit space

  function FirstPage(start: Word): Word {
    start - start % PAGE_SIZE
  }

  function LoopVar(first: Word, n: nat): Word {
    WrappingLoop.LoopVar(first, PAGE_SIZE, PAGE_SIZE * PAGES, n)
  }

  /** The loop variable ever passes the end, which is what ends the loop, exactly when the end does not lie in the
      last page of the address space. */
  lemma RegionEndsIff(start: Word, end: Word)
    ensures (exists n: nat :: LoopVar(FirstPage(start), n) > end) <==> end + PAGE_SIZE < TWO64
  {
    var first := FirstPage(start);
    AlignedStart(start);
    WrappingLoop.EndsIff(first, PAGE_SIZE, PAGES, end);
    if end + PAGE_SIZE < TWO64 {
      var n: nat :| WrappingLoop.LoopVar(first, PAGE_SIZE, PAGE_SIZE * PAGES, n) > end;
      assert LoopVar(first, n) > end;
    } else {
      forall n: nat ensures LoopVar(first, n) <= end {
        assert WrappingLoop.LoopVar(first, PAGE_SIZE, PAGE_SIZE * PAGES, n) <= end;
      }
    }
  }

  /** A region up to the last byte of the address space is mapped for ever. */
  lemma RegionWithoutEnd(start: Word)
    ensures !exists k: nat :: LoopVar(FirstPage(start), k) > 0xffff_ffff_ffff_ffff
  {
    RegionEndsIff(start, 0xffff_ffff_ffff_ffff);
  }

  /** The calls of the first n turns. */
  function TurnOps(kind: Kind, first: Word, n: nat): seq<Op> {
    if n == 0 then [] else TurnOps(kind, first, n - 1) + [Map(kind, LoopVar(first, n - 1), LoopVar(first, n - 1))]
  }

  lemma LoopVarStep(first: Word, n: nat)
    ensures LoopVar(first, 0) == first && LoopVar(first, n + 1) == (LoopVar(first, n) + PAGE_SIZE) % TWO64
  {
  }

  /** At most `turns` turns of a region loop, whatever its end: it stops early exactly when the loop variable
      passes the end or the heap cannot hold the tables. */
  method MapRegionTurns(t: TxlnTable, kind: Kind, start: Word, end: Word, turns: nat) returns (halted: bool, n: nat)
    requires t.Valid()
    modifies t, t.mem
    ensures n <= turns && forall k: nat :: k < n ==> LoopVar(FirstPage(start), k) <= end
    ensures !halted ==> t.Valid() && t.history == old(t.history) + TurnOps(kind, FirstPage(start), n)
    ensures !halted ==> n == turns || LoopVar(FirstPage(start), n) > end
    ensures halted ==> n < turns && LoopVar(FirstPage(start), n) <= end
    ensures halted ==> t.heapStart + PAGE_SIZE * |Touched(old(t.history) + TurnOps(kind, FirstPage(start), n + 1))| > t.heapEnd
  {
    hide TxlnTable.Valid, TxlnTable.Translate, Touched, Mapped, LoopVar;
    var i := AlignDown(start);
    ghost var first := i;
    LoopVarStep(first, 0);
    halted, n := false, 0;
    while i <= end && n < turns
      invariant t.Valid() && n <= turns && i == LoopVar(first, n)
      invariant forall k: nat :: k < n ==> LoopVar(first, k) <= end
      invariant t.history == old(t.history) + TurnOps(kind, first, n)
      decreases turns - n
    {
      assert old(t.history) + TurnOps(kind, first, n + 1) == t.history + [Map(kind, i, i)];
      halted := t.MapPage(kind, i, i);
      if halted { return; }
      LoopVarStep(first, n);
      i := NextPage(i, end);
      n := n + 1;
    }
  }

  /** `mem_create_region_id_mapping_code`, `_data` and `mem_create_region_device_mapping`. */
  method MapRegion(t: TxlnTable, kind: Kind, start: Word, end: Word) returns (halted: bool)
    requires t.Valid() && end + PAGE_SIZE < TWO64
    modifies t, t.mem
    ensures !halted ==> t.Valid() && t.history == old(t.history) + RegionOps(Region(kind, start, end))
    ensures halted == (t.heapStart + PAGE_SIZE * |Touched(old(t.history) + RegionOps(Region(kind, start, end)))| > t.heapEnd)
  {
    hide TxlnTable.Valid, Touched, Mapped;
    var i := AlignDown(start);
    ghost var ops := RegionOps(Region(kind, start, end));
    while i <= end
      invariant t.Valid()
      invariant t.history + PageOps(kind, i, end) == old(t.history) + ops
      decreases end + PAGE_SIZE - i
    {
      ghost var before, rest := t.history, PageOps(kind, i + PAGE_SIZE, end);
      assert before + PageOps(kind, i, end) == before + [Map(kind, i, i)] + rest;
      halted := t.MapPage(kind, i, i);
      if halted {
        TouchedGrows(before + [Map(kind, i, i)], rest);
        return;
      }
      i := NextPage(i, end);
    }
    t.PagesConsumed();
    assert t.history == t.history + PageOps(kind, i, end);
    halted := false;
  }

  /** `region_start &= ~(page_size - 1)` */
  method AlignDown(start: Word) returns (i: Word)
    ensures i == start - start % PAGE_SIZE
  {
    hide And, Pow2;
    Powers(); Mask(start, 12, 52, PAGE_SIZE, 0x10_0000_0000_0000);
    i := And(start, TWO64 - PAGE_SIZE);
  }

  /** `i += page_size` on a 64-bit variable. */
  method NextPage(i: Word, ghost end: Word) returns (next: Word)
    ensures next == (i + PAGE_SIZE) % TWO64
    ensures i <= end && end + PAGE_SIZE < TWO64 ==> next == i + PAGE_SIZE
  {
    next := (i + PAGE_SIZE) % TWO64;
  }

  lemma {:induction false} TouchedGrows(ops: seq<Op>, more: seq<Op>)
    ensures Touched(ops) <= Touched(ops + more)
    ensures |Touched(ops)| <= |Touched(ops + more)|
  {
    if more == [] {
      assert ops + more == ops;
    } else {
      var init := more[..|more| - 1];
      TouchedGrows(ops, init);
      assert (ops + more)[..|ops + more| - 1] == ops + init;
    }
    SubsetSize(Touched(ops), Touched(ops + more));
  }

  function DeviceRegions(devices: seq<(Word, Word)>): seq<Region> {
    seq(|devices|, k requires 0 <= k < |devices| => Region(Device, devices[k].0, devices[k].1))
  }

  function InitRegions(textStart: Word, textEnd: Word, dataStart: Word, dataEnd: Word, devices: seq<(Word, Word)>): seq<Region> {
    [Region(Code, textStart, textEnd), Region(Data, dataStart, dataEnd)] + DeviceRegions(devices)
  }

  /** The table part of `syscall_mem_init`; `devices` is the list that `mem_get_device_info` heads. */
  method SyscallMemInit(t: TxlnTable, textStart: Word, textEnd: Word, dataStart: Word, dataEnd: Word,
                        devices: seq<(Word, Word)>) returns (halted: bool)
    requires t.Valid() && NoOverflow(InitRegions(textStart, textEnd, dataStart, dataEnd, devices))
    modifies t, t.mem
    ensures !halted ==> t.Valid() && t.history == old(t.history) + [GetTable, Clear]
                        + RegionsOps(InitRegions(textStart, textEnd, dataStart, dataEnd, devices))
    ensures halted == (t.heapStart + PAGE_SIZE * |Touched(old(t.history) + [GetTable, Clear]
                        + RegionsOps(InitRegions(textStart, textEnd, dataStart, dataEnd, devices)))| > t.heapEnd)
  {
    hide TxlnTable.Valid, Touched, RegionOps, RegionsOps;
    NoRegions();
    ghost var regions := InitRegions(textStart, textEnd, dataStart, dataEnd, devices);
    ghost var before, start := t.history, t.history + [GetTable, Clear];
    ghost var all := RegionsOps(regions);
    assert before + [GetTable] + ([Clear] + all) == start + all && before + [GetTable] + [Clear] == start;
    var ttbr;
    halted, ttbr := t.GetTxlnTable();
    if halted { TouchedGrows(before + [GetTable], [Clear] + all); return; }
    halted := t.ClearTxlnTable();
    if halted { TouchedGrows(start, all); return; }
    assert regions[0].end + PAGE_SIZE < TWO64 && regions[1].end + PAGE_SIZE < TWO64;
    assert regions[0] == Region(Code, textStart, textEnd) && regions[..0] == [] && start + [] == start;
    RegionsStep(regions, 0, start);
    halted := MapRegion(t, Code, textStart, textEnd);
    if halted { return; }
    RegionsStep(regions, 1, start);
    halted := MapRegion(t, Data, dataStart, dataEnd);
    if halted { return; }
    for k := 0 to |devices|
      invariant t.Valid() && NoOverflow(regions[..2 + k])
      invariant t.history == start + RegionsOps(regions[..2 + k])
    {
      assert regions[2 + k] == Region(Device, devices[k].0, devices[k].1);
      RegionsStep(regions, 2 + k, start);
      halted := MapRegion(t, Device, devices[k].0, devices[k].1);
      if halted { return; }
    }
    assert regions[..2 + |devices|] == regions;
    t.PagesConsumed();
    halted := false;
  }

  /** One region more; the tables it touches are among those of the whole list. */
  lemma RegionsStep(regions: seq<Region>, k: nat, start: seq<Op>)
    requires k < |regions| && NoOverflow(regions)
    ensures NoOverflow(regions[..k]) && NoOverflow(regions[..k + 1])
    ensures start + RegionsOps(regions[..k + 1]) == start + RegionsOps(regions[..k]) + RegionOps(regions[k])
    ensures |Touched(start + RegionsOps(regions[..k + 1]))| <= |Touched(start + RegionsOps(regions))|
  {
    assert regions[..k + 1][..k] == regions[..k];
    RegionsPrefix(regions, k + 1);
    var part, all := RegionsOps(regions[..k + 1]), RegionsOps(regions);
    assert start + all == start + part + all[|part|..];
    TouchedGrows(start + part, all[|part|..]);
  }

  lemma NoRegions()
    ensures RegionsOps([]) == []
  {
  }

  lemma {:induction false} RegionsPrefix(regions: seq<Region>, k: nat)
    requires k <= |regions| && NoOverflow(regions)
    ensures NoOverflow(regions[..k]) && RegionsOps(regions[..k]) <= RegionsOps(regions)
    decreases |regions|
  {
    if k == |regions| {
      assert regions[..k] == regions;
    } else {
      var init := regions[..|regions| - 1];
      RegionsPrefix(init, k);
      assert init[..k] == regions[..k];
    }
  }

  // What the translation is afterwards.

  function PageOf(p: nat): nat {
    p % VPAGES
  }

  /** Some page of the region, by 64-bit page number, has this virtual page number. */
  ghost predicate Covers(r: Region, vp: nat) {
    exists p: nat :: r.start / PAGE_SIZE <= p <= r.end / PAGE_SIZE && PageOf(p) == vp
  }

  /** The kind of the last region that covers the page. */
  ghost function LastCover(regions: seq<Region>, vp: nat): Option<Kind> {
    if regions == [] then None
    else
      var last := regions[|regions| - 1];
      if Covers(last, vp) then Some(last.kind) else LastCover(regions[..|regions| - 1], vp)
  }

  /** For regions inside the 48-bit address space, covering is meeting the inclusive range. */
  lemma CoversBelow48Bits(r: Region, vp: nat)
    requires r.end / PAGE_SIZE < VPAGES && vp < VPAGES
    ensures Covers(r, vp) <==> r.start / PAGE_SIZE <= vp <= r.end / PAGE_SIZE
  {
    assert PageOf(vp) == vp;
  }

  lemma {:induction false} ReplayAppend(ops: seq<Op>, more: seq<Op>, vp: nat)
    requires forall k :: 0 <= k < |more| ==> !more[k].Clear?
    ensures Lookup(Replay(ops + more), vp) == if vp in Replay(more) then Some(Replay(more)[vp]) else Lookup(Replay(ops), vp)
  {
    if more == [] {
      assert ops + more == ops;
    } else {
      var n := |more| - 1;
      ReplayAppend(ops, more[..n], vp);
      assert (ops + more)[..|ops + more| - 1] == ops + more[..n];
    }
  }

  predicate HasAttributes(t: Translation, kind: Kind) {
    t.access == Access(kind) && t.attrIndex == AttrIndex(kind) && t.notGlobal == t.shareability == t.nonSecure == 0
  }

  ghost predicate IdentityAs(view: View, vp: nat, kind: Kind, low: bool) {
    && vp in view && view[vp].frame == vp && HasAttributes(view[vp], kind)
    && (low ==> view[vp].upper == 0)
  }

  lemma {:induction false} PageOpsView(kind: Kind, i: nat, end: Word, vp: nat)
    requires end + PAGE_SIZE < TWO64 && i % PAGE_SIZE == 0
    ensures forall k :: 0 <= k < |PageOps(kind, i, end)| ==> PageOps(kind, i, end)[k].Map?
    ensures var view := Replay(PageOps(kind, i, end));
            if exists p: nat :: i / PAGE_SIZE <= p <= end / PAGE_SIZE && PageOf(p) == vp
            then IdentityAs(view, vp, kind, end < 0x1_0000_0000_0000) else vp !in view
    decreases end + PAGE_SIZE - i
  {
    if i <= end {
      PageOpsView(kind, i + PAGE_SIZE, end, vp);
      var first, rest := [Map(kind, i, i)], PageOps(kind, i + PAGE_SIZE, end);
      ReplayAppend(first, rest, vp);
      assert Replay(first) == map[VirtualPage(i) := Mapped(kind, i)] by { assert first[..0] == []; }
      assert PageOf(i / PAGE_SIZE) == VirtualPage(i);
      assert (i + PAGE_SIZE) / PAGE_SIZE == i / PAGE_SIZE + 1;
    }
  }

  lemma RegionView(r: Region, vp: nat)
    requires r.end + PAGE_SIZE < TWO64
    ensures forall k :: 0 <= k < |RegionOps(r)| ==> RegionOps(r)[k].Map?
    ensures var view := Replay(RegionOps(r));
            if Covers(r, vp) then IdentityAs(view, vp, r.kind, r.end < 0x1_0000_0000_0000) else vp !in view
  {
    hide PageOps, Replay, IdentityAs;
    AlignedStart(r.start);
    PageOpsView(r.kind, r.start - r.start % PAGE_SIZE, r.end, vp);
  }

  lemma {:induction false} RegionsView(regions: seq<Region>, vp: nat)
    requires NoOverflow(regions)
    ensures forall k :: 0 <= k < |RegionsOps(regions)| ==> RegionsOps(regions)[k].Map?
    ensures var view, cover := Replay(RegionsOps(regions)), LastCover(regions, vp);
            if cover.Some? then vp in view && view[vp].frame == vp && HasAttributes(view[vp], cover.value)
            else vp !in view
    ensures (forall k :: 0 <= k < |regions| ==> regions[k].end < 0x1_0000_0000_0000) && vp in Replay(RegionsOps(regions)) ==>
              Replay(RegionsOps(regions))[vp].upper == 0
  {
    hide RegionOps, Covers, HasAttributes;
    if regions != [] {
      var init, r := regions[..|regions| - 1], regions[|regions| - 1];
      RegionsView(init, vp);
      RegionView(r, vp);
      ReplayAppend(RegionsOps(init), RegionOps(r), vp);
    }
  }

  lemma AlignedStart(start: Word)
    ensures (start - start % PAGE_SIZE) % PAGE_SIZE == 0
    ensures (start - start % PAGE_SIZE) / PAGE_SIZE == start / PAGE_SIZE
  {
    DivModUnique(start - start % PAGE_SIZE, PAGE_SIZE, start / PAGE_SIZE, 0);
  }

  /** After `syscall_mem_init`, whatever was mapped before, the translation is defined on exactly the pages
      that meet the regions, is the identity there, and has the attributes of the last region on the page. */
  lemma InitTranslation(before: seq<Op>, regions: seq<Region>, vp: nat)
    requires NoOverflow(regions)
    ensures var found, cover := Lookup(Replay(before + [GetTable, Clear] + RegionsOps(regions)), vp), LastCover(regions, vp);
            && (found.Some? <==> cover.Some?)
            && (found.Some? ==> found.value.frame == vp && HasAttributes(found.value, cover.value))
            && ((forall k :: 0 <= k < |regions| ==> regions[k].end < 0x1_0000_0000_0000) && found.Some? ==> found.value.upper == 0)
  {
    Armv8History.NothingResurrected(before + [GetTable], RegionsOps(regions));
    assert before + [GetTable, Clear] + RegionsOps(regions) == before + [GetTable] + [Clear] + RegionsOps(regions);
    RegionsView(regions, vp);
  }

  // The outcome in figures.

  /** Does the page meet the inclusive range? */
  predicate Meets(range: (Word, Word), vp: nat) {
    range.0 / PAGE_SIZE <= vp <= range.1 / PAGE_SIZE
  }

  ghost predicate MeetsAny(ranges: seq<(Word, Word)>, vp: nat) {
    exists k :: 0 <= k < |ranges| && Meets(ranges[k], vp)
  }

  /** Device pages: AP 0b01, attribute index 1. Other data pages: AP 0b01, index 0. Other text pages: AP 0b11, index 0. */
  ghost function InitialTranslation(text: (Word, Word), data: (Word, Word), devices: seq<(Word, Word)>, vp: nat): Option<Translation> {
    if MeetsAny(devices, vp) then Some(Translation(vp, 0, 1, 1, 0, 0, 0))
    else if Meets(data, vp) then Some(Translation(vp, 0, 1, 0, 0, 0, 0))
    else if Meets(text, vp) then Some(Translation(vp, 0, 3, 0, 0, 0, 0))
    else None
  }

  lemma LastCoverStep(regions: seq<Region>, r: Region, vp: nat)
    ensures LastCover(regions + [r], vp) == if Covers(r, vp) then Some(r.kind) else LastCover(regions, vp)
    ensures LastCover([], vp) == None
  {
    hide Covers;
    assert (regions + [r])[..|regions|] == regions;
  }

  lemma {:induction false} LastDevice(text: (Word, Word), data: (Word, Word), devices: seq<(Word, Word)>, vp: nat)
    requires vp < VPAGES && text.1 < 0x1_0000_0000_0000 && data.1 < 0x1_0000_0000_0000
    requires forall k :: 0 <= k < |devices| ==> devices[k].1 < 0x1_0000_0000_0000
    ensures LastCover(InitRegions(text.0, text.1, data.0, data.1, devices), vp)
         == if MeetsAny(devices, vp) then Some(Device) else if Meets(data, vp) then Some(Data) else if Meets(text, vp) then Some(Code) else None
  {
    hide LastCover, Covers;
    var regions := InitRegions(text.0, text.1, data.0, data.1, devices);
    if devices == [] {
      CoversBelow48Bits(Region(Code, text.0, text.1), vp);
      CoversBelow48Bits(Region(Data, data.0, data.1), vp);
      LastCoverStep([], Region(Code, text.0, text.1), vp);
      LastCoverStep([Region(Code, text.0, text.1)], Region(Data, data.0, data.1), vp);
      assert regions == [Region(Code, text.0, text.1)] + [Region(Data, data.0, data.1)];
      assert [] + [Region(Code, text.0, text.1)] == [Region(Code, text.0, text.1)];
    } else {
      var init, last := devices[..|devices| - 1], devices[|devices| - 1];
      LastDevice(text, data, init, vp);
      CoversBelow48Bits(Region(Device, last.0, last.1), vp);
      assert regions == InitRegions(text.0, text.1, data.0, data.1, init) + [Region(Device, last.0, last.1)];
      LastCoverStep(InitRegions(text.0, text.1, data.0, data.1, init), Region(Device, last.0, last.1), vp);
      assert forall k :: 0 <= k < |init| ==> init[k] == devices[k];
    }
  }

  /** The translation after `syscall_mem_init`, page by page, for regions below 2^48. */
  lemma TranslationAfterInit(t: TxlnTable, before: seq<Op>, text: (Word, Word), data: (Word, Word), devices: seq<(Word, Word)>, vp: nat)
    requires vp < VPAGES && text.1 < 0x1_0000_0000_0000 && data.1 < 0x1_0000_0000_0000
    requires forall k :: 0 <= k < |devices| ==> devices[k].1 < 0x1_0000_0000_0000
    requires NoOverflow(InitRegions(text.0, text.1, data.0, data.1, devices))
    requires t.Valid() && t.history == before + [GetTable, Clear] + RegionsOps(InitRegions(text.0, text.1, data.0, data.1, devices))
    ensures t.Translate(vp) == InitialTranslation(text, data, devices, vp)
  {
    hide TxlnTable.WellFormed, TxlnTable.Translate, Replay, RegionsOps, LastCover;
    var regions := InitRegions(text.0, text.1, data.0, data.1, devices);
    LastDevice(text, data, devices, vp);
    InitTranslation(before, regions, vp);
    forall k | 0 <= k < |regions| ensures regions[k].end < 0x1_0000_0000_0000 {
      if k >= 2 { assert regions[k] == Region(Device, devices[k - 2].0, devices[k - 2].1); }
    }
    assert t.Translate(vp) == Lookup(Replay(t.history), vp);
  }
}
