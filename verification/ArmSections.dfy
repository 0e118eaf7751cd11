/** The ARM level-1 section table (arch/arm/mem.c; section descriptors per ARM DDI 0100I, section B4.7). */
module ArmSections {
  import opened Bits
  import WrappingLoop
  import opened Wrappers

  const SECTION: nat := 0x10_0000
  const SECTIONS: nat := 0x1000

  datatype Kind = Data | Device

  /** A call of `mem_create_page_mapping_data` or `_device`. */
  datatype Request = Request(kind: Kind, phys: Word32, virt: Word32)

  type Table = t: seq<Word32> | |t| == SECTIONS witness seq(SECTIONS, _ => 0)

  /** How a call ends: it returns 0, it returns 1 for a misaligned address, or it aborts. */
  datatype Outcome = Mapped | Misaligned | Aborted

  /** Section base, full access permission, and for data the cacheable and bufferable bits. */
  function Descriptor(kind: Kind, phys: Word32): (d: Word32)
    ensures d != 0
  {
    phys / SECTION * SECTION + if kind == Data then 0xc0e else 0xc02
  }

  predicate Aligned(r: Request) {
    r.phys % SECTION == 0 && r.virt % SECTION == 0
  }

  function EntryOf(r: Request): nat {
    r.virt / SECTION
  }

  function DescriptorOf(r: Request): Word32 {
    Descriptor(r.kind, r.phys)
  }

  function Empty(): (t: Table)
    ensures forall k :: 0 <= k < SECTIONS ==> t[k] == 0
  {
    seq(SECTIONS, _ => 0)
  }

  // One call, and a list of calls, on the table; None is an abort.

  function Apply(t: Table, r: Request): Option<Table> {
    if !Aligned(r) then Some(t)
    else if t[EntryOf(r)] != 0 && t[EntryOf(r)] != DescriptorOf(r) then None
    else Some(t[EntryOf(r) := DescriptorOf(r)])
  }

  function Run(t: Table, rs: seq<Request>): Option<Table> {
    if rs == [] then Some(t)
    else
      match Run(t, rs[..|rs| - 1])
      case None => None
      case Some(u) => Apply(u, rs[|rs| - 1])
  }

  // What a list of calls amounts to, regardless of order.

  /** Two aligned requests want the same entry to be different things. */
  predicate Clash(a: Request, b: Request) {
    Aligned(a) && Aligned(b) && EntryOf(a) == EntryOf(b) && DescriptorOf(a) != DescriptorOf(b)
  }

  ghost predicate Conflict(rs: seq<Request>) {
    exists a, b :: a in rs && b in rs && Clash(a, b)
  }

  ghost predicate Wanted(rs: seq<Request>, k: nat, d: Word32) {
    exists r :: r in rs && Aligned(r) && EntryOf(r) == k && DescriptorOf(r) == d
  }

  /** The table holds exactly what the aligned requests ask for. */
  ghost predicate IsUnion(t: Table, rs: seq<Request>) {
    forall k: nat, d: Word32 :: k < SECTIONS && d != 0 ==> (t[k] == d <==> Wanted(rs, k, d))
  }

  /** From an empty table, the calls abort exactly when two of them conflict, and otherwise leave the union of
      the aligned requests. */
  lemma {:induction false} RunIsUnion(rs: seq<Request>)
    ensures Run(Empty(), rs).None? <==> Conflict(rs)
    ensures Run(Empty(), rs).Some? ==> IsUnion(Run(Empty(), rs).value, rs)
  {
    if rs != [] {
      var init, last := rs[..|rs| - 1], rs[|rs| - 1];
      RunIsUnion(init);
      assert forall r :: r in rs <==> r in init || r == last;
      if Run(Empty(), init).None? {
        var a, b :| a in init && b in init && Clash(a, b);
        assert a in rs && b in rs;
      } else {
        ApplyIsUnion(Run(Empty(), init).value, init, rs, last);
      }
    }
  }

  lemma ApplyIsUnion(t: Table, init: seq<Request>, rs: seq<Request>, last: Request)
    requires IsUnion(t, init) && !Conflict(init) && forall r :: r in rs <==> r in init || r == last
    ensures Apply(t, last).None? <==> Conflict(rs)
    ensures Apply(t, last).Some? ==> IsUnion(Apply(t, last).value, rs)
  {
    var k, d := EntryOf(last), DescriptorOf(last);
    if Apply(t, last).None? {
      assert Wanted(init, k, t[k]);
      var r :| r in init && Aligned(r) && EntryOf(r) == k && DescriptorOf(r) == t[k];
      assert Clash(r, last) && r in rs && last in rs;
    } else {
      var u := Apply(t, last).value;
      forall j: nat, e: Word32 | j < SECTIONS && e != 0 ensures u[j] == e <==> Wanted(rs, j, e) {
        AddWanted(t, init, rs, last, j, e);
      }
      forall a, b | a in rs && b in rs ensures !Clash(a, b) {
        if Clash(a, b) {
          assert Wanted(rs, EntryOf(a), DescriptorOf(a)) && Wanted(rs, EntryOf(b), DescriptorOf(b));
        }
      }
    }
  }

  lemma AddWanted(t: Table, init: seq<Request>, rs: seq<Request>, last: Request, j: nat, e: Word32)
    requires IsUnion(t, init) && j < SECTIONS && e != 0 && forall r :: r in rs <==> r in init || r == last
    requires Apply(t, last).Some?
    ensures Apply(t, last).value[j] == e <==> Wanted(rs, j, e)
  {
    assert t[j] == e <==> Wanted(init, j, e);
    if Aligned(last) && EntryOf(last) == j {
      assert last in rs;
      assert Wanted(rs, j, DescriptorOf(last));
      if t[j] != 0 { assert t[j] == DescriptorOf(last); } else { assert forall d: Word32 :: d != 0 ==> !Wanted(init, j, d); }
    }
    if Wanted(init, j, e) {
      var r :| r in init && Aligned(r) && EntryOf(r) == j && DescriptorOf(r) == e;
      assert r in rs;
    }
  }

  /** Two tables that are unions of the same requests are the same. */
  lemma UnionIsUnique(t: Table, u: Table, rs: seq<Request>)
    requires IsUnion(t, rs) && IsUnion(u, rs)
    ensures t == u
  {
    forall k: nat | k < SECTIONS ensures t[k] == u[k] {
      if t[k] != 0 { assert Wanted(rs, k, t[k]); }
      if u[k] != 0 { assert Wanted(rs, k, u[k]); }
    }
  }

  /** Order does not matter: every permutation of the calls aborts, or every one ends in the same table. */
  lemma OrderIndependent(a: seq<Request>, b: seq<Request>)
    requires multiset(a) == multiset(b)
    ensures Run(Empty(), a) == Run(Empty(), b)
  {
    forall r ensures r in a <==> r in b {
      assert r in a <==> r in multiset(a);
      assert r in b <==> r in multiset(b);
    }
    RunIsUnion(a);
    RunIsUnion(b);
    SameConflicts(a, b);
    if Run(Empty(), a).Some? {
      var t, u := Run(Empty(), a).value, Run(Empty(), b).value;
      forall k: nat, d: Word32 | k < SECTIONS && d != 0 ensures u[k] == d <==> Wanted(a, k, d) {
        assert Wanted(a, k, d) <==> Wanted(b, k, d);
      }
      UnionIsUnique(t, u, a);
    }
  }

  lemma SameConflicts(a: seq<Request>, b: seq<Request>)
    requires forall r :: r in a <==> r in b
    ensures Conflict(a) <==> Conflict(b)
  {
  }

  /** An entry is written once: calls never change one that is set. */
  lemma {:induction false} WriteOnce(t: Table, rs: seq<Request>, k: nat)
    requires k < SECTIONS && t[k] != 0 && Run(t, rs).Some?
    ensures Run(t, rs).value[k] == t[k]
  {
    if rs != [] { WriteOnce(t, rs[..|rs| - 1], k); }
  }

  // The regions mapped at start.

  function RegionFrom(kind: Kind, i: nat, end: Word32): seq<Request>
    requires end + SECTION < TWO32
    decreases end + SECTION - i
  {
    if i > end then [] else [Request(kind, i, i)] + RegionFrom(kind, i + SECTION, end)
  }

  function RegionRequests(kind: Kind, start: Word32, end: Word32): seq<Request>
    requires end + SECTION < TWO32
  {
    RegionFrom(kind, start / SECTION * SECTION, end)
  }

  // The loop variable is 32 bits wide and wraps.

  function FirstSection(start: Word32): Word32 {
    start / SECTION * SECTION
  }

  function LoopVar(first: Word32, n: nat): Word32 {
    WrappingLoop.LoopVar(first, SECTION, SECTION * SECTIONS, n)
  }

  /** The loop variable ever passes the end exactly when the end does not lie in the last section. */
  lemma RegionEndsIff(start: Word32, end: Word32)
    ensures (exists n: nat :: LoopVar(FirstSection(start), n) > end) <==> end + SECTION < TWO32
  {
    var first := FirstSection(start);
    WrappingLoop.EndsIff(first, SECTION, SECTIONS, end);
    if end + SECTION < TWO32 {
      var n: nat :| WrappingLoop.LoopVar(first, SECTION, SECTION * SECTIONS, n) > end;
      assert LoopVar(first, n) > end;
    } else {
      forall n: nat ensures LoopVar(first, n) <= end {
        assert WrappingLoop.LoopVar(first, SECTION, SECTION * SECTIONS, n) <= end;
      }
    }
  }

  /** A region up to the last byte of the address space is mapped for ever. */
  lemma RegionWithoutEnd(start: Word32)
    ensures !exists k: nat :: LoopVar(FirstSection(start), k) > 0xffff_ffff
  {
    RegionEndsIff(start, 0xffff_ffff);
  }

  /** The requests of the first n turns. */
  function TurnRequests(kind: Kind, first: Word32, n: nat): seq<Request> {
    if n == 0 then [] else TurnRequests(kind, first, n - 1) + [Request(kind, LoopVar(first, n - 1), LoopVar(first, n - 1))]
  }

  lemma {:induction false} RunAppend(t: Table, a: seq<Request>, b: seq<Request>)
    ensures Run(t, a + b) == match Run(t, a) case None => None case Some(u) => Run(u, b)
  {
    if b == [] {
      assert a + b == a;
    } else {
      RunAppend(t, a, b[..|b| - 1]);
      assert (a + b)[..|a + b| - 1] == a + b[..|b| - 1];
    }
  }

  lemma {:induction false} RegionAligned(kind: Kind, i: nat, end: Word32)
    requires end + SECTION < TWO32 && i % SECTION == 0
    ensures forall k :: 0 <= k < |RegionFrom(kind, i, end)| ==> Aligned(RegionFrom(kind, i, end)[k])
    decreases end + SECTION - i
  {
    if i <= end { RegionAligned(kind, i + SECTION, end); }
  }

  class SectionTable {
    const table: array<Word32>
    ghost var calls: seq<Request>     // since the table was zeroed

    ghost predicate Valid()
      reads this, table
    {
      table.Length == SECTIONS && Run(Empty(), calls) == Some(table[..])
    }

    constructor (memory: array<Word32>)
      requires memory.Length == SECTIONS
      modifies memory
      ensures Valid() && calls == [] && table == memory
    {
      table := memory;
      calls := [];
      new;
      Zero();
    }

    /** `bzero` of the table at the start of `mem_init`. */
    method Zero()
      requires table.Length == SECTIONS
      modifies this, table
      ensures Valid() && calls == []
    {
      for i := 0 to SECTIONS
        invariant forall k :: 0 <= k < i ==> table[k] == 0
      {
        table[i] := 0;
      }
      calls := [];
      assert table[..] == Empty();
    }

    /** `mem_create_page_mapping_data` and `mem_create_page_mapping_device`. */
    method MapSection(kind: Kind, phys: Word32, virt: Word32) returns (outcome: Outcome)
      requires Valid()
      modifies this, table
      ensures outcome == (if !Aligned(Request(kind, phys, virt)) then Misaligned
                          else if Run(Empty(), old(calls) + [Request(kind, phys, virt)]).None? then Aborted else Mapped)
      ensures outcome.Misaligned? <==> phys % 0x10_0000 != 0 || virt % 0x10_0000 != 0
      ensures !outcome.Aborted? ==> Valid() && calls == old(calls) + [Request(kind, phys, virt)]
    {
      hide Run, Descriptor;
      ghost var r := Request(kind, phys, virt);
      OneCall(calls, r);
      var p := SectionOffset(phys);
      var v := SectionOffset(virt);
      if p != 0 || v != 0 {
        calls := calls + [r];
        return Misaligned;
      }
      var descriptor := BuildDescriptor(kind, phys);
      var entry := virt / SECTION;
      if table[entry] != 0 && table[entry] != descriptor { return Aborted; }
      table[entry] := descriptor;
      calls := calls + [r];
      assert table[..] == old(table[..])[entry := descriptor];
      outcome := Mapped;
    }

    /** `mem_create_region_id_mapping` and `mem_create_region_device_mapping`. */
    method MapRegion(kind: Kind, start: Word32, end: Word32) returns (aborted: bool)
      requires Valid() && end + SECTION < TWO32
      modifies this, table
      ensures aborted == Run(Empty(), old(calls) + RegionRequests(kind, start, end)).None?
      ensures !aborted ==> Valid() && calls == old(calls) + RegionRequests(kind, start, end)
    {
      hide Apply, SectionTable.Valid, Run;
      var i: Word32 := start / SECTION * SECTION;
      ghost var all := old(calls) + RegionRequests(kind, start, end);
      while i <= end
        invariant Valid() && i % SECTION == 0 && calls + RegionFrom(kind, i, end) == all
        decreases end + SECTION - i
      {
        ghost var before, rest := calls, RegionFrom(kind, i + SECTION, end);
        assert before + RegionFrom(kind, i, end) == before + [Request(kind, i, i)] + rest;
        var outcome := MapSection(kind, i, i);
        if outcome == Aborted {
          RunAppend(Empty(), before + [Request(kind, i, i)], rest);
          return true;
        }
        i := (i + SECTION) % TWO32;
      }
      assert calls + [] == calls;
      RunsSoFar();
      aborted := false;
    }

    /** At most `turns` turns of a region loop, whatever its end. */
    method MapRegionTurns(kind: Kind, start: Word32, end: Word32, turns: nat) returns (aborted: bool, n: nat)
      requires Valid()
      modifies this, table
      ensures n <= turns && forall k: nat :: k < n ==> LoopVar(FirstSection(start), k) <= end
      ensures !aborted ==> Valid() && calls == old(calls) + TurnRequests(kind, FirstSection(start), n)
      ensures !aborted ==> n == turns || LoopVar(FirstSection(start), n) > end
      ensures aborted ==> n < turns && LoopVar(FirstSection(start), n) <= end
      ensures aborted ==> Run(Empty(), old(calls) + TurnRequests(kind, FirstSection(start), n + 1)).None?
    {
      hide Apply, SectionTable.Valid, Run;
      var i: Word32 := start / SECTION * SECTION;
      ghost var first := i;
      aborted, n := false, 0;
      while i <= end && n < turns
        invariant Valid() && n <= turns && i == LoopVar(first, n)
        invariant forall k: nat :: k < n ==> LoopVar(first, k) <= end
        invariant calls == old(calls) + TurnRequests(kind, first, n)
        decreases turns - n
      {
        WrappingLoop.LoopVarAligned(first, SECTION, SECTIONS, n);
        assert old(calls) + TurnRequests(kind, first, n + 1) == calls + [Request(kind, i, i)];
        var outcome := MapSection(kind, i, i);
        if outcome == Aborted { return true, n; }
        i := (i + SECTION) % TWO32;
        n := n + 1;
      }
    }

    lemma RunsSoFar()
      requires Valid()
      ensures Run(Empty(), calls).Some?
    {
    }
  }

  /** What `mem_init` is told by the linker script, the platform and the control register. */
  datatype Layout = Layout(regions: seq<(Word32, Word32)>, devices: seq<(Word32, Word32)>, vectorsRelocate: Word32, highVectors: bool)

  predicate LayoutOk(l: Layout) {
    && (forall k :: 0 <= k < |l.regions| ==> l.regions[k].1 + SECTION < TWO32)
    && (forall k :: 0 <= k < |l.devices| ==> l.devices[k].1 + SECTION < TWO32)
    && l.vectorsRelocate / SECTION * SECTION + 2 * SECTION < TWO32
  }

  function RegionsRequests(kind: Kind, regions: seq<(Word32, Word32)>): seq<Request>
    requires forall k :: 0 <= k < |regions| ==> regions[k].1 + SECTION < TWO32
  {
    if regions == [] then []
    else
      var n := |regions| - 1;
      RegionsRequests(kind, regions[..n]) + RegionRequests(kind, regions[n].0, regions[n].1)
  }

  /** The vectors, at the exception base and at their own address. */
  function VectorRequests(l: Layout): seq<Request>
    requires LayoutOk(l)
  {
    var page := l.vectorsRelocate / SECTION * SECTION;
    [Request(Data, page, if l.highVectors then 0xfff0_0000 else 0)] + RegionRequests(Data, page, page + SECTION)
  }

  function InitRequests(l: Layout): seq<Request>
    requires LayoutOk(l)
  {
    RegionsRequests(Data, l.regions) + RegionsRequests(Device, l.devices) + VectorRequests(l)
  }

  /** The offset of the exception base in its section is not that of the relocated vectors. */
  predicate VectorsMisplaced(l: Layout) {
    (if l.highVectors then 0xf_0000 else 0) != l.vectorsRelocate % SECTION
  }

  method MapRegions(t: SectionTable, kind: Kind, regions: seq<(Word32, Word32)>) returns (aborted: bool)
    requires t.Valid() && forall k :: 0 <= k < |regions| ==> regions[k].1 + SECTION < TWO32
    modifies t, t.table
    ensures aborted == Run(Empty(), old(t.calls) + RegionsRequests(kind, regions)).None?
    ensures !aborted ==> t.Valid() && t.calls == old(t.calls) + RegionsRequests(kind, regions)
  {
    hide RegionRequests, SectionTable.Valid, Run;
    ghost var before := t.calls;
    assert before + [] == before;
    aborted := false;
    for k := 0 to |regions|
      invariant !aborted && t.Valid() && t.calls == before + RegionsRequests(kind, regions[..k])
    {
      assert regions[..k + 1][..k] == regions[..k];
      ghost var more := RegionRequests(kind, regions[k].0, regions[k].1);
      assert t.calls + more == before + RegionsRequests(kind, regions[..k + 1]);
      aborted := t.MapRegion(kind, regions[k].0, regions[k].1);
      if aborted {
        RegionsExtend(kind, regions, k + 1, before);
        return;
      }
    }
    assert regions[..|regions|] == regions;
    t.RunsSoFar();
  }

  /** Once the first k regions abort, so do all of them. */
  lemma {:induction false} RegionsExtend(kind: Kind, regions: seq<(Word32, Word32)>, k: nat, before: seq<Request>)
    requires k <= |regions| && forall j :: 0 <= j < |regions| ==> regions[j].1 + SECTION < TWO32
    requires Run(Empty(), before + RegionsRequests(kind, regions[..k])).None?
    ensures Run(Empty(), before + RegionsRequests(kind, regions)).None?
    decreases |regions|
  {
    hide Run, RegionRequests;
    if k == |regions| {
      assert regions[..k] == regions;
    } else {
      var n := |regions| - 1;
      assert regions[..n][..k] == regions[..k];
      RegionsExtend(kind, regions[..n], k, before);
      var part, last := RegionsRequests(kind, regions[..n]), RegionRequests(kind, regions[n].0, regions[n].1);
      RunAppend(Empty(), before + part, last);
      assert before + part + last == before + (part + last);
    }
  }

  /** The mapping part of `mem_init`; `regions` are the vectors', text and data sections. */
  method MemInit(t: SectionTable, l: Layout) returns (aborted: bool)
    requires t.table.Length == SECTIONS && LayoutOk(l)
    modifies t, t.table
    ensures aborted == (VectorsMisplaced(l) || Conflict(InitRequests(l)))
    ensures !aborted ==> t.Valid() && t.calls == InitRequests(l) && IsUnion(t.table[..], InitRequests(l))
  {
    hide RegionsRequests, RegionRequests, SectionTable.Valid, Run, IsUnion, Conflict;
    ghost var data, devices, vectors := RegionsRequests(Data, l.regions), RegionsRequests(Device, l.devices), VectorRequests(l);
    var page := l.vectorsRelocate / SECTION * SECTION;
    ghost var first := Request(Data, page, if l.highVectors then 0xfff0_0000 else 0);
    ghost var rest := RegionRequests(Data, page, page + SECTION);
    assert data + devices + ([first] + rest) == InitRequests(l);
    InitOrder(data, devices, first, rest);
    RunIsUnion(InitRequests(l));
    t.Zero();
    assert [] + data == data;
    aborted := MapRegions(t, Data, l.regions);
    if aborted { return; }
    aborted := MapRegions(t, Device, l.devices);
    if aborted { return; }
    var vectorVaddr := if l.highVectors then 0xffff_0000 else 0;
    var voff := SectionOffset(vectorVaddr);
    var poff := SectionOffset(l.vectorsRelocate);
    if voff != poff { return true; }
    var outcome := t.MapSection(Data, page, if l.highVectors then 0xfff0_0000 else 0);
    if outcome == Aborted { return true; }
    aborted := t.MapRegion(Data, page, page + SECTION);
    if !aborted { RunResult(t); }
  }

  lemma OneCall(calls: seq<Request>, r: Request)
    requires Run(Empty(), calls).Some?
    ensures Run(Empty(), calls + [r]) == Apply(Run(Empty(), calls).value, r)
  {
    hide Apply;
    assert (calls + [r])[..|calls|] == calls;
  }

  lemma RunResult(t: SectionTable)
    requires t.Valid()
    ensures Run(Empty(), t.calls) == Some(t.table[..])
  {
  }

  lemma InitOrder(data: seq<Request>, devices: seq<Request>, first: Request, rest: seq<Request>)
    ensures var all := data + devices + ([first] + rest);
            && data + devices + [first] + rest == all
            && (Run(Empty(), data).None? ==> Run(Empty(), all).None?)
            && (Run(Empty(), data + devices).None? ==> Run(Empty(), all).None?)
            && (Run(Empty(), data + devices + [first]).None? ==> Run(Empty(), all).None?)
  {
    RunAppend(Empty(), data, devices);
    RunAppend(Empty(), data + devices, [first]);
    RunAppend(Empty(), data + devices + [first], rest);
    assert data + devices + [first] + rest == data + devices + ([first] + rest);
  }

  /** `address & (mem_get_page_size() - 1)` */
  method SectionOffset(address: Word32) returns (offset: nat)
    ensures offset == address % SECTION
  {
    hide And, Pow2;
    Powers();
    Mask(address, 0, 20, 1, SECTION);
    offset := And(address, SECTION - 1);
  }

  /** The fields of a section descriptor: AP 11:10, C 3, B 2, type 0b10. */
  method BuildDescriptor(kind: Kind, phys: Word32) returns (d: Word32)
    ensures d == Descriptor(kind, phys)
  {
    hide Or, Shl;
    var q := phys / SECTION;
    var base := SectionBase(phys);
    d := base;
    if kind == Data {
      SectionFlag(q, 0, 3, 10, 2, 0x400);
      d := Or(d, Shl(3, 10));
      SectionFlag(q, 0xc00, 1, 3, 1, 8);
      d := Or(d, Shl(1, 3));
      SectionFlag(q, 0xc08, 1, 2, 1, 4);
      d := Or(d, Shl(1, 2));
      SectionFlag(q, 0xc0c, 1, 1, 1, 2);
      d := Or(d, Shl(1, 1));
    } else {
      SectionFlag(q, 0, 3, 10, 2, 0x400);
      d := Or(d, Shl(3, 10));
      SectionFlag(q, 0xc00, 1, 1, 1, 2);
      d := Or(d, Shl(1, 1));
    }
  }

  lemma SectionFlag(q: nat, low: nat, f: nat, lo: nat, width: nat, p: nat)
    requires p == Pow2(lo) && low / p % Pow2(width) == 0 && f < Pow2(width) && low < SECTION && f * p < SECTION
    ensures Or(SECTION * q + low, Shl(f, lo)) == SECTION * q + low + f * p
  {
    hide Or, Shl;
    Powers();
    OrFlag(q, 20, SECTION, low, f, lo, width, p);
  }

  /** `phys_addr & 0xfff00000` */
  method SectionBase(phys: Word32) returns (base: nat)
    ensures base == SECTION * (phys / SECTION)
  {
    hide And, Pow2;
    Powers();
    Mask(phys, 20, 12, SECTION, 0x1000);
    base := And(phys, 0xfff0_0000);
  }

  // The outcome in figures, as the hardware reads the table (ARM DDI 0100I, section B4.7).

  /** What a section descriptor says: the physical address and, from its bits, AP (11:10), domain (8:5), C (3), B (2) and
      TEX (14:12). */
  datatype Translation = Translation(phys: nat, access: nat, domain: nat, cacheable: bool, bufferable: bool, tex: nat)

  /** The first-level lookup; only descriptors of type 0b10 map a section. */
  function Translate(t: Table, va: Word32): Option<Translation> {
    var d := t[va / 0x10_0000];
    if d % 4 != 2 then None
    else Some(Translation(d / 0x10_0000 * 0x10_0000 + va % 0x10_0000, d / 0x400 % 4, d / 0x20 % 16,
                          d / 8 % 2 == 1, d / 4 % 2 == 1, d / 0x1000 % 8))
  }

  /** Full access, domain 0; cacheable and bufferable, or neither. */
  function Wished(phys: nat, cached: bool): Option<Translation> {
    Some(Translation(phys, 3, 0, cached, cached, 0))
  }

  lemma DescriptorInFigures(kind: Kind, phys: Word32)
    ensures var d := Descriptor(kind, phys);
            && d % 4 == 2 && d / 0x10_0000 == phys / 0x10_0000 && d / 0x400 % 4 == 3 && d / 0x20 % 16 == 0
            && d / 8 % 2 == (if kind == Data then 1 else 0) && d / 4 % 2 == (if kind == Data then 1 else 0) && d / 0x1000 % 8 == 0
  {
    var q := phys / 0x10_0000;
    if kind == Data { SectionBits(q, 0xc0e); } else { SectionBits(q, 0xc02); }
  }

  lemma SectionBits(q: nat, low: nat)
    requires low == 0xc0e || low == 0xc02
    ensures var d := q * 0x10_0000 + low;
            && d % 4 == 2 && d / 0x10_0000 == q && d / 0x400 % 4 == 3 && d / 0x20 % 16 == 0
            && d / 8 % 2 == (if low == 0xc0e then 1 else 0) && d / 4 % 2 == (if low == 0xc0e then 1 else 0) && d / 0x1000 % 8 == 0
  {
    var d := q * 0x10_0000 + low;
    DivModUnique(d, 0x10_0000, q, low);
    DivModUnique(d, 4, 0x4_0000 * q + low / 4, 2);
    DivModUnique(d, 0x400, 0x400 * q + 3, low % 0x400); DivModUnique(0x400 * q + 3, 4, 0x100 * q, 3);
    DivModUnique(d, 0x20, 0x8000 * q + 0x60, low % 0x20); DivModUnique(0x8000 * q + 0x60, 16, 0x800 * q + 6, 0);
    DivModUnique(d, 8, 0x2_0000 * q + low / 8, low % 8); DivModUnique(0x2_0000 * q + low / 8, 2, 0x1_0000 * q + low / 16, low / 8 % 2);
    DivModUnique(0x4_0000 * q + low / 4, 2, 0x2_0000 * q + low / 8, low / 4 % 2);
    DivModUnique(d, 0x1000, 0x100 * q, low); DivModUnique(0x100 * q, 8, 0x20 * q, 0);
  }

  /** Every aligned request is met at its own addresses, once no call aborted. */
  lemma RequestMet(t: Table, rs: seq<Request>, r: Request)
    requires IsUnion(t, rs) && r in rs && Aligned(r)
    ensures Translate(t, r.virt) == Wished(r.phys, r.kind == Data)
  {
    WantedTranslation(t, rs, r, r.virt);
  }

  lemma WantedTranslation(t: Table, rs: seq<Request>, r: Request, va: Word32)
    requires IsUnion(t, rs) && r in rs && Aligned(r) && EntryOf(r) == va / 0x10_0000
    ensures Translate(t, va) == Wished(r.phys + va % 0x10_0000, r.kind == Data)
  {
    hide Descriptor;
    assert Wanted(rs, va / 0x10_0000, DescriptorOf(r));
    DescriptorInFigures(r.kind, r.phys);
  }

  lemma UnwantedTranslation(t: Table, rs: seq<Request>, va: Word32)
    requires IsUnion(t, rs) && forall r :: r in rs && Aligned(r) ==> EntryOf(r) != va / 0x10_0000
    ensures Translate(t, va) == None
  {
    var d := t[va / 0x10_0000];
    assert !Wanted(rs, va / 0x10_0000, d);
  }

  lemma {:induction false} RegionMembers(kind: Kind, i: nat, end: Word32, v: Word32)
    requires end + SECTION < TWO32 && i % SECTION == 0
    ensures forall r :: r in RegionFrom(kind, i, end) ==> r.kind == kind && r.phys == r.virt && r.virt % SECTION == 0
    ensures v % SECTION == 0 ==> (Request(kind, v, v) in RegionFrom(kind, i, end) <==> i <= v <= end)
    decreases end + SECTION - i
  {
    if i <= end {
      RegionMembers(kind, i + SECTION, end, v);
      NextSection(i, v);
    }
  }

  lemma NextSection(i: nat, v: nat)
    requires i % SECTION == 0
    ensures (i + SECTION) % SECTION == 0 && (v % SECTION == 0 && i < v ==> i + SECTION <= v)
  {
  }

  /** Does the address lie in a section that meets the inclusive range? */
  predicate Meets(range: (Word32, Word32), va: Word32) {
    range.0 / 0x10_0000 <= va / 0x10_0000 <= range.1 / 0x10_0000
  }

  ghost predicate MeetsAny(ranges: seq<(Word32, Word32)>, va: Word32) {
    exists k :: 0 <= k < |ranges| && Meets(ranges[k], va)
  }

  /** The request for the section of an address, on itself. */
  function Own(kind: Kind, va: Word32): Request {
    Request(kind, va - va % SECTION, va - va % SECTION)
  }

  lemma RegionRequestsMeet(kind: Kind, start: Word32, end: Word32, va: Word32)
    requires end + SECTION < TWO32
    ensures Own(kind, va) in RegionRequests(kind, start, end) <==> Meets((start, end), va)
    ensures forall r :: r in RegionRequests(kind, start, end) && Aligned(r) && EntryOf(r) == va / SECTION ==> r == Own(kind, va)
  {
    hide RegionFrom;
    DivModUnique(start / SECTION * SECTION, SECTION, start / SECTION, 0);
    DivModUnique(va - va % SECTION, SECTION, va / SECTION, 0);
    RegionMembers(kind, start / SECTION * SECTION, end, va - va % SECTION);
    SectionOrder(start, end, va);
    forall r | r in RegionRequests(kind, start, end) && Aligned(r) && EntryOf(r) == va / SECTION ensures r == Own(kind, va) {
      assert r.virt == SECTION * (r.virt / SECTION);
    }
  }

  lemma SectionOrder(start: Word32, end: Word32, va: Word32)
    ensures start / SECTION * SECTION <= va - va % SECTION <= end <==> start / SECTION <= va / SECTION <= end / SECTION
  {
    var a, b, c := start / SECTION, va / SECTION, end / SECTION;
    assert va - va % SECTION == SECTION * b;
  }

  lemma {:induction false} RegionsRequestsMeet(kind: Kind, regions: seq<(Word32, Word32)>, va: Word32)
    requires forall k :: 0 <= k < |regions| ==> regions[k].1 + SECTION < TWO32
    ensures Own(kind, va) in RegionsRequests(kind, regions) <==> MeetsAny(regions, va)
    ensures forall r :: r in RegionsRequests(kind, regions) && Aligned(r) && EntryOf(r) == va / SECTION ==> r == Own(kind, va)
    decreases |regions|
  {
    hide RegionRequests, Meets;
    if regions != [] {
      var n := |regions| - 1;
      RegionsRequestsMeet(kind, regions[..n], va);
      RegionRequestsMeet(kind, regions[n].0, regions[n].1, va);
      assert regions[n] == (regions[n].0, regions[n].1);
      assert forall k :: 0 <= k < n ==> regions[..n][k] == regions[k];
    }
  }

  /** The section the exception vectors are mapped at: the topmost one, or the first. */
  predicate AtVectors(l: Layout, va: Word32) {
    va / 0x10_0000 == if l.highVectors then 0xfff else 0
  }

  /** The two sections from where the vectors lie. */
  predicate BehindVectors(l: Layout, va: Word32) {
    l.vectorsRelocate / 0x10_0000 <= va / 0x10_0000 <= l.vectorsRelocate / 0x10_0000 + 1
  }

  /** After initialisation, address by address: vectors, text, data and the two sections from where the vectors lie
      are mapped on themselves and cached; devices on themselves and uncached; the vectors' section on where the
      vectors lie; nothing else is mapped. */
  lemma TranslationAfterInit(t: Table, l: Layout, va: Word32)
    requires LayoutOk(l) && IsUnion(t, InitRequests(l))
    ensures MeetsAny(l.regions, va) ==> Translate(t, va) == Wished(va, true)
    ensures MeetsAny(l.devices, va) ==> Translate(t, va) == Wished(va, false)
    ensures BehindVectors(l, va) ==> Translate(t, va) == Wished(va, true)
    ensures AtVectors(l, va) ==> Translate(t, va) == Wished(l.vectorsRelocate / 0x10_0000 * 0x10_0000 + va % 0x10_0000, true)
    ensures MeetsAny(l.regions, va) || MeetsAny(l.devices, va) || BehindVectors(l, va) || AtVectors(l, va) || Translate(t, va) == None
  {
    hide RegionsRequests, RegionRequests, IsUnion, Translate, MeetsAny, Wished;
    var rs := InitRequests(l);
    var page := l.vectorsRelocate / SECTION * SECTION;
    var vectors := Request(Data, page, if l.highVectors then 0xfff0_0000 else 0);
    DivModUnique(page, SECTION, l.vectorsRelocate / SECTION, 0);
    DivModUnique(page + SECTION, SECTION, l.vectorsRelocate / SECTION + 1, 0);
    DivModUnique(va - va % SECTION, SECTION, va / SECTION, 0);
    RegionsRequestsMeet(Data, l.regions, va);
    RegionsRequestsMeet(Device, l.devices, va);
    RegionRequestsMeet(Data, page, page + SECTION, va);
    var own, device := Own(Data, va), Own(Device, va);
    assert vectors in rs;
    if own in rs { WantedTranslation(t, rs, own, va); }
    if device in rs { WantedTranslation(t, rs, device, va); }
    if AtVectors(l, va) { WantedTranslation(t, rs, vectors, va); }
    if own !in rs && device !in rs && !AtVectors(l, va) { UnwantedTranslation(t, rs, va); }
  }
}
