/** What a history of calls means, independently of how it is replayed, and what it costs. */
module Armv8History {
  import opened Bits
  import opened Radix
  import opened Armv8Walk
  import opened Armv8TxlnTable

  predicate Writes(op: Op, vp: nat) {
    op.Map? && VirtualPage(op.virt) == vp
  }

  /** Call i is the last word on page vp: it maps the page, and nothing later maps it or clears. */
  ghost predicate LastWrite(ops: seq<Op>, i: nat, vp: nat) {
    i < |ops| && Writes(ops[i], vp) && forall j :: i < j < |ops| ==> !ops[j].Clear? && !Writes(ops[j], vp)
  }

  /** A page is mapped exactly when some call has the last word on it, and then as that call says. */
  lemma {:induction false} ReplayIsLastWrite(ops: seq<Op>, vp: nat)
    ensures vp in Replay(ops) <==> exists i: nat :: LastWrite(ops, i, vp)
    ensures forall i: nat :: LastWrite(ops, i, vp) ==> Replay(ops)[vp] == Mapped(ops[i].kind, ops[i].phys)
  {
    if ops != [] {
      var n := |ops| - 1;
      var init, last := ops[..n], ops[n];
      ReplayIsLastWrite(init, vp);
      if Writes(last, vp) {
        assert LastWrite(ops, n, vp);
      } else if last.Clear? {
        assert forall i: nat :: !LastWrite(ops, i, vp);
      } else {
        forall i: nat ensures LastWrite(ops, i, vp) <==> LastWrite(init, i, vp) {
          assert forall j :: 0 <= j < n ==> ops[j] == init[j];
        }
      }
    }
  }

  /** Nothing from before a clear survives it, however the tables are reused afterwards. */
  lemma {:induction false} NothingResurrected(before: seq<Op>, after: seq<Op>)
    ensures Replay(before + [Clear] + after) == Replay(after)
  {
    var all := before + [Clear] + after;
    if after == [] {
      TouchedStep(before, Clear);
      assert all == before + [Clear];
    } else {
      var init, last := after[..|after| - 1], after[|after| - 1];
      NothingResurrected(before, init);
      TouchedStep(before + [Clear] + init, last);
      assert all == before + [Clear] + init + [last];
    }
  }

  // Heap accounting.

  /** The distinct values of the mapped addresses above a bit position, within 48 bits. */
  function Prefixes(ops: seq<Op>, unit: nat): set<nat>
    requires unit > 0
  {
    set op | op in ops && op.Map? :: op.virt % 0x1_0000_0000_0000 / unit
  }

  function AtLevel(nodes: set<Node>, level: nat): set<Node> {
    set n | n in nodes && n.level == level
  }

  /** The number of distinct tables, counted by level, is the number of distinct address prefixes. */
  lemma TablesAreDistinctPrefixes(ops: seq<Op>)
    requires ops != []
    ensures |Touched(ops)| == 1 + |Prefixes(ops, 0x80_0000_0000)| + |Prefixes(ops, 0x4000_0000)| + |Prefixes(ops, 0x20_0000)|
  {
    var t := Touched(ops);
    var t0, t1, t2, t3 := AtLevel(t, 0), AtLevel(t, 1), AtLevel(t, 2), AtLevel(t, 3);
    forall n ensures n in t <==> n in t0 + t1 + t2 + t3 { TouchedNodes(ops, n); }
    assert t == t0 + t1 + t2 + t3;
    assert t0 == {Root(0)} by {
      forall n ensures n in t0 <==> n == Root(0) { TouchedNodes(ops, n); }
    }
    LevelSize(ops, 1, 0x80_0000_0000);
    LevelSize(ops, 2, 0x4000_0000);
    LevelSize(ops, 3, 0x20_0000);
  }

  /** Which tables a history touches. */
  lemma {:induction false} TouchedNodes(ops: seq<Op>, n: Node)
    ensures n in Touched(ops) <==>
      && ops != []
      && (n == Root(0) || (1 <= n.level <= 3 && exists op :: op in ops && op.Map? && n == NodeAt(0, VirtualPage(op.virt), n.level)))
  {
    if ops != [] {
      var init, last := ops[..|ops| - 1], ops[|ops| - 1];
      TouchedNodes(init, n);
      assert ops == init + [last];
    }
  }

  lemma LevelSize(ops: seq<Op>, level: nat, unit: nat)
    requires 1 <= level <= 3 && unit == PAGE_SIZE * Span(level) * ENTRIES
    ensures |AtLevel(Touched(ops), level)| == |Prefixes(ops, unit)|
  {
    var nodes, prefixes := AtLevel(Touched(ops), level), Prefixes(ops, unit);
    forall p: nat ensures p in prefixes <==> Node(0, level, p) in nodes {
      TouchedNodes(ops, Node(0, level, p));
      forall op: Op | op.Map? ensures NodeAt(0, VirtualPage(op.virt), level) == Node(0, level, op.virt % 0x1_0000_0000_0000 / unit) {
        PrefixOf(op.virt, level);
      }
    }
    forall n | n in nodes ensures n == Node(0, level, n.prefix) {
      TouchedNodes(ops, n);
    }
    SameSize(nodes, prefixes, level);
  }

  lemma PrefixOf(va: Word, level: nat)
    requires 1 <= level <= 3
    ensures VirtualPage(va) / (Span(level) * ENTRIES) == va % 0x1_0000_0000_0000 / (PAGE_SIZE * Span(level) * ENTRIES)
  {
    var low := va % 0x1_0000_0000_0000;
    DivModUnique(va / PAGE_SIZE, VPAGES, va / 0x1_0000_0000_0000, low / PAGE_SIZE);
    DivDiv(low, PAGE_SIZE, Span(level) * ENTRIES);
  }

  lemma {:induction false} SameSize(nodes: set<Node>, prefixes: set<nat>, level: nat)
    requires forall p: nat :: p in prefixes <==> Node(0, level, p) in nodes
    requires forall n :: n in nodes ==> n == Node(0, level, n.prefix)
    ensures |nodes| == |prefixes|
    decreases |nodes|
  {
    if nodes != {} {
      var n :| n in nodes;
      SameSize(nodes - {n}, prefixes - {n.prefix}, level);
    } else {
      assert prefixes == {};
    }
  }

  /** Remapping addresses whose 2 MiB regions were mapped before, and clearing, takes no new page. */
  lemma {:induction false} RemappingIsFree(ops: seq<Op>, more: seq<Op>)
    requires ops != []
    requires Prefixes(more, 0x20_0000) <= Prefixes(ops, 0x20_0000)
    ensures Touched(ops + more) == Touched(ops)
  {
    forall n ensures n in Touched(ops + more) <==> n in Touched(ops) {
      TouchedNodes(ops, n);
      TouchedNodes(ops + more, n);
      if n.level >= 1 {
        forall op | op in more && op.Map? && n == NodeAt(0, VirtualPage(op.virt), n.level) && n.level <= 3 ensures n in Touched(ops) {
          assert op.virt % 0x1_0000_0000_0000 / 0x20_0000 in Prefixes(more, 0x20_0000);
          var seen :| seen in ops && seen.Map?
            && seen.virt % 0x1_0000_0000_0000 / 0x20_0000 == op.virt % 0x1_0000_0000_0000 / 0x20_0000;
          SamePrefixesAbove(seen.virt, op.virt, n.level);
        }
      }
    }
  }

  lemma SamePrefixesAbove(va: Word, va': Word, level: nat)
    requires va % 0x1_0000_0000_0000 / 0x20_0000 == va' % 0x1_0000_0000_0000 / 0x20_0000
    requires 1 <= level <= 3
    ensures NodeAt(0, VirtualPage(va), level) == NodeAt(0, VirtualPage(va'), level)
  {
    PrefixOf(va, level);
    PrefixOf(va', level);
    var low, low' := va % 0x1_0000_0000_0000, va' % 0x1_0000_0000_0000;
    if level == 1 { DivDiv(low, 0x20_0000, 0x4_0000); DivDiv(low', 0x20_0000, 0x4_0000); }
    if level == 2 { DivDiv(low, 0x20_0000, 0x200); DivDiv(low', 0x20_0000, 0x200); }
  }
}
