/** The radix-512 page-table geometry shared by the ARMv8 4 KiB granule and x86-64 IA-32e paging:
    four levels of 512-entry tables index a 48-bit address nine bits at a time.

    A `Node` names a table by what it translates: the tree it belongs to, its level, and the
    address prefix that leads to it. */
module Radix {
  import opened Bits

  const PAGE_SIZE: nat := 4096
  const ENTRIES: nat := 512
  const VPAGES: nat := 0x10_0000_0000

  /** Physical memory is an array of 4 KiB frames of 64-bit words; a table fills one frame. */
  type Frame = t: seq<Word> | |t| == ENTRIES witness seq(ENTRIES, _ => 0)

  datatype Node = Node(root: nat, level: nat, prefix: nat)

  /** The virtual page number that a 64-bit address has in a 48-bit address space. */
  function VirtualPage(va: nat): (vp: nat)
    ensures vp < VPAGES
  {
    va / PAGE_SIZE % VPAGES
  }

  /** Pages covered by one entry of a table at this level. */
  function Span(level: nat): (s: nat)
    ensures s >= 1
  {
    if level == 0 then 0x800_0000 else if level == 1 then 0x4_0000 else if level == 2 then 0x200 else 1
  }

  function Index(vp: nat, level: nat): (i: nat)
    ensures i < ENTRIES
  {
    vp / Span(level) % ENTRIES
  }

  /** The table at `level` that the walk for `vp` goes through. */
  function NodeAt(root: nat, vp: nat, level: nat): Node {
    Node(root, level, vp / (Span(level) * ENTRIES))
  }

  function Root(root: nat): Node {
    Node(root, 0, 0)
  }

  function Child(n: Node, i: nat): Node {
    Node(n.root, n.level + 1, n.prefix * ENTRIES + i)
  }

  /** All four tables the walk for `vp` goes through. */
  function Path(root: nat, vp: nat): set<Node> {
    {Root(root), NodeAt(root, vp, 1), NodeAt(root, vp, 2), NodeAt(root, vp, 3)}
  }

  lemma PathParts(root: nat, vp: nat)
    ensures Path(root, vp) == {Root(root)} + {NodeAt(root, vp, 1)} + {NodeAt(root, vp, 2)} + {NodeAt(root, vp, 3)}
  {
  }

  lemma PathStep(root: nat, vp: nat, level: nat)
    requires level < 3
    ensures NodeAt(root, vp, level + 1) == Child(NodeAt(root, vp, level), Index(vp, level))
  {
  }

  lemma RootIsOnEveryPath(root: nat, vp: nat)
    requires vp < VPAGES
    ensures NodeAt(root, vp, 0) == Root(root)
  {
  }

  lemma ChildInjective(n: Node, i: nat, k: Node, j: nat)
    requires i < ENTRIES && j < ENTRIES
    requires Child(n, i) == Child(k, j)
    ensures n == k && i == j
  {
  }

  /** A last-level table and an index in it determine the page. */
  lemma PageFromPath(root: nat, vp: nat, vp': nat)
    requires NodeAt(root, vp, 3) == NodeAt(root, vp', 3) && Index(vp, 3) == Index(vp', 3)
    ensures vp == vp'
  {
  }

  function SetEntry(m: seq<Frame>, table: nat, i: nat, d: Word): (r: seq<Frame>)
    requires table < |m| && i < ENTRIES
  {
    m[table := m[table][i := d]]
  }

  function Size(nodes: set<Node>): nat {
    |nodes|
  }

  lemma OneMore(have: set<Node>, missing: Node, total: set<Node>)
    requires have <= total && missing in total && missing !in have
    ensures Size(have) + 1 <= Size(total)
  {
    assert |have + {missing}| == |have| + 1;
    SubsetSize(have + {missing}, total);
  }

  lemma SubsetSize(a: set<Node>, b: set<Node>)
    requires a <= b
    ensures |a| <= |b|
  {
    assert b == a + (b - a);
  }

  /** The nine bits a level indexes by are the same in the address and in its page number. */
  lemma IndexBits(va: Word, level: nat)
    requires level <= 3
    ensures va / (PAGE_SIZE * Span(level)) % ENTRIES == Index(VirtualPage(va), level)
  {
    var v, s := va / PAGE_SIZE, Span(level);
    DivDiv(va, PAGE_SIZE, s);
    var a, b := v / VPAGES, v % VPAGES;
    if level == 0 { DivModUnique(v, 0x800_0000, 0x200 * a + b / 0x800_0000, b % 0x800_0000); IndexPeriod(0x1, a, b / s); }
    else if level == 1 { DivModUnique(v, 0x4_0000, 0x4_0000 * a + b / 0x4_0000, b % 0x4_0000); IndexPeriod(0x200, a, b / s); }
    else if level == 2 { DivModUnique(v, 0x200, 0x800_0000 * a + b / 0x200, b % 0x200); IndexPeriod(0x4_0000, a, b / s); }
    else { IndexPeriod(0x800_0000, a, b); }
  }

  lemma IndexPeriod(k: nat, a: nat, b: nat)
    ensures (ENTRIES * k * a + b) % ENTRIES == b % ENTRIES
  {
    assert ENTRIES * k * a + b == ENTRIES * (k * a + b / ENTRIES) + b % ENTRIES;
    DivModUnique(ENTRIES * k * a + b, ENTRIES, k * a + b / ENTRIES, b % ENTRIES);
  }

  /** Truncating the shifted address to 32 bits first loses none of them. */
  lemma IndexBits32(va: Word, level: nat)
    requires level <= 3
    ensures va / (PAGE_SIZE * Span(level)) % TWO32 % ENTRIES == Index(VirtualPage(va), level)
  {
    var x := va / (PAGE_SIZE * Span(level));
    var r := x % TWO32;
    DivModUnique(x, ENTRIES, 0x80_0000 * (x / TWO32) + r / ENTRIES, r % ENTRIES);
    IndexBits(va, level);
  }
}
