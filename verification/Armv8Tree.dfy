/** The ownership tree behind the ARMv8 translation tables, stale subtrees included.

    `pages` maps every table that was ever created to the frame that holds it. Entries keep the address
    of their child when they are invalidated, so a table entry always names the child's frame, and only
    its type bits say whether the walk may follow it. */
module Armv8Tree {
  import opened Bits
  import opened Radix
  import opened Armv8Walk
  import opened Wrappers

  type Pages = map<Node, nat>

  ghost predicate NodeOk(m: seq<Frame>, pages: Pages, n: Node)
    requires n in pages
  {
    0 < pages[n] < |m| && pages[n] < VPAGES && n.level <= 3 && n.root == 0
  }

  /** The word that links to a child table, valid or invalidated. */
  function Link(frame: nat, valid: bool): Word
    requires frame < VPAGES
  {
    frame * PAGE_SIZE + if valid then 3 else 0
  }

  /** Entry i of table n names exactly the child's frame, if the child was ever created. */
  ghost predicate LinkOk(m: seq<Frame>, pages: Pages, n: Node, i: nat)
    requires n in pages && NodeOk(m, pages, n) && i < ENTRIES
  {
    var d, child := m[pages[n]][i], Child(n, i);
    if child in pages then
      pages[child] < VPAGES && (d == Link(pages[child], true) || d == Link(pages[child], false))
    else d == 0
  }

  /** A tree of depth four in which no frame is shared, by valid or by stale links. */
  ghost predicate TreeOk(m: seq<Frame>, pages: Pages) {
    && (forall n :: n in pages ==> NodeOk(m, pages, n))
    && (forall n, k :: n in pages && k in pages && n != k ==> pages[n] != pages[k])
    && (forall n, i: nat :: n in pages && n.level < 3 && i < ENTRIES ==> LinkOk(m, pages, n, i))
  }

  lemma LinkFacts(frame: nat, d: Word)
    requires frame < VPAGES && (d == Link(frame, true) || d == Link(frame, false))
    ensures Invalidated(d) == Link(frame, false) && FrameOf(d) == frame
    ensures d % 4 == (if d == Link(frame, true) then 3 else 0)
    ensures if d == Link(frame, true) then d % 2 == 1 && d / 2 % 2 == 1 else d % 2 == 0
  {
    var low := if d == Link(frame, true) then 3 else 0;
    DivModUnique(d, 4, 1024 * frame, low);
    DivModUnique(d, 2, 2048 * frame + low / 2, low % 2);
    DivModUnique(d, PAGE_SIZE, frame, low);
  }

  // The memory updates of the program.

  function InvalidateAll(t: Frame): (r: Frame)
    ensures forall i :: 0 <= i < ENTRIES ==> r[i] == Invalidated(t[i])
  {
    seq(ENTRIES, i requires 0 <= i < ENTRIES => Invalidated(t[i]))
  }

  function ClearTable(m: seq<Frame>, table: nat): (r: seq<Frame>)
    requires table < |m|
  {
    m[table := InvalidateAll(m[table])]
  }

  /** Invalidate every entry of the child table, then make the parent entry point to it. */
  function Relink(m: seq<Frame>, parent: nat, i: nat, child: nat): (r: seq<Frame>)
    requires parent < |m| && i < ENTRIES && child < |m| && child < VPAGES
  {
    SetEntry(ClearTable(m, child), parent, i, Link(child, true))
  }

  // Reusing a stale subtree, or adding a fresh page, keeps the tree.

  ghost predicate CanRelink(m: seq<Frame>, pages: Pages, n: Node, i: nat, f: nat) {
    && TreeOk(m, pages) && n in pages && n.level < 3 && i < ENTRIES && 0 < f < |m| && f < VPAGES
    && NodeOk(m, pages, n)
    && m[pages[n]][i] % 4 == 0
    && if Child(n, i) in pages then f == pages[Child(n, i)] else
         && (forall k :: k in pages ==> pages[k] != f)
         && (forall j :: 0 <= j < ENTRIES ==> m[f][j] == 0)
         && (forall j: nat :: j < ENTRIES ==> Child(Child(n, i), j) !in pages)
  }

  /** Every entry of the tree after a relink: the new link, an invalidated entry of the child, or as before. */
  lemma RelinkEntry(m: seq<Frame>, pages: Pages, n: Node, i: nat, f: nat, k: Node, j: nat)
    requires CanRelink(m, pages, n, i, f)
    requires k in pages[Child(n, i) := f] && j < ENTRIES
    ensures var p := pages[Child(n, i) := f][k];
            p < |m| &&
            Relink(m, pages[n], i, f)[p][j] ==
              if k == n && j == i then Link(f, true)
              else if k == Child(n, i) then Invalidated(m[p][j])
              else m[p][j]
  {
    assert NodeOk(m, pages, if k in pages then k else n);
  }

  lemma RelinkKeepsLink(m: seq<Frame>, pages: Pages, n: Node, i: nat, f: nat, k: Node, j: nat)
    requires CanRelink(m, pages, n, i, f)
    requires k in pages[Child(n, i) := f] && k.level < 3 && j < ENTRIES
    requires NodeOk(Relink(m, pages[n], i, f), pages[Child(n, i) := f], k)
    ensures LinkOk(Relink(m, pages[n], i, f), pages[Child(n, i) := f], k, j)
  {
    RelinkEntry(m, pages, n, i, f, k, j);
    var c := Child(n, i);
    if k in pages {
      assert LinkOk(m, pages, k, j);
      if Child(k, j) == c { ChildInjective(k, j, n, i); }
      if Child(k, j) in pages { LinkFacts(pages[Child(k, j)], m[pages[k]][j]); }
    }
  }

  lemma RelinkKeepsTree(m: seq<Frame>, pages: Pages, n: Node, i: nat, f: nat)
    requires CanRelink(m, pages, n, i, f)
    ensures TreeOk(Relink(m, pages[n], i, f), pages[Child(n, i) := f])
  {
    var m', pages' := Relink(m, pages[n], i, f), pages[Child(n, i) := f];
    forall k | k in pages' ensures NodeOk(m', pages', k) {
      assert NodeOk(m, pages, if k in pages then k else n);
    }
    forall k, j: nat | k in pages' && k.level < 3 && j < ENTRIES ensures LinkOk(m', pages', k, j) {
      assert NodeOk(m', pages', k);
      RelinkKeepsLink(m, pages, n, i, f, k, j);
    }
  }

  // What the updates do to the hardware walk.

  /** The walk can follow valid entries from the root down to the table at `level` for this page. */
  ghost predicate Reaches(m: seq<Frame>, pages: Pages, vp: nat, level: nat) {
    && NodeAt(0, vp, level) in pages
    && (level > 0 ==>
          && Reaches(m, pages, vp, level - 1)
          && var p := pages[NodeAt(0, vp, level - 1)];
             p < |m| && m[p][Index(vp, level - 1)] % 4 == 3)
  }

  /** One step of the walk in a tree: into the child's table, or a fault. */
  lemma WalkStep(m: seq<Frame>, pages: Pages, level: nat, vp: nat)
    requires TreeOk(m, pages) && NodeAt(0, vp, level) in pages && level < 3
    ensures var n, i := NodeAt(0, vp, level), Index(vp, level);
            && NodeOk(m, pages, n)
            && (m[pages[n]][i] % 4 == 3 ==>
                  && NodeAt(0, vp, level + 1) == Child(n, i) && Child(n, i) in pages
                  && Walk(m, level, pages[n], vp) == Walk(m, level + 1, pages[Child(n, i)], vp))
            && (m[pages[n]][i] % 4 != 3 ==> Walk(m, level, pages[n], vp) == None)
  {
    var n, i := NodeAt(0, vp, level), Index(vp, level);
    assert NodeOk(m, pages, n) && LinkOk(m, pages, n, i);
    PathStep(0, vp, level);
    if Child(n, i) in pages { LinkFacts(pages[Child(n, i)], m[pages[n]][i]); }
  }

  lemma InvalidEntryFaults(m: seq<Frame>, level: nat, table: nat, vp: nat, d: Word)
    requires table < |m| && m[table][Index(vp, level)] == Invalidated(d)
    ensures m[table][Index(vp, level)] % 4 == 0 && Walk(m, level, table, vp) == None
  {
    DivModUnique(Invalidated(d), 4, d / 4, 0);
    DivModUnique(Invalidated(d), 2, d / 4 * 2, 0);
  }

  /** Relinking a subtree resurrects nothing: no page translates differently afterwards. */
  lemma {:induction false} RelinkKeepsWalk(m: seq<Frame>, pages: Pages, n: Node, i: nat, f: nat, level: nat, vp: nat)
    requires CanRelink(m, pages, n, i, f)
    requires NodeAt(0, vp, level) in pages && NodeAt(0, vp, level) != Child(n, i)
    ensures Walk(Relink(m, pages[n], i, f), level, pages[NodeAt(0, vp, level)], vp)
         == Walk(m, level, pages[NodeAt(0, vp, level)], vp)
    decreases 3 - level
  {
    var c, k, j := Child(n, i), NodeAt(0, vp, level), Index(vp, level);
    var m', pages' := Relink(m, pages[n], i, f), pages[c := f];
    RelinkEntry(m, pages, n, i, f, k, j);
    assert NodeOk(m, pages, k);
    if level < 3 {
      RelinkKeepsTree(m, pages, n, i, f);
      LinkFacts(f, Link(f, true));
      WalkStep(m, pages, level, vp);
      WalkStep(m', pages', level, vp);
      if k == n && j == i {
        var j' := Index(vp, level + 1);
        RelinkEntry(m, pages, n, i, f, c, j');
        InvalidEntryFaults(m', level + 1, f, vp, m[f][j']);
      } else if m[pages[k]][j] % 4 == 3 {
        if Child(k, j) == c { ChildInjective(k, j, n, i); }
        RelinkKeepsWalk(m, pages, n, i, f, level + 1, vp);
      }
    }
  }

  /** Writing a last-level entry keeps the tree. */
  lemma InsertKeepsTree(m: seq<Frame>, pages: Pages, vp: nat, d: Word)
    requires TreeOk(m, pages) && NodeAt(0, vp, 3) in pages
    ensures pages[NodeAt(0, vp, 3)] < |m|
    ensures TreeOk(SetEntry(m, pages[NodeAt(0, vp, 3)], Index(vp, 3), d), pages)
  {
    var n3 := NodeAt(0, vp, 3);
    assert NodeOk(m, pages, n3);
    var m' := SetEntry(m, pages[n3], Index(vp, 3), d);
    forall n | n in pages ensures NodeOk(m', pages, n) {
      assert NodeOk(m, pages, n);
    }
    forall n, i: nat | n in pages && n.level < 3 && i < ENTRIES ensures LinkOk(m', pages, n, i) {
      assert LinkOk(m, pages, n, i) && NodeOk(m, pages, n);
    }
  }

  /** Writing a last-level entry sets the translation of that page, once the walk reaches it ... */
  lemma {:induction false} InsertSetsWalk(m: seq<Frame>, pages: Pages, vp: nat, d: Word, level: nat)
    requires TreeOk(m, pages) && Reaches(m, pages, vp, 3) && level <= 3
    requires NodeAt(0, vp, level) in pages && d % 4 == 3
    ensures pages[NodeAt(0, vp, 3)] < |m|
    ensures Walk(SetEntry(m, pages[NodeAt(0, vp, 3)], Index(vp, 3), d), level, pages[NodeAt(0, vp, level)], vp)
         == LeafAccess(d, 3, vp)
    decreases 3 - level
  {
    hide TreeOk, Reaches, Walk, SetEntry, NodeAt, Index, LeafAccess;
    ReachesAbove(m, pages, vp, 3, 2);
    InsertKeepsTree(m, pages, vp, d);
    if level < 3 {
      InsertLevel(m, pages, vp, d, level);
      InsertSetsWalk(m, pages, vp, d, level + 1);
    } else {
      InsertedLeaf(m, pages[NodeAt(0, vp, 3)], vp, d);
    }
  }

  /** Above the last level the walk goes on to the next table, as it did before the write. */
  lemma InsertLevel(m: seq<Frame>, pages: Pages, vp: nat, d: Word, level: nat)
    requires TreeOk(m, pages) && Reaches(m, pages, vp, 3) && level < 3 && NodeAt(0, vp, level) in pages
    requires NodeAt(0, vp, 3) in pages && pages[NodeAt(0, vp, 3)] < |m|
    requires TreeOk(SetEntry(m, pages[NodeAt(0, vp, 3)], Index(vp, 3), d), pages)
    ensures NodeAt(0, vp, level + 1) in pages
    ensures var m' := SetEntry(m, pages[NodeAt(0, vp, 3)], Index(vp, 3), d);
            Walk(m', level, pages[NodeAt(0, vp, level)], vp) == Walk(m', level + 1, pages[NodeAt(0, vp, level + 1)], vp)
  {
    hide Index, Walk, Reaches;
    var m' := SetEntry(m, pages[NodeAt(0, vp, 3)], Index(vp, 3), d);
    ReachesAbove(m, pages, vp, 3, level);
    WalkStep(m', pages, level, vp);
    assert NodeOk(m, pages, NodeAt(0, vp, level)) && pages[NodeAt(0, vp, level)] != pages[NodeAt(0, vp, 3)];
  }

  lemma InsertedLeaf(m: seq<Frame>, table: nat, vp: nat, d: Word)
    requires table < |m| && d % 4 == 3
    ensures Walk(SetEntry(m, table, Index(vp, 3), d), 3, table, vp) == LeafAccess(d, 3, vp)
  {
    hide Index, LeafAccess;
  }

  lemma {:induction false} ReachesAbove(m: seq<Frame>, pages: Pages, vp: nat, level: nat, above: nat)
    requires Reaches(m, pages, vp, level) && above < level
    ensures NodeAt(0, vp, above) in pages && NodeAt(0, vp, above + 1) in pages
    ensures var p := pages[NodeAt(0, vp, above)];
            p < |m| && m[p][Index(vp, above)] % 4 == 3
  {
    if above < level - 1 { ReachesAbove(m, pages, vp, level - 1, above); }
  }

  /** ... and of no other page. */
  lemma {:induction false} InsertKeepsOtherWalks(m: seq<Frame>, pages: Pages, vp: nat, d: Word, level: nat, vp': nat)
    requires TreeOk(m, pages) && NodeAt(0, vp, 3) in pages && vp != vp'
    requires NodeAt(0, vp', level) in pages
    ensures pages[NodeAt(0, vp, 3)] < |m|
    ensures Walk(SetEntry(m, pages[NodeAt(0, vp, 3)], Index(vp, 3), d), level, pages[NodeAt(0, vp', level)], vp')
         == Walk(m, level, pages[NodeAt(0, vp', level)], vp')
    decreases 3 - level
  {
    InsertKeepsTree(m, pages, vp, d);
    var n3, n := NodeAt(0, vp, 3), NodeAt(0, vp', level);
    var m' := SetEntry(m, pages[n3], Index(vp, 3), d);
    assert NodeOk(m, pages, n);
    if level < 3 {
      WalkStep(m, pages, level, vp');
      WalkStep(m', pages, level, vp');
      assert pages[n] != pages[n3];
      if m[pages[n]][Index(vp', level)] % 4 == 3 { InsertKeepsOtherWalks(m, pages, vp, d, level + 1, vp'); }
    } else if n == n3 && Index(vp, 3) == Index(vp', 3) {
      PageFromPath(0, vp, vp');
    }
  }

  /** Clearing the root table keeps the tree, stale children and all, and unmaps every page. */
  lemma ClearRootKeepsTree(m: seq<Frame>, pages: Pages)
    requires TreeOk(m, pages) && Root(0) in pages
    ensures pages[Root(0)] < |m| && TreeOk(ClearTable(m, pages[Root(0)]), pages)
  {
    assert NodeOk(m, pages, Root(0));
    var m' := ClearTable(m, pages[Root(0)]);
    forall n | n in pages ensures NodeOk(m', pages, n) {
      assert NodeOk(m, pages, n);
    }
    forall n, i: nat | n in pages && n.level < 3 && i < ENTRIES ensures LinkOk(m', pages, n, i) {
      assert LinkOk(m, pages, n, i) && NodeOk(m, pages, n);
      if Child(n, i) in pages { LinkFacts(pages[Child(n, i)], m[pages[n]][i]); }
    }
  }

  lemma ClearRootUnmapsAll(m: seq<Frame>, pages: Pages, vp: nat)
    requires TreeOk(m, pages) && Root(0) in pages && vp < VPAGES
    ensures pages[Root(0)] < |m| && Walk(ClearTable(m, pages[Root(0)]), 0, pages[Root(0)], vp) == None
  {
    assert NodeOk(m, pages, Root(0));
    var root := pages[Root(0)];
    InvalidEntryFaults(ClearTable(m, root), 0, root, vp, m[root][Index(vp, 0)]);
  }

  // The bump heap the tables are allocated from.

  /** Tables fill the heap from `start` to `ptr`, one page each; what is above is still zero. */
  ghost predicate HeapOk(m: seq<Frame>, pages: Pages, start: nat, ptr: nat, end: nat) {
    && 0 < start && start % PAGE_SIZE == 0
    && end <= PAGE_SIZE * |m| && end <= VPAGES * PAGE_SIZE
    && ptr == start + PAGE_SIZE * |pages| && ptr <= end
    && (forall n :: n in pages ==> start <= PAGE_SIZE * pages[n] < ptr)
    && (forall f: nat, i: nat :: ptr <= PAGE_SIZE * f && PAGE_SIZE * (f + 1) <= end && i < ENTRIES ==> m[f][i] == 0)
  }

  ghost predicate TablesOk(m: seq<Frame>, pages: Pages, start: nat, ptr: nat, end: nat) {
    && HeapOk(m, pages, start, ptr, end)
    && TreeOk(m, pages)
    && (forall n, i: nat :: Child(n, i) in pages && i < ENTRIES ==> n in pages)
  }

  /** The next heap page, when there is one, belongs to no table and is zero. */
  lemma FreshPage(m: seq<Frame>, pages: Pages, start: nat, ptr: nat, end: nat)
    requires HeapOk(m, pages, start, ptr, end) && ptr + PAGE_SIZE <= end
    ensures ptr % PAGE_SIZE == 0 && 0 < ptr / PAGE_SIZE < |m| && ptr / PAGE_SIZE < VPAGES
    ensures forall k :: k in pages ==> pages[k] != ptr / PAGE_SIZE
    ensures forall j :: 0 <= j < ENTRIES ==> m[ptr / PAGE_SIZE][j] == 0
  {
    assert ptr == PAGE_SIZE * (ptr / PAGE_SIZE);
  }

  /** A fresh root table faults everywhere. */
  lemma AddRoot(m: seq<Frame>, pages: Pages, start: nat, ptr: nat, end: nat)
    requires TablesOk(m, pages, start, ptr, end) && Root(0) !in pages && ptr + PAGE_SIZE <= end
    ensures TablesOk(m, pages[Root(0) := ptr / PAGE_SIZE], start, ptr + PAGE_SIZE, end)
    ensures forall vp: nat :: Walk(m, 0, ptr / PAGE_SIZE, vp) == None
  {
    FreshPage(m, pages, start, ptr, end);
    var root := ptr / PAGE_SIZE;
    var pages' := pages[Root(0) := root];
    forall vp: nat ensures Walk(m, 0, root, vp) == None {
      assert m[root][Index(vp, 0)] == 0;
    }
    forall n | n in pages' ensures NodeOk(m, pages', n) {
      if n in pages { assert NodeOk(m, pages, n); }
    }
    forall n, i: nat | n in pages' && n.level < 3 && i < ENTRIES ensures LinkOk(m, pages', n, i) {
      assert NodeOk(m, pages', n);
      if n in pages { assert LinkOk(m, pages, n, i); }
    }
  }

  /** Linking a child, reused or fresh, keeps the heap accounting. */
  lemma RelinkKeepsTables(m: seq<Frame>, pages: Pages, n: Node, i: nat, f: nat, start: nat, ptr: nat, end: nat)
    requires TablesOk(m, pages, start, ptr, end) && CanRelink(m, pages, n, i, f)
    requires Child(n, i) !in pages ==> f == ptr / PAGE_SIZE && ptr + PAGE_SIZE <= end
    ensures TablesOk(Relink(m, pages[n], i, f), pages[Child(n, i) := f],
                     start, if Child(n, i) in pages then ptr else ptr + PAGE_SIZE, end)
  {
    RelinkKeepsTree(m, pages, n, i, f);
    var c := Child(n, i);
    var pages' := pages[c := f];
    var ptr' := if c in pages then ptr else ptr + PAGE_SIZE;
    var m' := Relink(m, pages[n], i, f);
    if c in pages { assert pages' == pages; } else { FreshPage(m, pages, start, ptr, end); }
    assert NodeOk(m, pages, n);
    forall g: nat, j: nat | ptr' <= PAGE_SIZE * g && PAGE_SIZE * (g + 1) <= end && j < ENTRIES ensures m'[g][j] == 0 {
      assert g != pages[n] && g != f;
    }
    forall k, j: nat | Child(k, j) in pages' && j < ENTRIES ensures k in pages' {
      if Child(k, j) == c { ChildInjective(k, j, n, i); }
    }
  }

  lemma {:induction false} RelinkKeepsReaches(m: seq<Frame>, pages: Pages, n: Node, i: nat, f: nat, vp: nat, level: nat)
    requires CanRelink(m, pages, n, i, f) && Reaches(m, pages, vp, level) && level <= n.level
    ensures Reaches(Relink(m, pages[n], i, f), pages[Child(n, i) := f], vp, level)
  {
    if level > 0 {
      RelinkKeepsReaches(m, pages, n, i, f, vp, level - 1);
      RelinkEntry(m, pages, n, i, f, NodeAt(0, vp, level - 1), Index(vp, level - 1));
    }
  }

  lemma RootReached(m: seq<Frame>, pages: Pages, vp: nat, level: nat)
    requires Reaches(m, pages, vp, level) && vp < VPAGES
    ensures Root(0) in pages
  {
    RootIsOnEveryPath(0, vp);
    if level > 0 { ReachesAbove(m, pages, vp, level, 0); }
  }

  lemma HeapAligned(m: seq<Frame>, pages: Pages, start: nat, ptr: nat, end: nat)
    requires HeapOk(m, pages, start, ptr, end)
    ensures ptr == PAGE_SIZE * (ptr / PAGE_SIZE)
  {
  }

  /** The whole effect of making the walk for `vp` reach one level further. */
  lemma RelinkStep(m: seq<Frame>, pages: Pages, start: nat, ptr: nat, end: nat, vp: nat, level: nat, f: nat)
    requires TablesOk(m, pages, start, ptr, end) && Reaches(m, pages, vp, level) && level < 3 && vp < VPAGES
    requires NodeOk(m, pages, NodeAt(0, vp, level)) && m[pages[NodeAt(0, vp, level)]][Index(vp, level)] % 4 == 0
    requires if NodeAt(0, vp, level + 1) in pages then f == pages[NodeAt(0, vp, level + 1)]
             else f == ptr / PAGE_SIZE && ptr + PAGE_SIZE <= end
    ensures f < |m| && f < VPAGES
    ensures var n, c := NodeAt(0, vp, level), NodeAt(0, vp, level + 1);
            var m', pages' := Relink(m, pages[n], Index(vp, level), f), pages[c := f];
            && TablesOk(m', pages', start, if c in pages then ptr else ptr + PAGE_SIZE, end)
            && Reaches(m', pages', vp, level + 1)
            && Root(0) in pages
            && forall p: nat :: p < VPAGES ==>
                 Walk(m', 0, pages[Root(0)], p) == Walk(m, 0, pages[Root(0)], p)
  {
    var n, i, c := NodeAt(0, vp, level), Index(vp, level), NodeAt(0, vp, level + 1);
    PathStep(0, vp, level);
    if c in pages { assert NodeOk(m, pages, c); } else { FreshPage(m, pages, start, ptr, end); }
    assert CanRelink(m, pages, n, i, f);
    RelinkKeepsTables(m, pages, n, i, f, start, ptr, end);
    RelinkKeepsReaches(m, pages, n, i, f, vp, level);
    RelinkEntry(m, pages, n, i, f, n, i);
    LinkFacts(f, Link(f, true));
    RootReached(m, pages, vp, level);
    forall p: nat | p < VPAGES
      ensures Walk(Relink(m, pages[n], i, f), 0, pages[Root(0)], p) == Walk(m, 0, pages[Root(0)], p)
    {
      RootIsOnEveryPath(0, p);
      RelinkKeepsWalk(m, pages, n, i, f, 0, p);
    }
  }

  /** The whole effect of mapping a page whose tables are all in place. */
  lemma InsertStep(m: seq<Frame>, pages: Pages, start: nat, ptr: nat, end: nat, vp: nat, kind: Kind, phys: Word)
    requires TablesOk(m, pages, start, ptr, end) && Reaches(m, pages, vp, 3) && vp < VPAGES
    ensures pages[NodeAt(0, vp, 3)] < |m| && Root(0) in pages
    ensures var m' := SetEntry(m, pages[NodeAt(0, vp, 3)], Index(vp, 3), PageDescriptor(kind, phys));
            && TablesOk(m', pages, start, ptr, end)
            && forall p: nat :: p < VPAGES ==>
                 Walk(m', 0, pages[Root(0)], p)
                 == if p == vp then Some(Mapped(kind, phys)) else Walk(m, 0, pages[Root(0)], p)
  {
    var d := PageDescriptor(kind, phys);
    LeafOfPageDescriptor(kind, phys, vp);
    InsertKeepsTree(m, pages, vp, d);
    RootReached(m, pages, vp, 3);
    var m' := SetEntry(m, pages[NodeAt(0, vp, 3)], Index(vp, 3), d);
    forall f: nat, i: nat | ptr <= PAGE_SIZE * f && PAGE_SIZE * (f + 1) <= end && i < ENTRIES ensures m'[f][i] == 0 {
      assert f != pages[NodeAt(0, vp, 3)];
    }
    forall p: nat | p < VPAGES
      ensures Walk(m', 0, pages[Root(0)], p)
           == if p == vp then Some(Mapped(kind, phys)) else Walk(m, 0, pages[Root(0)], p)
    {
      RootIsOnEveryPath(0, p);
      if p == vp { InsertSetsWalk(m, pages, vp, d, 0); } else { InsertKeepsOtherWalks(m, pages, vp, d, 0, p); }
    }
  }

  /** The whole effect of clearing the root table. */
  lemma ClearStep(m: seq<Frame>, pages: Pages, start: nat, ptr: nat, end: nat)
    requires TablesOk(m, pages, start, ptr, end) && Root(0) in pages
    ensures pages[Root(0)] < |m| && TablesOk(ClearTable(m, pages[Root(0)]), pages, start, ptr, end)
    ensures forall p: nat :: p < VPAGES ==> Walk(ClearTable(m, pages[Root(0)]), 0, pages[Root(0)], p) == None
  {
    ClearRootKeepsTree(m, pages);
    forall p: nat | p < VPAGES ensures Walk(ClearTable(m, pages[Root(0)]), 0, pages[Root(0)], p) == None {
      ClearRootUnmapsAll(m, pages, p);
    }
  }

  lemma HeapCount(m: seq<Frame>, pages: Pages, start: nat, ptr: nat, end: nat)
    requires TablesOk(m, pages, start, ptr, end)
    ensures ptr == start + PAGE_SIZE * Size(pages.Keys) && ptr <= end
  {
    assert |pages| == |pages.Keys|;
  }

  lemma ReachesRoot(m: seq<Frame>, pages: Pages, vp: nat)
    requires Root(0) in pages && vp < VPAGES
    ensures Reaches(m, pages, vp, 0) && NodeAt(0, vp, 0) == Root(0)
  {
    RootIsOnEveryPath(0, vp);
  }
}
