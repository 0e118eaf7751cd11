/** Two page-table trees in one memory: the boot tables (root 0) and the run-time tables (root 1).

    `pages` maps every table to the frame that holds it. A table entry is zero until its child exists;
    large pages occur only where the boot code puts them, in the first gibibyte of root 0. */
module X86Tree {
  import opened Bits
  import opened Radix
  import opened X86Walk
  import opened Wrappers

  const BOOT: nat := 0
  const RUNTIME: nat := 1
  const FIRST_GIB: nat := 0x4_0000

  type Pages = map<Node, nat>

  ghost predicate NodeOk(m: seq<Frame>, pages: Pages, n: Node)
    requires n in pages
  {
    0 < pages[n] < |m| && pages[n] < FRAMES && n.level <= 3
  }

  /** The entries on the boot code's own path carry no user bit. */
  predicate BootLink(n: Node, i: nat) {
    n.root == BOOT && n.level <= 1 && n.prefix == 0 && i == 0
  }

  /** The entries the boot code may fill with a large page: PDPT[0], or all of the first PD. */
  predicate MayBeLarge(n: Node, i: nat) {
    n.root == BOOT && n.prefix == 0 && ((n.level == 1 && i == 0) || n.level == 2)
  }

  function Link(frame: nat, boot: bool): Word
    requires frame < FRAMES
  {
    frame * PAGE_SIZE + if boot then 3 else 7
  }

  ghost predicate LinkOk(m: seq<Frame>, pages: Pages, n: Node, i: nat)
    requires n in pages && NodeOk(m, pages, n) && i < ENTRIES
  {
    var d, child := m[pages[n]][i], Child(n, i);
    if child in pages then pages[child] < FRAMES && d == Link(pages[child], BootLink(n, i))
    else d == 0 || (MayBeLarge(n, i) && Bit(d, PF_PRESENT) && Large(d))
  }

  ghost predicate TreeOk(m: seq<Frame>, pages: Pages) {
    && (forall n :: n in pages ==> NodeOk(m, pages, n))
    && (forall n, k :: n in pages && k in pages && n != k ==> pages[n] != pages[k])
    && (forall n, i: nat :: n in pages && n.level < 3 && i < ENTRIES ==> LinkOk(m, pages, n, i))
    && (forall n, i: nat :: Child(n, i) in pages && i < ENTRIES ==> n in pages)
  }

  lemma LinkFields(frame: nat, boot: bool)
    requires frame < FRAMES
    ensures var d := Link(frame, boot);
            FrameOf(d) == frame && !Large(d) && Bit(d, PF_PRESENT) && Bit(d, PF_WRITABLE) && Bit(d, PF_USER) == !boot
  {
    EntryFields(frame, if boot then 3 else 7, Link(frame, boot));
  }

  // The two memory updates: a new, zeroed table behind an empty entry, and a last-level entry.

  function ZeroFrame(): (r: Frame)
    ensures forall i :: 0 <= i < ENTRIES ==> r[i] == 0
  {
    seq(ENTRIES, i => 0)
  }

  function AddTable(m: seq<Frame>, parent: nat, i: nat, f: nat): seq<Frame>
    requires parent < |m| && i < ENTRIES && f < |m| && f < FRAMES
  {
    SetEntry(m[f := ZeroFrame()], parent, i, Link(f, false))
  }

  ghost predicate CanAdd(m: seq<Frame>, pages: Pages, n: Node, i: nat, f: nat) {
    && TreeOk(m, pages) && n in pages && n.level < 3 && i < ENTRIES && 0 < f < |m| && f < FRAMES
    && NodeOk(m, pages, n)
    && Child(n, i) !in pages && !BootLink(n, i) && m[pages[n]][i] == 0
    && (forall k :: k in pages ==> pages[k] != f)
  }

  lemma AddKeepsTree(m: seq<Frame>, pages: Pages, n: Node, i: nat, f: nat)
    requires CanAdd(m, pages, n, i, f)
    ensures TreeOk(AddTable(m, pages[n], i, f), pages[Child(n, i) := f])
  {
    var c := Child(n, i);
    var m', pages' := AddTable(m, pages[n], i, f), pages[c := f];
    forall k | k in pages' ensures NodeOk(m', pages', k) {
      if k in pages { assert NodeOk(m, pages, k); }
    }
    forall k, j: nat | k in pages' && k.level < 3 && j < ENTRIES ensures LinkOk(m', pages', k, j) {
      assert NodeOk(m', pages', k);
      if k in pages { assert LinkOk(m, pages, k, j); }
      if Child(k, j) == c { ChildInjective(k, j, n, i); }
    }
    forall k, j: nat | Child(k, j) in pages' && j < ENTRIES ensures k in pages' {
      if Child(k, j) == c { ChildInjective(k, j, n, i); }
    }
  }

  /** A new table translates nothing yet: every walk, in either tree, is as before. */
  lemma {:induction false} AddKeepsWalk(m: seq<Frame>, pages: Pages, n: Node, i: nat, f: nat,
                                        root: nat, level: nat, vp: nat, w: bool, u: bool)
    requires CanAdd(m, pages, n, i, f) && NodeAt(root, vp, level) in pages
    ensures Walk(AddTable(m, pages[n], i, f), level, pages[NodeAt(root, vp, level)], vp, w, u)
         == Walk(m, level, pages[NodeAt(root, vp, level)], vp, w, u)
    decreases 3 - level
  {
    var k, j := NodeAt(root, vp, level), Index(vp, level);
    var m' := AddTable(m, pages[n], i, f);
    assert NodeOk(m, pages, k);
    if k == n && j == i {
      LinkFields(f, false);
    } else if level < 3 {
      assert LinkOk(m, pages, k, j);
      PathStep(root, vp, level);
      if Child(k, j) in pages {
        LinkFields(pages[Child(k, j)], BootLink(k, j));
        var d := m[pages[k]][j];
        AddKeepsWalk(m, pages, n, i, f, root, level + 1, vp, w && Bit(d, PF_WRITABLE), u && Bit(d, PF_USER));
      }
    }
  }

  lemma InsertKeepsTree(m: seq<Frame>, pages: Pages, root: nat, vp: nat, d: Word)
    requires TreeOk(m, pages) && NodeAt(root, vp, 3) in pages
    ensures pages[NodeAt(root, vp, 3)] < |m|
    ensures TreeOk(SetEntry(m, pages[NodeAt(root, vp, 3)], Index(vp, 3), d), pages)
  {
    var n3 := NodeAt(root, vp, 3);
    assert NodeOk(m, pages, n3);
    var m' := SetEntry(m, pages[n3], Index(vp, 3), d);
    forall n | n in pages ensures NodeOk(m', pages, n) {
      assert NodeOk(m, pages, n);
    }
    forall n, i: nat | n in pages && n.level < 3 && i < ENTRIES ensures LinkOk(m', pages, n, i) {
      assert NodeOk(m, pages, n) && LinkOk(m, pages, n, i);
    }
  }

  /** User access needs the user bit on the whole path, which the boot code's own entries lack. */
  predicate UserPage(root: nat, vp: nat) {
    root != BOOT || vp >= 0x800_0000
  }

  /** What a page mapped by the program translates to. */
  function Mapped(root: nat, phys: Word, vp: nat): Translation {
    Translation(phys / PAGE_SIZE % FRAMES, true, UserPage(root, vp))
  }

  /** Is the table at `level` for this page reached with user permission? */
  predicate UserSoFar(root: nat, vp: nat, level: nat) {
    level == 0 || UserPage(root, vp)
  }

  lemma {:induction false} InsertSetsWalk(m: seq<Frame>, pages: Pages, root: nat, vp: nat, phys: Word, d: Word, level: nat)
    requires TreeOk(m, pages) && NodeAt(root, vp, 3) in pages && NodeAt(root, vp, level) in pages && level <= 3
    requires vp < VPAGES && d == phys / PAGE_SIZE * PAGE_SIZE + 7
    ensures pages[NodeAt(root, vp, 3)] < |m|
    ensures Walk(SetEntry(m, pages[NodeAt(root, vp, 3)], Index(vp, 3), d), level, pages[NodeAt(root, vp, level)], vp,
                 true, UserSoFar(root, vp, level))
         == Some(Mapped(root, phys, vp))
    decreases 3 - level
  {
    hide TreeOk, Walk, SetEntry, NodeAt, Index, UserSoFar, Mapped;
    InsertKeepsTree(m, pages, root, vp, d);
    if level < 3 {
      InsertLevel(m, pages, root, vp, d, level);
      InsertSetsWalk(m, pages, root, vp, phys, d, level + 1);
    } else {
      InsertedLeaf(m, pages[NodeAt(root, vp, 3)], root, vp, phys, d);
    }
  }

  /** Above the last level the walk goes on to the next table, as it did before the write. */
  lemma InsertLevel(m: seq<Frame>, pages: Pages, root: nat, vp: nat, d: Word, level: nat)
    requires TreeOk(m, pages) && NodeAt(root, vp, 3) in pages && NodeAt(root, vp, level) in pages && level < 3 && vp < VPAGES
    requires pages[NodeAt(root, vp, 3)] < |m|
    ensures NodeAt(root, vp, level + 1) in pages
    ensures var m' := SetEntry(m, pages[NodeAt(root, vp, 3)], Index(vp, 3), d);
            Walk(m', level, pages[NodeAt(root, vp, level)], vp, true, UserSoFar(root, vp, level))
            == Walk(m', level + 1, pages[NodeAt(root, vp, level + 1)], vp, true, UserSoFar(root, vp, level + 1))
  {
    hide Bit, FrameOf, Link, Index;
    var n, i := NodeAt(root, vp, level), Index(vp, level);
    assert NodeOk(m, pages, n) && LinkOk(m, pages, n, i);
    AncestorsPresent(m, pages, root, vp, 3, level + 1);
    PathStep(root, vp, level);
    LinkFields(pages[Child(n, i)], BootLink(n, i));
    assert pages[n] != pages[NodeAt(root, vp, 3)];
  }

  lemma InsertedLeaf(m: seq<Frame>, table: nat, root: nat, vp: nat, phys: Word, d: Word)
    requires table < |m| && vp < VPAGES && d == phys / PAGE_SIZE * PAGE_SIZE + 7
    ensures Walk(SetEntry(m, table, Index(vp, 3), d), 3, table, vp, true, UserSoFar(root, vp, 3)) == Some(Mapped(root, phys, vp))
  {
    hide Bit, FrameOf, Index;
    EntryFields(phys / PAGE_SIZE, 7, d);
  }

  /** In a tree the tables above a present table are present. */
  lemma {:induction false} AncestorsPresent(m: seq<Frame>, pages: Pages, root: nat, vp: nat, level: nat, above: nat)
    requires TreeOk(m, pages) && NodeAt(root, vp, level) in pages && above <= level <= 3
    ensures NodeAt(root, vp, above) in pages
  {
    if above < level {
      PathStep(root, vp, level - 1);
      AncestorsPresent(m, pages, root, vp, level - 1, above);
    }
  }

  /** A mapping changes no other page, of its own tree or of the other. */
  lemma {:induction false} InsertKeepsOtherWalks(m: seq<Frame>, pages: Pages, root: nat, vp: nat, d: Word,
                                                 root': nat, vp': nat, level: nat, w: bool, u: bool)
    requires TreeOk(m, pages) && NodeAt(root, vp, 3) in pages && (root != root' || vp != vp')
    requires NodeAt(root', vp', level) in pages
    ensures pages[NodeAt(root, vp, 3)] < |m|
    ensures Walk(SetEntry(m, pages[NodeAt(root, vp, 3)], Index(vp, 3), d), level, pages[NodeAt(root', vp', level)], vp', w, u)
         == Walk(m, level, pages[NodeAt(root', vp', level)], vp', w, u)
    decreases 3 - level
  {
    InsertKeepsTree(m, pages, root, vp, d);
    var n3, n, i := NodeAt(root, vp, 3), NodeAt(root', vp', level), Index(vp', level);
    assert NodeOk(m, pages, n);
    if level < 3 {
      assert pages[n] != pages[n3];
      assert LinkOk(m, pages, n, i);
      PathStep(root', vp', level);
      if Child(n, i) in pages {
        LinkFields(pages[Child(n, i)], BootLink(n, i));
        var e := m[pages[n]][i];
        InsertKeepsOtherWalks(m, pages, root, vp, d, root', vp', level + 1, w && Bit(e, PF_WRITABLE), u && Bit(e, PF_USER));
      }
    } else if n == n3 && i == Index(vp, 3) {
      PageFromPath(root, vp, vp');
    }
  }

  // Both updates seen from the two roots.

  /** What the hardware translates a page to with a tree's root in CR3. */
  ghost function Translate(m: seq<Frame>, pages: Pages, root: nat, vp: nat): Option<Translation> {
    if Root(root) in pages then Walk(m, 0, pages[Root(root)], vp, true, true) else None
  }

  ghost predicate SameTranslation(m: seq<Frame>, pages: Pages, m': seq<Frame>, pages': Pages) {
    forall r: nat, p: nat :: p < VPAGES ==> Translate(m', pages', r, p) == Translate(m, pages, r, p)
  }

  /** Pages a 4 KiB mapping may go to: all of the run-time tree, and past the boot code's large pages. */
  predicate Mappable(root: nat, vp: nat) {
    vp < VPAGES && (root == RUNTIME || (root == BOOT && vp >= FIRST_GIB))
  }

  lemma MappableEntry(root: nat, vp: nat, level: nat)
    requires Mappable(root, vp) && level < 3
    ensures !MayBeLarge(NodeAt(root, vp, level), Index(vp, level))
    ensures BootLink(NodeAt(root, vp, level), Index(vp, level)) ==>
      Child(NodeAt(root, vp, level), Index(vp, level)) == Node(BOOT, 1, 0)
  {
    PathStep(root, vp, level);
  }

  lemma AddStep(m: seq<Frame>, pages: Pages, root: nat, vp: nat, level: nat, f: nat)
    requires TreeOk(m, pages) && Mappable(root, vp) && level < 3 && Node(BOOT, 1, 0) in pages
    requires NodeAt(root, vp, level) in pages && NodeAt(root, vp, level + 1) !in pages
    requires 0 < f < |m| && f < FRAMES && forall k :: k in pages ==> pages[k] != f
    ensures pages[NodeAt(root, vp, level)] < |m| && m[pages[NodeAt(root, vp, level)]][Index(vp, level)] == 0
    ensures var m' := AddTable(m, pages[NodeAt(root, vp, level)], Index(vp, level), f);
            var pages' := pages[NodeAt(root, vp, level + 1) := f];
            TreeOk(m', pages') && SameTranslation(m, pages, m', pages')
  {
    var n, i := NodeAt(root, vp, level), Index(vp, level);
    PathStep(root, vp, level);
    MappableEntry(root, vp, level);
    assert NodeOk(m, pages, n) && LinkOk(m, pages, n, i);
    assert CanAdd(m, pages, n, i, f);
    AddKeepsTree(m, pages, n, i, f);
    var m', pages' := AddTable(m, pages[n], i, f), pages[Child(n, i) := f];
    forall r: nat, p: nat | p < VPAGES ensures Translate(m', pages', r, p) == Translate(m, pages, r, p) {
      RootIsOnEveryPath(r, p);
      if Root(r) in pages { AddKeepsWalk(m, pages, n, i, f, r, 0, p, true, true); }
    }
  }

  lemma PresentEntry(m: seq<Frame>, pages: Pages, root: nat, vp: nat, level: nat)
    requires TreeOk(m, pages) && level < 3
    requires NodeAt(root, vp, level) in pages && NodeAt(root, vp, level + 1) in pages
    ensures pages[NodeAt(root, vp, level)] < |m|
    ensures var d := m[pages[NodeAt(root, vp, level)]][Index(vp, level)];
            Bit(d, PF_PRESENT) && d / PAGE_SIZE * PAGE_SIZE == PAGE_SIZE * pages[NodeAt(root, vp, level + 1)]
  {
    var n, i := NodeAt(root, vp, level), Index(vp, level);
    PathStep(root, vp, level);
    assert NodeOk(m, pages, n) && LinkOk(m, pages, n, i);
    LinkFields(pages[Child(n, i)], BootLink(n, i));
    DivModUnique(m[pages[n]][i], PAGE_SIZE, pages[Child(n, i)], if BootLink(n, i) then 3 else 7);
  }

  lemma InsertStep(m: seq<Frame>, pages: Pages, root: nat, vp: nat, phys: Word, d: Word)
    requires TreeOk(m, pages) && NodeAt(root, vp, 3) in pages && vp < VPAGES
    requires d == phys / PAGE_SIZE * PAGE_SIZE + 7
    ensures pages[NodeAt(root, vp, 3)] < |m| && Root(root) in pages
    ensures var m' := SetEntry(m, pages[NodeAt(root, vp, 3)], Index(vp, 3), d);
            && TreeOk(m', pages)
            && Translate(m', pages, root, vp) == Some(Mapped(root, phys, vp))
            && forall r: nat, p: nat :: p < VPAGES && (r != root || p != vp) ==>
                 Translate(m', pages, r, p) == Translate(m, pages, r, p)
  {
    InsertKeepsTree(m, pages, root, vp, d);
    AncestorsPresent(m, pages, root, vp, 3, 0);
    RootIsOnEveryPath(root, vp);
    InsertSetsWalk(m, pages, root, vp, phys, d, 0);
    var m' := SetEntry(m, pages[NodeAt(root, vp, 3)], Index(vp, 3), d);
    forall r: nat, p: nat | p < VPAGES && (r != root || p != vp)
      ensures Translate(m', pages, r, p) == Translate(m, pages, r, p)
    {
      RootIsOnEveryPath(r, p);
      if Root(r) in pages { InsertKeepsOtherWalks(m, pages, root, vp, d, r, p, 0, true, true); }
    }
  }

  /** The run-time root: a fresh zero page that changes nothing for the boot tree and maps nothing itself. */
  lemma AddRuntimeRoot(m: seq<Frame>, pages: Pages, f: nat)
    requires TreeOk(m, pages) && Root(RUNTIME) !in pages && Root(BOOT) in pages
    requires 0 < f < |m| && f < FRAMES && forall k :: k in pages ==> pages[k] != f
    ensures var m', pages' := m[f := ZeroFrame()], pages[Root(RUNTIME) := f];
            && TreeOk(m', pages')
            && forall p: nat :: p < VPAGES ==>
                 && Translate(m', pages', BOOT, p) == Translate(m, pages, BOOT, p)
                 && Translate(m', pages', RUNTIME, p) == None
  {
    var m', pages' := m[f := ZeroFrame()], pages[Root(RUNTIME) := f];
    forall n | n in pages' ensures NodeOk(m', pages', n) {
      if n in pages { assert NodeOk(m, pages, n); }
    }
    forall n, i: nat | n in pages' && n.level < 3 && i < ENTRIES ensures LinkOk(m', pages', n, i) {
      assert NodeOk(m', pages', n);
      if n in pages { assert LinkOk(m, pages, n, i); }
    }
    forall p: nat | p < VPAGES ensures Translate(m', pages', BOOT, p) == Translate(m, pages, BOOT, p) {
      RootIsOnEveryPath(BOOT, p);
      ZeroingKeepsWalk(m, pages, f, BOOT, 0, p, true, true);
    }
  }

  lemma {:induction false} ZeroingKeepsWalk(m: seq<Frame>, pages: Pages, f: nat, root: nat, level: nat, vp: nat, w: bool, u: bool)
    requires TreeOk(m, pages) && NodeAt(root, vp, level) in pages
    requires f < |m| && forall k :: k in pages ==> pages[k] != f
    ensures Walk(m[f := ZeroFrame()], level, pages[NodeAt(root, vp, level)], vp, w, u)
         == Walk(m, level, pages[NodeAt(root, vp, level)], vp, w, u)
    decreases 3 - level
  {
    var n, i := NodeAt(root, vp, level), Index(vp, level);
    assert NodeOk(m, pages, n);
    if level < 3 {
      assert LinkOk(m, pages, n, i);
      PathStep(root, vp, level);
      if Child(n, i) in pages {
        LinkFields(pages[Child(n, i)], BootLink(n, i));
        var d := m[pages[n]][i];
        ZeroingKeepsWalk(m, pages, f, root, level + 1, vp, w && Bit(d, PF_WRITABLE), u && Bit(d, PF_USER));
      }
    }
  }
}
