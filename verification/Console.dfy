/** The VGA text console (platform/x86_64/native/console.c): a 25 by 80 buffer that scrolls in place, as a window
    on an unbounded log of rows. */
module Console {
  import opened Bits
  import opened Wrappers

  const ROWS: nat := 25
  const COLUMNS: nat := 80

  type Row = r: seq<nat> | |r| == COLUMNS witness seq(COLUMNS, _ => 0)

  function Blank(): (r: Row)
    ensures forall x :: 0 <= x < COLUMNS ==> r[x] == 0
  {
    seq(COLUMNS, _ => 0)
  }

  /** `0x0700 | ch` stored in 16 bits; `ch` is a signed char. */
  function Cell(ch: Byte): nat {
    Or(0x0700, if ch < 0x80 then ch else 0xff00 + ch)
  }

  /** A 7-bit character keeps its code, under the attribute byte. */
  lemma CellOfAscii(ch: Byte)
    ensures ch < 0x80 ==> Cell(ch) == 0x0700 + ch
  {
    if ch < 0x80 {
      assert Pow2(8) == 0x100;
      OrDisjoint(0x0700, ch, 8);
    }
  }

  // The specification: rows are appended, the cursor is in the last one.

  datatype Screen = Screen(log: seq<Row>, x: nat)

  predicate ScreenOk(s: Screen) {
    s.log != [] && s.x < COLUMNS
  }

  function EmptyScreen(): (s: Screen)
    ensures ScreenOk(s)
  {
    Screen([Blank()], 0)
  }

  function NextLine(s: Screen): (r: Screen)
    ensures ScreenOk(r)
  {
    Screen(s.log + [Blank()], 0)
  }

  function Put(s: Screen, ch: Byte): (r: Screen)
    requires ScreenOk(s)
    ensures ScreenOk(r)
  {
    if ch == 10 then NextLine(s)
    else if ch == 13 then Screen(s.log, 0)
    else
      var n := |s.log| - 1;
      var log := s.log[n := s.log[n][s.x := Cell(ch)]];
      if s.x + 1 >= COLUMNS then NextLine(Screen(log, 0)) else Screen(log, s.x + 1)
  }

  function Replay(text: seq<Byte>): (s: Screen)
    ensures ScreenOk(s)
  {
    if text == [] then EmptyScreen() else Put(Replay(text[..|text| - 1]), text[|text| - 1])
  }

  lemma ReplayStep(text: seq<Byte>, ch: Byte)
    ensures Replay(text + [ch]) == Put(Replay(text), ch)
  {
    assert (text + [ch])[..|text|] == text;
  }

  lemma WindowRange(log: seq<Row>)
    requires log != []
    ensures 0 <= |log| - 1 - Top(log) < ROWS
  {
  }

  // What the text means, character by character.

  /** Line feed, byte 10: a new blank row, the cursor at its start. */
  lemma LineFeed(text: seq<Byte>)
    ensures var (s, t) := (Replay(text), Replay(text + [10])); t.log == s.log + [seq(80, k => 0)] && t.x == 0
  {
    ReplayStep(text, 10);
    assert Blank() == seq(80, k => 0);
  }

  /** Carriage return, byte 13: the cursor at the start of its row, the text as it was. */
  lemma CarriageReturn(text: seq<Byte>)
    ensures var (s, t) := (Replay(text), Replay(text + [13])); t.log == s.log && t.x == 0
  {
    ReplayStep(text, 13);
  }

  predicate Printable(word: seq<Byte>) {
    forall k :: 0 <= k < |word| ==> 0x20 <= word[k] < 0x7f
  }

  /** Light grey on black. */
  function Cells(word: seq<Byte>): (cells: seq<nat>)
    ensures |cells| == |word|
  {
    seq(|word|, k requires 0 <= k < |word| => var c: nat := word[k]; 0x700 + c)
  }

  /** The row with cells written from column x on. */
  function Overwritten(row: Row, x: nat, cells: seq<nat>): Row
    requires x + |cells| <= 80
  {
    row[..x] + cells + row[x + |cells|..]
  }

  /** Printable characters that leave room in the row appear in it, one cell after the other. */
  lemma {:induction false} TypedWord(text: seq<Byte>, word: seq<Byte>)
    requires Printable(word) && Replay(text).x + |word| < 80
    ensures var (s, t) := (Replay(text), Replay(text + word)); var n := |s.log| - 1;
            t.log == s.log[n := Overwritten(s.log[n], s.x, Cells(word))] && t.x == s.x + |word|
  {
    hide Cell, Replay;
    var s := Replay(text);
    var row := s.log[|s.log| - 1];
    if word == [] {
      assert text + word == text && Overwritten(row, s.x, Cells(word)) == row;
    } else {
      var init, ch := word[..|word| - 1], word[|word| - 1];
      TypedWord(text, init);
      assert text + word == text + init + [ch];
      ReplayStep(text + init, ch);
      CellOfAscii(ch);
      OneMoreCell(row, s.x, init, ch);
      assert init + [ch] == word;
    }
  }

  lemma OneMoreCell(row: Row, x: nat, init: seq<Byte>, ch: Byte)
    requires x + |init| < 80
    ensures Overwritten(row, x, Cells(init))[x + |init| := 0x700 + ch] == Overwritten(row, x, Cells(init + [ch]))
  {
    assert Cells(init + [ch]) == Cells(init) + [0x700 + ch as nat];
  }

  /** The character that fills the row also starts the next one. */
  lemma LastColumn(text: seq<Byte>, ch: Byte)
    requires 0x20 <= ch < 0x7f && Replay(text).x == 79
    ensures var (s, t) := (Replay(text), Replay(text + [ch])); var n := |s.log| - 1;
            t.log == s.log[n := s.log[n][79 := 0x700 + ch]] + [seq(80, k => 0)] && t.x == 0
  {
    hide Cell;
    ReplayStep(text, ch);
    CellOfAscii(ch);
    assert Blank() == seq(80, k => 0);
  }

  /** A row that the cursor has left never changes again. */
  lemma {:induction false} FinishedRowsStay(text: seq<Byte>, more: seq<Byte>)
    ensures var n := |Replay(text).log| - 1;
            n < |Replay(text + more).log| && Replay(text + more).log[..n] == Replay(text).log[..n]
  {
    hide Put, Replay;
    if more == [] {
      assert text + more == text;
    } else {
      var init, last := more[..|more| - 1], more[|more| - 1];
      FinishedRowsStay(text, init);
      assert text + more == text + init + [last];
      ReplayStep(text + init, last);
      PutKeepsRows(Replay(text + init), last, |Replay(text).log| - 1);
    }
  }

  lemma PutKeepsRows(s: Screen, ch: Byte, n: nat)
    requires ScreenOk(s) && n < |s.log|
    ensures n < |Put(s, ch).log| && Put(s, ch).log[..n] == s.log[..n]
  {
  }

  /** The number of rows that have scrolled off. */
  function Top(log: seq<Row>): nat {
    if |log| > ROWS then |log| - ROWS else 0
  }

  /** What row y of the window shows: the last 25 rows of the log, blank below its end. */
  function Shown(log: seq<Row>, x: nat, y: nat): nat
    requires x < COLUMNS
  {
    if Top(log) + y < |log| then log[Top(log) + y][x] else 0
  }

  ghost predicate Shows(buffer: seq<nat>, log: seq<Row>) {
    |buffer| == ROWS * COLUMNS &&
    forall x: nat, y: nat :: x < COLUMNS && y < ROWS ==> CellAt(buffer, x, y) == Shown(log, x, y)
  }

  function CellAt(buffer: seq<nat>, x: nat, y: nat): nat {
    if x + y * COLUMNS < |buffer| then buffer[x + y * COLUMNS] else 0
  }

  /** Below 25 rows, a new blank row shows as the blank space that was there. */
  lemma GrownShows(buffer: seq<nat>, log: seq<Row>)
    requires Shows(buffer, log) && 0 < |log| < ROWS
    ensures Shows(buffer, log + [Blank()])
  {
    forall x: nat, y: nat | x < COLUMNS && y < ROWS ensures CellAt(buffer, x, y) == Shown(log + [Blank()], x, y) {
      assert CellAt(buffer, x, y) == Shown(log, x, y);
    }
  }

  /** From 25 rows on, shifting the buffer up and blanking its last row shows the log with one row more. */
  lemma ScrolledShows(before: seq<nat>, after: seq<nat>, log: seq<Row>)
    requires Shows(before, log) && |log| >= ROWS && |after| == ROWS * COLUMNS
    requires forall k: nat :: k < (ROWS - 1) * COLUMNS ==> after[k] == before[k + COLUMNS]
    requires forall k: nat :: (ROWS - 1) * COLUMNS <= k < ROWS * COLUMNS ==> after[k] == 0
    ensures Shows(after, log + [Blank()])
  {
    forall x: nat, y: nat | x < COLUMNS && y < ROWS ensures CellAt(after, x, y) == Shown(log + [Blank()], x, y) {
      if y < ROWS - 1 {
        assert CellAt(before, x, y + 1) == Shown(log, x, y + 1);
        assert after[x + y * COLUMNS] == before[x + y * COLUMNS + COLUMNS];
      } else {
        assert after[x + y * COLUMNS] == 0;
      }
    }
  }

  /** Writing the cursor's cell shows the log with that cell written. */
  lemma WrittenShows(buffer: seq<nat>, log: seq<Row>, x: nat, cell: nat)
    requires Shows(buffer, log) && log != [] && x < COLUMNS
    ensures var n := |log| - 1; var at := x + (n - Top(log)) * COLUMNS;
            at < |buffer| && Shows(buffer[at := cell], log[n := log[n][x := cell]])
  {
    var n := |log| - 1;
    var y := n - Top(log);
    var log' := log[n := log[n][x := cell]];
    forall x': nat, y': nat | x' < COLUMNS && y' < ROWS
      ensures CellAt(buffer[x + y * COLUMNS := cell], x', y') == Shown(log', x', y')
    {
      assert CellAt(buffer, x', y') == Shown(log, x', y');
      SlotsDistinct(x, y, x', y');
    }
  }

  lemma SlotsDistinct(x: nat, y: nat, x': nat, y': nat)
    requires x < COLUMNS && x' < COLUMNS
    ensures x + y * COLUMNS == x' + y' * COLUMNS ==> x == x' && y == y'
  {
  }

  // The program.

  class VgaConsole {
    const vga: array<nat>
    var curX: nat
    var curY: nat
    ghost var history: seq<Byte>    // since the last clear

    /** The buffer is the window on the log, and the cursor is the log's cursor, inside the window. */
    ghost predicate Valid()
      reads this, vga
    {
      var s := Replay(history);
      && Shows(vga[..], s.log)
      && curX == s.x && curY == |s.log| - 1 - Top(s.log)
    }

    constructor (memory: array<nat>)
      requires memory.Length == ROWS * COLUMNS
      modifies memory
      ensures Valid() && history == [] && vga == memory
    {
      vga := memory;
      curX, curY := 0, 0;
      history := [];
      new;
      ConsoleClear();
    }

    /** None is the NULL that out-of-range coordinates give. */
    function SlotFromXY(x: nat, y: nat): Option<nat> {
      if x >= COLUMNS then None
      else if y >= ROWS then None
      else Some(x + y * COLUMNS)
    }

    method ConsoleClear()
      requires vga.Length == ROWS * COLUMNS
      modifies this, vga
      ensures Valid() && history == []
    {
      for i := 0 to ROWS * COLUMNS
        invariant forall k :: 0 <= k < i ==> vga[k] == 0
      {
        vga[i] := 0;
      }
      curX := 0;
      curY := 0;
      history := [];
    }

    /** No cursor position makes the slot lookup return NULL. */
    lemma CursorHasSlot()
      requires Valid()
      ensures SlotFromXY(curX, curY).Some?
    {
    }

    method NewLine(ghost s: Screen)
      requires ScreenOk(s) && Shows(vga[..], s.log) && curY == |s.log| - 1 - Top(s.log)
      modifies this`curX, this`curY, vga
      ensures Shows(vga[..], NextLine(s).log) && curX == 0 && curY == |NextLine(s).log| - 1 - Top(NextLine(s).log)
    {
      curX := 0;
      curY := curY + 1;
      if curY >= ROWS {
        curY := ROWS - 1;
        ghost var before := vga[..];
        ScrollUp();
        ClearLastRow();
        ScrolledShows(before, vga[..], s.log);
      } else {
        GrownShows(vga[..], s.log);
      }
    }

    /** The nested copy loop of `new_line`. */
    method ScrollUp()
      requires vga.Length == ROWS * COLUMNS
      modifies vga
      ensures forall k :: 0 <= k < (ROWS - 1) * COLUMNS ==> vga[k] == old(vga[k + COLUMNS])
    {
      for y := 0 to ROWS - 1
        invariant forall k :: 0 <= k < y * COLUMNS ==> vga[k] == old(vga[k + COLUMNS])
        invariant forall k :: y * COLUMNS <= k < ROWS * COLUMNS ==> vga[k] == old(vga[k])
      {
        for x := 0 to COLUMNS
          invariant forall k :: 0 <= k < y * COLUMNS + x ==> vga[k] == old(vga[k + COLUMNS])
          invariant forall k :: y * COLUMNS + x <= k < ROWS * COLUMNS ==> vga[k] == old(vga[k])
        {
          ghost var k := y * COLUMNS + x;
          assert SlotFromXY(x, y) == Some(k) && SlotFromXY(x, y + 1) == Some(k + COLUMNS);
          assert vga[k + COLUMNS] == old(vga[k + COLUMNS]);
          vga[SlotFromXY(x, y).value] := vga[SlotFromXY(x, y + 1).value];
        }
      }
    }

    method ClearLastRow()
      requires vga.Length == ROWS * COLUMNS
      modifies vga
      ensures forall k :: 0 <= k < (ROWS - 1) * COLUMNS ==> vga[k] == old(vga[k])
      ensures forall k :: (ROWS - 1) * COLUMNS <= k < ROWS * COLUMNS ==> vga[k] == 0
    {
      for x := 0 to COLUMNS
        invariant forall k :: 0 <= k < (ROWS - 1) * COLUMNS ==> vga[k] == old(vga[k])
        invariant forall k :: (ROWS - 1) * COLUMNS <= k < (ROWS - 1) * COLUMNS + x ==> vga[k] == 0
      {
        vga[SlotFromXY(x, ROWS - 1).value] := 0;
      }
    }

    method ConsolePutc(ch: Byte)
      requires Valid()
      modifies this, vga
      ensures Valid() && history == old(history) + [ch]
    {
      hide Shows, Shown, Cell, Replay;
      ghost var s := Replay(history);
      ReplayStep(history, ch);
      WindowRange(s.log);
      history := history + [ch];
      if ch == 10 {
        NewLine(s);
      } else if ch == 13 {
        curX := 0;
      } else {
        var slot := SlotFromXY(curX, curY);
        ghost var n := |s.log| - 1;
        ghost var log := s.log[n := s.log[n][s.x := Cell(ch)]];
        WrittenShows(vga[..], s.log, s.x, Cell(ch));
        ghost var before := vga[..];
        vga[slot.value] := Cell(ch);
        assert vga[..] == before[slot.value := Cell(ch)];
        curX := curX + 1;
        if curX >= COLUMNS {
          NewLine(Screen(log, 0));
        }
      }
    }
  }
}
