/**
 * The 80x25 VGA text screen both console variants write (src/lib/kprintf.c,
 * kprintf.c), as values: 2000 cells of a character and an attribute, in row
 * order, and the cursor (kprint_x, kprint_y). The C code stores a cell as two
 * bytes, character then attribute, at `(y * 80 + x) * 2`; the model keeps the
 * pair as one Cell at index `y * 80 + x`.
 *
 * PutChar is what `kputchar` of src/lib/kprintf.c does to the screen;
 * PutAll prints a string one character after the other.
 */
module TextScreen {
  const VGA_WIDTH: nat := 80
  const VGA_HEIGHT: nat := 25
  const CELLS: nat := 2000
  /** Light grey on black. */
  const ATTR: nat := 0x07
  /** '\b'. */
  const BACKSPACE: char := 8 as char

  datatype Cell = Cell(ch: char, attr: nat)

  const BLANK: Cell := Cell(' ', ATTR)

  datatype Screen = Screen(x: int, y: int, cells: seq<Cell>)

  /** The cursor is on the screen and there are 2000 cells. */
  predicate Inside(s: Screen)
  {
    0 <= s.x < VGA_WIDTH && 0 <= s.y < VGA_HEIGHT && |s.cells| == CELLS
  }

  /** The cell index of column x of row y. */
  function Index(x: int, y: int): int
  {
    y * 80 + x
  }

  function BlankCells(n: nat): (r: seq<Cell>)
    ensures |r| == n && forall i :: 0 <= i < n ==> r[i] == BLANK
  {
    seq(n, _ => BLANK)
  }

  /** A cleared screen: every cell a blank, the cursor at the origin. */
  function Cleared(): (r: Screen)
    ensures Inside(r)
  {
    Screen(0, 0, BlankCells(CELLS))
  }

  /** `scroll_screen`: every row moves up one and the last row is blanked. */
  function Scroll(cells: seq<Cell>): (r: seq<Cell>)
    requires |cells| == CELLS
    ensures |r| == CELLS
  {
    cells[VGA_WIDTH..] + BlankCells(VGA_WIDTH)
  }

  /** Row r + 1 becomes row r for r < 24 (cells 0..1919), and row 24 is blank. */
  lemma ScrollRows(cells: seq<Cell>)
    requires |cells| == CELLS
    ensures forall i :: 0 <= i < CELLS - VGA_WIDTH ==> Scroll(cells)[i] == cells[i + VGA_WIDTH]
    ensures forall i :: CELLS - VGA_WIDTH <= i < CELLS ==> Scroll(cells)[i] == BLANK
  {
  }

  /** Where a backspace at (x, y) moves the cursor. */
  function BackPosition(x: int, y: int): (int, int)
  {
    if x > 0 then (x - 1, y)
    else if y > 0 then (VGA_WIDTH - 1, y - 1)
    else (x, y)
  }

  /** `kputchar(c)` of src/lib/kprintf.c, before the scroll check. */
  function Advance(s: Screen, c: char): (r: Screen)
    requires Inside(s)
    ensures 0 <= r.x < VGA_WIDTH && 0 <= r.y <= VGA_HEIGHT && |r.cells| == CELLS
  {
    if c == '\n' then
      s.(x := 0, y := s.y + 1)
    else if c == BACKSPACE then
      var (px, py) := BackPosition(s.x, s.y);
      Screen(px, py, s.cells[Index(px, py) := BLANK])
    else
      var cells := s.cells[Index(s.x, s.y) := Cell(c, ATTR)];
      if s.x + 1 >= VGA_WIDTH then Screen(0, s.y + 1, cells) else Screen(s.x + 1, s.y, cells)
  }

  /**
   * `kputchar(c)`: the character's effect, then a scroll if the cursor left
   * the last row. The cursor stays on the screen.
   */
  function PutChar(s: Screen, c: char): (r: Screen)
    requires Inside(s)
    ensures Inside(r)
  {
    var m := Advance(s, c);
    if m.y >= VGA_HEIGHT then Screen(m.x, VGA_HEIGHT - 1, Scroll(m.cells)) else m
  }

  /** `t` printed one character after the other, from the first. */
  function PutAll(s: Screen, t: seq<char>): (r: Screen)
    requires Inside(s)
    ensures Inside(r)
    decreases |t|
  {
    if |t| == 0 then s else PutChar(PutAll(s, t[..|t| - 1]), t[|t| - 1])
  }

  lemma PutAllSnoc(s: Screen, t: seq<char>, c: char)
    requires Inside(s)
    ensures PutAll(s, t + [c]) == PutChar(PutAll(s, t), c)
  {
    assert (t + [c])[..|t + [c]| - 1] == t;
  }

  lemma PutAllOne(s: Screen, c: char)
    requires Inside(s)
    ensures PutAll(s, [c]) == PutChar(s, c)
  {
    PutAllSnoc(s, [], c);
    assert [] + [c] == [c];
  }

  /** Printing a then b is printing a + b. */
  lemma {:induction false} PutAllConcat(s: Screen, a: seq<char>, b: seq<char>)
    requires Inside(s)
    ensures PutAll(PutAll(s, a), b) == PutAll(s, a + b)
    decreases |b|
  {
    if |b| == 0 {
      assert a + b == a;
    } else {
      var init := b[..|b| - 1];
      PutAllConcat(s, a, init);
      assert a + b == (a + init) + [b[|b| - 1]];
      PutAllSnoc(s, a + init, b[|b| - 1]);
    }
  }

  /**
   * An ordinary character lands at the cursor with attribute 0x07, and the
   * cursor moves one column right, or to the start of the next row from the
   * last column; from the bottom-right cell the screen scrolls, so the
   * character ends up at the end of row 23.
   */
  lemma PutCharOrdinary(s: Screen, c: char)
    requires Inside(s) && c != '\n' && c != BACKSPACE
    ensures var r := PutChar(s, c);
      var written := s.cells[Index(s.x, s.y) := Cell(c, ATTR)];
      if s.x < VGA_WIDTH - 1 then r == Screen(s.x + 1, s.y, written)
      else if s.y < VGA_HEIGHT - 1 then r == Screen(0, s.y + 1, written)
      else r == Screen(0, VGA_HEIGHT - 1, Scroll(written)) && r.cells[Index(VGA_WIDTH - 1, VGA_HEIGHT - 2)] == Cell(c, ATTR)
  {
  }

  /** A newline moves to column 0 of the next row, scrolling from the last row. */
  lemma PutCharNewline(s: Screen)
    requires Inside(s)
    ensures var r := PutChar(s, '\n');
      r.x == 0
      && (s.y < VGA_HEIGHT - 1 ==> r.y == s.y + 1 && r.cells == s.cells)
      && (s.y == VGA_HEIGHT - 1 ==> r.y == s.y && r.cells == Scroll(s.cells))
  {
  }

  /**
   * A backspace steps back one cell, to the last column of the previous row
   * from column 0, and blanks the cell it lands on; at the origin the cursor
   * stays and cell 0 is blanked. It never scrolls.
   */
  lemma PutCharBackspace(s: Screen)
    requires Inside(s)
    ensures var r := PutChar(s, BACKSPACE);
      (s.x > 0 ==> r.x == s.x - 1 && r.y == s.y)
      && (s.x == 0 && s.y > 0 ==> r.x == VGA_WIDTH - 1 && r.y == s.y - 1)
      && (s.x == 0 && s.y == 0 ==> r.x == 0 && r.y == 0)
      && r.cells == s.cells[Index(r.x, r.y) := BLANK]
  {
  }

  /**
   * A backspace right after an ordinary character takes the cursor back to
   * where it was and blanks the character, unless that character was in the
   * bottom-right cell and scrolled the screen.
   */
  lemma BackspaceErases(s: Screen, c: char)
    requires Inside(s) && c != '\n' && c != BACKSPACE
    requires !(s.x == VGA_WIDTH - 1 && s.y == VGA_HEIGHT - 1)
    ensures PutChar(PutChar(s, c), BACKSPACE) == s.(cells := s.cells[Index(s.x, s.y) := BLANK])
  {
    PutCharOrdinary(s, c);
  }

  /** `t` holds neither a newline nor a backspace. */
  predicate Plain(t: seq<char>)
  {
    forall i :: 0 <= i < |t| ==> t[i] != '\n' && t[i] != BACKSPACE
  }

  /**
   * Plain text that fits on the rest of the row is written left to right
   * from the cursor, nothing else changes, and the cursor ends after it.
   */
  lemma {:induction false} PutAllOnRow(s: Screen, t: seq<char>)
    requires Inside(s) && Plain(t) && s.x + |t| < VGA_WIDTH
    ensures var r := PutAll(s, t);
      r.x == s.x + |t| && r.y == s.y
      && (forall j :: 0 <= j < |t| ==> r.cells[Index(s.x + j, s.y)] == Cell(t[j], ATTR))
      && (forall i :: 0 <= i < CELLS && !(Index(s.x, s.y) <= i < Index(s.x + |t|, s.y)) ==> r.cells[i] == s.cells[i])
    decreases |t|
  {
    if |t| > 0 {
      var init := t[..|t| - 1];
      PutAllOnRow(s, init);
      PutCharOrdinary(PutAll(s, init), t[|t| - 1]);
    }
  }
}
