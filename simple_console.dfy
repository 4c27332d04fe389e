/**
 * The earlier text console of kprintf.c: the same cursor globals and frame
 * buffer as the console of src/lib/kprintf.c, but `kputchar` knows only the
 * newline (a backspace is stored like any other character), and a cursor
 * that leaves the last row wraps to row 0 instead of scrolling. `kprintf`
 * prints its string as it is, with no conversions.
 */
module SimpleConsole {
  import opened TextScreen
  import opened NumberFormat

  /** `kputchar(c)` of kprintf.c. */
  function WrapPutChar(s: Screen, c: char): (r: Screen)
    requires Inside(s)
    ensures Inside(r)
  {
    var m :=
      if c == '\n' then s.(x := 0, y := s.y + 1)
      else
        var cells := s.cells[Index(s.x, s.y) := Cell(c, ATTR)];
        if s.x + 1 >= VGA_WIDTH then Screen(0, s.y + 1, cells) else Screen(s.x + 1, s.y, cells);
    if m.y >= VGA_HEIGHT then m.(y := 0) else m
  }

  /** `t` printed by the wrapping `kputchar`, one character after the other. */
  function WrapPutAll(s: Screen, t: seq<char>): (r: Screen)
    requires Inside(s)
    ensures Inside(r)
    decreases |t|
  {
    if |t| == 0 then s else WrapPutChar(WrapPutAll(s, t[..|t| - 1]), t[|t| - 1])
  }

  lemma WrapPutAllSnoc(s: Screen, t: seq<char>, c: char)
    requires Inside(s)
    ensures WrapPutAll(s, t + [c]) == WrapPutChar(WrapPutAll(s, t), c)
  {
    assert (t + [c])[..|t + [c]| - 1] == t;
  }

  /**
   * Any character other than a newline, the backspace included, lands at
   * the cursor with attribute 0x07 and no other cell changes; the cursor
   * moves one cell on in row order, and from the bottom-right cell back to
   * the origin.
   */
  lemma WrapPutCharOrdinary(s: Screen, c: char)
    requires Inside(s) && c != '\n'
    ensures var r := WrapPutChar(s, c);
      r.cells == s.cells[Index(s.x, s.y) := Cell(c, ATTR)]
      && Index(r.x, r.y) == (Index(s.x, s.y) + 1) % CELLS
  {
  }

  /** A newline moves to column 0 of the next row, from the last row to row 0, and writes nothing. */
  lemma WrapPutCharNewline(s: Screen)
    requires Inside(s)
    ensures var r := WrapPutChar(s, '\n');
      r.x == 0 && r.y == (s.y + 1) % VGA_HEIGHT && r.cells == s.cells
  {
  }

  /**
   * The two consoles agree on every character that neither scrolls the
   * scrolling console nor is a backspace: they differ only at the bottom of
   * the screen and on '\b'.
   */
  lemma WrapAgreesBeforeBottom(s: Screen, c: char)
    requires Inside(s) && c != BACKSPACE
    requires s.y < VGA_HEIGHT - 1 || (c != '\n' && s.x < VGA_WIDTH - 1)
    ensures WrapPutChar(s, c) == PutChar(s, c)
  {
  }

  /**
   * Text without newlines fills the screen in row order from the cursor and
   * wraps around: the cursor ends |t| cells further on, modulo the 2000 cells.
   */
  lemma {:induction false} WrapCursor(s: Screen, t: seq<char>)
    requires Inside(s) && '\n' !in t
    ensures var r := WrapPutAll(s, t);
      Index(r.x, r.y) == (Index(s.x, s.y) + |t|) % CELLS
    decreases |t|
  {
    if |t| > 0 {
      var init := t[..|t| - 1];
      assert '\n' !in init by {
        assert forall j :: 0 <= j < |init| ==> init[j] == t[j];
      }
      WrapCursor(s, init);
      WrapPutCharOrdinary(WrapPutAll(s, init), t[|t| - 1]);
      NextCell(Index(s.x, s.y) + |init|);
    }
  }

  /** One cell on from a position reduced modulo the screen is one cell on from the position. */
  lemma NextCell(a: nat)
    ensures (a % CELLS + 1) % CELLS == (a + 1) % CELLS
  {
    var q := a / CELLS;
    assert a == q * CELLS + a % CELLS;
    assert a + 1 == q * CELLS + (a % CELLS + 1);
  }

  /** Printing a then b is printing a + b. */
  lemma {:induction false} WrapPutAllConcat(s: Screen, a: seq<char>, b: seq<char>)
    requires Inside(s)
    ensures WrapPutAll(WrapPutAll(s, a), b) == WrapPutAll(s, a + b)
    decreases |b|
  {
    if |b| == 0 {
      assert a + b == a;
    } else {
      var init := b[..|b| - 1];
      WrapPutAllConcat(s, a, init);
      assert a + b == (a + init) + [b[|b| - 1]];
      WrapPutAllSnoc(s, a + init, b[|b| - 1]);
    }
  }

  class Console {
    /** kprint_x. */
    var x: int
    /** kprint_y. */
    var y: int
    /** The 80x25 text-mode frame buffer at 0xB8000. */
    const video: array<Cell>

    function State(): Screen
      reads this, video
    {
      Screen(x, y, video[..])
    }

    /** The cursor is on the screen. */
    predicate Valid()
      reads this, video
    {
      Inside(State())
    }

    /** The console as the kernel starts it: the cursor at (0, 0), the frame buffer as the loader left it. */
    constructor(frame: array<Cell>)
      requires frame.Length == CELLS
      ensures Valid() && video == frame && State() == Screen(0, 0, frame[..])
    {
      x, y := 0, 0;
      video := frame;
    }

    /** `kputchar(c)`: a newline, or the character stored at the cursor; row 25 wraps to row 0. */
    method KPutChar(c: char)
      requires Valid()
      modifies this, video
      ensures Valid() && State() == WrapPutChar(old(State()), c)
    {
      if c == '\n' {
        x := 0;
        y := y + 1;
      } else {
        var pos := y * 80 + x;
        video[pos] := Cell(c, ATTR);
        x := x + 1;
        if x >= VGA_WIDTH {
          x := 0;
          y := y + 1;
        }
      }
      if y >= VGA_HEIGHT {
        y := 0;
      }
    }

    /** `kprintf(s)`: the characters of s up to its terminator, in order, each through `kputchar`. */
    method KPrintf(s: seq<char>)
      requires Valid()
      modifies this, video
      ensures Valid() && State() == WrapPutAll(old(State()), UntilNul(s))
    {
      var j := 0;
      while j < |s| && s[j] != '\0'
        invariant j <= |s| && Valid()
        invariant '\0' !in s[..j]
        invariant State() == WrapPutAll(old(State()), s[..j])
      {
        KPutChar(s[j]);
        WrapPutAllSnoc(old(State()), s[..j], s[j]);
        assert s[..j + 1] == s[..j] + [s[j]];
        j := j + 1;
      }
      UntilNulAt(s, j);
    }

    /** `kclear_screen`: every cell becomes a blank and the cursor returns to (0, 0). */
    method KClearScreen()
      requires video.Length == CELLS
      modifies this, video
      ensures Valid() && State() == Cleared()
    {
      var i := 0;
      while i < CELLS
        invariant 0 <= i <= CELLS
        invariant forall q :: 0 <= q < i ==> video[q] == BLANK
      {
        video[i] := BLANK;
        i := i + 1;
      }
      x := 0;
      y := 0;
      assert video[..] == BlankCells(CELLS);
    }

    /** `kset_cursor_position(x, y)`: a position off the screen is ignored. */
    method KSetCursorPosition(nx: int, ny: int)
      requires Valid()
      modifies this
      ensures Valid()
      ensures if 0 <= nx < VGA_WIDTH && 0 <= ny < VGA_HEIGHT then x == nx && y == ny
              else x == old(x) && y == old(y)
    {
      if 0 <= nx < VGA_WIDTH && 0 <= ny < VGA_HEIGHT {
        x := nx;
        y := ny;
      }
    }
  }
}
