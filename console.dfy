/**
 * The text console of src/lib/kprintf.c: the cursor globals kprint_x and
 * kprint_y and the frame buffer at 0xB8000, updated by `kputchar`, and the
 * number printers and format interpreter built on it. Each method states its
 * effect as the pure screen function of TextScreen applied to what it
 * prints; what it prints is stated with NumberFormat and FormatString.
 */
module Console {
  import opened PmmBits
  import opened NumberFormat
  import opened TextScreen
  import opened FormatString

  /**
   * The digit loop shared by `kprint_unsigned` and `kprint_unsigned_padded`:
   * `buffer[i++] = digit_set[num % base]; num /= base;` while num > 0. The
   * buffer holds the digits least significant first.
   */
  method FillDigits(num: u32, base: nat, upper: bool) returns (buffer: array<char>, len: nat)
    requires base == 10 || base == 16
    ensures fresh(buffer) && buffer.Length == PAD_BUFFER && len <= 10
    ensures num == 0 ==> len == 0
    ensures num > 0 ==> Reverse(buffer[..len]) == Digits(num, base, upper)
  {
    buffer := new char[PAD_BUFFER];
    len := 0;
    var n: nat := num;
    WordDigits(num, upper);
    while n > 0
      invariant len <= 10
      invariant n > 0 ==> Digits(num, base, upper) == Digits(n, base, upper) + Reverse(buffer[..len])
      invariant n > 0 ==> len + |Digits(n, base, upper)| == |Digits(num, base, upper)|
      invariant n == 0 ==> (num == 0 ==> len == 0) && (num > 0 ==> Reverse(buffer[..len]) == Digits(num, base, upper))
      decreases n
    {
      ghost var before := buffer[..len];
      var c := DigitChar(n % base, upper);
      buffer[len] := c;
      assert buffer[..len + 1] == before + [c];
      FillStep(Digits(num, base, upper), n, base, upper, before);
      QuotientSmaller(n, base);
      n := n / base;
      len := len + 1;
    }
  }

  /**
   * The first half of `kprint_unsigned_padded`: a lone '0' for 0, else the
   * digit loop, least significant digit first.
   */
  method FillDigitsOrZero(num: u32, base: nat, upper: bool) returns (buffer: array<char>, len: nat)
    requires base == 10 || base == 16
    ensures fresh(buffer) && buffer.Length == PAD_BUFFER && 1 <= len <= 10
    ensures Reverse(buffer[..len]) == Digits(num, base, upper)
  {
    if num == 0 {
      buffer := new char[PAD_BUFFER];
      buffer[0] := '0';
      len := 1;
      DigitsLeading(0, base, upper);
      assert Reverse(buffer[..len]) == ['0'];
    } else {
      buffer, len := FillDigits(num, base, upper);
    }
  }

  /** One pass of the digit loop: the last digit of n moves from the number to the buffer. */
  lemma FillStep(all: seq<char>, n: nat, base: nat, upper: bool, buffer: seq<char>)
    requires ValidBase(base) && n > 0 && all == Digits(n, base, upper) + Reverse(buffer)
    ensures var b := buffer + [DigitChar(n % base, upper)];
      (n / base > 0 ==> all == Digits(n / base, base, upper) + Reverse(b)
                        && |b| + |Digits(n / base, base, upper)| == |buffer| + |Digits(n, base, upper)|)
      && (n / base == 0 ==> all == Reverse(b) && |b| == |buffer| + |Digits(n, base, upper)|)
  {
    DigitsLast(n, base, upper);
    MoveLast(if n / base == 0 then [] else Digits(n / base, base, upper), DigitChar(n % base, upper), buffer);
  }

  /** Taking the last element off the front part and appending it to the reversed part. */
  lemma MoveLast<T>(front: seq<T>, c: T, buffer: seq<T>)
    ensures (front + [c]) + Reverse(buffer) == front + Reverse(buffer + [c])
  {
    ReverseSnoc(buffer, c);
  }

  /** The zeros the padding loop prints, then the digits, make the padded number. */
  lemma PaddedOutput(s0: Screen, n: nat, digits: seq<char>, padding: int)
    requires Inside(s0) && n == (if padding <= |digits| then 0 else padding - |digits|)
    ensures PutAll(PutAll(s0, Zeros(n)), digits) == PutAll(s0, PadLeft(digits, padding))
  {
    PutAllConcat(s0, Zeros(n), digits);
    if padding <= |digits| {
      assert Zeros(n) + digits == digits;
    }
  }

  class Console {
    /** kprint_x. */
    var x: int
    /** kprint_y. */
    var y: int
    /** The 80x25 text-mode frame buffer at 0xB8000. */
    const video: array<Cell>

    function State(): Screen
      reads this, video
    {
      Screen(x, y, video[..])
    }

    /** The cursor is on the screen. */
    predicate Valid()
      reads this, video
    {
      Inside(State())
    }

    /** The console as the kernel starts it: the cursor at (0, 0), the frame buffer as the loader left it. */
    constructor(frame: array<Cell>)
      requires frame.Length == CELLS
      ensures Valid() && video == frame && State() == Screen(0, 0, frame[..])
    {
      x, y := 0, 0;
      video := frame;
    }

    /** `scroll_screen`: the copy loop moves each of rows 1..24 up one row, then the last row is blanked. */
    method ScrollScreen()
      requires video.Length == CELLS
      modifies video
      ensures video[..] == Scroll(old(video[..]))
    {
      var line := 0;
      while line < VGA_HEIGHT - 1
        invariant 0 <= line <= VGA_HEIGHT - 1
        invariant forall i :: 0 <= i < line * 80 ==> video[i] == old(video[i + 80])
        invariant forall i :: line * 80 <= i < CELLS ==> video[i] == old(video[i])
      {
        var col := 0;
        while col < VGA_WIDTH
          invariant 0 <= col <= VGA_WIDTH
          invariant forall i :: 0 <= i < line * 80 + col ==> video[i] == old(video[i + 80])
          invariant forall i :: line * 80 + col <= i < CELLS ==> video[i] == old(video[i])
        {
          var dest := line * 80 + col;
          var src := (line + 1) * 80 + col;
          video[dest] := video[src];
          col := col + 1;
        }
        line := line + 1;
      }
      var col := 0;
      while col < VGA_WIDTH
        invariant 0 <= col <= VGA_WIDTH
        invariant forall i :: 0 <= i < CELLS - 80 ==> video[i] == old(video[i + 80])
        invariant forall i :: CELLS - 80 <= i < CELLS - 80 + col ==> video[i] == BLANK
      {
        video[(VGA_HEIGHT - 1) * 80 + col] := BLANK;
        col := col + 1;
      }
      assert video[..] == Scroll(old(video[..]));
    }

    /** `kputchar(c)`: newline, backspace or an ordinary character, then a scroll from below the last row. */
    method KPutChar(c: char)
      requires Valid()
      modifies this, video
      ensures Valid() && State() == PutChar(old(State()), c)
    {
      if c == '\n' {
        x := 0;
        y := y + 1;
      } else if c == BACKSPACE {
        if x > 0 {
          x := x - 1;
        } else if y > 0 {
          y := y - 1;
          x := VGA_WIDTH - 1;
        }
        var pos := y * 80 + x;
        video[pos] := BLANK;
      } else {
        var pos := y * 80 + x;
        video[pos] := Cell(c, ATTR);
        x := x + 1;
        if x >= VGA_WIDTH {
          x := 0;
          y := y + 1;
        }
      }
      assert State() == Advance(old(State()), c);
      if y >= VGA_HEIGHT {
        ScrollScreen();
        y := VGA_HEIGHT - 1;
      }
    }

    /** `kclear_screen`: every cell becomes a blank and the cursor returns to (0, 0). */
    method KClearScreen()
      requires video.Length == CELLS
      modifies this, video
      ensures Valid() && State() == Cleared()
    {
      var i := 0;
      while i < CELLS
        invariant 0 <= i <= CELLS
        invariant forall q :: 0 <= q < i ==> video[q] == BLANK
      {
        video[i] := BLANK;
        i := i + 1;
      }
      x := 0;
      y := 0;
      assert video[..] == BlankCells(CELLS);
    }

    /** `kset_cursor_position(x, y)`: a position off the screen is ignored. */
    method KSetCursorPosition(nx: int, ny: int)
      requires Valid()
      modifies this
      ensures Valid()
      ensures if 0 <= nx < VGA_WIDTH && 0 <= ny < VGA_HEIGHT then x == nx && y == ny
              else x == old(x) && y == old(y)
    {
      if 0 <= nx < VGA_WIDTH && 0 <= ny < VGA_HEIGHT {
        x := nx;
        y := ny;
      }
    }

    /** The emitting loop `while (i > 0) kputchar(buffer[--i]);`. */
    method EmitReversed(buffer: array<char>, len: nat)
      requires Valid() && len <= buffer.Length
      modifies this, video
      ensures Valid() && State() == PutAll(old(State()), Reverse(old(buffer[..len])))
    {
      var i := len;
      while i > 0
        invariant 0 <= i <= len && Valid()
        invariant State() == PutAll(old(State()), Reverse(buffer[i..len]))
      {
        i := i - 1;
        ghost var rest := buffer[i + 1..len];
        assert buffer[i..len][1..] == rest && buffer[i..len][0] == buffer[i];
        KPutChar(buffer[i]);
        PutAllSnoc(old(State()), Reverse(rest), buffer[i]);
      }
      assert buffer[0..len] == buffer[..len];
    }

    /** `kprint_unsigned(num, base, uppercase)`: the digits of num, most significant first, "0" for 0. */
    method KPrintUnsigned(num: u32, base: nat, upper: bool)
      requires Valid() && (base == 10 || base == 16)
      modifies this, video
      ensures Valid() && State() == PutAll(old(State()), Digits(num, base, upper))
    {
      ghost var s0 := State();
      if num == 0 {
        KPutChar('0');
        PutAllOne(s0, '0');
        DigitsLeading(0, base, upper);
      } else {
        var buffer, len := FillDigits(num, base, upper);
        ghost var digits := Reverse(buffer[..len]);
        assert digits == Digits(num, base, upper);
        EmitReversed(buffer, len);
        assert State() == PutAll(s0, digits);
      }
    }

    /** `kprint_number(num, base, uppercase)`: a '-' for a negative number, then its magnitude. */
    method KPrintNumber(num: int, base: nat, upper: bool)
      requires Valid() && (base == 10 || base == 16) && -0x8000_0000 <= num < 0x8000_0000
      modifies this, video
      ensures Valid() && State() == PutAll(old(State()), Signed(num, base, upper))
    {
      ghost var s0 := State();
      ghost var sign: seq<char> := [];
      var n := num;
      if num < 0 {
        KPutChar('-');
        PutAllOne(s0, '-');
        // (unsigned int)-num: the magnitude, 2^31 for INT_MIN
        n := -num;
        sign := ['-'];
      }
      assert State() == PutAll(s0, sign);
      ghost var body := Digits(n, base, upper);
      assert sign + body == Signed(num, base, upper);
      KPrintUnsigned(n, base, upper);
      PutAllConcat(s0, sign, body);
    }

    /**
     * `kprint_unsigned_padded(num, base, uppercase, padding)`, corrected: the
     * digits go into the 32-slot buffer as in the source, and the padding
     * zeros are printed before them instead of being stored after them, so
     * no width overflows the buffer.
     */
    method KPrintUnsignedPadded(num: u32, base: nat, upper: bool, padding: int)
      requires Valid() && (base == 10 || base == 16)
      modifies this, video
      ensures Valid() && State() == PutAll(old(State()), PadLeft(Digits(num, base, upper), padding))
    {
      var buffer, len := FillDigitsOrZero(num, base, upper);
      ghost var s0 := State();
      ghost var digits := Reverse(buffer[..len]);
      var zeros := if padding > len then padding - len else 0;
      EmitZeros(zeros);
      ghost var mid := State();
      EmitReversed(buffer, len);
      assert State() == PutAll(mid, digits);
      PaddedOutput(s0, zeros, digits, padding);
    }

    /** The padding loop `while (i < padding) ... '0'`, printing its n zeros. */
    method EmitZeros(n: nat)
      requires Valid()
      modifies this, video
      ensures Valid() && State() == PutAll(old(State()), Zeros(n))
    {
      var z := 0;
      while z < n
        invariant z <= n && Valid()
        invariant State() == PutAll(old(State()), Zeros(z))
      {
        KPutChar('0');
        PutAllSnoc(old(State()), Zeros(z), '0');
        assert Zeros(z) + ['0'] == Zeros(z + 1);
        z := z + 1;
      }
    }

    /** `kprint_number_padded(num, base, padding)`: the '-' takes one place of the width. */
    method KPrintNumberPadded(num: int, base: nat, padding: int)
      requires Valid() && (base == 10 || base == 16) && -0x8000_0000 <= num < 0x8000_0000
      modifies this, video
      ensures Valid() && State() == PutAll(old(State()), SignedPadded(num, base, padding))
    {
      ghost var s0 := State();
      ghost var sign: seq<char> := [];
      var n := num;
      var width := padding;
      if num < 0 {
        KPutChar('-');
        PutAllOne(s0, '-');
        n := -num;
        width := width - 1;
        sign := ['-'];
      }
      assert State() == PutAll(s0, sign);
      ghost var body := PadLeft(Digits(n, base, false), width);
      assert sign + body == SignedPadded(num, base, padding);
      KPrintUnsignedPadded(n, base, false, width);
      PutAllConcat(s0, sign, body);
    }

    /** The `%s` loop `while (*str) kputchar(*str++);`. */
    method PutString(t: seq<char>)
      requires Valid()
      modifies this, video
      ensures Valid() && State() == PutAll(old(State()), UntilNul(t))
    {
      var j := 0;
      while j < |t| && t[j] != '\0'
        invariant j <= |t| && Valid()
        invariant '\0' !in t[..j]
        invariant State() == PutAll(old(State()), t[..j])
      {
        KPutChar(t[j]);
        PutAllSnoc(old(State()), t[..j], t[j]);
        assert t[..j + 1] == t[..j] + [t[j]];
        j := j + 1;
      }
      UntilNulAt(t, j);
    }

    /**
     * The `switch` of `kprintf` on the character after the '%' at position i,
     * with the terminator checked: a string that ends right after the '%'
     * prints '%' alone. Returns the position of the last character examined
     * and the number of arguments taken.
     */
    method PrintConversion(fmt: seq<char>, args: seq<Arg>, i: nat, k: nat) returns (last: nat, used: nat)
      requires Valid() && i < |fmt| && fmt[i] == '%'
      modifies this, video
      ensures Valid() && State() == PutAll(old(State()), Directive(fmt, args, i, k).out)
      ensures last == Directive(fmt, args, i, k).last && used == Directive(fmt, args, i, k).used
    {
      var c := At(fmt, i + 1);
      var arg := ArgAt(args, k);
      var w := WordOf(arg);
      last, used := i + 1, 1;
      if c == 'd' {
        KPrintNumber(SignedOf(w), 10, false);
      } else if c == 'u' {
        KPrintUnsigned(w, 10, false);
      } else if c == 'x' {
        KPrintUnsigned(w, 16, false);
      } else if c == 'X' {
        KPrintUnsigned(w, 16, true);
      } else if c == 'p' {
        PrintPointer(w);
      } else if c == 'c' {
        KPutChar(CharOf(w));
        PutAllOne(old(State()), CharOf(w));
      } else if c == 's' {
        PrintStringArg(arg);
      } else if c == '%' {
        KPutChar('%');
        PutAllOne(old(State()), '%');
        used := 0;
      } else if c == '0' {
        last, used := PrintPadded(fmt, args, i, k);
      } else {
        KPutChar('%');
        PutAllOne(old(State()), '%');
        used := 0;
        if c != '\0' {
          KPutChar(c);
          PutAllSnoc(old(State()), "%", c);
          assert "%" + [c] == ['%', c];
        }
      }
    }

    /** The `%p` branch: "0x", then the address in lower-case hexadecimal. */
    method PrintPointer(w: u32)
      requires Valid()
      modifies this, video
      ensures Valid() && State() == PutAll(old(State()), "0x" + Digits(w, 16, false))
    {
      ghost var s0 := State();
      KPutChar('0');
      KPutChar('x');
      PutAllOne(s0, '0');
      PutAllSnoc(s0, "0", 'x');
      assert "0" + ['x'] == "0x";
      KPrintUnsigned(w, 16, false);
      PutAllConcat(s0, "0x", Digits(w, 16, false));
    }

    /** The `%s` branch: the string up to its terminator, "(null)" for a NULL pointer. */
    method PrintStringArg(arg: Arg)
      requires Valid()
      modifies this, video
      ensures Valid() && State() == PutAll(old(State()), StringOut(arg))
    {
      match arg
      case Str(t) =>
        PutString(t);
      case Null =>
        PutString("(null)");
        UntilNulWhole("(null)", []);
      case Int(v) =>
        if v == 0 {
          PutString("(null)");
          UntilNulWhole("(null)", []);
        } else {
          // the bytes at a non-NULL address are not part of this model
        }
    }

    /** The `%0` branch: read the width digits, then pad an x, X or d conversion. */
    method PrintPadded(fmt: seq<char>, args: seq<Arg>, i: nat, k: nat) returns (last: nat, used: nat)
      requires Valid() && i + 1 < |fmt| && fmt[i] == '%' && fmt[i + 1] == '0'
      modifies this, video
      ensures Valid() && State() == PutAll(old(State()), Conversion(fmt, args, i, k).out)
      ensures last == Conversion(fmt, args, i, k).last && used == Conversion(fmt, args, i, k).used
    {
      var w := WordOf(ArgAt(args, k));
      var padding: nat := 0;
      var j := i + 2;
      while IsDecimal(At(fmt, j))
        invariant i + 2 <= j <= |fmt|
        invariant ParseWidth(fmt, j, padding) == ParseWidth(fmt, i + 2, 0)
        decreases |fmt| - j
      {
        padding := padding * 10 + (fmt[j] as nat - '0' as nat);
        j := j + 1;
      }
      var e := At(fmt, j);
      last, used := j, 1;
      if e == 'x' {
        KPrintUnsignedPadded(w, 16, false, padding);
      } else if e == 'X' {
        KPrintUnsignedPadded(w, 16, true, padding);
      } else if e == 'd' {
        KPrintNumberPadded(SignedOf(w), 10, padding);
      } else {
        used := 0;
      }
    }

    /** The body of the `kprintf` loop: a directive, or an ordinary character printed as it is. */
    method PrintPiece(fmt: seq<char>, args: seq<Arg>, i: nat, k: nat) returns (last: nat, used: nat)
      requires Valid() && i < |fmt| && fmt[i] != '\0'
      modifies this, video
      ensures Valid() && State() == PutAll(old(State()), Piece(fmt, args, i, k).out)
      ensures last == Piece(fmt, args, i, k).last && used == Piece(fmt, args, i, k).used
    {
      if fmt[i] == '%' {
        last, used := PrintConversion(fmt, args, i, k);
      } else {
        KPutChar(fmt[i]);
        PutAllOne(old(State()), fmt[i]);
        last, used := i, 0;
      }
    }

    /**
     * `kprintf(format, ...)`, with the terminator checks of Directive and
     * Resume: it prints Format(fmt, args) and never reads past the end of
     * the string.
     */
    method KPrintf(fmt: seq<char>, args: seq<Arg>)
      requires Valid()
      modifies this, video
      ensures Valid() && State() == PutAll(old(State()), Format(fmt, args))
    {
      var i: nat := 0;
      var k: nat := 0;
      ghost var printed: seq<char> := [];
      ghost var total := Format(fmt, args);
      while At(fmt, i) != '\0'
        invariant i <= |fmt| && Valid()
        invariant State() == PutAll(old(State()), printed)
        invariant printed + FormatFrom(fmt, args, i, k) == total
        decreases |fmt| - i
      {
        ghost var p := Piece(fmt, args, i, k);
        PieceStep(fmt, args, i, k, printed, total);
        var last, used := PrintPiece(fmt, args, i, k);
        PutAllConcat(old(State()), printed, p.out);
        printed := printed + p.out;
        k := k + used;
        if At(fmt, last) != '\0' {
          i := last + 1;
        } else {
          i := last;
        }
      }
      assert printed == total;
    }
  }
}
