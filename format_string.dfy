/**
 * The format-string language of `kprintf` in src/lib/kprintf.c:90-183, as
 * values: what each conversion prints and how far it reads. The C function
 * walks a NUL-terminated string; here the string is a `seq<char>` and the
 * character at or beyond its end reads as the terminator (`At`).
 *
 * The variable arguments become a sequence of tagged values taken in order.
 * An argument of the wrong kind, or one missing altogether, is undefined
 * behaviour in C; the model reads it as 0, or as an unreadable string.
 */
module FormatString {
  import opened PmmBits
  import opened NumberFormat

  /** One argument of a `kprintf` call: a 32-bit word, a string, or a NULL pointer. */
  datatype Arg = Int(value: u32) | Str(text: seq<char>) | Null

  /** `*format` at position i: the terminator at or past the end. */
  function At(fmt: seq<char>, i: nat): char
  {
    if i < |fmt| then fmt[i] else '\0'
  }

  /** The k-th argument; `Int(0)` once they run out. */
  function ArgAt(args: seq<Arg>, k: nat): Arg
  {
    if k < |args| then args[k] else Int(0)
  }

  /** `va_arg(args, unsigned int)`. */
  function WordOf(a: Arg): u32
  {
    if a.Int? then a.value else 0
  }

  /** A `uint32_t` read as a two's-complement `int`. */
  function SignedOf(w: u32): (r: int)
    ensures -0x8000_0000 <= r < 0x8000_0000
    ensures Wrap32(r) == w
  {
    if w >= 0x8000_0000 then w - U32 else w
  }

  /** `(char)va_arg(args, int)`: the low byte. */
  function CharOf(w: u32): char
  {
    (w % 256) as char
  }

  /** What `%s` prints: the string up to its NUL, "(null)" for a NULL pointer. */
  function StringOut(a: Arg): seq<char>
  {
    match a
    case Str(t) => UntilNul(t)
    case Null => "(null)"
    case Int(v) => if v == 0 then "(null)" else []
  }

  /** `kprint_number(num, base, uppercase)`: a '-' for a negative number, then its magnitude. */
  function Signed(num: int, base: nat, upper: bool): seq<char>
    requires ValidBase(base)
  {
    if num < 0 then ['-'] + Digits(-num, base, upper) else Digits(num, base, upper)
  }

  /**
   * `kprint_number_padded(num, base, padding)`: the '-' counts towards the
   * width, so the magnitude is padded to one place less.
   */
  function SignedPadded(num: int, base: nat, padding: int): seq<char>
    requires ValidBase(base)
  {
    if num < 0 then ['-'] + PadLeft(Digits(-num, base, false), padding - 1)
    else PadLeft(Digits(num, base, false), padding)
  }

  predicate IsDecimal(c: char)
  {
    '0' <= c <= '9'
  }

  /**
   * The width digits of a `%0` conversion from position j on, accumulated
   * onto `acc` as `padding = padding * 10 + (*format - '0')`: the width and
   * the position of the first character after the digits.
   */
  function ParseWidth(fmt: seq<char>, j: nat, acc: nat): (r: (nat, nat))
    requires j <= |fmt|
    ensures j <= r.1 <= |fmt| && !IsDecimal(At(fmt, r.1))
    ensures forall q :: j <= q < r.1 ==> IsDecimal(fmt[q])
    decreases |fmt| - j
  {
    if IsDecimal(At(fmt, j)) then ParseWidth(fmt, j + 1, acc * 10 + (fmt[j] as nat - '0' as nat))
    else (acc, j)
  }

  /**
   * One step of the interpreter: the characters it prints, the position of
   * the last character it examined (where `format` points before the loop's
   * `format++`), and how many arguments it took.
   */
  datatype Step = Step(out: seq<char>, last: nat, used: nat)

  /**
   * The `switch` on the character after the '%' at position i, as written:
   * the value conversions d, u, x, X, p, c and s take one argument; "%%"
   * prints one '%'; "%0" reads a width and then pads an x, X or d
   * conversion, printing nothing for any other letter; every other
   * character, the terminator included, is printed after a '%'.
   */
  function Conversion(fmt: seq<char>, args: seq<Arg>, i: nat, k: nat): (r: Step)
    requires i < |fmt| && fmt[i] == '%'
    ensures i + 1 <= r.last <= |fmt| && r.used <= 1
  {
    var c := At(fmt, i + 1);
    var w := WordOf(ArgAt(args, k));
    if c == 'd' then Step(Signed(SignedOf(w), 10, false), i + 1, 1)
    else if c == 'u' then Step(Digits(w, 10, false), i + 1, 1)
    else if c == 'x' then Step(Digits(w, 16, false), i + 1, 1)
    else if c == 'X' then Step(Digits(w, 16, true), i + 1, 1)
    else if c == 'p' then Step("0x" + Digits(w, 16, false), i + 1, 1)
    else if c == 'c' then Step([CharOf(w)], i + 1, 1)
    else if c == 's' then Step(StringOut(ArgAt(args, k)), i + 1, 1)
    else if c == '%' then Step("%", i + 1, 0)
    else if c == '0' then
      var (padding, j) := ParseWidth(fmt, i + 2, 0);
      var e := At(fmt, j);
      if e == 'x' then Step(PadLeft(Digits(w, 16, false), padding), j, 1)
      else if e == 'X' then Step(PadLeft(Digits(w, 16, true), padding), j, 1)
      else if e == 'd' then Step(SignedPadded(SignedOf(w), 10, padding), j, 1)
      else Step([], j, 0)
    else Step(['%', c], i + 1, 0)
  }

  /* ---------- as written: the loop always steps past the last character examined ---------- */

  /** Where the C loop reads next after a conversion: `format++` unconditionally. */
  function ResumeAsWritten(s: Step): nat
  {
    s.last + 1
  }

  /**
   * A '%' that ends the string makes the `switch` examine the terminator:
   * it prints '%' and a NUL, and the loop's `format++` then moves past the
   * terminator, so the next `*format` reads outside the string.
   */
  lemma TrailingPercentOverruns(fmt: seq<char>, args: seq<Arg>)
    requires |fmt| > 0 && fmt[|fmt| - 1] == '%'
    ensures var s := Conversion(fmt, args, |fmt| - 1, 0);
      s.out == ['%', '\0'] && ResumeAsWritten(s) == |fmt| + 1
  {
  }

  /** The same happens when the string ends inside a width: "%08" stops at the terminator and steps past it. */
  lemma CutWidthOverruns()
    ensures var s := Conversion("%08", [], 0, 0);
      s.out == [] && s.last == 3 && At("%08", s.last) == '\0' && ResumeAsWritten(s) == 4
  {
    assert ParseWidth("%08", 3, 8) == (8, 3);
    assert ParseWidth("%08", 2, 0) == (8, 3);
  }

  /* ---------- corrected: the interpreter never steps past the terminator ---------- */

  /**
   * The conversion at position i with the terminator checked: a '%' that
   * ends the string prints just '%'.
   */
  function Directive(fmt: seq<char>, args: seq<Arg>, i: nat, k: nat): (r: Step)
    requires i < |fmt| && fmt[i] == '%'
    ensures i + 1 <= r.last <= |fmt| && r.used <= 1
  {
    if At(fmt, i + 1) == '\0' then Step("%", i + 1, 0) else Conversion(fmt, args, i, k)
  }

  /** Where the loop reads next: past the last character examined, unless that was the terminator. */
  function Resume(fmt: seq<char>, s: Step): (r: nat)
    requires s.last <= |fmt|
    ensures s.last <= r <= |fmt|
  {
    if At(fmt, s.last) == '\0' then s.last else s.last + 1
  }

  /**
   * The corrected interpreter reads only inside the string, up to its
   * terminator, and a trailing '%' prints '%' alone.
   */
  lemma DirectiveStaysInside(fmt: seq<char>, args: seq<Arg>, i: nat, k: nat)
    requires i < |fmt| && fmt[i] == '%'
    ensures Resume(fmt, Directive(fmt, args, i, k)) <= |fmt|
    ensures i == |fmt| - 1 ==> Directive(fmt, args, i, k).out == "%"
  {
  }

  /** What `kprintf(fmt, ...)` prints from position i, having taken k arguments. */
  function FormatFrom(fmt: seq<char>, args: seq<Arg>, i: nat, k: nat): seq<char>
    requires i <= |fmt|
    decreases |fmt| - i
  {
    if At(fmt, i) == '\0' then []
    else if fmt[i] != '%' then [fmt[i]] + FormatFrom(fmt, args, i + 1, k)
    else
      var d := Directive(fmt, args, i, k);
      d.out + FormatFrom(fmt, args, Resume(fmt, d), k + d.used)
  }

  /** One step of FormatFrom away from the terminator. */
  lemma FormatFromStep(fmt: seq<char>, args: seq<Arg>, i: nat, k: nat)
    requires i <= |fmt| && At(fmt, i) != '\0'
    ensures fmt[i] != '%' ==> FormatFrom(fmt, args, i, k) == [fmt[i]] + FormatFrom(fmt, args, i + 1, k)
    ensures fmt[i] == '%' ==> var d := Directive(fmt, args, i, k);
      FormatFrom(fmt, args, i, k) == d.out + FormatFrom(fmt, args, Resume(fmt, d), k + d.used)
  {
  }

  /**
   * One pass of the `kprintf` loop at position i: a directive, or an
   * ordinary character printed as it is (last examined at i, no argument).
   */
  function Piece(fmt: seq<char>, args: seq<Arg>, i: nat, k: nat): (r: Step)
    requires i < |fmt| && fmt[i] != '\0'
    ensures i <= r.last <= |fmt| && r.used <= 1
  {
    if fmt[i] == '%' then Directive(fmt, args, i, k) else Step([fmt[i]], i, 0)
  }

  /**
   * The interpreter's loop invariant survives one pass: with `done` printed
   * and FormatFrom(fmt, args, i, k) still to come, the pass moves its output
   * to the printed part and the loop resumes where Resume says.
   */
  lemma PieceStep(fmt: seq<char>, args: seq<Arg>, i: nat, k: nat, done: seq<char>, total: seq<char>)
    requires i < |fmt| && fmt[i] != '\0' && done + FormatFrom(fmt, args, i, k) == total
    ensures var p := Piece(fmt, args, i, k);
      (done + p.out) + FormatFrom(fmt, args, Resume(fmt, p), k + p.used) == total
  {
    FormatFromStep(fmt, args, i, k);
    var p := Piece(fmt, args, i, k);
    assert done + FormatFrom(fmt, args, i, k) == (done + p.out) + FormatFrom(fmt, args, Resume(fmt, p), k + p.used);
  }

  /** What `kprintf(fmt, args...)` prints. */
  function Format(fmt: seq<char>, args: seq<Arg>): seq<char>
  {
    FormatFrom(fmt, args, 0, 0)
  }

  /* ---------- properties of the conversions ---------- */

  /** A string with no '%' and no NUL is printed as it is. */
  lemma {:induction false} FormatPlain(fmt: seq<char>, args: seq<Arg>, i: nat, k: nat)
    requires i <= |fmt|
    requires forall q :: i <= q < |fmt| ==> fmt[q] != '%' && fmt[q] != '\0'
    ensures FormatFrom(fmt, args, i, k) == fmt[i..]
    decreases |fmt| - i
  {
    if i < |fmt| {
      FormatPlain(fmt, args, i + 1, k);
      assert fmt[i..] == [fmt[i]] + fmt[i + 1..];
    }
  }

  /** The whole of a plain string is printed, whatever the arguments. */
  lemma FormatPlainString(fmt: seq<char>, args: seq<Arg>)
    requires '%' !in fmt && '\0' !in fmt
    ensures Format(fmt, args) == fmt
  {
    FormatPlain(fmt, args, 0, 0);
  }

  /** Printing stops at an embedded NUL, as at the end of a C string. */
  lemma FormatStopsAtNul(fmt: seq<char>, rest: seq<char>, args: seq<Arg>)
    requires '%' !in fmt && '\0' !in fmt
    ensures Format(fmt + ['\0'] + rest, args) == fmt
  {
    var f := fmt + ['\0'] + rest;
    FormatPlainPrefix(f, args, 0, |fmt|);
    assert f[..|fmt|] == fmt;
  }

  lemma {:induction false} FormatPlainPrefix(f: seq<char>, args: seq<Arg>, i: nat, n: nat)
    requires i <= n < |f| && f[n] == '\0'
    requires forall q :: i <= q < n ==> f[q] != '%' && f[q] != '\0'
    ensures FormatFrom(f, args, i, 0) == f[i..n]
    decreases n - i
  {
    if i < n {
      FormatPlainPrefix(f, args, i + 1, n);
      assert f[i..n] == [f[i]] + f[i + 1..n];
    }
  }

  /** A conversion that ends exactly at the end of the string prints its own output only. */
  lemma FormatWhole(fmt: seq<char>, args: seq<Arg>)
    requires |fmt| > 0 && fmt[0] == '%'
    requires Resume(fmt, Directive(fmt, args, 0, 0)) == |fmt|
    ensures Format(fmt, args) == Directive(fmt, args, 0, 0).out
  {
    var d := Directive(fmt, args, 0, 0);
    assert FormatFrom(fmt, args, |fmt|, d.used) == [];
    assert d.out + [] == d.out;
  }

  /** A conversion that is the whole string, with its argument. */
  lemma SingleConversion(fmt: seq<char>, args: seq<Arg>)
    requires |fmt| == 2 && fmt[0] == '%' && fmt[1] != '0' && fmt[1] != '\0'
    ensures Format(fmt, args) == Directive(fmt, args, 0, 0).out
    ensures Directive(fmt, args, 0, 0) == Conversion(fmt, args, 0, 0)
  {
    var d := Directive(fmt, args, 0, 0);
    assert d.last == 1;
    FormatWhole(fmt, args);
  }

  /**
   * `%u`, `%x` and `%X` print digits that read back to the argument, with no
   * leading zero; `%x` uses lowercase letters and `%X` uppercase ones.
   */
  lemma UnsignedConversions(v: u32)
    ensures Value(Format("%u", [Int(v)]), 10) == v
    ensures Value(Format("%x", [Int(v)]), 16) == v && Value(Format("%X", [Int(v)]), 16) == v
    ensures Format("%x", [Int(v)])[0] == '0' <==> v == 0
    ensures forall i :: 0 <= i < |Format("%X", [Int(v)])| ==> Format("%X", [Int(v)])[i] in UPPER_DIGITS
  {
    SingleConversion("%u", [Int(v)]);
    SingleConversion("%x", [Int(v)]);
    SingleConversion("%X", [Int(v)]);
    DigitsValue(v, 10, false);
    DigitsValue(v, 16, false);
    DigitsValue(v, 16, true);
    DigitsLeading(v, 16, false);
    DigitsUpper(v, 16);
  }

  lemma {:induction false} DigitsUpper(n: nat, base: nat)
    requires ValidBase(base)
    ensures forall i :: 0 <= i < |Digits(n, base, true)| ==> Digits(n, base, true)[i] in UPPER_DIGITS
    decreases n
  {
    DigitCharValue(n % base, true);
    if n < base {
      DigitCharValue(n, true);
    } else {
      QuotientSmaller(n, base);
      DigitsUpper(n / base, base);
    }
  }

  /**
   * `%d` reads its argument as a signed 32-bit number: a '-' exactly when it
   * is negative, followed by the digits of its magnitude.
   */
  lemma SignedConversion(v: u32)
    ensures var out := Format("%d", [Int(v)]);
      (out[0] == '-' <==> v >= 0x8000_0000)
      && (v < 0x8000_0000 ==> Value(out, 10) == v)
      && (v >= 0x8000_0000 ==> Value(out[1..], 10) == U32 - v)
  {
    SingleConversion("%d", [Int(v)]);
    var n := SignedOf(v);
    assert Conversion("%d", [Int(v)], 0, 0).out == Signed(n, 10, false);
    SignedValue(n);
  }

  lemma SignedValue(n: int)
    ensures var out := Signed(n, 10, false);
      (out[0] == '-' <==> n < 0)
      && (n >= 0 ==> Value(out, 10) == n)
      && (n < 0 ==> Value(out[1..], 10) == -n)
  {
    if n < 0 {
      DigitsValue(-n, 10, false);
      assert (['-'] + Digits(-n, 10, false))[1..] == Digits(-n, 10, false);
    } else {
      DigitsValue(n, 10, false);
      DigitsAreDigits(n, 10, false);
    }
  }

  /** `%p` prints "0x" and the lowercase hex digits of the pointer. */
  lemma PointerConversion(v: u32)
    ensures var out := Format("%p", [Int(v)]);
      out[..2] == "0x" && Value(out[2..], 16) == v
  {
    SingleConversion("%p", [Int(v)]);
    DigitsValue(v, 16, false);
    assert ("0x" + Digits(v, 16, false))[2..] == Digits(v, 16, false);
  }

  /** `%s` prints the string up to its NUL, and "(null)" for a NULL pointer; `%%` prints '%'. */
  lemma StringConversions(t: seq<char>, args: seq<Arg>)
    ensures Format("%s", [Str(t)]) == UntilNul(t)
    ensures Format("%s", [Null]) == "(null)"
    ensures Format("%%", args) == "%"
  {
    SingleConversion("%s", [Str(t)]);
    SingleConversion("%s", [Null]);
    SingleConversion("%%", args);
  }

  /**
   * A '%' followed by a character that names no conversion prints both and
   * takes no argument.
   */
  lemma UnknownConversion(c: char, args: seq<Arg>)
    requires c !in "duxXpcs%0" && c != '\0'
    ensures Format(['%', c], args) == ['%', c]
  {
    SingleConversion(['%', c], args);
  }

  /** The string `"%0" + width + "x"`. */
  function PaddedHex(width: seq<char>): seq<char>
  {
    "%0" + width + "x"
  }

  lemma {:induction false} ParseWidthValue(fmt: seq<char>, j: nat, acc: nat, digits: seq<char>)
    requires j + |digits| < |fmt| && fmt[j..j + |digits|] == digits && !IsDecimal(fmt[j + |digits|])
    requires forall q :: 0 <= q < |digits| ==> IsDecimal(digits[q])
    ensures ParseWidth(fmt, j, acc) == (WidthValue(acc, digits), j + |digits|)
    decreases |digits|
  {
    if |digits| > 0 {
      assert fmt[j] == digits[0] && IsDecimal(digits[0]);
      assert fmt[j + 1..j + 1 + |digits[1..]|] == digits[1..];
      ParseWidthValue(fmt, j + 1, acc * 10 + (digits[0] as nat - '0' as nat), digits[1..]);
    }
  }

  /** The width a run of decimal digits denotes, accumulated onto `acc`. */
  function WidthValue(acc: nat, digits: seq<char>): nat
    requires forall q :: 0 <= q < |digits| ==> IsDecimal(digits[q])
    decreases |digits|
  {
    if |digits| == 0 then acc
    else
      assert IsDecimal(digits[0]);
      WidthValue(acc * 10 + (digits[0] as nat - '0' as nat), digits[1..])
  }

  /**
   * `%0<width>x` prints max(digit count, width) characters: zeros, then the
   * lowercase hex digits of the argument, and they read back to it.
   */
  lemma PaddedConversion(width: seq<char>, v: u32)
    requires forall q :: 0 <= q < |width| ==> IsDecimal(width[q])
    ensures var out := Format(PaddedHex(width), [Int(v)]);
      var n := WidthValue(0, width);
      var d := Digits(v, 16, false);
      |out| == (if n <= |d| then |d| else n)
      && out[|out| - |d|..] == d
      && (forall i :: 0 <= i < |out| - |d| ==> out[i] == '0')
      && Value(out, 16) == v
  {
    var f := PaddedHex(width);
    assert f[2..2 + |width|] == width;
    ParseWidthValue(f, 2, 0, width);
    var d := Directive(f, [Int(v)], 0, 0);
    assert At(f, 1) == '0' && At(f, 2 + |width|) == 'x';
    assert d == Step(PadLeft(Digits(v, 16, false), WidthValue(0, width)), |f| - 1, 1);
    FormatWhole(f, [Int(v)]);
    PadLeftShape(Digits(v, 16, false), WidthValue(0, width), 16);
    DigitsValue(v, 16, false);
  }

  /* ---------- as written: kprint_unsigned_padded's buffer ---------- */

  /** The size of the buffer `kprint_unsigned_padded` fills. */
  const PAD_BUFFER: nat := 32

  /**
   * What `kprint_unsigned_padded` writes into `buffer`, from slot 0: the
   * digits least significant first, then '0' until `padding` slots are
   * filled. Nothing bounds `padding` by the buffer's size.
   */
  function PaddedBufferAsWritten(num: nat, base: nat, upper: bool, padding: int): seq<char>
    requires ValidBase(base)
  {
    var digits := Reverse(Digits(num, base, upper));
    if padding <= |digits| then digits else digits + Zeros(padding - |digits|)
  }

  /**
   * "%040x" reaches `kprint_unsigned_padded` with padding 40, which fills 40
   * slots of the 32-slot buffer: eight writes land outside it.
   */
  lemma PaddedBufferOverflows(v: u32)
    ensures Conversion("%040x", [Int(v)], 0, 0).used == 1
    ensures ParseWidth("%040x", 2, 0).0 == 40
    ensures |PaddedBufferAsWritten(v, 16, false, 40)| == 40 > PAD_BUFFER
  {
    ParseWidthValue("%040x", 2, 0, "40");
    WordDigits(v, false);
  }
  /**
   * Wherever the buffer suffices the corrected print agrees with the C:
   * the buffer emitted from its last slot is the digits left-padded with
   * zeros to `padding`, and for a 32-bit argument in base 10 or 16 a
   * padding of at most 32 keeps every write inside the buffer.
   */
  lemma PaddedAgrees(num: u32, base: nat, upper: bool, padding: int)
    requires base == 10 || base == 16
    ensures Reverse(PaddedBufferAsWritten(num, base, upper, padding)) == PadLeft(Digits(num, base, upper), padding)
    ensures padding <= PAD_BUFFER ==> |PaddedBufferAsWritten(num, base, upper, padding)| <= PAD_BUFFER
  {
    WordDigits(num, upper);
    ReversePadded(Digits(num, base, upper), padding);
  }

  /** Digits stored from their last one and then zeros, read back to front, are the zero-padded digits. */
  lemma ReversePadded(d: seq<char>, padding: int)
    ensures Reverse(if padding <= |d| then Reverse(d) else Reverse(d) + Zeros(padding - |d|)) == PadLeft(d, padding)
  {
    var r := Reverse(d);
    if padding <= |d| {
      forall i | 0 <= i < |d|
        ensures Reverse(r)[i] == d[i]
      {
        ReverseIndex(r, i);
        ReverseIndex(d, |d| - 1 - i);
      }
    } else {
      var b := r + Zeros(padding - |d|);
      var z := padding - |d|;
      var p := Zeros(z) + d;
      assert |Reverse(b)| == |p|;
      forall i | 0 <= i < |b|
        ensures Reverse(b)[i] == p[i]
      {
        ReverseIndex(b, i);
        if i >= z {
          assert b[|b| - 1 - i] == r[|b| - 1 - i];
          ReverseIndex(d, |b| - 1 - i);
        }
      }
    }
  }
}
