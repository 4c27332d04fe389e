/**
 * Rendering of unsigned numbers as digit strings, shared by the console's
 * `kprint_unsigned` family (src/lib/kprintf.c:185-250) and by the panic
 * screen's `print_hex` and decimal conversion (idt.c:40-52, 156-173).
 * Digits come from "0123456789abcdef" or "0123456789ABCDEF"; `Value` reads a
 * digit string back, and the lemmas show the two are inverse.
 */
module NumberFormat {
  const LOWER_DIGITS: seq<char> := "0123456789abcdef"
  const UPPER_DIGITS: seq<char> := "0123456789ABCDEF"

  predicate ValidBase(base: nat)
  {
    2 <= base <= 16
  }

  /** `digit_set[d]`, from the upper- or lowercase set (DigitCharInSet). */
  function DigitChar(d: nat, upper: bool): char
    requires d < 16
  {
    if d < 10 then ('0' as nat + d) as char
    else if upper then ('A' as nat + d - 10) as char
    else ('a' as nat + d - 10) as char
  }

  lemma DigitCharInSet(d: nat, upper: bool)
    requires d < 16
    ensures DigitChar(d, upper) == if upper then UPPER_DIGITS[d] else LOWER_DIGITS[d]
  {
  }

  /** What a digit character is worth, in either case; 16 for any other character. */
  function DigitValue(c: char): nat
  {
    if '0' <= c <= '9' then c as nat - '0' as nat
    else if 'a' <= c <= 'f' then c as nat - 'a' as nat + 10
    else if 'A' <= c <= 'F' then c as nat - 'A' as nat + 10
    else 16
  }

  lemma DigitCharValue(d: nat, upper: bool)
    requires d < 16
    ensures DigitValue(DigitChar(d, upper)) == d
    ensures DigitChar(d, upper) != '\0'
    ensures DigitChar(d, upper) == '0' <==> d == 0
    ensures upper ==> DigitChar(d, upper) in UPPER_DIGITS
  {
    DigitCharInSet(d, upper);
  }

  /**
   * The digits of `n` in `base`, most significant first: "0" for 0 and no
   * leading zero otherwise.
   */
  function Digits(n: nat, base: nat, upper: bool): (r: seq<char>)
    requires ValidBase(base)
    ensures |r| >= 1
    decreases n
  {
    if n < base then [DigitChar(n, upper)]
    else Digits(n / base, base, upper) + [DigitChar(n % base, upper)]
  }

  /** The number a digit string denotes in `base`. */
  function Value(s: seq<char>, base: nat): nat
  {
    if |s| == 0 then 0 else Value(s[..|s| - 1], base) * base + DigitValue(s[|s| - 1])
  }

  /** Every character of `s` is a digit of `base` that `DigitChar` produces. */
  predicate IsDigitString(s: seq<char>, base: nat)
  {
    forall i :: 0 <= i < |s| ==> DigitValue(s[i]) < base && s[i] != '\0'
  }

  lemma ValueSnoc(s: seq<char>, c: char, base: nat)
    ensures Value(s + [c], base) == Value(s, base) * base + DigitValue(c)
  {
    assert (s + [c])[..|s + [c]| - 1] == s;
  }

  lemma {:induction false} DivModParts(n: nat, base: nat)
    requires base >= 1
    ensures (n / base) * base + n % base == n
  {
  }

  /** Reading the digits back gives the number: the rendering loses nothing. */
  lemma {:induction false} DigitsValue(n: nat, base: nat, upper: bool)
    requires ValidBase(base)
    ensures Value(Digits(n, base, upper), base) == n
    decreases n
  {
    if n < base {
      DigitCharValue(n, upper);
      ValueSnoc([], DigitChar(n, upper), base);
      assert [] + [DigitChar(n, upper)] == Digits(n, base, upper);
    } else {
      var q, d := n / base, n % base;
      var front := Digits(q, base, upper);
      QuotientSmaller(n, base);
      DigitsValue(q, base, upper);
      DigitCharValue(d, upper);
      ValueSnoc(front, DigitChar(d, upper), base);
      DivModParts(n, base);
    }
  }

  /** Every character rendered is a digit of the base, never a NUL. */
  lemma {:induction false} DigitsAreDigits(n: nat, base: nat, upper: bool)
    requires ValidBase(base)
    ensures IsDigitString(Digits(n, base, upper), base)
    decreases n
  {
    DigitCharValue(n % base, upper);
    if n < base {
      DigitCharValue(n, upper);
    } else {
      QuotientSmaller(n, base);
      DigitsAreDigits(n / base, base, upper);
    }
  }

  /** The first digit is zero only for the number zero: no leading zeros. */
  lemma {:induction false} DigitsLeading(n: nat, base: nat, upper: bool)
    requires ValidBase(base)
    ensures Digits(n, base, upper)[0] == '0' <==> n == 0
    ensures n == 0 ==> Digits(n, base, upper) == "0"
    decreases n
  {
    if n < base {
      DigitCharValue(n, upper);
      if n == 0 {
        assert DigitChar(0, upper) == '0';
      }
    } else {
      QuotientSmaller(n, base);
      DigitsLeading(n / base, base, upper);
    }
  }

  /** Dividing a positive number by a base shrinks it. */
  lemma QuotientSmaller(n: nat, base: nat)
    requires 2 <= base && 0 < n
    ensures n / base < n
  {
    var q := n / base;
    DivModParts(n, base);
    MulAtLeastTwice(q, base);
  }

  lemma MulAtLeastTwice(a: nat, b: nat)
    requires b >= 2
    ensures a * b >= 2 * a
  {
    assert a * b == 2 * a + a * (b - 2);
  }

  lemma QuotientBelow(n: nat, base: nat, p: nat)
    requires base >= 1 && n < base * p
    ensures n / base < p
  {
    DivModParts(n, base);
    assert (n / base) * base < p * base;
  }

  /** `base^k`. */
  function Power(base: nat, k: nat): (r: nat)
  {
    if k == 0 then 1 else base * Power(base, k - 1)
  }

  /** A number below base^k has at most k digits. */
  lemma {:induction false} DigitsLength(n: nat, base: nat, upper: bool, k: nat)
    requires ValidBase(base) && k >= 1 && n < Power(base, k)
    ensures |Digits(n, base, upper)| <= k
    decreases n
  {
    if n >= base {
      assert Power(base, 1) == base;
      var p := Power(base, k - 1);
      assert Power(base, k) == base * p;
      QuotientBelow(n, base, p);
      QuotientSmaller(n, base);
      DigitsLength(n / base, base, upper, k - 1);
    }
  }

  lemma PowerValues()
    ensures Power(16, 8) == 0x1_0000_0000
    ensures Power(10, 10) == 10_000_000_000
  {
    assert Power(16, 2) == 256 by {
      assert Power(16, 1) == 16;
    }
    assert Power(16, 4) == 65536 by {
      assert Power(16, 3) == 16 * Power(16, 2);
    }
    assert Power(16, 6) == 0x100_0000 by {
      assert Power(16, 5) == 16 * Power(16, 4);
    }
    assert Power(16, 7) == 16 * Power(16, 6);
    assert Power(10, 2) == 100 by {
      assert Power(10, 1) == 10;
    }
    assert Power(10, 4) == 10_000 by {
      assert Power(10, 3) == 10 * Power(10, 2);
    }
    assert Power(10, 6) == 1_000_000 by {
      assert Power(10, 5) == 10 * Power(10, 4);
    }
    assert Power(10, 8) == 100_000_000 by {
      assert Power(10, 7) == 10 * Power(10, 6);
    }
    assert Power(10, 9) == 10 * Power(10, 8);
  }

  /** A 32-bit number has at most 8 hexadecimal and at most 10 decimal digits. */
  lemma WordDigits(n: nat, upper: bool)
    requires n < 0x1_0000_0000
    ensures |Digits(n, 16, upper)| <= 8
    ensures |Digits(n, 10, upper)| <= 10
  {
    PowerValues();
    DigitsLength(n, 16, upper, 8);
    DigitsLength(n, 10, upper, 10);
  }

  /**
   * The low `width` digits of `v`, most significant first, zeros included:
   * what a fixed-width buffer filled from its last slot holds.
   */
  function Fixed(v: nat, base: nat, width: nat, upper: bool): (r: seq<char>)
    requires ValidBase(base)
    ensures |r| == width
    decreases width
  {
    if width == 0 then [] else Fixed(v / base, base, width - 1, upper) + [DigitChar(v % base, upper)]
  }

  /** Fixed-width digits read back to the number, provided it fits. */
  lemma {:induction false} FixedValue(v: nat, base: nat, width: nat, upper: bool)
    requires ValidBase(base) && v < Power(base, width)
    ensures Value(Fixed(v, base, width, upper), base) == v
    ensures IsDigitString(Fixed(v, base, width, upper), base)
    ensures upper ==> forall i :: 0 <= i < width ==> Fixed(v, base, width, upper)[i] in UPPER_DIGITS
    decreases width
  {
    if width > 0 {
      var p := Power(base, width - 1);
      assert Power(base, width) == base * p;
      QuotientBelow(v, base, p);
      FixedValue(v / base, base, width - 1, upper);
      DigitCharValue(v % base, upper);
      ValueSnoc(Fixed(v / base, base, width - 1, upper), DigitChar(v % base, upper), base);
      DivModParts(v, base);
    }
  }

  /** `n` zero characters. */
  function Zeros(n: nat): (r: seq<char>)
    ensures |r| == n && forall i :: 0 <= i < n ==> r[i] == '0'
  {
    seq(n, _ => '0')
  }

  /**
   * `s` left-padded with '0' to `width` characters; a width at or below
   * `|s|` (negative included) leaves it as it is.
   */
  function PadLeft(s: seq<char>, width: int): (r: seq<char>)
  {
    if width <= |s| then s else Zeros(width - |s|) + s
  }

  /** Padding yields max(|s|, width) characters, zeros followed by `s`, and keeps the value. */
  lemma PadLeftShape(s: seq<char>, width: int, base: nat)
    requires ValidBase(base)
    ensures |PadLeft(s, width)| == if width <= |s| then |s| else width
    ensures PadLeft(s, width)[|PadLeft(s, width)| - |s|..] == s
    ensures forall i :: 0 <= i < |PadLeft(s, width)| - |s| ==> PadLeft(s, width)[i] == '0'
    ensures Value(PadLeft(s, width), base) == Value(s, base)
  {
    if width > |s| {
      ZerosValue(Zeros(width - |s|), s, base);
    }
  }

  /** Leading zeros do not change a value. */
  lemma {:induction false} ZerosValue(z: seq<char>, s: seq<char>, base: nat)
    requires forall i :: 0 <= i < |z| ==> z[i] == '0'
    ensures Value(z + s, base) == Value(s, base)
    decreases |s|
  {
    if |s| == 0 {
      assert z + s == z;
      ZerosOnly(z, base);
    } else {
      var init := s[..|s| - 1];
      assert (z + s)[..|z + s| - 1] == z + init;
      assert (z + s)[|z + s| - 1] == s[|s| - 1];
      ZerosValue(z, init, base);
    }
  }

  lemma {:induction false} ZerosOnly(z: seq<char>, base: nat)
    requires forall i :: 0 <= i < |z| ==> z[i] == '0'
    ensures Value(z, base) == 0
    decreases |z|
  {
    if |z| > 0 {
      ZerosOnly(z[..|z| - 1], base);
    }
  }

  /** The reverse of a sequence: a buffer filled from slot 0 and emitted from its last slot. */
  function Reverse<T>(s: seq<T>): (r: seq<T>)
    ensures |r| == |s|
  {
    if |s| == 0 then [] else Reverse(s[1..]) + [s[0]]
  }

  lemma {:induction false} ReverseIndex<T>(s: seq<T>, i: nat)
    requires i < |s|
    ensures Reverse(s)[i] == s[|s| - 1 - i]
    decreases |s|
  {
    if i < |s| - 1 {
      ReverseIndex(s[1..], i);
    }
  }

  lemma ReverseSnoc<T>(s: seq<T>, c: T)
    ensures Reverse(s + [c]) == [c] + Reverse(s)
  {
    var a, b := Reverse(s + [c]), [c] + Reverse(s);
    forall i | 0 <= i < |a|
      ensures a[i] == b[i]
    {
      ReverseIndex(s + [c], i);
      if i > 0 {
        ReverseIndex(s, i - 1);
      }
    }
  }

  /** The characters of a C string: those before its first NUL, all of them if there is none. */
  function UntilNul(s: seq<char>): (r: seq<char>)
    ensures |r| <= |s| && r == s[..|r|] && '\0' !in r
    ensures |r| < |s| ==> s[|r|] == '\0'
  {
    if |s| == 0 || s[0] == '\0' then [] else [s[0]] + UntilNul(s[1..])
  }

  /** The characters before position j, none of them NUL, make up the C string when j ends it. */
  lemma {:induction false} UntilNulAt(s: seq<char>, j: nat)
    requires j <= |s| && '\0' !in s[..j] && (j == |s| || s[j] == '\0')
    ensures UntilNul(s) == s[..j]
    decreases j
  {
    if j > 0 {
      assert s[0] in s[..j];
      assert s[1..][..j - 1] == s[..j][1..];
      UntilNulAt(s[1..], j - 1);
      assert s[..j] == [s[0]] + s[1..][..j - 1];
    }
  }

  /**
   * The last digit of a positive number is its remainder, and the digits
   * before it are those of the quotient, none when the quotient is zero.
   */
  lemma DigitsLast(n: nat, base: nat, upper: bool)
    requires ValidBase(base) && n > 0
    ensures Digits(n, base, upper) == (if n / base == 0 then [] else Digits(n / base, base, upper)) + [DigitChar(n % base, upper)]
  {
    if n < base {
      assert n / base == 0 && n % base == n;
    } else {
      assert n / base >= 1 by {
        DivModParts(n, base);
      }
    }
  }

  /** A string without a NUL is read whole. */
  lemma {:induction false} UntilNulWhole(s: seq<char>, tail: seq<char>)
    requires '\0' !in s
    ensures UntilNul(s) == s
    ensures |tail| > 0 && tail[0] == '\0' ==> UntilNul(s + tail) == s
    decreases |s|
  {
    if |s| > 0 {
      assert s[1..] + tail == (s + tail)[1..];
      UntilNulWhole(s[1..], tail);
    } else {
      assert s + tail == tail;
    }
  }
}
