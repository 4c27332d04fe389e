/**
 * The PS/2 keyboard driver of src/drivers/keyboard.c: scan code set 1 is
 * turned into characters through two 104-entry tables (US QWERTY, plain and
 * shifted) and a small modifier state, shift held and caps lock, which
 * `keyboard_handler` updates in place. A press that yields a character is
 * echoed on the console of src/lib/kprintf.c.
 */
module Keyboard {
  import opened TextScreen
  import opened FormatString
  import Console

  const NUL: char := 0 as char
  const ESC: char := 27 as char

  /** `sizeof(scancode_to_ascii)`: both tables have 104 entries. */
  const TABLE_SIZE: nat := 104

  const LEFT_SHIFT: nat := 0x2A
  const RIGHT_SHIFT: nat := 0x36
  const CAPS_LOCK: nat := 0x3A

  /** A `uint8_t` scan code. */
  type Scancode = s: nat | s < 0x100

  /** `scancode_to_ascii`, indexed by scan code. */
  const BASE_TABLE: seq<char> :=
    [NUL, ESC, '1', '2', '3', '4', '5', '6', '7', '8', '9', '0', '-', '=', BACKSPACE]
    + ['\t', 'q', 'w', 'e', 'r', 't', 'y', 'u', 'i', 'o', 'p', '[', ']', '\n']
    + [NUL, 'a', 's', 'd', 'f', 'g', 'h', 'j', 'k', 'l', ';', '\'', '`', NUL]
    + ['\\', 'z', 'x', 'c', 'v', 'b', 'n', 'm', ',', '.', '/', NUL, '*']
    + [NUL, ' ', NUL, NUL, NUL, NUL, NUL, NUL, NUL, NUL, NUL, NUL, NUL, NUL, NUL, NUL]
    + [NUL, NUL, NUL, NUL, NUL, NUL, NUL, NUL, NUL, NUL, NUL, NUL, NUL, NUL, NUL, NUL]
    + [NUL, NUL, NUL, NUL, NUL, NUL, NUL, NUL, NUL, NUL, NUL, NUL, NUL, NUL, NUL, NUL]

  /** `scancode_to_ascii_shift`: the same keys with shift held. */
  const SHIFT_TABLE: seq<char> :=
    [NUL, ESC, '!', '@', '#', '$', '%', '^', '&', '*', '(', ')', '_', '+', BACKSPACE]
    + ['\t', 'Q', 'W', 'E', 'R', 'T', 'Y', 'U', 'I', 'O', 'P', '{', '}', '\n']
    + [NUL, 'A', 'S', 'D', 'F', 'G', 'H', 'J', 'K', 'L', ':', '"', '~', NUL]
    + ['|', 'Z', 'X', 'C', 'V', 'B', 'N', 'M', '<', '>', '?', NUL, '*']
    + [NUL, ' ', NUL, NUL, NUL, NUL, NUL, NUL, NUL, NUL, NUL, NUL, NUL, NUL, NUL, NUL]
    + [NUL, NUL, NUL, NUL, NUL, NUL, NUL, NUL, NUL, NUL, NUL, NUL, NUL, NUL, NUL, NUL]
    + [NUL, NUL, NUL, NUL, NUL, NUL, NUL, NUL, NUL, NUL, NUL, NUL, NUL, NUL, NUL, NUL]

  /** What the `g`/`G` key prints before it asks for the VESA graphics mode. */
  const VESA_NOTICE: seq<char> := "\nSwitching to VESA mode...\n"

  /** The two modifier flags, `shift_pressed` and `caps_lock`. */
  datatype Modifiers = Modifiers(shift: bool, caps: bool)

  predicate IsLower(c: char)
  {
    'a' <= c <= 'z'
  }

  function ToUpper(c: char): char
  {
    if IsLower(c) then (c as int - 'a' as int + 'A' as int) as char else c
  }

  /** A scan code with bit 7 set (`scancode & 0x80`) reports a release. */
  predicate IsRelease(scancode: Scancode)
  {
    scancode >= 0x80
  }

  /** `scancode & 0x7F` of a release: the code of the key let go. */
  function ReleasedKey(scancode: Scancode): nat
    requires IsRelease(scancode)
  {
    scancode - 0x80
  }

  /**
   * On a byte, testing bit 7 is comparing with 0x80, and clearing it from a
   * byte that has it is subtracting 0x80.
   */
  lemma ByteBits(b: bv8)
    ensures (b & 0x80 != 0) == (b >= 0x80)
    ensures b >= 0x80 ==> b & 0x7F == b - 0x80
  {
  }

  predicate IsShift(code: nat)
  {
    code == LEFT_SHIFT || code == RIGHT_SHIFT
  }

  /** The modifier flags after `keyboard_handler(scancode)`. */
  function NextModifiers(m: Modifiers, scancode: Scancode): Modifiers
  {
    if IsRelease(scancode) then
      if IsShift(ReleasedKey(scancode)) then m.(shift := false) else m
    else if IsShift(scancode) then m.(shift := true)
    else if scancode == CAPS_LOCK then m.(caps := !m.caps)
    else m
  }

  /**
   * The table lookup for a key press: the shifted table while shift is
   * held, else the plain table with caps lock applied to letters.
   */
  function Translate(m: Modifiers, code: nat): char
    requires code < TABLE_SIZE
  {
    if m.shift then SHIFT_TABLE[code]
    else if m.caps then ToUpper(BASE_TABLE[code])
    else BASE_TABLE[code]
  }

  /** The character a scan code produces, NUL when it produces none. */
  function Pressed(m: Modifiers, scancode: Scancode): char
  {
    if IsRelease(scancode) || IsShift(scancode) || scancode == CAPS_LOCK || scancode >= TABLE_SIZE then NUL
    else Translate(m, scancode)
  }

  /**
   * What the handler prints for a character: nothing for NUL, four spaces
   * for a tab, the VESA notice for `g`/`G`, the character itself otherwise.
   */
  function EchoOf(c: char): seq<char>
  {
    if c == NUL then []
    else if c == '\t' then "    "
    else if c == 'g' || c == 'G' then VESA_NOTICE
    else [c]
  }

  /** What `keyboard_handler(scancode)` prints. */
  function Echo(m: Modifiers, scancode: Scancode): seq<char>
  {
    EchoOf(Pressed(m, scancode))
  }

  /** The press asks for the VESA graphics mode. */
  predicate RequestsVesa(m: Modifiers, scancode: Scancode)
  {
    var c := Pressed(m, scancode);
    c == 'g' || c == 'G'
  }

  lemma NoticeIsPlain()
    ensures '%' !in VESA_NOTICE && '\0' !in VESA_NOTICE
  {
    assert forall i :: 0 <= i < |VESA_NOTICE| ==> VESA_NOTICE[i] != '%' && VESA_NOTICE[i] != '\0';
  }

  lemma TablesSize()
    ensures |BASE_TABLE| == TABLE_SIZE && |SHIFT_TABLE| == TABLE_SIZE
  {
  }

  /** Pressing caps lock twice gives back the flags it started from. */
  lemma CapsLockTwice(m: Modifiers)
    ensures NextModifiers(NextModifiers(m, CAPS_LOCK), CAPS_LOCK) == m
  {
  }

  /**
   * A release clears shift when it is a shift key's and changes nothing
   * otherwise; it never prints. A shift press sets shift.
   */
  lemma ReleaseOnlyShift(m: Modifiers, scancode: Scancode)
    requires scancode >= 0x80
    ensures NextModifiers(m, scancode) == if scancode == 0xAA || scancode == 0xB6 then m.(shift := false) else m
    ensures Echo(m, scancode) == []
  {
  }

  /** Pressing either shift key sets shift, and nothing is printed. */
  lemma ShiftPress(m: Modifiers, scancode: Scancode)
    requires scancode == LEFT_SHIFT || scancode == RIGHT_SHIFT
    ensures NextModifiers(m, scancode) == m.(shift := true) && Echo(m, scancode) == []
  {
  }

  /** Keys other than shift and caps lock leave the modifier flags alone. */
  lemma OtherKeysKeepModifiers(m: Modifiers, scancode: Scancode)
    requires !IsShift(scancode % 0x80) && scancode != CAPS_LOCK
    ensures NextModifiers(m, scancode) == m
  {
  }

  /** With shift held the character comes from the shifted table and caps lock has no effect. */
  lemma ShiftIgnoresCaps(code: nat, caps: bool)
    requires code < TABLE_SIZE
    ensures Translate(Modifiers(true, caps), code) == SHIFT_TABLE[code]
    ensures Translate(Modifiers(true, caps), code) == Translate(Modifiers(true, !caps), code)
  {
  }

  /**
   * Without shift, caps lock changes only the letter keys, and on those it
   * gives the same capital as shift does.
   */
  lemma CapsLockLetters(code: nat)
    requires code < TABLE_SIZE
    ensures IsLower(BASE_TABLE[code]) ==> Translate(Modifiers(false, true), code) == SHIFT_TABLE[code]
    ensures !IsLower(BASE_TABLE[code]) ==> Translate(Modifiers(false, true), code) == Translate(Modifiers(false, false), code)
  {
    LetterRows(code);
  }

  /**
   * The shifted table holds the capital of every letter of the plain table,
   * at the same scan code. The proof goes row by row of the tables.
   */
  lemma LetterRows(code: nat)
    requires code < TABLE_SIZE
    ensures IsLower(BASE_TABLE[code]) ==> SHIFT_TABLE[code] == ToUpper(BASE_TABLE[code])
  {
    if code < 15 {
      NoLetters(code);
    } else if code < 29 {
      QwertyRow(code);
    } else if code < 43 {
      HomeRow(code);
    } else if code < 56 {
      BottomRow(code);
    } else {
      NoLetters(code);
    }
  }

  /** The number row and the keypad rows hold no letters. */
  lemma NoLetters(code: nat)
    requires code < 15 || 56 <= code < TABLE_SIZE
    ensures !IsLower(BASE_TABLE[code])
  {
    if code < 15 {
    } else if code < 72 {
    } else if code < 88 {
    } else {
    }
  }

  /** The row q..p: each shifted entry is the capital of the plain one. */
  lemma QwertyRow(code: nat)
    requires 15 <= code < 29
    ensures IsLower(BASE_TABLE[code]) ==> SHIFT_TABLE[code] == ToUpper(BASE_TABLE[code])
  {
  }

  /** The row a..l. */
  lemma HomeRow(code: nat)
    requires 29 <= code < 43
    ensures IsLower(BASE_TABLE[code]) ==> SHIFT_TABLE[code] == ToUpper(BASE_TABLE[code])
  {
  }

  /** The row z..m. */
  lemma BottomRow(code: nat)
    requires 43 <= code < 56
    ensures IsLower(BASE_TABLE[code]) ==> SHIFT_TABLE[code] == ToUpper(BASE_TABLE[code])
  {
  }

  /** Codes past the tables and codes whose table entry is 0 print nothing. */
  lemma NoCharacterNoOutput(m: Modifiers, scancode: Scancode)
    requires !IsRelease(scancode) && !IsShift(scancode) && scancode != CAPS_LOCK
    requires scancode >= TABLE_SIZE
      || (m.shift && SHIFT_TABLE[scancode] == NUL)
      || (!m.shift && BASE_TABLE[scancode] == NUL)
    ensures Echo(m, scancode) == [] && !RequestsVesa(m, scancode)
  {
  }

  /** The tab key prints four spaces, with or without shift. */
  lemma TabFourSpaces(m: Modifiers)
    ensures Echo(m, 0x0F) == "    "
  {
  }

  /** The enter key prints a newline and the backspace key a backspace, whatever the modifiers. */
  lemma EnterAndBackspace(m: Modifiers)
    ensures Echo(m, 0x1C) == "\n" && Echo(m, 0x0E) == [BACKSPACE]
  {
  }

  class Keyboard {
    /** `shift_pressed`. */
    var shiftPressed: bool
    /** `caps_lock`. */
    var capsLock: bool
    /** The console the handler echoes to. */
    const console: Console.Console

    function Flags(): Modifiers
      reads this
    {
      Modifiers(shiftPressed, capsLock)
    }

    /** The driver's statics before `keyboard_init`: both flags clear. */
    constructor(out: Console.Console)
      ensures Flags() == Modifiers(false, false) && console == out
    {
      shiftPressed, capsLock := false, false;
      console := out;
    }

    /** `keyboard_init`: both flags are cleared. */
    method KeyboardInit()
      modifies this
      ensures Flags() == Modifiers(false, false)
    {
      shiftPressed := false;
      capsLock := false;
    }

    /** The table lookup of `keyboard_handler`, caps lock applied to the plain table's letters. */
    method Lookup(scancode: nat) returns (ascii: char)
      requires scancode < TABLE_SIZE
      ensures ascii == Translate(Flags(), scancode)
    {
      if shiftPressed {
        ascii := SHIFT_TABLE[scancode];
      } else {
        ascii := BASE_TABLE[scancode];
        if capsLock && 'a' <= ascii <= 'z' {
          ascii := (ascii as int - 'a' as int + 'A' as int) as char;
        }
      }
    }

    /** `kprintf(t)` of a string with no conversion and no terminator inside prints t. */
    method PrintPlain(t: seq<char>)
      requires console.Valid() && '%' !in t && '\0' !in t
      modifies console, console.video
      ensures console.Valid() && console.State() == PutAll(old(console.State()), t)
    {
      console.KPrintf(t, []);
      FormatPlainString(t, []);
    }

    /** The output branch of `keyboard_handler` for a looked-up character. */
    method EchoChar(ascii: char)
      requires console.Valid()
      modifies console, console.video
      ensures console.Valid() && console.State() == PutAll(old(console.State()), EchoOf(ascii))
    {
      ghost var s0 := console.State();
      if ascii != NUL {
        if ascii == '\n' {
          PrintPlain("\n");
        } else if ascii == BACKSPACE {
          console.KPutChar(BACKSPACE);
          PutAllOne(s0, BACKSPACE);
        } else if ascii == '\t' {
          PrintPlain("    ");
        } else if ascii == 'g' || ascii == 'G' {
          NoticeIsPlain();
          PrintPlain(VESA_NOTICE);
        } else {
          console.KPutChar(ascii);
          PutAllOne(s0, ascii);
        }
      }
    }

    /**
     * `keyboard_handler(scancode)`: the flags become NextModifiers and the
     * console shows Echo. `vesa` reports that the press asked for the VESA
     * graphics mode, which is where the model stops.
     */
    method KeyboardHandler(scancode: Scancode) returns (vesa: bool)
      requires console.Valid()
      modifies this, console, console.video
      ensures Flags() == NextModifiers(old(Flags()), scancode)
      ensures console.Valid() && console.State() == PutAll(old(console.State()), Echo(old(Flags()), scancode))
      ensures vesa == RequestsVesa(old(Flags()), scancode)
    {
      vesa := false;
      if scancode >= 0x80 {
        var code := scancode - 0x80;
        if code == LEFT_SHIFT || code == RIGHT_SHIFT {
          shiftPressed := false;
        }
      } else {
        if scancode == LEFT_SHIFT || scancode == RIGHT_SHIFT {
          shiftPressed := true;
        } else if scancode == CAPS_LOCK {
          capsLock := !capsLock;
        } else if scancode < TABLE_SIZE {
          var ascii := Lookup(scancode);
          EchoChar(ascii);
          vesa := ascii == 'g' || ascii == 'G';
        }
      }
    }
  }
}
