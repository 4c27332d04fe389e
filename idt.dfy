/**
 * The interrupt descriptor table and the exception panic screen of idt.c.
 *
 * `idt` is a global table of 256 packed 8-byte gates; `idt_install` points
 * vectors 0..31 at the assembly stubs isr0..isr31 and loads the table with
 * `lidt`. An exception ends in `isr_common_stub`, which clears the screen,
 * names the exception and calls `kernel_panic`: a fixed text, the vector in
 * decimal, the faulting EIP and, for the vectors that push one, the error
 * code, each word as "0x" and eight uppercase hex digits (`print_hex`), then
 * the register dump. All output goes through `kprintf` of kprintf.c.
 */
module Idt {
  import opened PmmBits
  import PaeLayout
  import opened NumberFormat
  import opened TextScreen
  import opened SimpleConsole

  const IDT_ENTRIES: nat := 256
  /** `sizeof(struct idt_entry)`: the packed gate is 2 + 2 + 1 + 1 + 2 bytes. */
  const GATE_BYTES: nat := 8
  /** The kernel code segment selector every gate names. */
  const KERNEL_CODE_SELECTOR: nat := 0x08
  /** Present, ring 0, 32-bit interrupt gate. */
  const INTERRUPT_GATE: nat := 0x8E
  /** Vectors 0..31 are the processor exceptions that `idt_install` wires up. */
  const EXCEPTION_VECTORS: nat := 32
  /** `sizeof(idt) - 1`, the limit `idt_install` loads. */
  const IDT_LIMIT: nat := 2047

  /** `struct idt_entry`. */
  datatype Gate = Gate(offsetLow: nat, selector: nat, zero: nat, typeAttr: nat, offsetHigh: nat)

  /** A gate of the zero-initialised global table. */
  const NULL_GATE: Gate := Gate(0, 0, 0, 0, 0)

  /** The handler address a gate points at, reassembled from its two halves. */
  function HandlerOf(g: Gate): nat
  {
    g.offsetHigh * 0x10000 + g.offsetLow
  }

  /** A kernel interrupt gate: both offset halves are 16-bit, selector 0x08, type 0x8E. */
  predicate InterruptGate(g: Gate)
  {
    g.offsetLow < 0x10000 && g.offsetHigh < 0x10000
    && g.selector == KERNEL_CODE_SELECTOR && g.zero == 0 && g.typeAttr == INTERRUPT_GATE
  }

  /** The gate `idt_set_gate` writes for a handler, by halves of the address. */
  function GateFor(handler: u32): Gate
  {
    Gate(handler % 0x10000, KERNEL_CODE_SELECTOR, 0, INTERRUPT_GATE, handler / 0x10000)
  }

  /** The gate points at the handler it was made for: splitting the address loses nothing. */
  lemma GateHandler(handler: u32)
    ensures InterruptGate(GateFor(handler)) && HandlerOf(GateFor(handler)) == handler
  {
  }

  /** Conversely an interrupt gate is the gate of the address it points at. */
  lemma GateOfHandler(g: Gate)
    requires InterruptGate(g)
    ensures HandlerOf(g) < U32 && GateFor(HandlerOf(g)) == g
  {
    PaeLayout.DivModUnique(HandlerOf(g), 0x10000, g.offsetHigh, g.offsetLow);
  }

  lemma Pow2Values()
    ensures Pow2(4) == 16 && Pow2(16) == 0x10000
  {
    assert Pow2(4) == 16 by {
      assert Pow2(2) == 4;
      Pow2Add(2, 2);
    }
    Pow2Add(4, 4);
    Pow2Add(8, 8);
  }

  /** `handler & 0xFFFF` and `(handler >> 16) & 0xFFFF` are the remainder and the quotient by 2^16. */
  lemma HalvesByMasks(handler: u32)
    ensures And(handler, 0xFFFF) == handler % 0x10000
    ensures And(PaeLayout.Shr(handler, 16), 0xFFFF) == handler / 0x10000
  {
    Pow2Values();
    PaeLayout.LowMask(handler, 16);
    PaeLayout.ShrDiv(handler, 16);
    PaeLayout.LowMask(handler / 0x10000, 16);
  }

  /** `value & 0xF` and `value >> 4`: the low hex digit and the rest. */
  lemma NibbleByMasks(value: nat)
    ensures And(value, 0xF) == value % 16
    ensures PaeLayout.Shr(value, 4) == value / 16
  {
    Pow2Values();
    PaeLayout.LowMask(value, 4);
    PaeLayout.ShrDiv(value, 4);
  }

  /** What `print_hex(v)` prints. */
  function Hex(v: u32): (r: seq<char>)
  {
    "0x" + Fixed(v, 16, 8, true)
  }

  /**
   * `print_hex` shows exactly 8 uppercase hex digits after "0x", leading
   * zeros included, and they read back to the value.
   */
  lemma HexRoundTrip(v: u32)
    ensures |Hex(v)| == 10 && Hex(v)[..2] == "0x"
    ensures Value(Hex(v)[2..], 16) == v
    ensures forall i :: 2 <= i < 10 ==> Hex(v)[i] in UPPER_DIGITS
  {
    PowerValues();
    FixedValue(v, 16, 8, true);
    assert Hex(v)[2..] == Fixed(v, 16, 8, true);
  }

  /**
   * The vector number is printed in decimal with no leading zero, "0" for
   * vector 0, in at most 10 digits, and reads back to the vector.
   */
  lemma VectorDecimal(v: u32)
    ensures Value(Digits(v, 10, false), 10) == v && |Digits(v, 10, false)| <= 10
    ensures Digits(v, 10, false)[0] == '0' <==> v == 0
  {
    DigitsValue(v, 10, false);
    WordDigits(v, false);
    DigitsLeading(v, 10, false);
  }

  /** The eight digits hold no NUL, so `kprintf` prints them all. */
  lemma HexDigitsPlain(v: u32)
    ensures '\0' !in Fixed(v, 16, 8, true)
  {
    PowerValues();
    FixedValue(v, 16, 8, true);
  }

  /** Two different words never print alike. */
  lemma HexInjective(v: u32, w: u32)
    requires Hex(v) == Hex(w)
    ensures v == w
  {
    HexRoundTrip(v);
    HexRoundTrip(w);
  }

  /** The exceptions whose stubs push an error code that `kernel_panic` shows. */
  predicate HasErrorCode(v: u32)
  {
    v == 8 || (v >= 10 && v <= 14)
  }

  /** The vectors with a name of their own: 0-8, 10-14 and 16-19. */
  predicate Named(v: u32)
  {
    v <= 8 || (10 <= v <= 14) || (16 <= v <= 19)
  }

  const UNKNOWN: seq<char> := "Unknown interrupt"

  /** The exception's name in `isr_common_stub`'s switch, the default's for any other vector. */
  function ExceptionName(v: u32): seq<char>
  {
    match v
    case 0 => "Division by Zero"
    case 1 => "Debug"
    case 2 => "Non-Maskable Interrupt"
    case 3 => "Breakpoint"
    case 4 => "Overflow"
    case 5 => "Bound Range Exceeded"
    case 6 => "Invalid Opcode"
    case 7 => "Device Not Available"
    case 8 => "Double Fault"
    case 10 => "Invalid TSS"
    case 11 => "Segment Not Present"
    case 12 => "Stack Segment Fault"
    case 13 => "General Protection Fault"
    case 14 => "Page Fault"
    case 16 => "Floating Point Exception"
    case 17 => "Alignment Check"
    case 18 => "Machine Check"
    case 19 => "SIMD Floating Point Exception"
    case _ => UNKNOWN
  }

  /** The line `isr_common_stub` prints for a vector. */
  function ExceptionMessage(v: u32): seq<char>
  {
    "EXCEPTION: " + ExceptionName(v) + "!\n"
  }

  /**
   * Exactly the vectors 0-8, 10-14 and 16-19 get a name of their own;
   * 9, 15 and everything from 20 on share the unknown-interrupt line.
   */
  lemma NamedExceptions(v: u32)
    ensures ExceptionName(v) != UNKNOWN <==> Named(v)
  {
  }

  /** Every vector that shows an error code also has a name. */
  lemma ErrorCodesAreNamed(v: u32)
    requires HasErrorCode(v)
    ensures Named(v) && ExceptionName(v) != UNKNOWN
  {
    NamedExceptions(v);
  }

  /** `struct interrupt_frame`, in push order. */
  datatype Frame = Frame(
    edi: u32, esi: u32, ebp: u32, espDummy: u32, ebx: u32, edx: u32, ecx: u32, eax: u32,
    interruptNumber: u32, errorCode: u32,
    eip: u32, cs: u32, eflags: u32, esp: u32, ss: u32)

  /** One output call of the panic screen: `kprintf(s)` or `print_hex(v)`. */
  datatype Out = Text(s: seq<char>) | Word(v: u32)

  /** What one output call prints: a string up to its NUL, a word in hex. */
  function Shown(o: Out): seq<char>
  {
    match o
    case Text(s) => UntilNul(s)
    case Word(v) => Hex(v)
  }

  /** What a run of output calls prints, in order. */
  function ShownAll(os: seq<Out>): seq<char>
    decreases |os|
  {
    if |os| == 0 then [] else ShownAll(os[..|os| - 1]) + Shown(os[|os| - 1])
  }

  lemma ShownAllSnoc(os: seq<Out>, o: Out)
    ensures ShownAll(os + [o]) == ShownAll(os) + Shown(o)
  {
    assert (os + [o])[..|os + [o]| - 1] == os;
  }

  /** The calls of `show_register_dump`. */
  function DumpCalls(f: Frame): seq<Out>
  {
    [Text("Register Dump (at time of exception):\n"),
     Text("EAX="), Word(f.eax), Text(" EBX="), Word(f.ebx), Text(" ECX="), Word(f.ecx), Text(" EDX="), Word(f.edx), Text("\n"),
     Text("ESP="), Word(f.esp), Text(" EBP="), Word(f.ebp), Text(" ESI="), Word(f.esi), Text(" EDI="), Word(f.edi), Text("\n"),
     Text("EIP="), Word(f.eip), Text(" CS="), Word(f.cs), Text(" EFLAGS="), Word(f.eflags), Text("\n"),
     Text("SS="), Word(f.ss), Text("\n\n")]
  }

  /** The fixed lines `kernel_panic` starts with, up to the vector number. */
  const PANIC_HEAD: seq<Out> :=
    [Text("\n"), Text("=== KERNEL PANIC ===\n"),
     Text("The system has encountered a fatal error and cannot continue.\n"),
     Text("This exception occurred in kernel mode.\n\n"),
     Text("System Information:\n"), Text("- Kernel: LikeOS-NG\n"), Text("- Architecture: x86 (32-bit)\n"),
     Text("- Exception Number: ")]

  /** The end of the vector line and the fault address line. */
  function FaultCalls(f: Frame): seq<Out>
  {
    [Text("\n"), Text("- Fault Address (EIP): "), Word(f.eip), Text("\n")]
  }

  /** The error-code line, printed only for the vectors that push an error code. */
  function ErrorCodeCalls(f: Frame): seq<Out>
  {
    if HasErrorCode(f.interruptNumber) then [Text("- Error Code: "), Word(f.errorCode), Text("\n")] else []
  }

  const PANIC_TAIL: seq<Out> := [Text("=== END PANIC SCREEN ===\n"), Text("\nSystem halted.\n")]

  /** The first part of the panic screen: the fixed lines, the vector in decimal, EIP and the error code. */
  function PanicTop(f: Frame): seq<char>
  {
    ShownAll(PANIC_HEAD) + Digits(f.interruptNumber, 10, false)
    + ShownAll(FaultCalls(f)) + ShownAll(ErrorCodeCalls(f))
  }

  /** Everything `kernel_panic` prints before it halts. */
  function PanicScreen(f: Frame): seq<char>
  {
    PanicTop(f) + "\n" + ShownAll(DumpCalls(f)) + ShownAll(PANIC_TAIL)
  }

  /** A string literal without a NUL is printed whole. */
  lemma TextWhole(s: seq<char>)
    requires '\0' !in s
    ensures Shown(Text(s)) == s
  {
    UntilNulWhole(s, []);
  }

  /** A label, a word and a line end print as the label, the word in hex and the line end. */
  lemma LabelledWord(a: seq<char>, v: u32, b: seq<char>)
    ensures ShownAll([Text(a), Word(v), Text(b)]) == UntilNul(a) + Hex(v) + UntilNul(b)
  {
    var t1, w, t2 := Text(a), Word(v), Text(b);
    calc {
      ShownAll([t1, w, t2]);
      == { assert [t1, w, t2] == [t1, w] + [t2]; ShownAllSnoc([t1, w], t2); }
      ShownAll([t1, w]) + UntilNul(b);
      == { assert [t1, w] == [t1] + [w]; ShownAllSnoc([t1], w); }
      ShownAll([t1]) + Hex(v) + UntilNul(b);
      == { assert [t1] == [] + [t1]; ShownAllSnoc([], t1); }
      UntilNul(a) + Hex(v) + UntilNul(b);
    }
  }

  lemma ErrorHeadingPlain()
    ensures '\0' !in "- Error Code: "
  {
  }

  /** The error-code line reads "- Error Code: " and the code in hex. */
  lemma ErrorCodeLine(f: Frame)
    requires HasErrorCode(f.interruptNumber)
    ensures ShownAll(ErrorCodeCalls(f)) == "- Error Code: " + Hex(f.errorCode) + "\n"
  {
    LabelledWord("- Error Code: ", f.errorCode, "\n");
    ErrorHeadingPlain();
    UntilNulWhole("- Error Code: ", []);
    UntilNulWhole("\n", []);
  }

  /**
   * The error code is shown if and only if the vector pushes one: for the
   * other vectors nothing is printed in its place and the screen does not
   * depend on the error code at all.
   */
  lemma ErrorCodeShownIff(f: Frame, code: u32)
    ensures HasErrorCode(f.interruptNumber) <==> ShownAll(ErrorCodeCalls(f)) != []
    ensures !HasErrorCode(f.interruptNumber) ==> PanicScreen(f.(errorCode := code)) == PanicScreen(f)
  {
    var g := f.(errorCode := code);
    if HasErrorCode(f.interruptNumber) {
      ErrorCodeLine(f);
    } else {
      assert ErrorCodeCalls(g) == ErrorCodeCalls(f) && FaultCalls(g) == FaultCalls(f) && DumpCalls(g) == DumpCalls(f);
    }
  }

  /**
   * The decimal conversion of `kernel_panic`: the digits are produced least
   * significant first into `temp`, then copied back to front into `num_str`,
   * which ends with a NUL. The string is the vector in decimal with no
   * leading zero ("0" for 0).
   */
  method DecimalString(num: u32) returns (numStr: array<char>)
    ensures fresh(numStr) && numStr.Length == 12
    ensures UntilNul(numStr[..]) == Digits(num, 10, false)
  {
    numStr := new char[12];
    var i := 0;
    WordDigits(num, false);
    DigitsAreDigits(num, 10, false);
    if num == 0 {
      numStr[i] := '0';
      i := i + 1;
      DigitsLeading(num, 10, false);
      assert numStr[..i] == Digits(num, 10, false);
    } else {
      var temp, j := ReversedDigits(num);
      CopyBack(temp, j, numStr);
      i := j;
    }
    numStr[i] := '\0';
    assert numStr[..] == numStr[..i] + numStr[i..];
    UntilNulWhole(numStr[..i], numStr[i..]);
  }

  /** The second loop of the conversion: `num_str[i++] = temp[--j]` while j > 0. */
  method CopyBack(temp: array<char>, len: nat, numStr: array<char>)
    requires temp != numStr && len <= temp.Length && len < numStr.Length
    modifies numStr
    ensures numStr[..len] == Reverse(temp[..len])
  {
    var i := 0;
    var j := len;
    while j > 0
      invariant 0 <= j <= len && i + j == len
      invariant numStr[..i] == Reverse(temp[j..len])
    {
      j := j - 1;
      assert temp[j..len] == [temp[j]] + temp[j + 1..len];
      assert temp[j..len][1..] == temp[j + 1..len];
      numStr[i] := temp[j];
      assert numStr[..i + 1] == numStr[..i] + [temp[j]];
      i := i + 1;
    }
    assert temp[0..len] == temp[..len];
  }

  /** The first loop of the conversion: `temp[j++] = '0' + (num % 10); num /= 10;` until num is 0. */
  method ReversedDigits(num: u32) returns (temp: array<char>, j: nat)
    requires num > 0
    ensures fresh(temp) && temp.Length == 12
    ensures j == |Digits(num, 10, false)| && j <= 10 && Reverse(temp[..j]) == Digits(num, 10, false)
  {
    temp := new char[12];
    j := 0;
    var n: nat := num;
    WordDigits(num, false);
    while n > 0
      invariant j <= 10
      invariant n > 0 ==> Digits(num, 10, false) == Digits(n, 10, false) + Reverse(temp[..j])
      invariant n > 0 ==> j + |Digits(n, 10, false)| == |Digits(num, 10, false)|
      invariant n == 0 ==> Reverse(temp[..j]) == Digits(num, 10, false)
      decreases n
    {
      ghost var before := temp[..j];
      var c := ('0' as int + n % 10) as char;
      assert c == DigitChar(n % 10, false);
      temp[j] := c;
      assert temp[..j + 1] == before + [c];
      DigitStep(Digits(num, 10, false), n, before);
      QuotientSmaller(n, 10);
      n := n / 10;
      j := j + 1;
    }
  }

  /** Taking the last decimal digit of n into the buffer keeps the digits of num split between the two. */
  lemma DigitStep(all: seq<char>, n: nat, buffer: seq<char>)
    requires n > 0 && all == Digits(n, 10, false) + Reverse(buffer)
    ensures var b := buffer + [DigitChar(n % 10, false)];
      (n / 10 > 0 ==> all == Digits(n / 10, 10, false) + Reverse(b)
                      && |b| + |Digits(n / 10, 10, false)| == |buffer| + |Digits(n, 10, false)|)
      && (n / 10 == 0 ==> all == Reverse(b) && |b| == |buffer| + |Digits(n, 10, false)|)
  {
    DigitsLast(n, 10, false);
    var front := if n / 10 == 0 then [] else Digits(n / 10, 10, false);
    var c := DigitChar(n % 10, false);
    ReverseSnoc(buffer, c);
    assert (front + [c]) + Reverse(buffer) == front + Reverse(buffer + [c]);
  }

  class Idt {
    /** The global `idt[IDT_ENTRIES]`. */
    const entries: array<Gate>
    /** The limit last loaded into the IDT register by `lidt`. */
    var limit: nat
    /** `lidt` has been executed with `entries` as the base. */
    var loaded: bool
    /** The console `kprintf` writes to. */
    const console: SimpleConsole.Console

    predicate Valid()
      reads this
    {
      entries.Length == IDT_ENTRIES
    }

    /** The table as the kernel image provides it: every gate zero, nothing loaded. */
    constructor(out: SimpleConsole.Console)
      ensures Valid() && console == out && fresh(entries) && !loaded
      ensures forall v :: 0 <= v < IDT_ENTRIES ==> entries[v] == NULL_GATE
    {
      entries := new Gate[IDT_ENTRIES](_ => NULL_GATE);
      console := out;
      limit := 0;
      loaded := false;
    }

    /**
     * `idt_set_gate(n, handler)`: gate n becomes the kernel interrupt gate
     * for the handler's address; no other gate changes.
     */
    method IdtSetGate(n: nat, handler: u32)
      requires Valid() && n < IDT_ENTRIES
      modifies entries
      ensures entries[..] == old(entries[..])[n := GateFor(handler)]
    {
      HalvesByMasks(handler);
      entries[n] := Gate(And(handler, 0xFFFF), 0x08, 0, 0x8E, And(PaeLayout.Shr(handler, 16), 0xFFFF));
    }

    /** `lidt(idt, size)`: the table becomes the processor's with limit `size`. */
    method Lidt(size: nat)
      requires size < 0x10000
      modifies this
      ensures limit == size && loaded
    {
      limit := size;
      loaded := true;
    }

    /**
     * `idt_install`: vectors 0..31 point at isr0..isr31 (whose link-time
     * addresses are `isrs`), the other 224 gates stay as they were, and the
     * table is loaded with limit 2047, the last byte of the 256 8-byte gates.
     */
    method IdtInstall(isrs: seq<u32>)
      requires Valid() && |isrs| == EXCEPTION_VECTORS
      modifies this, entries
      ensures loaded && limit == IDT_LIMIT && limit + 1 == IDT_ENTRIES * GATE_BYTES
      ensures forall v :: 0 <= v < EXCEPTION_VECTORS ==> entries[v] == GateFor(isrs[v])
      ensures forall v :: EXCEPTION_VECTORS <= v < IDT_ENTRIES ==> entries[v] == old(entries[v])
    {
      var v := 0;
      while v < EXCEPTION_VECTORS
        invariant v <= EXCEPTION_VECTORS
        invariant forall u :: 0 <= u < v ==> entries[u] == GateFor(isrs[u])
        invariant forall u :: v <= u < IDT_ENTRIES ==> entries[u] == old(entries[u])
      {
        IdtSetGate(v, isrs[v]);
        v := v + 1;
      }
      Lidt(IDT_ENTRIES * GATE_BYTES - 1);
    }

    /**
     * `print_hex(value)`: eight hex digits are put into `buffer` from its
     * last slot, one nibble at a time, then "0x" and the buffer are printed.
     */
    method PrintHex(value: u32)
      requires console.Valid()
      modifies console, console.video
      ensures console.Valid() && console.State() == WrapPutAll(old(console.State()), Hex(value))
    {
      var buffer := HexBuffer(value);
      ghost var s0 := console.State();
      ghost var digits := Fixed(value, 16, 8, true);
      console.KPrintf("0x");
      UntilNulWhole("0x", []);
      console.KPrintf(buffer[..]);
      HexDigitsPlain(value);
      UntilNulWhole(digits, ['\0']);
      WrapPutAllConcat(s0, "0x", digits);
    }

    /** The loop of `print_hex`: `buffer[i] = hex_chars[value & 0xF]; value >>= 4;` for i from 7 down to 0. */
    static method HexBuffer(value: u32) returns (buffer: array<char>)
      ensures fresh(buffer) && buffer[..] == Fixed(value, 16, 8, true) + ['\0']
    {
      buffer := new char[9]['0', '0', '0', '0', '0', '0', '0', '0', '\0'];
      var v: nat := value;
      var i := 8;
      while i > 0
        invariant 0 <= i <= 8 && buffer[8] == '\0'
        invariant Fixed(value, 16, 8, true) == Fixed(v, 16, i, true) + buffer[i..8]
      {
        i := i - 1;
        NibbleByMasks(v);
        DigitCharInSet(v % 16, true);
        buffer[i] := UPPER_DIGITS[And(v, 0xF)];
        assert buffer[i..8] == [DigitChar(v % 16, true)] + buffer[i + 1..8];
        v := PaeLayout.Shr(v, 4);
      }
      assert buffer[..] == buffer[0..8] + [buffer[8]];
    }

    /** Performs the output calls in order. */
    method PrintAll(os: seq<Out>)
      requires console.Valid()
      modifies console, console.video
      ensures console.Valid() && console.State() == WrapPutAll(old(console.State()), ShownAll(os))
    {
      var k := 0;
      while k < |os|
        invariant k <= |os| && console.Valid()
        decreases |os| - k
        invariant console.State() == WrapPutAll(old(console.State()), ShownAll(os[..k]))
      {
        ghost var mid := console.State();
        match os[k] {
          case Text(s) => console.KPrintf(s);
          case Word(v) => PrintHex(v);
        }
        WrapPutAllConcat(old(console.State()), ShownAll(os[..k]), Shown(os[k]));
        assert os[..k + 1][..k] == os[..k];
        k := k + 1;
      }
      assert os[..k] == os;
    }

    /** `show_register_dump(frame)`. */
    method ShowRegisterDump(f: Frame)
      requires console.Valid()
      modifies console, console.video
      ensures console.Valid() && console.State() == WrapPutAll(old(console.State()), ShownAll(DumpCalls(f)))
    {
      PrintAll(DumpCalls(f));
    }

    /** Performs the output calls after `before`, which has been printed since s0. */
    method PrintAllAfter(ghost s0: Screen, ghost before: seq<char>, os: seq<Out>)
      requires console.Valid() && Inside(s0) && console.State() == WrapPutAll(s0, before)
      modifies console, console.video
      ensures console.Valid() && console.State() == WrapPutAll(s0, before + ShownAll(os))
    {
      PrintAll(os);
      WrapPutAllConcat(s0, before, ShownAll(os));
    }

    /** The part of `kernel_panic` up to the error code. */
    method PrintPanicTop(f: Frame)
      requires console.Valid()
      modifies console, console.video
      ensures console.Valid() && console.State() == WrapPutAll(old(console.State()), PanicTop(f))
    {
      ghost var s0 := console.State();
      PrintAll(PANIC_HEAD);
      ghost var p := ShownAll(PANIC_HEAD);
      var numStr := DecimalString(f.interruptNumber);
      console.KPrintf(numStr[..]);
      WrapPutAllConcat(s0, p, Digits(f.interruptNumber, 10, false));
      p := p + Digits(f.interruptNumber, 10, false);
      PrintAllAfter(s0, p, FaultCalls(f));
      p := p + ShownAll(FaultCalls(f));
      assert PanicTop(f) == p + ShownAll(ErrorCodeCalls(f));
      if f.interruptNumber == 8 || (f.interruptNumber >= 10 && f.interruptNumber <= 14) {
        PrintAllAfter(s0, p, ErrorCodeCalls(f));
      } else {
        assert ShownAll(ErrorCodeCalls(f)) == [];
        assert p + [] == p;
      }
    }

    /**
     * `kernel_panic(frame)`: the panic screen, ending in "System halted.";
     * the `cli; hlt` loop that follows is where the model stops.
     */
    method KernelPanic(f: Frame)
      requires console.Valid()
      modifies console, console.video
      ensures console.Valid() && console.State() == WrapPutAll(old(console.State()), PanicScreen(f))
    {
      ghost var s0 := console.State();
      PrintPanicTop(f);
      ghost var p := PanicTop(f);
      console.KPrintf("\n");
      UntilNulWhole("\n", []);
      WrapPutAllConcat(s0, p, "\n");
      p := p + "\n";
      ShowRegisterDump(f);
      WrapPutAllConcat(s0, p, ShownAll(DumpCalls(f)));
      p := p + ShownAll(DumpCalls(f));
      PrintAllAfter(s0, p, PANIC_TAIL);
    }

    /**
     * `isr_common_stub(frame)`: the screen is cleared, the exception named,
     * and the panic screen follows.
     */
    method IsrCommonStub(f: Frame)
      requires console.video.Length == CELLS
      modifies console, console.video
      ensures console.Valid()
      ensures console.State() == WrapPutAll(Cleared(), UntilNul(ExceptionMessage(f.interruptNumber)) + PanicScreen(f))
    {
      console.KClearScreen();
      console.KPrintf(ExceptionMessage(f.interruptNumber));
      KernelPanic(f);
      WrapPutAllConcat(Cleared(), UntilNul(ExceptionMessage(f.interruptNumber)), PanicScreen(f));
    }
  }
}
