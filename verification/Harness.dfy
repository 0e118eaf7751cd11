/** The guest side of a run: the serial port, the debug spinner, and the harness that prints the transcript
    (util/printf.c fprintf, util/debug.c, harness/harness.c). */
module Harness {
  import opened Bits
  import opened Printf
  import opened PrintfMeaning
  import opened FormatMeaning
  import opened Wrappers

  const BUFFER_SIZE: nat := 0x1000
  const BEGIN_LINE := "\\\\BENCHMARKS BEGIN\r\n"
  const END_LINE := "\\\\BENCHMARKS END\r\n"
  const BACKSPACE: char := '\U{0008}'

  class Uart {
    var out: string

    method Putch(c: char)
      modifies this
      ensures out == old(out) + [c]
    {
      out := out + [c];
    }
  }

  /** A C string stops at its first NUL. */
  function UpToNul(s: string): string {
    if s == "" || s[0] == '\0' then "" else [s[0]] + UpToNul(s[1..])
  }

  predicate IsCString(s: string) {
    forall k :: 0 <= k < |s| ==> s[k] != '\0'
  }

  lemma {:induction false} CStringWhole(s: string)
    requires IsCString(s)
    ensures UpToNul(s) == s
  {
    if s != "" { CStringWhole(s[1..]); }
  }

  lemma {:induction false} UpToNulSplit(s: string, k: nat)
    requires k <= |s| && IsCString(s[..k])
    ensures UpToNul(s) == s[..k] + UpToNul(s[k..])
  {
    if k > 0 {
      assert s[0] == s[..k][0];
      assert s[1..][..k - 1] == s[..k][1..];
      UpToNulSplit(s[1..], k - 1);
    }
  }

  lemma WrittenAtFront(before: string, text: string)
    requires |text| < |before|
    ensures var b := Written(before, 0, text + ['\0']);
            b[..|text|] == text && b[|text|] == '\0'
  {
  }

  /** Format into a 4 KiB buffer, then send the characters up to the NUL. */
  method Fprintf(uart: Uart, fmt: string, args: seq<Arg>) returns (rc: nat)
    requires Matches(fmt, 0, args)
    modifies uart
    ensures rc == |Output(fmt, 0, args, BUFFER_SIZE - 1)|
    ensures uart.out == old(uart.out) + UpToNul(Output(fmt, 0, args, BUFFER_SIZE - 1))
  {
    hide Output, Matches, Written;
    var buffer := new char[BUFFER_SIZE];
    ghost var before, text := buffer[..], Output(fmt, 0, args, BUFFER_SIZE - 1);
    rc := Vsnprintf(buffer, BUFFER_SIZE, fmt, args);
    WrittenAtFront(before, text);
    var i := 0;
    while i < BUFFER_SIZE
      invariant 0 <= i <= rc && IsCString(text[..i])
      invariant uart.out == old(uart.out) + text[..i]
      invariant buffer[..rc] == text && buffer[rc] == '\0'
    {
      if buffer[i] == '\0' { break; }
      assert text[i] == buffer[..rc][i];
      assert text[..i + 1] == text[..i] + [text[i]];
      uart.Putch(buffer[i]);
      i := i + 1;
    }
    UpToNulSplit(text, i);
    assert i < rc ==> text[i] == buffer[..rc][i];
  }

  /** A format without conversions prints itself. */
  predicate IsPlain(s: string) {
    IsCString(s) && '%' !in s && |s| < BUFFER_SIZE - 1
  }

  lemma {:induction false} PlainFormat(fmt: string, i: nat)
    requires i <= |fmt| && '%' !in fmt
    ensures Matches(fmt, i, []) && Implemented(fmt, i) && AllHandled(fmt, i, []) && FullOutput(fmt, i, []) == fmt[i..]
    decreases |fmt| - i
  {
    if i < |fmt| { PlainFormat(fmt, i + 1); }
  }

  method PrintPlain(uart: Uart, fmt: string)
    requires IsPlain(fmt)
    modifies uart
    ensures uart.out == old(uart.out) + fmt
  {
    PlainFormat(fmt, 0);
    OutputFits(fmt, 0, [], BUFFER_SIZE - 1);
    CStringWhole(fmt);
    var rc := Fprintf(uart, fmt, []);
  }

  // The spinner.

  const SPINNER_CHARS := "|/-\\"

  class Spinner {
    var counter: Word32
    var counterRollover: Word32
    var counterIndex: Word32

    /** `debug_spinner_start` */
    method Start(uart: Uart, rollover: Word)
      requires uart as object != this
      modifies this, uart
      ensures uart.out == old(uart.out) + " "
      ensures counter == 0 && counterIndex == 0 && counterRollover == rollover % TWO32
    {
      PrintPlain(uart, " ");
      counter := 0;
      counterRollover := rollover % TWO32;
      counterIndex := 0;
    }

    /** `debug_spinner` */
    method Tick(uart: Uart)
      requires uart as object != this
      modifies this, uart
      ensures uart.out == old(uart.out) + SpinText(old(counter), old(counterIndex), counterRollover, 1)
      ensures counterRollover == old(counterRollover)
      ensures (counter, counterIndex) == AfterTick(old(counter), old(counterIndex), counterRollover)
    {
      counter := (counter + 1) % TWO32;
      if counter >= counterRollover {
        counter := 0;
        counterIndex := (counterIndex + 1) % TWO32;
        Mask(counterIndex, 0, 2, 1, 4);
        var c := SPINNER_CHARS[And(counterIndex, 3)];
        SpinnerFormat(c);
        var rc := Fprintf(uart, [BACKSPACE] + "%c", [IntArg(c as int)]);
      }
    }
  }

  function AfterTick(counter: Word32, index: Word32, rollover: Word32): (Word32, Word32) {
    var c := (counter + 1) % TWO32;
    if c >= rollover then (0, (index + 1) % TWO32) else (c, index)
  }

  /** What the spinner prints over a number of ticks. */
  function SpinText(counter: Word32, index: Word32, rollover: Word32, ticks: nat): string
    decreases ticks
  {
    if ticks == 0 then ""
    else
      var (counter', index') := AfterTick(counter, index, rollover);
      (if (counter + 1) % TWO32 >= rollover then [BACKSPACE, SPINNER_CHARS[index' % 4]] else "")
        + SpinText(counter', index', rollover, ticks - 1)
  }

  lemma SpinnerFormat(c: char)
    requires '\0' < c < '\U{0080}'
    ensures var fmt := [BACKSPACE] + "%c";
            && Matches(fmt, 0, [IntArg(c as int)])
            && UpToNul(Output(fmt, 0, [IntArg(c as int)], BUFFER_SIZE - 1)) == [BACKSPACE, c]
  {
    hide Prints;
    var fmt := [BACKSPACE] + "%c";
    PrintsNothing(fmt);
    var args := [IntArg(c as int)];
    assert args[1..] == [] && [c] + "" == [c];
    PrintsConversion(fmt, 1, args, "");
    PrintsLiteral(fmt, 0, args, [c]);
    PrintsAll(fmt, [IntArg(c as int)], [BACKSPACE, c]);
  }

  // The transcript.

  /** A kernel, as far as the serial line sees it: its spinner's rollover, and how often it ticks. */
  datatype Kernel = Kernel(rollover: Word, ticks: nat)

  datatype Benchmark = Benchmark(category: string, name: string, count: Word, control: Option<Kernel>, kernel: Kernel)

  /** n frames of the spinner, each drawn over the one before. */
  function Frames(first: nat, n: nat): string
    decreases n
  {
    if n == 0 then "" else ['\U{0008}', "|/-\\"[first % 4]] + Frames(first + 1, n - 1)
  }

  lemma {:induction false} FramesPeriod(a: nat, b: nat, n: nat)
    requires a % 4 == b % 4
    ensures Frames(a, n) == Frames(b, n)
    decreases n
  {
    if n > 0 { FramesPeriod(a + 1, b + 1, n - 1); }
  }

  /** One frame for every `rollover` ticks, in turn. */
  lemma {:induction false} SpinFrames(counter: Word32, index: Word32, rollover: Word32, ticks: nat)
    requires counter < rollover
    ensures SpinText(counter, index, rollover, ticks) == Frames(index + 1, (counter + ticks) / rollover)
    decreases ticks
  {
    hide Frames, SpinText;
    if ticks == 0 {
      DivModUnique(counter, rollover, 0, counter);
      FramesStep(index + 1, 0);
      SpinNever(counter, index, rollover);
    } else if counter + 1 < rollover {
      SpinStep(counter, index, rollover, ticks);
      SpinFrames(counter + 1, index, rollover, ticks - 1);
    } else {
      SpinFrames(0, (index + 1) % TWO32, rollover, ticks - 1);
      OneRollover(ticks - 1, rollover);
      RolloverFrame(index, (ticks - 1) / rollover);
      SpinStep(counter, index, rollover, ticks);
    }
  }

  /** The frame number is counted modulo 2^32, which the four spinner characters do not notice. */
  lemma RolloverFrame(index: Word32, n: nat)
    ensures var next := (index + 1) % TWO32;
            Frames(index + 1, n + 1) == [BACKSPACE, SPINNER_CHARS[next % 4]] + Frames(next + 1, n)
  {
    hide Frames;
    var next := (index + 1) % TWO32;
    IndexPeriod(index);
    FramesPeriod(next + 1, index + 2, n);
    FramesStep(index + 1, n);
  }

  lemma FramesStep(first: nat, n: nat)
    ensures Frames(first, n + 1) == [BACKSPACE, SPINNER_CHARS[first % 4]] + Frames(first + 1, n)
    ensures Frames(first, 0) == ""
  {
  }

  lemma SpinStep(counter: Word32, index: Word32, rollover: Word32, ticks: nat)
    requires counter < rollover && ticks > 0
    ensures SpinText(counter, index, rollover, ticks)
         == if counter + 1 < rollover then SpinText(counter + 1, index, rollover, ticks - 1)
            else [BACKSPACE, SPINNER_CHARS[(index + 1) % TWO32 % 4]] + SpinText(0, (index + 1) % TWO32, rollover, ticks - 1)
  {
    if counter + 1 < rollover {
      assert "" + SpinText(counter + 1, index, rollover, ticks - 1) == SpinText(counter + 1, index, rollover, ticks - 1);
    }
  }

  lemma IndexPeriod(index: Word32)
    ensures (index + 1) % TWO32 % 4 == (index + 1) % 4 && ((index + 1) % TWO32 + 1) % 4 == (index + 2) % 4
  {
  }

  lemma OneRollover(ticks: nat, rollover: nat)
    requires rollover > 0
    ensures (rollover + ticks) / rollover == 1 + ticks / rollover
  {
    var q := ticks / rollover;
    assert rollover * (1 + q) == rollover + rollover * q;
    DivModUnique(rollover + ticks, rollover, 1 + q, ticks % rollover);
  }

  /** The names fit the formatter's buffer. */
  predicate Printable(b: Benchmark) {
    IsCString(b.category) && IsCString(b.name) && |b.category| + |b.name| + 3 < BUFFER_SIZE - 1
  }

  function Hex(v: Word32): string {
    FullNumber(v, 16)
  }

  /** What a kernel prints: nothing, or in a debug build the spinner. */
  function KernelNoise(k: Kernel, debug: bool): string {
    if debug then " " + SpinText(0, 0, k.rollover % TWO32, k.ticks) else ""
  }

  function ControlPart(control: Option<Kernel>, debug: bool): string {
    if control.Some? then " {" + KernelNoise(control.value, debug) + "}" else ""
  }

  function Entry(b: Benchmark, debug: bool): string {
    (b.category + " - " + b.name) + (" " + Hex(b.count % TWO32)) + ControlPart(b.control, debug)
      + (" [" + KernelNoise(b.kernel, debug) + "]\r\n")
  }

  function Entries(bs: seq<Benchmark>, debug: bool): string {
    if bs == [] then "" else Entry(bs[0], debug) + Entries(bs[1..], debug)
  }

  function Transcript(bs: seq<Benchmark>, debug: bool): string {
    "\r\n\r\n" + BEGIN_LINE + Entries(bs, debug) + END_LINE
  }

  lemma HeaderFormat(category: string, name: string)
    requires IsCString(category) && IsCString(name) && |category| + |name| + 3 < BUFFER_SIZE - 1
    ensures var fmt, args := "%s - %s", [StrArg(category), StrArg(name)];
            && Matches(fmt, 0, args)
            && UpToNul(Output(fmt, 0, args, BUFFER_SIZE - 1)) == category + " - " + name
  {
    hide Prints;
    var fmt := "%s - %s";
    var a, b := StrArg(category), StrArg(name);
    assert fmt[0] == '%' && fmt[1] == 's' && fmt[2] == ' ' && fmt[3] == '-' && fmt[4] == ' ' && fmt[5] == '%' && fmt[6] == 's';
    PrintsNothing(fmt);
    assert [b][1..] == [] && [a, b][1..] == [b] && name + "" == name;
    PlainText(category, 1);
    PlainText(name, 6);
    PrintsConversion(fmt, 5, [b], "");
    PrintsLiteral(fmt, 4, [b], name);
    PrintsLiteral(fmt, 3, [b], [' '] + name);
    PrintsLiteral(fmt, 2, [b], ['-'] + ([' '] + name));
    PrintsConversion(fmt, 0, [a, b], [' '] + (['-'] + ([' '] + name)));
    assert category + ([' '] + (['-'] + ([' '] + name))) == category + " - " + name;
    PrintsAll(fmt, [a, b], category + " - " + name);
  }

  lemma PlainText(text: string, at: nat)
    ensures FullText('s', Spec(at, 0, ' ', false), StrArg(text)) == text
  {
    assert Repeat(' ', 0) + text == text;
  }

  lemma PrintsAll(fmt: string, args: seq<Arg>, text: string)
    requires Prints(fmt, 0, args, text) && |text| < BUFFER_SIZE - 1 && IsCString(text)
    ensures Matches(fmt, 0, args) && UpToNul(Output(fmt, 0, args, BUFFER_SIZE - 1)) == text
  {
    OutputFits(fmt, 0, args, BUFFER_SIZE - 1);
    CStringWhole(text);
  }

  lemma CountFormat(v: Word32)
    ensures var fmt, args := " %x", [IntArg(v)];
            && Matches(fmt, 0, args)
            && UpToNul(Output(fmt, 0, args, BUFFER_SIZE - 1)) == " " + Hex(v)
  {
    hide Prints;
    var fmt, arg := " %x", IntArg(v);
    PrintsNothing(fmt);
    IntsAreHandled('x', Spec(2, 0, ' ', false), arg);
    assert [arg][1..] == [];
    PrintsConversion(fmt, 1, [arg], "");
    PlainHex(v);
    PrintsLiteral(fmt, 0, [arg], Hex(v));
    HexDigits(v, 8);
    PrintsAll(fmt, [arg], " " + Hex(v));
  }

  lemma PlainHex(v: Word32)
    ensures FullText('x', Spec(2, 0, ' ', false), IntArg(v)) + "" == Hex(v)
  {
    assert Repeat(' ', 0) + Hex(v) == Hex(v);
  }

  /** A hexadecimal numeral has as many digits as it needs, and only lower-case hexadecimal digits. */
  lemma {:induction false} HexDigits(v: nat, places: nat)
    requires v < Power(16, places)
    ensures |Digits(v, 16)| <= places
    ensures forall k :: 0 <= k < |Digits(v, 16)| ==> IsHexDigit(Digits(v, 16)[k])
    ensures IsCString(Digits(v, 16))
  {
    if v > 0 {
      assert v / 16 < Power(16, places - 1);
      HexDigits(v / 16, places - 1);
    }
  }

  predicate IsHexDigit(c: char) {
    '0' <= c <= '9' || 'a' <= c <= 'f'
  }

  /** `harness_execute` */
  method HarnessExecute(uart: Uart, spinner: Spinner, b: Benchmark, debug: bool)
    requires Printable(b) && uart as object != spinner
    modifies uart, spinner
    ensures uart.out == old(uart.out) + Entry(b, debug)
  {
    hide Hex, KernelNoise, Matches, Output;
    HeaderFormat(b.category, b.name);
    var rc := Fprintf(uart, "%s - %s", [StrArg(b.category), StrArg(b.name)]);
    CountFormat(b.count % TWO32);
    rc := Fprintf(uart, " %x", [IntArg(b.count % TWO32)]);
    ghost var o := uart.out;
    if b.control.Some? { RunBetween(uart, spinner, " {", b.control.value, debug, "}"); }
    assert uart.out == o + ControlPart(b.control, debug);
    RunBetween(uart, spinner, " [", b.kernel, debug, "]\r\n");
    Concat4(old(uart.out), b.category + " - " + b.name, " " + Hex(b.count % TWO32), ControlPart(b.control, debug),
            " [" + KernelNoise(b.kernel, debug) + "]\r\n");
  }

  method TickRepeatedly(uart: Uart, spinner: Spinner, ticks: nat)
    requires uart as object != spinner
    modifies uart, spinner
    ensures uart.out == old(uart.out) + SpinText(old(spinner.counter), old(spinner.counterIndex), old(spinner.counterRollover), ticks)
  {
    hide SpinText, AfterTick;
    ghost var rollover, done := spinner.counterRollover, "";
    ghost var all := SpinText(spinner.counter, spinner.counterIndex, rollover, ticks);
    assert done + all == all;
    for i := 0 to ticks
      invariant spinner.counterRollover == rollover && uart.out == old(uart.out) + done
      invariant done + SpinText(spinner.counter, spinner.counterIndex, rollover, ticks - i) == all
    {
      ghost var c, x := spinner.counter, spinner.counterIndex;
      SpinOnce(c, x, rollover, ticks - i);
      spinner.Tick(uart);
      ConcatStep(done, SpinText(c, x, rollover, 1), SpinText(spinner.counter, spinner.counterIndex, rollover, ticks - i - 1));
      done := done + SpinText(c, x, rollover, 1);
    }
    SpinNever(spinner.counter, spinner.counterIndex, rollover);
    assert done + "" == done;
  }

  lemma SpinNever(counter: Word32, index: Word32, rollover: Word32)
    ensures SpinText(counter, index, rollover, 0) == ""
  {
  }

  lemma SpinOnce(counter: Word32, index: Word32, rollover: Word32, ticks: nat)
    requires ticks > 0
    ensures var (counter', index') := AfterTick(counter, index, rollover);
            SpinText(counter, index, rollover, ticks) == SpinText(counter, index, rollover, 1) + SpinText(counter', index', rollover, ticks - 1)
  {
  }

  lemma Concat4(o: string, a: string, b: string, c: string, d: string)
    ensures o + a + b + c + d == o + (a + b + c + d)
  {
  }

  /** The opening text, the kernel, the closing text. */
  method RunBetween(uart: Uart, spinner: Spinner, open: string, k: Kernel, debug: bool, close: string)
    requires uart as object != spinner && IsPlain(open) && IsPlain(close)
    modifies uart, spinner
    ensures uart.out == old(uart.out) + (open + KernelNoise(k, debug) + close)
  {
    hide KernelNoise;
    PrintPlain(uart, open);
    RunKernel(uart, spinner, k, debug);
    PrintPlain(uart, close);
    Concat4(old(uart.out), open, KernelNoise(k, debug), close, "");
  }

  /** A kernel starts the spinner and ticks it; without debugging both are no-ops. */
  method RunKernel(uart: Uart, spinner: Spinner, k: Kernel, debug: bool)
    requires uart as object != spinner
    modifies uart, spinner
    ensures uart.out == old(uart.out) + KernelNoise(k, debug)
  {
    if debug {
      spinner.Start(uart, k.rollover);
      TickRepeatedly(uart, spinner, k.ticks);
      Concat4(old(uart.out), " ", SpinText(0, 0, k.rollover % TWO32, k.ticks), "", "");
    } else {
      assert uart.out + "" == uart.out;
    }
  }

  /** `harness_main` */
  method HarnessMain(uart: Uart, spinner: Spinner, benchmarks: seq<Benchmark>, debug: bool)
    requires uart as object != spinner && forall k :: 0 <= k < |benchmarks| ==> Printable(benchmarks[k])
    modifies uart, spinner
    ensures uart.out == old(uart.out) + Transcript(benchmarks, debug)
  {
    hide Entry;
    PrintPlain(uart, "\r\n\r\n");
    PrintPlain(uart, BEGIN_LINE);
    ghost var done := "";
    for i := 0 to |benchmarks|
      invariant uart.out == old(uart.out) + "\r\n\r\n" + BEGIN_LINE + done
      invariant done + Entries(benchmarks[i..], debug) == Entries(benchmarks, debug)
    {
      HarnessExecute(uart, spinner, benchmarks[i], debug);
      ConcatStep(done, Entry(benchmarks[i], debug), Entries(benchmarks[i + 1..], debug));
      assert benchmarks[i..][1..] == benchmarks[i + 1..];
      done := done + Entry(benchmarks[i], debug);
    }
    assert done == Entries(benchmarks, debug);
    PrintPlain(uart, END_LINE);
    Concat4(old(uart.out), "\r\n\r\n", BEGIN_LINE, done, END_LINE);
  }
}
