/** The host recovers what the guest printed: the parser of host/main.c inverts the printer of
    harness/harness.c, through the formatter, whatever came before and whatever the spinner draws. */
module Transcript {
  import opened Bits
  import opened Printf
  import opened PrintfMeaning
  import H = Harness
  import opened Host
  import opened Wrappers

  /** A name the host's buffers and its %s conversion can take. */
  predicate NameOk(s: string) {
    0 < |s| < 128 && forall k :: 0 <= k < |s| ==> !IsSpace(s[k]) && s[k] != '\0'
  }

  predicate BenchmarkOk(b: H.Benchmark) {
    NameOk(b.category) && NameOk(b.name)
  }

  function Expected(b: H.Benchmark): Record {
    Record(b.category, b.name, b.count % TWO32, b.control.Some?, true)
  }

  function ExpectedAll(bs: seq<H.Benchmark>): seq<Record> {
    seq(|bs|, k requires 0 <= k < |bs| => Expected(bs[k]))
  }

  // Scanning lemmas.

  lemma {:induction false} SkipSpaceAppend(w: string, t: string)
    requires forall k :: 0 <= k < |w| ==> IsSpace(w[k])
    requires t != "" && !IsSpace(t[0])
    ensures SkipSpace(w + t) == t
  {
    if w == "" { assert w + t == t; } else {
      assert (w + t)[0] == w[0] && (w + t)[1..] == w[1..] + t;
      SkipSpaceAppend(w[1..], t);
    }
  }

  lemma {:induction false} TokenAppend(a: string, t: string)
    requires forall k :: 0 <= k < |a| ==> !IsSpace(a[k])
    requires t != "" && IsSpace(t[0])
    ensures Token(a + t) == a && AfterToken(a + t) == t
  {
    if a == "" { assert a + t == t; } else {
      assert (a + t)[0] == a[0] && (a + t)[1..] == a[1..] + t;
      TokenAppend(a[1..], t);
    }
  }

  lemma {:induction false} HexRunAppend(h: string, t: string)
    requires forall k :: 0 <= k < |h| ==> IsHex(h[k])
    requires t != "" && !IsHex(t[0])
    ensures HexRun(h + t) == h && AfterHexRun(h + t) == t
  {
    if h == "" { assert h + t == t; } else {
      assert (h + t)[0] == h[0] && (h + t)[1..] == h[1..] + t;
      HexRunAppend(h[1..], t);
    }
  }

  lemma {:induction false} SkipNoiseAppend(n: string, t: string)
    requires forall k :: 0 <= k < |n| ==> IsNoise(n[k])
    requires t != "" && !IsNoise(t[0])
    ensures SkipNoise(n + t) == t
  {
    if n == "" { assert n + t == t; } else {
      assert (n + t)[0] == n[0] && (n + t)[1..] == n[1..] + t;
      SkipNoiseAppend(n[1..], t);
    }
  }

  /** The spinner draws only characters the host ignores. */
  lemma {:induction false} SpinTextIsNoise(counter: Word32, index: Word32, rollover: Word32, ticks: nat)
    ensures forall k :: 0 <= k < |H.SpinText(counter, index, rollover, ticks)| ==> IsNoise(H.SpinText(counter, index, rollover, ticks)[k])
    decreases ticks
  {
    if ticks > 0 {
      var (counter', index') := H.AfterTick(counter, index, rollover);
      SpinTextIsNoise(counter', index', rollover, ticks - 1);
    }
  }

  lemma KernelNoiseIsNoise(k: H.Kernel, debug: bool)
    ensures forall j :: 0 <= j < |H.KernelNoise(k, debug)| ==> IsNoise(H.KernelNoise(k, debug)[j])
  {
    SpinTextIsNoise(0, 0, k.rollover % TWO32, k.ticks);
  }

  // Numbers.

  lemma {:induction false} HexReadBack(v: nat)
    ensures forall k :: 0 <= k < |Digits(v, 16)| ==> IsHex(Digits(v, 16)[k])
    ensures HexNumber(Digits(v, 16)) == v
    ensures v > 0 ==> Digits(v, 16) != "" && Digits(v, 16)[0] != '0'
  {
    if v > 0 {
      HexReadBack(v / 16);
      var d, c := Digits(v / 16, 16), DigitChar(v % 16);
      assert Digits(v, 16) == d + [c] && (d + [c])[..|d|] == d;
    }
  }

  lemma HexText(v: Word32)
    ensures var h := H.Hex(v);
            && h != "" && (forall k :: 0 <= k < |h| ==> IsHex(h[k])) && HexNumber(h) == v
            && (|h| > 1 ==> h[0] != '0')
  {
    HexReadBack(v);
    if v == 0 { assert "0"[..0] == ""; }
  }

  /** The count is read back from its numeral and the space after it. */
  lemma ScanCount(v: Word32, t: string)
    requires t != "" && t[0] == ' '
    ensures ScanHex(" " + H.Hex(v) + t) == Some((v, t))
  {
    hide H.Hex, HexNumber, HexRun, AfterHexRun, SkipSpace;
    HexText(v);
    var h := H.Hex(v);
    var u := h + t;
    assert u[0] == h[0] && u[1] == if |h| > 1 then h[1] else ' ';
    assert " " + h + t == " " + u;
    SkipSpaceAppend(" ", u);
    HexRunAppend(h, t);
  }

  // One benchmark.

  /** What follows the count in an entry. */
  function Brackets(b: H.Benchmark, debug: bool): string {
    H.ControlPart(b.control, debug) + (" [" + H.KernelNoise(b.kernel, debug) + "]\r\n")
  }

  lemma ScanEntryHeader(lead: string, b: H.Benchmark, tail: string)
    requires BenchmarkOk(b) && forall k :: 0 <= k < |lead| ==> IsSpace(lead[k])
    requires |tail| > 1 && tail[0] == ' ' && !IsSpace(tail[1])
    ensures ScanHeader(lead + (b.category + " - " + b.name + (" " + H.Hex(b.count % TWO32)) + tail))
         == Three(b.category, b.name, b.count % TWO32, tail[1..])
  {
    hide H.Hex, Token, AfterToken, SkipSpace, ScanHex;
    var h := H.Hex(b.count % TWO32);
    var s4 := " " + h + tail;
    var s3 := b.name + s4;
    var s2 := "- " + s3;
    var s1 := b.category + (" " + s2);
    assert b.category + " - " + b.name + (" " + h) + tail == s1;
    SkipSpaceAppend(lead, s1);
    TokenAppend(b.category, " " + s2);
    SkipSpaceAppend(" ", s2);
    assert s2[1..] == " " + s3;
    SkipSpaceAppend(" ", s3);
    TokenAppend(b.name, s4);
    ScanCount(b.count % TWO32, tail);
    assert tail == " " + tail[1..];
    SkipSpaceAppend(" ", tail[1..]);
  }

  /** Noise, an opening bracket, more noise and its closing bracket are read as such and consumed. */
  lemma BracketsConsumed(lead: string, open: char, noise: string, close: char, t: string)
    requires forall k :: 0 <= k < |lead| ==> IsNoise(lead[k])
    requires forall k :: 0 <= k < |noise| ==> IsNoise(noise[k])
    requires !IsNoise(open) && !IsNoise(close)
    ensures var s := lead + ([open] + (noise + [close] + t));
            (forall c :: Opens(s, c) <==> c == open) && Rest(SkipNoise(Rest(SkipNoise(s)))) == t
  {
    hide IsNoise;
    var inside := noise + [close] + t;
    SkipNoiseAppend(lead, [open] + inside);
    assert ([open] + inside)[1..] == inside;
    assert inside == noise + ([close] + t);
    SkipNoiseAppend(noise, [close] + t);
    assert ([close] + t)[1..] == t;
  }

  /** The stream from a kernel's opening bracket on. */
  function KernelText(k: H.Kernel, debug: bool, more: string): string {
    "[" + (H.KernelNoise(k, debug) + [']'] + ("\r\n" + more))
  }

  lemma BracketsShape(b: H.Benchmark, debug: bool, more: string)
    ensures |Brackets(b, debug)| > 1 && Brackets(b, debug)[0] == ' ' && !IsSpace(Brackets(b, debug)[1])
    ensures Brackets(b, debug)[1..] + more
         == if b.control.Some? then "{" + (H.KernelNoise(b.control.value, debug) + ['}'] + (" " + KernelText(b.kernel, debug, more)))
            else KernelText(b.kernel, debug, more)
  {
    hide H.KernelNoise;
    var kernel := H.KernelNoise(b.kernel, debug);
    var tail := " [" + kernel + "]\r\n";
    assert tail + more == " " + KernelText(b.kernel, debug, more);
    if b.control.Some? {
      var control := H.KernelNoise(b.control.value, debug);
      assert Brackets(b, debug) == " {" + control + "}" + tail;
      JoinControl(control, tail, more);
    } else {
      assert Brackets(b, debug) == tail;
      assert tail[1..] + more == (tail + more)[1..];
    }
  }

  lemma JoinControl(control: string, tail: string, more: string)
    ensures (" {" + control + "}" + tail)[1..] + more == "{" + (control + ['}'] + (tail + more))
  {
    assert (" {" + control + "}" + tail)[1..] == "{" + (control + ['}'] + tail);
  }

  /** The brackets are timed whatever the kernels draw inside them. */
  lemma TimeEntryBrackets(b: H.Benchmark, debug: bool, more: string)
    ensures TimeBrackets(Brackets(b, debug)[1..] + more) == Timing(b.control.Some?, true, "\r\n" + more)
  {
    hide H.KernelNoise, Brackets, SkipNoise, Opens;
    BracketsShape(b, debug, more);
    var s := Brackets(b, debug)[1..] + more;
    var text := KernelText(b.kernel, debug, more);
    var noise := H.KernelNoise(b.kernel, debug);
    KernelNoiseIsNoise(b.kernel, debug);
    if b.control.Some? {
      var control := H.KernelNoise(b.control.value, debug);
      KernelNoiseIsNoise(b.control.value, debug);
      assert s == "" + s;
      BracketsConsumed("", '{', control, '}', " " + text);
      BracketsConsumed(" ", '[', noise, ']', "\r\n" + more);
    } else {
      assert s == "" + s;
      BracketsConsumed("", '[', noise, ']', "\r\n" + more);
    }
  }

  // All benchmarks, and the whole run.

  /** Reading the entries one after the other recovers every benchmark; the end line stops the loop. */
  lemma {:induction false} RecordsOfEntries(lead: string, bs: seq<H.Benchmark>, debug: bool, after: string)
    requires forall k :: 0 <= k < |lead| ==> IsSpace(lead[k])
    requires forall k :: 0 <= k < |bs| ==> BenchmarkOk(bs[k])
    ensures Records(lead + (H.Entries(bs, debug) + H.END_LINE + after)) == (ExpectedAll(bs), "END\r\n" + after)
    decreases |bs|
  {
    hide TimeBrackets, ScanHeader, Brackets, H.Entry, Expected;
    if bs == [] {
      EndLineStops(lead, after);
      assert H.Entries(bs, debug) + H.END_LINE + after == H.END_LINE + after;
    } else {
      var b, rest := bs[0], bs[1..];
      var more := H.Entries(rest, debug) + H.END_LINE + after;
      assert H.Entries(bs, debug) + H.END_LINE + after == H.Entry(b, debug) + more;
      FirstEntry(lead, b, debug, more);
      RecordsOfEntries("\r\n", rest, debug, after);
      assert ExpectedAll(bs) == [Expected(b)] + ExpectedAll(rest);
    }
  }

  lemma FirstEntry(lead: string, b: H.Benchmark, debug: bool, more: string)
    requires BenchmarkOk(b) && forall k :: 0 <= k < |lead| ==> IsSpace(lead[k])
    ensures var s := lead + (H.Entry(b, debug) + more);
            Records(s) == ([Expected(b)] + Records("\r\n" + more).0, Records("\r\n" + more).1)
  {
    hide TimeBrackets, ScanHeader, Records, Brackets, H.KernelNoise, H.Hex, H.Entry, BenchmarkOk, IsSpace;
    EntryShape(b, debug);
    BracketsShape(b, debug, more);
    var tail := Brackets(b, debug) + more;
    var head := b.category + " - " + b.name + (" " + H.Hex(b.count % TWO32));
    Regroup(head, Brackets(b, debug), more);
    ScanEntryHeader(lead, b, tail);
    TailJoin(Brackets(b, debug), more);
    TimeEntryBrackets(b, debug, more);
    RecordsStep(lead + (H.Entry(b, debug) + more), b.category, b.name, b.count % TWO32, tail[1..]);
  }

  lemma Regroup(a: string, b: string, c: string)
    ensures a + b + c == a + (b + c)
  {
  }

  lemma TailJoin(a: string, b: string)
    requires a != ""
    ensures (a + b)[1..] == a[1..] + b
  {
  }

  lemma RecordsStep(s: string, category: string, name: string, n: Word, rest: string)
    requires ScanHeader(s) == Three(category, name, n, rest)
    ensures var t := TimeBrackets(rest);
            Records(s) == ([Record(category, name, n, t.control, t.kernel)] + Records(t.rest).0, Records(t.rest).1)
  {
    hide TimeBrackets, ScanHeader;
  }

  lemma EntryShape(b: H.Benchmark, debug: bool)
    ensures H.Entry(b, debug) == b.category + " - " + b.name + (" " + H.Hex(b.count % TWO32)) + Brackets(b, debug)
  {
  }

  lemma EndLineStops(lead: string, after: string)
    requires forall k :: 0 <= k < |lead| ==> IsSpace(lead[k])
    ensures ScanHeader(lead + (H.END_LINE + after)) == Fewer("END\r\n" + after)
  {
    var word, end := "\\\\BENCHMARKS", "END\r\n" + after;
    assert H.END_LINE + after == word + (" " + end);
    SkipSpaceAppend(lead, word + (" " + end));
    TokenAppend(word, " " + end);
    SkipSpaceAppend(" ", end);
  }

  /** No line of the text, which ends with a line feed, is the begin line. */
  ghost predicate NoBeginLine(s: string)
    decreases |s|
  {
    s == "" || (s[|s| - 1] == '\n' && FirstLine(s) != STR_BENCHMARK_BEGIN && NoBeginLine(AfterLine(s)))
  }

  lemma {:induction false} LineAppend(s: string, t: string)
    requires s != "" && s[|s| - 1] == '\n'
    ensures FirstLine(s + t) == FirstLine(s) && AfterLine(s + t) == AfterLine(s) + t
    ensures AfterLine(s) == "" || AfterLine(s)[|AfterLine(s)| - 1] == '\n'
  {
    assert (s + t)[0] == s[0] && (s + t)[1..] == s[1..] + t;
    if s[0] != '\n' { LineAppend(s[1..], t); }
  }

  lemma {:induction false} StartAfterPreamble(s: string, t: string)
    requires NoBeginLine(s)
    ensures AfterStart(s + t) == AfterStart(t)
    decreases |s|
  {
    if s == "" { assert s + t == t; } else {
      LineAppend(s, t);
      StartAfterPreamble(AfterLine(s), t);
    }
  }

  lemma {:induction false} WholeLine(s: string, t: string)
    requires s != "" && s[|s| - 1] == '\n' && forall k :: 0 <= k < |s| - 1 ==> s[k] != '\n'
    ensures FirstLine(s + t) == s && AfterLine(s + t) == t
  {
    assert (s + t)[0] == s[0] && (s + t)[1..] == s[1..] + t;
    if |s| > 1 { WholeLine(s[1..], t); }
  }

  /** Whatever the guest printed before, unless a line of it was the begin line, the host recovers exactly the
      benchmarks' categories, names, counts (modulo 2^32) and brackets, and stops at the end line. */
  lemma HostRecoversTranscript(preamble: string, bs: seq<H.Benchmark>, debug: bool, after: string)
    requires NoBeginLine(preamble + "\r\n\r\n")
    requires forall k :: 0 <= k < |bs| ==> BenchmarkOk(bs[k])
    ensures HostRun(preamble + H.Transcript(bs, debug) + after) == Some((ExpectedAll(bs), "END\r\n" + after))
  {
    hide H.Entries, Records, H.Transcript, ExpectedAll, NoBeginLine, BenchmarkOk, FirstLine, AfterLine;
    var entries := H.Entries(bs, debug) + H.END_LINE + after;
    TranscriptShape(preamble, bs, debug, after);
    StartAfterPreamble(preamble + "\r\n\r\n", STR_BENCHMARK_BEGIN + entries);
    WholeLine(STR_BENCHMARK_BEGIN, entries);
    RecordsOfEntries("", bs, debug, after);
    assert "" + entries == entries;
  }

  lemma TranscriptShape(preamble: string, bs: seq<H.Benchmark>, debug: bool, after: string)
    ensures preamble + H.Transcript(bs, debug) + after
         == (preamble + "\r\n\r\n") + (STR_BENCHMARK_BEGIN + (H.Entries(bs, debug) + H.END_LINE + after))
  {
    hide H.Entries;
  }

  /** The benchmark as it is, with its whole count. */
  function Actual(b: H.Benchmark): Record {
    Record(b.category, b.name, b.count, b.control.Some?, true)
  }

  function ActualAll(bs: seq<H.Benchmark>): seq<Record> {
    seq(|bs|, k requires 0 <= k < |bs| => Actual(bs[k]))
  }

  /** A run of the host reports the true counts exactly when every count fits the 32 bits that %x prints. */
  lemma CountsSurviveIff(preamble: string, bs: seq<H.Benchmark>, debug: bool, after: string)
    requires NoBeginLine(preamble + "\r\n\r\n")
    requires forall k :: 0 <= k < |bs| ==> BenchmarkOk(bs[k])
    ensures HostRun(preamble + H.Transcript(bs, debug) + after) == Some((ActualAll(bs), "END\r\n" + after))
       <==> forall k :: 0 <= k < |bs| ==> bs[k].count < TWO32
  {
    hide HostRun, H.Transcript, NoBeginLine, BenchmarkOk;
    HostRecoversTranscript(preamble, bs, debug, after);
    SameCounts(bs);
  }

  lemma SameCounts(bs: seq<H.Benchmark>)
    ensures ExpectedAll(bs) == ActualAll(bs) <==> forall k :: 0 <= k < |bs| ==> bs[k].count < TWO32
  {
    if ExpectedAll(bs) == ActualAll(bs) {
      forall k | 0 <= k < |bs| ensures bs[k].count < TWO32 {
        assert ExpectedAll(bs)[k].iterations == ActualAll(bs)[k].iterations;
      }
    }
  }

  /** 2^32 iterations are reported as none. */
  lemma LostCount(b: H.Benchmark, debug: bool)
    requires BenchmarkOk(b) && b.count == TWO32
    ensures HostRun(H.Transcript([b], debug)) == Some(([Record(b.category, b.name, 0, b.control.Some?, true)], "END\r\n"))
  {
    hide HostRun, H.Transcript, BenchmarkOk;
    NoLineInBlank();
    HostRecoversTranscript("", [b], debug, "");
    assert "" + H.Transcript([b], debug) + "" == H.Transcript([b], debug) && "END\r\n" + "" == "END\r\n";
    assert ExpectedAll([b]) == [Expected(b)];
  }

  lemma NoLineInBlank()
    ensures NoBeginLine("" + "\r\n\r\n")
  {
    var s := "\r\n\r\n";
    assert "" + s == s && s[1..] == "\n\r\n";
    assert AfterLine(s) == "\r\n" && FirstLine(s) == "\r\n" by { assert s[1..][1..] == "\r\n" && FirstLine("\n\r\n") == "\n"; }
    assert "\r\n"[1..] == "\n" && AfterLine("\n") == "" && AfterLine("\r\n") == "" && FirstLine("\n") == "\n" && FirstLine("\r\n") == "\r\n";
    assert NoBeginLine("\r\n");
  }

  /** Printer and parser together, as programs. */
  method RoundTrip(uart: H.Uart, spinner: H.Spinner, input: Input, bs: seq<H.Benchmark>, debug: bool) returns (records: Option<seq<Record>>)
    requires uart as object != spinner && input as object != spinner && NoBeginLine(uart.out + "\r\n\r\n")
    requires forall k :: 0 <= k < |bs| ==> BenchmarkOk(bs[k])
    modifies uart, spinner, input
    ensures records == Some(ExpectedAll(bs))
  {
    ghost var preamble := uart.out;
    H.HarnessMain(uart, spinner, bs, debug);
    input.rest := uart.out;
    HostRecoversTranscript(preamble, bs, debug, "");
    assert preamble + H.Transcript(bs, debug) + "" == uart.out;
    records := input.ReadRun();
  }
}
