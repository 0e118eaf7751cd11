/** The host program that times a run by reading the guest's transcript (host/main.c). Its input is modelled as
    the whole character stream; clock readings are left out, so a record says only which brackets were timed. */
module Host {
  import opened Bits
  import opened Wrappers

  const STR_BENCHMARK_BEGIN := "\\\\BENCHMARKS BEGIN\r\n"

  // The C library's part: lines and formatted input (C11, sections 7.21.7 and 7.21.6.2).

  predicate IsSpace(c: char) {
    c == ' ' || '\t' <= c <= '\r'
  }

  /** What `getline` leaves: the stream after the first line feed. */
  function AfterLine(s: string): (r: string)
    requires s != ""
    ensures |r| < |s|
  {
    if s[0] == '\n' || |s| == 1 then s[1..] else AfterLine(s[1..])
  }

  function FirstLine(s: string): string
    requires s != ""
  {
    if s[0] == '\n' || |s| == 1 then [s[0]] else [s[0]] + FirstLine(s[1..])
  }

  function SkipSpace(s: string): (r: string)
    ensures |r| <= |s| && (r != "" ==> !IsSpace(r[0]))
  {
    if s != "" && IsSpace(s[0]) then SkipSpace(s[1..]) else s
  }

  /** A maximal run of non-space characters, and what follows it. */
  function Token(s: string): string {
    if s == "" || IsSpace(s[0]) then "" else [s[0]] + Token(s[1..])
  }

  function AfterToken(s: string): (r: string)
    ensures |r| <= |s| && (s != "" && !IsSpace(s[0]) ==> |r| < |s|)
  {
    if s == "" || IsSpace(s[0]) then s else AfterToken(s[1..])
  }

  predicate IsHex(c: char) {
    '0' <= c <= '9' || 'a' <= c <= 'f' || 'A' <= c <= 'F'
  }

  function HexValue(c: char): nat
    requires IsHex(c)
  {
    if c <= '9' then c as int - '0' as int else if c >= 'a' then c as int - 'a' as int + 10 else c as int - 'A' as int + 10
  }

  function HexRun(s: string): string {
    if s == "" || !IsHex(s[0]) then "" else [s[0]] + HexRun(s[1..])
  }

  function AfterHexRun(s: string): (r: string)
    ensures |r| <= |s|
  {
    if s == "" || !IsHex(s[0]) then s else AfterHexRun(s[1..])
  }

  function HexNumber(s: string): nat
    requires forall k :: 0 <= k < |s| ==> IsHex(s[k])
  {
    if s == "" then 0 else 16 * HexNumber(s[..|s| - 1]) + HexValue(s[|s| - 1])
  }

  lemma {:induction false} HexRunIsHex(s: string)
    ensures forall k :: 0 <= k < |HexRun(s)| ==> IsHex(HexRun(s)[k])
  {
    if s != "" && IsHex(s[0]) { HexRunIsHex(s[1..]); }
  }

  /** `%lx`: optional sign, optional 0x, hexadecimal digits; too large a number saturates. */
  function ScanHex(s: string): Option<(Word, string)> {
    var t := SkipSpace(s);
    var neg := t != "" && t[0] == '-';
    var u := if t != "" && (t[0] == '-' || t[0] == '+') then t[1..] else t;
    var v := if |u| >= 2 && u[0] == '0' && (u[1] == 'x' || u[1] == 'X') then u[2..] else u;
    HexRunIsHex(v);
    if HexRun(v) == "" then None
    else
      var n := HexNumber(HexRun(v));
      var w: Word := if n >= TWO64 then TWO64 - 1 else if neg then (TWO64 - n) % TWO64 else n;
      Some((w, AfterHexRun(v)))
  }

  /** `fscanf(stdin, "%s - %s %lx ", ...)`: the three values and the rest of the stream, or where it stopped. */
  datatype Scan = Three(category: string, benchmark: string, iterations: Word, rest: string) | Fewer(rest: string)

  function ScanHeader(s: string): Scan {
    var s1 := SkipSpace(s);
    if s1 == "" then Fewer(s1)
    else
      var s2 := SkipSpace(AfterToken(s1));
      if s2 == "" || s2[0] != '-' then Fewer(s2)
      else
        var s3 := SkipSpace(s2[1..]);
        if s3 == "" then Fewer(s3)
        else
          var s4 := AfterToken(s3);
          match ScanHex(s4)
          case None => Fewer(s4)
          case Some((n, s5)) => Three(Token(s1), Token(s3), n, SkipSpace(s5))
  }

  // What the program does, on the rest of the stream.

  /** `read_start`: the stream after the first line that is exactly the begin line. */
  function AfterStart(s: string): Option<string>
    decreases |s|
  {
    if s == "" then None
    else if FirstLine(s) == STR_BENCHMARK_BEGIN then Some(AfterLine(s))
    else AfterStart(AfterLine(s))
  }

  predicate IsNoise(c: char) {
    c == '|' || c == '/' || c == '-' || c == '\\' || c == ' ' || c == '\U{0008}'
  }

  function SkipNoise(s: string): (r: string)
    ensures |r| <= |s|
  {
    if s != "" && IsNoise(s[0]) then SkipNoise(s[1..]) else s
  }

  /** One character consumed, if there is one. */
  function Rest(s: string): (r: string)
    ensures |r| <= |s|
  {
    if s == "" then "" else s[1..]
  }

  predicate Opens(s: string, c: char) {
    var t := SkipNoise(s);
    t != "" && t[0] == c
  }

  /** Which brackets were found and timed, and the rest of the stream. */
  datatype Timing = Timing(control: bool, kernel: bool, rest: string)

  function TimeBrackets(s: string): Timing {
    var t := Rest(SkipNoise(s));
    if Opens(s, '{') then
      var u := Rest(SkipNoise(t));
      var v := Rest(SkipNoise(u));
      if Opens(u, '[') then Timing(true, true, Rest(SkipNoise(v))) else Timing(true, false, v)
    else if Opens(s, '[') then Timing(false, true, Rest(SkipNoise(t)))
    else Timing(false, false, t)
  }

  datatype Record = Record(category: string, name: string, iterations: Word, control: bool, kernel: bool)

  /** The loop of `main`: the records read until the header scan fails, and where that was. */
  function Records(s: string): (seq<Record>, string)
    decreases |s|
  {
    match ScanHeader(s)
    case Fewer(rest) => ([], rest)
    case Three(category, name, iterations, rest) =>
      HeaderConsumes(s);
      var t := TimeBrackets(rest);
      var (more, end) := Records(t.rest);
      ([Record(category, name, iterations, t.control, t.kernel)] + more, end)
  }

  lemma HeaderConsumes(s: string)
    ensures ScanHeader(s).Three? ==> |TimeBrackets(ScanHeader(s).rest).rest| < |s|
  {
    hide TimeBrackets, ScanHeader;
    ScanConsumes(s);
    if ScanHeader(s).Three? { BracketsConsume(ScanHeader(s).rest); }
  }

  lemma ScanConsumes(s: string)
    ensures ScanHeader(s).Three? ==> |ScanHeader(s).rest| < |s|
  {
    hide Token, HexNumber;
  }

  lemma BracketsConsume(s: string)
    ensures |TimeBrackets(s).rest| <= |s|
  {
    hide SkipNoise, Rest, Opens;
  }

  function HostRun(s: string): Option<(seq<Record>, string)> {
    match AfterStart(s)
    case None => None
    case Some(rest) => Some(Records(rest))
  }

  // The program itself, consuming its standard input.

  class Input {
    var rest: string

    method Getline() returns (line: Option<string>)
      modifies this
      ensures line == if old(rest) == "" then None else Some(FirstLine(old(rest)))
      ensures rest == if old(rest) == "" then "" else AfterLine(old(rest))
    {
      if rest == "" { return None; }
      line := Some(FirstLine(rest));
      rest := AfterLine(rest);
    }

    /** None is the end of file. */
    method Fgetc() returns (c: Option<char>)
      modifies this
      ensures c == if old(rest) == "" then None else Some(old(rest)[0])
      ensures rest == Rest(old(rest))
    {
      if rest == "" { return None; }
      c := Some(rest[0]);
      rest := rest[1..];
    }

    method ReadStart() returns (failed: bool)
      modifies this
      ensures failed == AfterStart(old(rest)).None?
      ensures !failed ==> AfterStart(old(rest)) == Some(rest)
    {
      while true
        invariant AfterStart(rest) == AfterStart(old(rest))
        decreases |rest|
      {
        var line := Getline();
        if line.None? { return true; }
        if line.value == STR_BENCHMARK_BEGIN { break; }
      }
      failed := false;
    }

    /** The bracket that opens, or None for anything else after the noise. */
    method ReadTimingStartChar() returns (bracket: Option<char>)
      modifies this
      ensures rest == Rest(SkipNoise(old(rest)))
      ensures bracket == if Opens(old(rest), '{') then Some('{') else if Opens(old(rest), '[') then Some('[') else None
    {
      while true
        invariant SkipNoise(rest) == SkipNoise(old(rest))
        decreases |rest|
      {
        var c := Fgetc();
        match c {
          case None => return None;
          case Some(x) =>
            if x == '{' || x == '[' { return Some(x); }
            if !IsNoise(x) { return None; }
        }
      }
    }

    method ReadTimingEndChar(target: char) returns (found: bool)
      requires !IsNoise(target)
      modifies this
      ensures rest == Rest(SkipNoise(old(rest)))
      ensures found == Opens(old(rest), target)
    {
      while true
        invariant SkipNoise(rest) == SkipNoise(old(rest))
        decreases |rest|
      {
        var c := Fgetc();
        match c {
          case None => return false;
          case Some(x) =>
            if x == target { return true; }
            if !IsNoise(x) { return false; }
        }
      }
    }

    method TimeBenchmarks() returns (control: bool, kernel: bool)
      modifies this
      ensures Timing(control, kernel, rest) == TimeBrackets(old(rest))
    {
      control, kernel := false, false;
      var timeStartChar := ReadTimingStartChar();
      if timeStartChar == Some('{') {
        var found := ReadTimingEndChar('}');
        control := true;
        timeStartChar := ReadTimingStartChar();
      }
      if timeStartChar == Some('[') {
        var found := ReadTimingEndChar(']');
        kernel := true;
      }
    }

    method ReadBenchmark() returns (record: Option<Record>)
      modifies this
      ensures match ScanHeader(old(rest))
              case Fewer(r) => record == None && rest == r
              case Three(category, name, n, r) =>
                var t := TimeBrackets(r);
                record == Some(Record(category, name, n, t.control, t.kernel)) && rest == t.rest
    {
      var scan := ScanHeader(rest);
      rest := scan.rest;
      if scan.Fewer? { return None; }
      var control, kernel := TimeBenchmarks();
      record := Some(Record(scan.category, scan.benchmark, scan.iterations, control, kernel));
    }

    /** `main`, returning the records it prints; None if no run ever begins. */
    method ReadRun() returns (records: Option<seq<Record>>)
      modifies this
      ensures match HostRun(old(rest))
              case None => records == None
              case Some((all, end)) => records == Some(all) && rest == end
    {
      hide ScanHeader, TimeBrackets;
      var failed := ReadStart();
      if failed { return None; }
      ghost var start := rest;
      var found: seq<Record> := [];
      while true
        invariant found + Records(rest).0 == Records(start).0 && Records(rest).1 == Records(start).1
        decreases |rest|
      {
        HeaderConsumes(rest);
        ghost var before := rest;
        var record := ReadBenchmark();
        if record.None? {
          assert Records(before) == ([], rest) && found + [] == found;
          break;
        }
        assert Records(before) == ([record.value] + Records(rest).0, Records(rest).1);
        assert found + ([record.value] + Records(rest).0) == found + [record.value] + Records(rest).0;
        found := found + [record.value];
      }
      records := Some(found);
    }
  }
}
