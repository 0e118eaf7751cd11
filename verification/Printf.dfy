/** The text formatter (util/printf.c): numbers built by shifting the buffer right, and the format machine. */
module Printf {
  import opened Bits

  // Numbers.

  function DigitChar(d: nat): char
    requires d < 36
  {
    if d < 10 then ('0' as int + d) as char else ('a' as int + d - 10) as char
  }

  /** `int new_value = value / base; value = new_value;`: the quotient is cut to 32 bits and sign-extended. */
  function NextValue(value: Word, base: nat): Word
    requires base >= 2
  {
    var q := value / base % TWO32;
    if q < 0x8000_0000 then q else q + (TWO64 - TWO32)
  }

  /** The digits the loop produces in `room` places, most significant first. */
  function Numeral(value: Word, base: nat, room: nat): (s: string)
    requires 2 <= base <= 36
    ensures |s| <= room && (value > 0 && room > 0 ==> |s| > 0)
    decreases room
  {
    if value == 0 || room == 0 then ""
    else Numeral(NextValue(value, base), base, room - 1) + [DigitChar(value % base)]
  }

  function Repeat(c: char, n: nat): (s: string)
    ensures |s| == n
  {
    seq(n, i => c)
  }

  predicate IsNegative(value: Word, sgn: bool) {
    sgn && value >= 0x8000_0000_0000_0000
  }

  /** Digits and sign, before padding. */
  function Unpadded(size: nat, value: Word, base: nat, sgn: bool): (s: string)
    requires 2 <= base <= 36 && (size > 0 || !sgn)
    ensures |s| <= size
  {
    if IsNegative(value, sgn) then Numeral(TWO64 - value, base, size - 1) + "-"
    else if value > 0 then Numeral(value, base, size)
    else if size > 0 then "0" else ""
  }

  /** Everything `append_num` puts into the buffer. */
  function NumText(size: nat, value: Word, base: nat, sgn: bool, pad: nat, padChar: char): (s: string)
    requires 2 <= base <= 36 && (size > 0 || !sgn)
    ensures |s| <= size
  {
    var text := Unpadded(size, value, base, sgn);
    var width := if pad >= size then size - 1 else pad;
    Repeat(padChar, if width > |text| then width - |text| else 0) + text
  }

  /** Shift `size` characters right by one and put `c` in front. */
  method PrependToBuffer(c: char, buffer: array<char>, start: nat, size: nat)
    requires start + size < buffer.Length
    modifies buffer
    ensures buffer[..] == old(buffer[..start]) + [c] + old(buffer[start..start + size]) + old(buffer[start + size + 1..])
  {
    var i := size;
    while i > 0
      invariant 0 <= i <= size
      invariant forall k :: 0 <= k < buffer.Length && !(start + i < k <= start + size) ==> buffer[k] == old(buffer[k])
      invariant forall k :: start + i < k <= start + size ==> buffer[k] == old(buffer[k - 1])
    {
      buffer[start + i] := buffer[start + i - 1];
      i := i - 1;
    }
    buffer[start] := c;
    ghost var before := old(buffer[..]);
    assert before[..start] == old(buffer[..start]) && before[start..start + size] == old(buffer[start..start + size]);
    assert before[start + size + 1..] == old(buffer[start + size + 1..]);
    assert buffer[..] == before[..start] + [c] + before[start..start + size] + before[start + size + 1..];
  }

  /** The buffer with `text` written at `start`. */
  function Written(buffer: string, start: nat, text: string): (r: string)
    requires start + |text| <= |buffer|
    ensures |r| == |buffer|
  {
    buffer[..start] + text + buffer[start + |text|..]
  }

  lemma PrependWritten(before: string, start: nat, text: string, c: char)
    requires start + |text| < |before|
    ensures var b := Written(before, start, text);
            b[..start] + [c] + b[start..start + |text|] + b[start + |text| + 1..] == Written(before, start, [c] + text)
  {
    var b := Written(before, start, text);
    assert b[..start] == before[..start];
    assert b[start..start + |text|] == text;
    assert b[start + |text| + 1..] == before[start + |text| + 1..];
  }

  method AppendNum(buffer: array<char>, start: nat, size: nat, value0: Word, base: nat, sgn: bool, pad0: nat, padChar: char) returns (n: nat)
    requires start + size <= buffer.Length && 2 <= base <= 36 && (size > 0 || !sgn)
    modifies buffer
    ensures n == |NumText(size, value0, base, sgn, pad0, padChar)|
    ensures buffer[..] == Written(old(buffer[..]), start, NumText(size, value0, base, sgn, pad0, padChar))
  {
    hide Written, Numeral, Repeat;
    ghost var before := buffer[..];
    WrittenNothing(before, start);
    n := 0;
    var value, pad: int := value0, pad0;
    if pad >= size { pad := size - 1; }
    ghost var text: string := "";
    if sgn && value >= 0x8000_0000_0000_0000 {
      PutBefore('-', buffer, start, n, "", before);
      assert ['-'] + "" == "-";
      n, text := n + 1, "-";
      value := TWO64 - value;
    }
    if value > 0 {
      n, text := PrependDigits(buffer, start, size, n, value, base, text, before);
    } else if n < size {
      PutBefore('0', buffer, start, n, "", before);
      assert ['0'] + "" == "0";
      n, text := n + 1, "0";
    }
    assert text == Unpadded(size, value0, base, sgn);
    pad := pad - n;
    n := PrependPadding(buffer, start, size, n, pad, padChar, text, before);
  }

  lemma WrittenNothing(before: string, start: nat)
    requires start <= |before|
    ensures Written(before, start, "") == before
  {
  }

  /** `prepend_to_buffer` on a buffer that holds `text` at `start`. */
  method PutBefore(c: char, buffer: array<char>, start: nat, n: nat, ghost text: string, ghost before: string)
    requires n == |text| && start + |text| < buffer.Length == |before| && buffer[..] == Written(before, start, text)
    modifies buffer
    ensures buffer[..] == Written(before, start, [c] + text)
  {
    PrependWritten(before, start, text, c);
    PrependToBuffer(c, buffer, start, n);
  }

  /** The digit loop of `append_num`. */
  method PrependDigits(buffer: array<char>, start: nat, size: nat, n0: nat, value0: Word, base: nat, ghost text0: string, ghost before: string)
    returns (n: nat, ghost text: string)
    requires start + size <= buffer.Length == |before| && 2 <= base <= 36 && n0 == |text0| <= size
    requires buffer[..] == Written(before, start, text0)
    modifies buffer
    ensures text == Numeral(value0, base, size - n0) + text0 && n == |text|
    ensures buffer[..] == Written(before, start, text)
  {
    hide Written;
    n, text := n0, text0;
    var value: Word := value0;
    while value > 0 && n < size
      invariant n == |text| <= size
      invariant Numeral(value, base, size - n) + text == Numeral(value0, base, size - n0) + text0
      invariant buffer[..] == Written(before, start, text)
      decreases size - n
    {
      var newValue: Word := NextValue(value, base);
      var digit := DigitChar(value % base);
      PutBefore(digit, buffer, start, n, text, before);
      assert Numeral(value, base, size - n) + text == Numeral(newValue, base, size - n - 1) + ([digit] + text);
      n, text := n + 1, [digit] + text;
      value := newValue;
    }
  }

  /** The padding loop of `append_num`. */
  method PrependPadding(buffer: array<char>, start: nat, size: nat, n0: nat, pad0: int, padChar: char, ghost digits: string, ghost before: string)
    returns (n: nat)
    requires start + size <= buffer.Length == |before| && n0 == |digits| && n0 <= size
    requires pad0 > 0 ==> n0 + pad0 < size
    requires buffer[..] == Written(before, start, digits)
    modifies buffer
    ensures n == n0 + if pad0 > 0 then pad0 else 0
    ensures buffer[..] == Written(before, start, Repeat(padChar, if pad0 > 0 then pad0 else 0) + digits)
  {
    hide Written;
    n := n0;
    var pad := pad0;
    ghost var text := digits;
    assert Repeat(padChar, 0) + digits == digits;
    while pad > 0 && n < size
      invariant n0 <= n <= size && n == |text| && n + pad == n0 + pad0 && (if pad0 > 0 then pad >= 0 else n == n0)
      invariant text == Repeat(padChar, n - n0) + digits
      invariant buffer[..] == Written(before, start, text)
      decreases pad
    {
      PutBefore(padChar, buffer, start, n, text, before);
      assert [padChar] + text == Repeat(padChar, n + 1 - n0) + digits;
      n, text := n + 1, [padChar] + text;
      pad := pad - 1;
    }
  }

  method AppendStr(buffer: array<char>, start: nat, size: nat, text: string, pad: nat, padChar: char) returns (n: nat)
    requires start + size <= buffer.Length
    modifies buffer
    ensures n == |StrText(size, text, pad, padChar)|
    ensures buffer[..] == Written(old(buffer[..]), start, StrText(size, text, pad, padChar))
  {
    hide Written;
    ghost var before := buffer[..];
    WrittenNothing(before, start);
    n := 0;
    assert text[..n] == "";
    while n < |text| && n < size
      invariant n <= |text| && n <= size
      invariant buffer[..] == Written(before, start, text[..n])
    {
      assert text[..n] + [text[n]] == text[..n + 1];
      PutAfter(text[n], buffer, start, n, text[..n], before);
      n := n + 1;
    }
    ghost var m := n;
    assert text[..m] + Repeat(padChar, 0) == text[..m];
    while n < size && n < pad
      invariant m <= n <= size && (n > m ==> m == |text| && n <= pad)
      invariant buffer[..] == Written(before, start, text[..m] + Repeat(padChar, n - m))
    {
      ghost var done := text[..m] + Repeat(padChar, n - m);
      assert done + [padChar] == text[..m] + Repeat(padChar, n + 1 - m);
      PutAfter(padChar, buffer, start, n, done, before);
      n := n + 1;
    }
    assert text[..m] + Repeat(padChar, n - m) == StrText(size, text, pad, padChar);
  }

  /** `*buffer++ = c` after the `n` characters of `text` that `start` already holds. */
  method PutAfter(c: char, buffer: array<char>, start: nat, n: nat, ghost text: string, ghost before: string)
    requires n == |text| && start + |text| < buffer.Length == |before| && buffer[..] == Written(before, start, text)
    modifies buffer
    ensures buffer[..] == Written(before, start, text + [c])
  {
    buffer[start + n] := c;
    assert buffer[..] == Written(before, start, text)[start + n := c];
  }

  function Take(s: string, n: nat): (r: string)
    ensures |r| <= n && |r| <= |s|
  {
    if |s| <= n then s else s[..n]
  }

  /** A string, padded on the right, as far as it fits. */
  function StrText(size: nat, text: string, pad: nat, padChar: char): (s: string)
    ensures |s| <= size
  {
    Take(text + Repeat(padChar, if pad > |text| then pad - |text| else 0), size)
  }

  // The format machine.

  /** A variadic argument: an int's 32 bits, a long's or pointer's 64 bits, or a string. */
  datatype Arg = IntArg(bits: Word32) | LongArg(word: Word) | StrArg(text: string)

  /** What stands between '%' and the conversion character. The conversion is at index `at`, the end of the
      format if there is none. */
  datatype Spec = Spec(at: nat, pad: nat, padChar: char, wide: bool)

  predicate IsFlag(c: char) {
    '0' <= c <= '9' || c == 'l'
  }

  /** One turn of `retry_format`. */
  function AddFlag(c: char, pad: nat, padChar: char, wide: bool): (nat, char, bool)
    requires IsFlag(c)
  {
    if c == 'l' then (pad, padChar, true)
    else if c == '0' then (if pad > 0 then (pad * 10, padChar, wide) else (pad, '0', wide))
    else (pad * 10 + (c as int - '0' as int), padChar, wide)
  }

  function ReadSpec(fmt: string, i: nat, pad: nat, padChar: char, wide: bool): (spec: Spec)
    requires i <= |fmt|
    ensures i <= spec.at <= |fmt| && (spec.at < |fmt| ==> !IsFlag(fmt[spec.at]))
    decreases |fmt| - i
  {
    if i == |fmt| || !IsFlag(fmt[i]) then Spec(i, pad, padChar, wide)
    else
      var (pad', padChar', wide') := AddFlag(fmt[i], pad, padChar, wide);
      ReadSpec(fmt, i + 1, pad', padChar', wide')
  }

  function SpecAt(fmt: string, i: nat): (spec: Spec)
    requires i <= |fmt|
    ensures i <= spec.at <= |fmt|
  {
    ReadSpec(fmt, i, 0, ' ', false)
  }

  /** Does the conversion take an argument, and of this kind? */
  predicate Takes(c: char) {
    c in "dubxpsc"
  }

  predicate ArgFits(c: char, wide: bool, arg: Arg) {
    if c == 's' then arg.StrArg?
    else if c == 'c' then arg.IntArg?
    else if wide || c == 'p' then arg.LongArg?
    else arg.IntArg?
  }

  /** `args` are, in order, what the conversions of the format from index i on fetch. */
  predicate Matches(fmt: string, i: nat, args: seq<Arg>)
    requires i <= |fmt|
    decreases |fmt| - i
  {
    if i == |fmt| then true
    else if fmt[i] != '%' then Matches(fmt, i + 1, args)
    else
      var spec := SpecAt(fmt, i + 1);
      if spec.at == |fmt| then true
      else if Takes(fmt[spec.at]) then
        args != [] && ArgFits(fmt[spec.at], spec.wide, args[0]) && Matches(fmt, spec.at + 1, args[1..])
      else Matches(fmt, spec.at + 1, args)
  }

  /** The 64 bits that reach `append_num`: ints are sign-extended for %d and %u, zero-extended otherwise. */
  function NumberOf(c: char, arg: Arg): Word
    requires !arg.StrArg?
  {
    if arg.LongArg? then arg.word
    else if (c == 'd' || c == 'u') && arg.bits >= 0x8000_0000 then arg.bits + (TWO64 - TWO32)
    else arg.bits
  }

  function BaseOf(c: char): nat {
    if c == 'd' || c == 'u' then 10 else if c == 'b' then 2 else 16
  }

  function CharOf(bits: Word32): char {
    (bits % 0x100) as char
  }

  /** The output of one conversion in `room` characters. */
  function Render(c: char, spec: Spec, arg: Arg, room: nat): (s: string)
    requires room > 0 && Takes(c) && ArgFits(c, spec.wide, arg)
    ensures |s| <= room
  {
    if c == 's' then StrText(room, arg.text, spec.pad, spec.padChar)
    else if c == 'c' then [CharOf(arg.bits)]
    else if c == 'p' then
      var prefix := StrText(room, "0x", 0, ' ');
      prefix + NumText(room - |prefix|, NumberOf(c, arg), 16, false, spec.pad, spec.padChar)
    else NumText(room, NumberOf(c, arg), BaseOf(c), c == 'd', spec.pad, spec.padChar)
  }

  /** Everything the format produces from index i on, in `room` characters. */
  function Output(fmt: string, i: nat, args: seq<Arg>, room: nat): (s: string)
    requires i <= |fmt| && Matches(fmt, i, args)
    ensures |s| <= room
    decreases |fmt| - i
  {
    if i == |fmt| || room == 0 then ""
    else if fmt[i] != '%' then [fmt[i]] + Output(fmt, i + 1, args, room - 1)
    else
      var spec := SpecAt(fmt, i + 1);
      if spec.at == |fmt| then ""
      else if Takes(fmt[spec.at]) then
        var text := Render(fmt[spec.at], spec, args[0], room);
        text + Output(fmt, spec.at + 1, args[1..], room - |text|)
      else [fmt[spec.at]] + Output(fmt, spec.at + 1, args, room - 1)
  }

  /** What is printed so far, followed by what the rest of the format will add. */
  function Printed(done: string, fmt: string, i: nat, args: seq<Arg>, room: nat): string
    requires i <= |fmt| && Matches(fmt, i, args)
  {
    done + Output(fmt, i, args, room)
  }

  /** The buffer ends up holding exactly the output and a NUL; nothing else in it changes. */
  method Vsnprintf(buffer: array<char>, size: nat, fmt: string, args: seq<Arg>) returns (count: nat)
    requires size <= buffer.Length && Matches(fmt, 0, args)
    modifies buffer
    ensures size == 0 ==> count == 0 && buffer[..] == old(buffer[..])
    ensures size > 0 ==> count < size && count == |Output(fmt, 0, args, size - 1)|
    ensures size > 0 ==> buffer[..] == Written(old(buffer[..]), 0, Output(fmt, 0, args, size - 1) + ['\0'])
  {
    if size == 0 { return 0; }
    hide Written, Output, Matches;
    count := FormatChars(buffer, size - 1, fmt, args);
    PutAfter('\0', buffer, 0, count, Output(fmt, 0, args, size - 1), old(buffer[..]));
  }

  /** The loop over the format: it stops at the format's end or when `room` characters are out. */
  method FormatChars(buffer: array<char>, room: nat, fmt: string, args: seq<Arg>) returns (count: nat)
    requires room < buffer.Length && Matches(fmt, 0, args)
    modifies buffer
    ensures count == |Output(fmt, 0, args, room)| <= room
    ensures buffer[..] == Written(old(buffer[..]), 0, Output(fmt, 0, args, room))
  {
    hide Written, Output, Matches, Printed;
    ghost var before, done, goal := buffer[..], "", Output(fmt, 0, args, room);
    PrintedNothing(fmt, args, room);
    WrittenNothing(before, 0);
    count := 0;
    var i: nat, rest := 0, args;
    while i < |fmt| && count < room
      invariant i <= |fmt| && count == |done| <= room && Matches(fmt, i, rest)
      invariant goal == Printed(done, fmt, i, rest, room - count)
      invariant buffer[..] == Written(before, 0, done)
      decreases |fmt| - i
    {
      if fmt[i] == '%' {
        count, i, rest, done := Directive(buffer, count, room - count, fmt, i, rest, done, before);
      } else {
        done := Literal(buffer, count, room - count, fmt, i, rest, done, before);
        count, i := count + 1, i + 1;
      }
    }
    PrintedAll(done, fmt, i, rest, room - count);
  }

  /** Any other character of the format goes out as it is. */
  method Literal(buffer: array<char>, count: nat, room: nat, fmt: string, i: nat, rest: seq<Arg>, ghost done0: string, ghost before: string)
    returns (ghost done: string)
    requires i < |fmt| && fmt[i] != '%' && room > 0 && Matches(fmt, i, rest)
    requires count == |done0| && count + room <= buffer.Length == |before| && buffer[..] == Written(before, 0, done0)
    modifies buffer
    ensures Matches(fmt, i + 1, rest) && |done| == count + 1
    ensures Printed(done, fmt, i + 1, rest, room - 1) == Printed(done0, fmt, i, rest, room)
    ensures buffer[..] == Written(before, 0, done)
  {
    hide Written, NumText, StrText, Render, Output, Matches, SpecAt, Takes;
    OutputStep(fmt, i, rest, room);
    ConcatStep(done0, [fmt[i]], Output(fmt, i + 1, rest, room - 1));
    PutAfter(fmt[i], buffer, 0, count, done0, before);
    done := done0 + [fmt[i]];
  }

  /** A '%' and what follows it, up to and including the conversion character. */
  method Directive(buffer: array<char>, count0: nat, room: nat, fmt: string, i0: nat, rest0: seq<Arg>, ghost done0: string, ghost before: string)
    returns (count: nat, i: nat, rest: seq<Arg>, ghost done: string)
    requires i0 < |fmt| && fmt[i0] == '%' && room > 0 && Matches(fmt, i0, rest0)
    requires count0 == |done0| && count0 + room <= buffer.Length == |before| && buffer[..] == Written(before, 0, done0)
    modifies buffer
    ensures i0 < i <= |fmt| && Matches(fmt, i, rest) && count0 <= count == |done| <= count0 + room
    ensures Printed(done, fmt, i, rest, count0 + room - count) == Printed(done0, fmt, i0, rest0, room)
    ensures buffer[..] == Written(before, 0, done)
  {
    hide Written, NumText, StrText, Render, Output, Matches, Takes;
    OutputStep(fmt, i0, rest0, room);
    var spec := ReadFlags(fmt, i0 + 1);
    count, i, rest, done := count0, spec.at, rest0, done0;
    if i < |fmt| {
      var c := fmt[i];
      i := i + 1;
      if Takes(c) {
        ghost var text := Render(c, spec, rest[0], room);
        ConcatStep(done, text, Output(fmt, i, rest[1..], room - |text|));
        var n := Convert(buffer, count, room, c, spec, rest[0], done, before);
        count, done, rest := count + n, done + text, rest[1..];
      } else {
        ConcatStep(done, [c], Output(fmt, i, rest, room - 1));
        PutAfter(c, buffer, 0, count, done, before);
        count, done := count + 1, done + [c];
      }
    }
  }

  lemma ConcatStep(a: string, b: string, c: string)
    ensures a + (b + c) == a + b + c
  {
  }

  lemma PrintedNothing(fmt: string, args: seq<Arg>, room: nat)
    requires Matches(fmt, 0, args)
    ensures Printed("", fmt, 0, args, room) == Output(fmt, 0, args, room)
  {
    hide Output;
    assert "" + Output(fmt, 0, args, room) == Output(fmt, 0, args, room);
  }

  lemma PrintedAll(done: string, fmt: string, i: nat, args: seq<Arg>, room: nat)
    requires i <= |fmt| && Matches(fmt, i, args) && (i == |fmt| || room == 0)
    ensures Printed(done, fmt, i, args, room) == done
  {
  }

  /** One turn of the loop, on the specification. */
  lemma OutputStep(fmt: string, i: nat, args: seq<Arg>, room: nat)
    requires i < |fmt| && Matches(fmt, i, args) && room > 0
    ensures fmt[i] != '%' ==>
      Matches(fmt, i + 1, args) && Output(fmt, i, args, room) == [fmt[i]] + Output(fmt, i + 1, args, room - 1)
    ensures fmt[i] == '%' ==>
      var spec := SpecAt(fmt, i + 1);
      if spec.at == |fmt| then Matches(fmt, |fmt|, args) && Output(fmt, i, args, room) == Output(fmt, |fmt|, args, room)
      else if Takes(fmt[spec.at]) then
        && args != [] && ArgFits(fmt[spec.at], spec.wide, args[0]) && Matches(fmt, spec.at + 1, args[1..])
        && var text := Render(fmt[spec.at], spec, args[0], room);
           Output(fmt, i, args, room) == text + Output(fmt, spec.at + 1, args[1..], room - |text|)
      else
        && Matches(fmt, spec.at + 1, args)
        && Output(fmt, i, args, room) == [fmt[spec.at]] + Output(fmt, spec.at + 1, args, room - 1)
  {
  }

  /** The `retry_format` jumps. */
  method ReadFlags(fmt: string, i0: nat) returns (spec: Spec)
    requires i0 <= |fmt|
    ensures spec == SpecAt(fmt, i0)
  {
    var i: nat, pad: nat, padChar, wide := i0, 0, ' ', false;
    while i < |fmt| && IsFlag(fmt[i])
      invariant i <= |fmt| && ReadSpec(fmt, i, pad, padChar, wide) == SpecAt(fmt, i0)
    {
      match fmt[i] {
        case '0' =>
          if pad > 0 { pad := pad * 10; } else { padChar := '0'; }
        case 'l' =>
          wide := true;
        case _ =>
          pad := pad * 10;
          pad := pad + (fmt[i] as int - '0' as int);
      }
      i := i + 1;
    }
    spec := Spec(i, pad, padChar, wide);
  }

  /** The conversion cases of the switch. */
  method Convert(buffer: array<char>, count: nat, room: nat, c: char, spec: Spec, arg: Arg, ghost done: string, ghost before: string)
    returns (n: nat)
    requires room > 0 && Takes(c) && ArgFits(c, spec.wide, arg)
    requires count == |done| && count + room <= buffer.Length == |before| && buffer[..] == Written(before, 0, done)
    modifies buffer
    ensures n == |Render(c, spec, arg, room)|
    ensures buffer[..] == Written(before, 0, done + Render(c, spec, arg, room))
  {
    hide NumText, StrText;
    match c {
      case 's' =>
        n := AppendStr(buffer, count, room, arg.text, spec.pad, spec.padChar);
        WrittenTwice(before, done, StrText(room, arg.text, spec.pad, spec.padChar));
      case 'c' =>
        PutAfter(CharOf(arg.bits), buffer, 0, count, done, before);
        n := 1;
      case 'p' =>
        var m := AppendStr(buffer, count, room, "0x", 0, ' ');
        ghost var prefix := StrText(room, "0x", 0, ' ');
        WrittenTwice(before, done, prefix);
        n := AppendNum(buffer, count + m, room - m, NumberOf(c, arg), 16, false, spec.pad, spec.padChar);
        ghost var digits := NumText(room - m, NumberOf(c, arg), 16, false, spec.pad, spec.padChar);
        WrittenTwice(before, done + prefix, digits);
        assert done + prefix + digits == done + (prefix + digits);
        n := m + n;
      case _ =>
        n := AppendNum(buffer, count, room, NumberOf(c, arg), BaseOf(c), c == 'd', spec.pad, spec.padChar);
        WrittenTwice(before, done, NumText(room, NumberOf(c, arg), BaseOf(c), c == 'd', spec.pad, spec.padChar));
    }
  }

  lemma WrittenTwice(before: string, done: string, text: string)
    requires |done| + |text| <= |before|
    ensures Written(Written(before, 0, done), |done|, text) == Written(before, 0, done + text)
  {
  }
}
