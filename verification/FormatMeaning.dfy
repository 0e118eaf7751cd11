/** Whole formats: the output of the formatter is what C11, section 7.21.6.1, asks for exactly when every conversion
    in the format is handled. Misprints do not cancel: the proof follows the printed text along the intended one,
    which it can only trail by blanks until the two differ for good. */
module FormatMeaning {
  import opened Bits
  import opened Printf
  import opened PrintfMeaning

  // Formats and what they ask for.

  /** The concatenation of the literal characters and the conversions. */
  function FullOutput(fmt: string, i: nat, args: seq<Arg>): string
    requires i <= |fmt| && Matches(fmt, i, args)
    decreases |fmt| - i
  {
    if i == |fmt| then ""
    else if fmt[i] != '%' then [fmt[i]] + FullOutput(fmt, i + 1, args)
    else
      var spec := SpecAt(fmt, i + 1);
      if spec.at == |fmt| then ""
      else if Takes(fmt[spec.at]) then
        FullText(fmt[spec.at], spec, args[0]) + FullOutput(fmt, spec.at + 1, args[1..])
      else [fmt[spec.at]] + FullOutput(fmt, spec.at + 1, args)
  }

  /** `l` or `ll`, after the flag and the width. */
  predicate LengthLast(flags: string) {
    && (forall j, k :: 0 <= j < k < |flags| && flags[j] == 'l' ==> flags[k] == 'l')
    && (|flags| >= 3 ==> flags[|flags| - 3] != 'l')
  }

  /** A directive of the part of the language that the program implements: optional '0' flag, width and length
      with %d, %u, %x and %b (binary); a width alone with %s, %c and %p; or %%. */
  predicate DirectiveOk(flags: string, c: char, padChar: char) {
    || (c in "dubx" && LengthLast(flags))
    || (c in "scp" && 'l' !in flags && padChar == ' ')
    || (c == '%' && flags == "")
  }

  /** Other conversions (%i, %o, %X), other flags and precisions do not occur in the format. */
  predicate Implemented(fmt: string, i: nat)
    requires i <= |fmt|
    decreases |fmt| - i
  {
    if i == |fmt| then true
    else if fmt[i] != '%' then Implemented(fmt, i + 1)
    else
      var spec := SpecAt(fmt, i + 1);
      spec.at < |fmt| && DirectiveOk(fmt[i + 1..spec.at], fmt[spec.at], spec.padChar) && Implemented(fmt, spec.at + 1)
  }

  predicate AllHandled(fmt: string, i: nat, args: seq<Arg>)
    requires i <= |fmt| && Matches(fmt, i, args)
    decreases |fmt| - i
  {
    if i == |fmt| then true
    else if fmt[i] != '%' then AllHandled(fmt, i + 1, args)
    else
      var spec := SpecAt(fmt, i + 1);
      if spec.at == |fmt| then true
      else if Takes(fmt[spec.at]) then Handled(fmt[spec.at], spec, args[0]) && AllHandled(fmt, spec.at + 1, args[1..])
      else AllHandled(fmt, spec.at + 1, args)
  }

  lemma {:induction false} PadCharKind(fmt: string, i: nat, pad: nat, padChar: char, wide: bool)
    requires i <= |fmt| && (padChar == ' ' || padChar == '0')
    ensures var c := ReadSpec(fmt, i, pad, padChar, wide).padChar; c == ' ' || c == '0'
    decreases |fmt| - i
  {
    if i < |fmt| && IsFlag(fmt[i]) {
      var (pad', padChar', wide') := AddFlag(fmt[i], pad, padChar, wide);
      PadCharKind(fmt, i + 1, pad', padChar', wide');
    }
  }

  /** The conversion of an implemented directive has a flag that is defined for it. */
  lemma SpecFlagOk(fmt: string, i: nat)
    requires i < |fmt| && fmt[i] == '%' && Implemented(fmt, i)
    ensures var spec := SpecAt(fmt, i + 1); spec.at < |fmt| && (Takes(fmt[spec.at]) ==> FlagOk(fmt[spec.at], spec)) && Implemented(fmt, spec.at + 1)
  {
    PadCharKind(fmt, i + 1, 0, ' ', false);
  }

  /** When everything fits with a character to spare and is handled, the output is what the format asks for. */
  lemma {:induction false} OutputFits(fmt: string, i: nat, args: seq<Arg>, room: nat)
    requires i <= |fmt| && Matches(fmt, i, args) && Implemented(fmt, i) && |FullOutput(fmt, i, args)| < room && AllHandled(fmt, i, args)
    ensures Output(fmt, i, args, room) == FullOutput(fmt, i, args)
    decreases |fmt| - i
  {
    hide Render, FullText, SpecAt, Handled, DirectiveOk, FlagOk;
    if i < |fmt| {
      if fmt[i] != '%' {
        OutputFits(fmt, i + 1, args, room - 1);
      } else {
        var spec := SpecAt(fmt, i + 1);
        SpecFlagOk(fmt, i);
        if Takes(fmt[spec.at]) {
          HandledFits(fmt[spec.at], spec, args[0], room);
          OutputFits(fmt, spec.at + 1, args[1..], room - |FullText(fmt[spec.at], spec, args[0])|);
        } else {
          OutputFits(fmt, spec.at + 1, args, room - 1);
        }
      }
    }
  }

  // Ink: the characters that are not blank.

  function Ink(s: string): nat {
    if s == "" then 0 else (if s[0] == ' ' then 0 else 1) + Ink(s[1..])
  }

  lemma {:induction false} InkJoin(a: string, b: string)
    ensures Ink(a + b) == Ink(a) + Ink(b)
  {
    if a == "" { assert a + b == b; } else {
      assert (a + b)[0] == a[0] && (a + b)[1..] == a[1..] + b;
      InkJoin(a[1..], b);
    }
  }

  lemma {:induction false} InkOf(s: string)
    ensures Ink(s) <= |s|
    ensures (forall k :: 0 <= k < |s| ==> s[k] == ' ') ==> Ink(s) == 0
    ensures NoBlank(s) ==> Ink(s) == |s|
  {
    if s != "" { InkOf(s[1..]); }
  }

  lemma InkTake(s: string, n: nat)
    requires n <= |s|
    ensures Ink(s[..n]) <= Ink(s)
  {
    InkJoin(s[..n], s[n..]);
    assert s[..n] + s[n..] == s;
  }

  predicate NoBlank(s: string) {
    forall k :: 0 <= k < |s| ==> s[k] != ' '
  }

  /** Blanks up to k, and ink from there on. */
  predicate Solid(s: string, k: nat) {
    k < |s| && (forall j :: 0 <= j < k ==> s[j] == ' ') && (forall j :: k <= j < |s| ==> s[j] != ' ')
  }

  lemma InkSolid(s: string, k: nat)
    requires Solid(s, k)
    ensures Ink(s) == |s| - k
  {
    InkOf(s[..k]);
    InkOf(s[k..]);
    InkJoin(s[..k], s[k..]);
    assert s[..k] + s[k..] == s;
  }

  lemma {:induction false} DigitsNoBlank(value: nat, base: nat)
    requires 2 <= base <= 36
    ensures NoBlank(Digits(value, base)) && NoBlank(FullNumber(value, base)) && FullNumber(value, base) != ""
  {
    if value > 0 {
      QuotientLess(value, base);
      DigitsNoBlank(value / base, base);
    }
  }

  lemma {:induction false} NumeralNoBlank(value: Word, base: nat, room: nat)
    requires 2 <= base <= 36
    ensures NoBlank(Numeral(value, base, room))
    decreases room
  {
    if value > 0 && room > 0 { NumeralNoBlank(NextValue(value, base), base, room - 1); }
  }

  lemma UnpaddedNoBlank(size: nat, value: Word, base: nat, sgn: bool)
    requires 2 <= base <= 36 && size > 0
    ensures NoBlank(Unpadded(size, value, base, sgn)) && Unpadded(size, value, base, sgn) != ""
  {
    hide Numeral;
    if IsNegative(value, sgn) { NumeralNoBlank(TWO64 - value, base, size - 1); } else { NumeralNoBlank(value, base, size); }
  }

  function Margin(core: string, width: nat, c: char): nat {
    if c == ' ' && width > |core| then width - |core| else 0
  }

  lemma PaddedSolid(core: string, width: nat, c: char)
    requires NoBlank(core) && core != "" && (c == ' ' || c == '0')
    ensures Solid(PadLeft(core, width, c), Margin(core, width, c))
  {
  }

  /** The padding width that `append_num` comes to. */
  function Width(size: nat, pad: nat): nat {
    if pad < size then pad else if size > 0 then size - 1 else 0
  }

  lemma NumTextSolid(size: nat, value: Word, base: nat, sgn: bool, pad: nat, c: char)
    requires 2 <= base <= 36 && size > 0 && (c == ' ' || c == '0')
    ensures NumText(size, value, base, sgn, pad, c) == PadLeft(Unpadded(size, value, base, sgn), Width(size, pad), c)
    ensures Solid(NumText(size, value, base, sgn, pad, c), Margin(Unpadded(size, value, base, sgn), Width(size, pad), c))
  {
    hide Unpadded;
    UnpaddedNoBlank(size, value, base, sgn);
    PaddedSolid(Unpadded(size, value, base, sgn), Width(size, pad), c);
  }

  lemma SignedTextSolid(negative: bool, digits: string, width: nat, c: char) returns (k: nat)
    requires NoBlank(digits) && digits != "" && (c == ' ' || c == '0')
    ensures Solid(SignedText(negative, digits, width, c), k)
    ensures |SignedText(negative, digits, width, c)| - k
         == if c == '0' && width > |digits| + (if negative then 1 else 0) then width else |digits| + if negative then 1 else 0
  {
    var core := if negative then "-" + digits else digits;
    assert NoBlank(core);
    k := Margin(core, width, c);
    PaddedSolid(core, width, c);
  }

  // Following the printed text along the intended one.

  /** How a printed text compares with n blanks and the intended text: it agrees, and what follows trails by some
      blanks; or it differs at some place; or it has less ink; or it fills the room. */
  datatype Step = Continue(behind: nat) | Mismatch(at: nat) | Deficient | Filled

  function Blanks(n: nat): (s: string)
    ensures |s| == n
  {
    Repeat(' ', n)
  }

  predicate Justified(step: Step, text: string, full: string, n: nat, room: nat) {
    match step
    case Continue(m) => Blanks(n) + full == text + Blanks(m)
    case Mismatch(k) => k < |text| && k < n + |full| && text[k] != (Blanks(n) + full)[k]
    case Deficient => Ink(text) < Ink(full)
    case Filled => |text| == room
  }

  lemma {:induction false} FirstInk(s: string) returns (k: nat)
    ensures k <= |s| && (forall j :: 0 <= j < k ==> s[j] == ' ') && (k < |s| ==> s[k] != ' ')
  {
    if s == "" || s[0] != ' ' { k := 0; } else {
      var k' := FirstInk(s[1..]);
      assert forall j :: 1 <= j < k' + 1 ==> s[j] == s[1..][j - 1];
      k := k' + 1;
    }
  }

  /** The intended text itself: in place it goes on in place; behind, only blanks do not show it. */
  lemma RightStep(text: string, n: nat, room: nat) returns (step: Step)
    ensures Justified(step, text, text, n, room) && !step.Deficient? && !step.Filled?
    ensures n == 0 ==> step == Continue(0)
    ensures step.Continue? ==> step.behind == n
  {
    var k := FirstInk(text);
    if n == 0 {
      assert Blanks(0) + text == text + Blanks(0);
      step := Continue(0);
    } else if k == |text| {
      assert Blanks(n) + text == text + Blanks(n);
      step := Continue(n);
    } else {
      assert (Blanks(n) + text)[k] == ' ';
      step := Mismatch(k);
    }
  }

  /** A wrong number. */
  lemma SolidStep(text: string, full: string, k: nat, l: nat, n: nat, room: nat) returns (step: Step)
    requires Solid(text, k) && Solid(full, l) && |text| <= |full| && text != full
    ensures Justified(step, text, full, n, room) && !step.Continue?
  {
    hide Ink;
    InkSolid(text, k);
    InkSolid(full, l);
    if |text| - k < |full| - l {
      step := Deficient;
    } else if k < n + l {
      assert (Blanks(n) + full)[k] == ' ';
      step := Mismatch(k);
    } else {
      assert n == 0 && |text| == |full| && Blanks(n) + full == full;
      var j: nat :| j < |text| && text[j] != full[j];
      step := Mismatch(j);
    }
  }

  lemma NumberStep(c: char, spec: Spec, arg: Arg, room: nat, n: nat) returns (step: Step)
    requires c in "dubx" && ArgFits(c, spec.wide, arg) && |FullText(c, spec, arg)| < room && !Handled(c, spec, arg)
    requires spec.padChar == ' ' || spec.padChar == '0'
    ensures Justified(step, Render(c, spec, arg, room), FullText(c, spec, arg), n, room) && !step.Continue?
  {
    hide NumText, PadLeft, NumberOf, Uncut, Magnitude, Negative, Handled, FullNumber, SignedText, Unpadded, Solid, Ink;
    NumberCompares(c, spec, arg, room);
    var text, full := Render(c, spec, arg, room), FullText(c, spec, arg);
    if |text| == room {
      step := Filled;
    } else {
      NumTextSolid(room, NumberOf(c, arg), BaseOf(c), c == 'd', spec.pad, spec.padChar);
      DigitsNoBlank(Magnitude(c, arg), BaseOf(c));
      var l := SignedTextSolid(Negative(c, arg), FullNumber(Magnitude(c, arg), BaseOf(c)), spec.pad, spec.padChar);
      var k := Margin(Unpadded(room, NumberOf(c, arg), BaseOf(c), c == 'd'), Width(room, spec.pad), spec.padChar);
      step := SolidStep(text, full, k, l, n, room);
    }
  }

  lemma StringStep(spec: Spec, text: string, room: nat, n: nat) returns (step: Step)
    requires |PadLeft(text, spec.pad, ' ')| < room && spec.padChar == ' ' && !Handled('s', spec, StrArg(text))
    ensures Justified(step, StrText(room, text, spec.pad, ' '), PadLeft(text, spec.pad, ' '), n, room) && step.Mismatch?
  {
    var m := spec.pad - |text|;
    var k := FirstInk(text);
    var printed, full := text + Blanks(m), Blanks(m) + text;
    assert k < |text| && printed[k] == text[k];
    assert (Blanks(n) + full)[k] == ' ';
    step := Mismatch(k);
  }

  lemma CharStep(spec: Spec, ch: char, room: nat, n: nat) returns (step: Step)
    requires spec.pad > 1
    ensures Justified(step, [ch], PadLeft([ch], spec.pad, ' '), n, room) && !step.Deficient? && !step.Filled?
    ensures step.Continue? ==> step.behind > 0
  {
    var full := Blanks(spec.pad - 1) + [ch];
    if ch == ' ' {
      assert Blanks(n) + full == [ch] + Blanks(n + spec.pad - 1);
      step := Continue(n + spec.pad - 1);
    } else {
      assert (Blanks(n) + full)[0] == ' ';
      step := Mismatch(0);
    }
  }

  /** The width of %p goes between the prefix and the digits. */
  lemma PointerStep(spec: Spec, arg: Arg, room: nat, n: nat) returns (step: Step)
    requires arg.LongArg? && spec.padChar == ' ' && !Handled('p', spec, arg) && |FullText('p', spec, arg)| + 2 < room
    ensures Justified(step, Render('p', spec, arg, room), FullText('p', spec, arg), n, room) && !step.Continue?
  {
    hide Render, FullText, Handled, FullNumber, Unpadded, Justified, PadLeft;
    PointerParts(spec, arg, room);
    step := PrefixStep(FullNumber(arg.word, 16), Unpadded(room - 2, arg.word, 16, false), spec.pad, n, room);
  }

  lemma PointerParts(spec: Spec, arg: Arg, room: nat)
    requires arg.LongArg? && spec.padChar == ' ' && !Handled('p', spec, arg) && |FullText('p', spec, arg)| + 2 < room
    ensures var digits, u := FullNumber(arg.word, 16), Unpadded(room - 2, arg.word, 16, false);
            && Render('p', spec, arg, room) == "0x" + PadLeft(u, spec.pad, ' ')
            && FullText('p', spec, arg) == PadLeft("0x" + digits, spec.pad, ' ')
            && NoBlank(digits) && NoBlank(u) && digits != "" && u != ""
            && (|u| == room - 2 || |u| <= |digits|) && (u == digits ==> spec.pad > |digits|)
  {
    hide NumText, StrText, Uncut, FullNumber, Unpadded, Ink, NoBlank;
    var digits, u := FullNumber(arg.word, 16), Unpadded(room - 2, arg.word, 16, false);
    PointerPrefix(room);
    DigitsNoBlank(arg.word, 16);
    UnpaddedNoBlank(room - 2, arg.word, 16, false);
    NumTextSolid(room - 2, arg.word, 16, false, spec.pad, ' ');
    NumTextSolid(room - 2, arg.word, 16, false, 0, ' ');
    assert PadLeft(digits, 0, ' ') == digits && PadLeft(u, 0, ' ') == u;
    UnsignedCompares(room - 2, arg.word, 16, false, 0, ' ');
  }

  lemma PrefixStep(digits: string, u: string, pad: nat, n: nat, room: nat) returns (step: Step)
    requires NoBlank(digits) && NoBlank(u) && digits != "" && u != ""
    requires room >= 2 && (|u| == room - 2 || |u| <= |digits|) && (u == digits ==> pad > |digits|)
    ensures Justified(step, "0x" + PadLeft(u, pad, ' '), PadLeft("0x" + digits, pad, ' '), n, room) && !step.Continue?
  {
    hide Ink;
    var tail := PadLeft(u, pad, ' ');
    var text, full := "0x" + tail, PadLeft("0x" + digits, pad, ' ');
    if n > 0 || pad > |digits| + 2 {
      assert (Blanks(n) + full)[0] == ' ';
      step := Mismatch(0);
    } else {
      assert full == "0x" + digits && Blanks(0) + full == full;
      if pad > |u| {
        assert tail[0] == ' ' && full[2] == digits[0];
        step := Mismatch(2);
      } else {
        assert tail == u;
        if |u| == room - 2 { step := Filled; } else {
          assert Solid(text, 0) && Solid(full, 0);
          assert text[2..] == u && full[2..] == digits;
          step := SolidStep(text, full, 0, 0, n, room);
        }
      }
    }
  }

  /** One conversion: it goes on in place exactly when it started in place and is handled. */
  lemma ConversionStep(c: char, spec: Spec, arg: Arg, room: nat, n: nat) returns (step: Step)
    requires Takes(c) && ArgFits(c, spec.wide, arg) && FlagOk(c, spec) && |FullText(c, spec, arg)| + 2 < room
    ensures Justified(step, Render(c, spec, arg, room), FullText(c, spec, arg), n, room)
    ensures step == Continue(0) <==> n == 0 && Handled(c, spec, arg)
  {
    if Handled(c, spec, arg) {
      hide Render, FullText, Handled;
      HandledFits(c, spec, arg, room);
      step := RightStep(FullText(c, spec, arg), n, room);
    } else if c == 's' {
      step := StringStep(spec, arg.text, room, n);
    } else if c == 'c' {
      step := CharStep(spec, CharOf(arg.bits), room, n);
    } else if c == 'p' {
      step := PointerStep(spec, arg, room, n);
    } else {
      step := NumberStep(c, spec, arg, room, n);
    }
  }

  /** A conversion that fits prints what it should exactly when it is handled. */
  lemma ConversionIffHandled(c: char, spec: Spec, arg: Arg, room: nat)
    requires Takes(c) && ArgFits(c, spec.wide, arg) && FlagOk(c, spec) && |FullText(c, spec, arg)| + 2 < room
    ensures Render(c, spec, arg, room) == FullText(c, spec, arg) <==> Handled(c, spec, arg)
  {
    hide Render, FullText, Handled;
    var text, full := Render(c, spec, arg, room), FullText(c, spec, arg);
    var step := ConversionStep(c, spec, arg, room, 0);
    assert Blanks(0) + full == full && text + Blanks(0) == text;
    if step.Continue? && text == full { assert |text + Blanks(step.behind)| == |text|; }
  }

  // No conversion has more ink than it should, whatever the room, unless it fills it.

  predicate InkBound(text: string, full: string, room: nat) {
    |text| == room || Ink(text) <= Ink(full)
  }

  lemma NumberInk(c: char, spec: Spec, arg: Arg, room: nat)
    requires c in "dubx" && ArgFits(c, spec.wide, arg) && room > 0 && (spec.padChar == ' ' || spec.padChar == '0')
    ensures InkBound(Render(c, spec, arg, room), FullText(c, spec, arg), room)
  {
    hide NumText, NumberOf, Uncut, Magnitude, Negative, FullNumber, SignedText, Unpadded, Ink;
    var v, base := NumberOf(c, arg), BaseOf(c);
    var u := Unpadded(room, v, base, c == 'd');
    NumTextSolid(room, v, base, c == 'd', spec.pad, spec.padChar);
    InkSolid(Render(c, spec, arg, room), Margin(u, Width(room, spec.pad), spec.padChar));
    DigitsNoBlank(Magnitude(c, arg), base);
    var l := SignedTextSolid(Negative(c, arg), FullNumber(Magnitude(c, arg), base), spec.pad, spec.padChar);
    InkSolid(FullText(c, spec, arg), l);
    UnpaddedLength(c, spec, arg, room);
  }

  lemma UnpaddedLength(c: char, spec: Spec, arg: Arg, room: nat)
    requires c in "dubx" && ArgFits(c, spec.wide, arg) && room > 0
    ensures var u := Unpadded(room, NumberOf(c, arg), BaseOf(c), c == 'd');
            |u| == room || |u| <= |FullNumber(Magnitude(c, arg), BaseOf(c))| + if Negative(c, arg) then 1 else 0
  {
    hide Numeral, Digits, NumberOf, Magnitude, Negative;
    NumberDenoted(c, spec, arg);
    if Negative(c, arg) {
      NumeralLength(Magnitude(c, arg), 10, room - 1);
    } else if c == 'u' && arg.IntArg? && arg.bits >= 0x8000_0000 {
      ExtendedStuck(room, arg.bits);
    } else {
      NumeralLength(Magnitude(c, arg), BaseOf(c), room);
    }
  }

  lemma ExtendedStuck(room: nat, bits: Word32)
    requires bits >= 0x8000_0000
    ensures NumberOf('u', IntArg(bits)) > 0 && |Numeral(NumberOf('u', IntArg(bits)), 10, room)| == room
  {
    StuckFills(NumberOf('u', IntArg(bits)), 10, room);
  }

  lemma PointerInk(spec: Spec, arg: Arg, room: nat)
    requires arg.LongArg? && room > 0 && spec.padChar == ' '
    ensures InkBound(Render('p', spec, arg, room), FullText('p', spec, arg), room)
  {
    hide NumText, StrText, Uncut, FullNumber, Unpadded, Ink;
    if room > 2 {
      PointerPrefix(room);
      DigitsNoBlank(arg.word, 16);
      var digits, u := FullNumber(arg.word, 16), Unpadded(room - 2, arg.word, 16, false);
      UnpaddedNoBlank(room - 2, arg.word, 16, false);
      NumTextSolid(room - 2, arg.word, 16, false, spec.pad, ' ');
      PointerDigits(arg.word, room - 2);
      var text := NumText(room - 2, arg.word, 16, false, spec.pad, ' ');
      InkSolid(text, Margin(u, Width(room - 2, spec.pad), ' '));
      InkJoin("0x", text);
      InkOf("0x");
      PaddedSolid("0x" + digits, spec.pad, ' ');
      InkSolid(PadLeft("0x" + digits, spec.pad, ' '), Margin("0x" + digits, spec.pad, ' '));
    } else {
      ShortPointer(spec, arg, room);
    }
  }

  lemma PointerDigits(word: Word, size: nat)
    requires size > 0
    ensures var u := Unpadded(size, word, 16, false); |u| == size || |u| <= |FullNumber(word, 16)|
  {
    hide Numeral, Digits;
    NumeralLength(word, 16, size);
  }

  lemma ShortPointer(spec: Spec, arg: Arg, room: nat)
    requires arg.LongArg? && 0 < room <= 2
    ensures |Render('p', spec, arg, room)| == room
  {
    hide Unpadded;
  }

  lemma StringInk(spec: Spec, text: string, room: nat)
    requires spec.padChar == ' '
    ensures Ink(StrText(room, text, spec.pad, ' ')) <= Ink(PadLeft(text, spec.pad, ' '))
  {
    var blanks := Repeat(' ', if spec.pad > |text| then spec.pad - |text| else 0);
    InkJoin(text, blanks);
    InkJoin(blanks, text);
    if |text + blanks| > room { InkTake(text + blanks, room); }
  }

  lemma ConversionInk(c: char, spec: Spec, arg: Arg, room: nat)
    requires Takes(c) && ArgFits(c, spec.wide, arg) && FlagOk(c, spec) && room > 0
    ensures InkBound(Render(c, spec, arg, room), FullText(c, spec, arg), room)
  {
    if c == 's' {
      StringInk(spec, arg.text, room);
    } else if c == 'c' {
      var blanks := Repeat(' ', if spec.pad > 1 then spec.pad - 1 else 0);
      InkJoin(blanks, [CharOf(arg.bits)]);
    } else if c == 'p' {
      PointerInk(spec, arg, room);
    } else {
      NumberInk(c, spec, arg, room);
    }
  }

  lemma InkBoundJoin(a: string, fullA: string, b: string, fullB: string, room: nat)
    requires |a| <= room && InkBound(a, fullA, room) && InkBound(b, fullB, room - |a|) && |b| <= room - |a|
    ensures InkBound(a + b, fullA + fullB, room)
  {
    hide Ink;
    InkJoin(a, b);
    InkJoin(fullA, fullB);
  }

  lemma {:induction false} OutputInk(fmt: string, i: nat, args: seq<Arg>, room: nat)
    requires i <= |fmt| && Matches(fmt, i, args) && Implemented(fmt, i)
    ensures InkBound(Output(fmt, i, args, room), FullOutput(fmt, i, args), room)
    decreases |fmt| - i
  {
    hide Render, FullText, SpecAt, DirectiveOk, FlagOk, InkBound;
    if i == |fmt| || room == 0 {
      NoInk(room, if i == |fmt| then "" else FullOutput(fmt, i, args));
    } else if fmt[i] != '%' {
      SameInk([fmt[i]], room);
      OutputInk(fmt, i + 1, args, room - 1);
      InkBoundJoin([fmt[i]], [fmt[i]], Output(fmt, i + 1, args, room - 1), FullOutput(fmt, i + 1, args), room);
    } else {
      var spec := SpecAt(fmt, i + 1);
      SpecFlagOk(fmt, i);
      var c, next := fmt[spec.at], spec.at + 1;
      if Takes(c) {
        var text := Render(c, spec, args[0], room);
        ConversionInk(c, spec, args[0], room);
        OutputInk(fmt, next, args[1..], room - |text|);
        InkBoundJoin(text, FullText(c, spec, args[0]), Output(fmt, next, args[1..], room - |text|), FullOutput(fmt, next, args[1..]), room);
      } else {
        SameInk([c], room);
        OutputInk(fmt, next, args, room - 1);
        InkBoundJoin([c], [c], Output(fmt, next, args, room - 1), FullOutput(fmt, next, args), room);
      }
    }
  }

  lemma NoInk(room: nat, full: string)
    ensures InkBound("", full, room)
  {
  }

  lemma SameInk(text: string, room: nat)
    ensures InkBound(text, text, room)
  {
  }

  // Putting the steps together.

  /** What a step says about the whole: only a continuation leaves the comparison open. */
  lemma Follow(step: Step, a: string, fullA: string, b: string, fullB: string, n: nat, room: nat)
    requires Justified(step, a, fullA, n, room) && |a| <= room && n + |fullA| + |fullB| < room
    requires |b| <= room - |a| && InkBound(b, fullB, room - |a|)
    ensures if step.Continue? then a + b == Blanks(n) + (fullA + fullB) <==> b == Blanks(step.behind) + fullB
            else a + b != Blanks(n) + (fullA + fullB)
  {
    hide Ink;
    var whole, full := a + b, Blanks(n) + (fullA + fullB);
    assert full == (Blanks(n) + fullA) + fullB;
    match step {
      case Continue(m) =>
        assert full == a + (Blanks(m) + fullB);
        assert whole[|a|..] == b && full[|a|..] == Blanks(m) + fullB;
      case Mismatch(k) =>
        assert whole[k] == a[k] && full[k] == (Blanks(n) + fullA)[k];
      case Deficient =>
        InkJoin(a, b);
        InkJoin(fullA, fullB);
        InkJoin(Blanks(n), fullA + fullB);
      case Filled =>
    }
  }

  lemma {:induction false} OutputStep(fmt: string, i: nat, args: seq<Arg>, room: nat, n: nat)
    requires i <= |fmt| && Matches(fmt, i, args) && Implemented(fmt, i) && n + |FullOutput(fmt, i, args)| + 2 < room
    ensures Output(fmt, i, args, room) == Blanks(n) + FullOutput(fmt, i, args) <==> n == 0 && AllHandled(fmt, i, args)
    decreases |fmt| - i, 0
  {
    hide Render, FullText, SpecAt, DirectiveOk, FlagOk, Handled, ArgFits;
    if i == |fmt| {
      assert Blanks(n) + "" == Blanks(n);
    } else {
      if fmt[i] != '%' {
        LiteralStep(fmt[i], fmt, i + 1, args, room, n);
      } else {
        var spec := SpecAt(fmt, i + 1);
        SpecFlagOk(fmt, i);
        var c, next := fmt[spec.at], spec.at + 1;
        if Takes(c) {
          ArgumentStep(c, spec, args[0], fmt, next, args[1..], room, n);
        } else {
          LiteralStep(c, fmt, next, args, room, n);
        }
      }
    }
  }

  lemma ContinueLength(step: Step, text: string, full: string, n: nat, room: nat)
    requires step.Continue? && Justified(step, text, full, n, room)
    ensures n + |full| == |text| + step.behind
  {
    assert |Blanks(n) + full| == |text + Blanks(step.behind)|;
  }

  lemma ArgumentStep(c: char, spec: Spec, arg: Arg, fmt: string, next: nat, rest: seq<Arg>, room: nat, n: nat)
    requires Takes(c) && ArgFits(c, spec.wide, arg) && FlagOk(c, spec)
    requires next <= |fmt| && Matches(fmt, next, rest) && Implemented(fmt, next)
    requires n + |FullText(c, spec, arg)| + |FullOutput(fmt, next, rest)| + 2 < room
    ensures var text := Render(c, spec, arg, room);
            text + Output(fmt, next, rest, room - |text|) == Blanks(n) + (FullText(c, spec, arg) + FullOutput(fmt, next, rest))
            <==> n == 0 && Handled(c, spec, arg) && AllHandled(fmt, next, rest)
    decreases |fmt| - next, 1
  {
    hide Render, FullText, FlagOk, Handled, InkBound, Justified, Output, FullOutput, AllHandled;
    var text, full := Render(c, spec, arg, room), FullText(c, spec, arg);
    var step := ConversionStep(c, spec, arg, room, n);
    OutputInk(fmt, next, rest, room - |text|);
    Follow(step, text, full, Output(fmt, next, rest, room - |text|), FullOutput(fmt, next, rest), n, room);
    if step.Continue? {
      ContinueLength(step, text, full, n, room);
      OutputStep(fmt, next, rest, room - |text|, step.behind);
    }
  }

  lemma LiteralStep(c: char, fmt: string, next: nat, args: seq<Arg>, room: nat, n: nat)
    requires next <= |fmt| && Matches(fmt, next, args) && Implemented(fmt, next) && n + 1 + |FullOutput(fmt, next, args)| + 2 < room
    ensures [c] + Output(fmt, next, args, room - 1) == Blanks(n) + ([c] + FullOutput(fmt, next, args))
       <==> n == 0 && AllHandled(fmt, next, args)
    decreases |fmt| - next, 1
  {
    hide Output, FullOutput, AllHandled, InkBound, Justified;
    var step := RightStep([c], n, room);
    OutputInk(fmt, next, args, room - 1);
    Follow(step, [c], [c], Output(fmt, next, args, room - 1), FullOutput(fmt, next, args), n, room);
    if step.Continue? { OutputStep(fmt, next, args, room - 1, n); }
  }

  /** For every format of the implemented language whose right text fits with three characters to spare: the output
      is that text exactly when every conversion in it is handled. */
  lemma OutputIffHandled(fmt: string, args: seq<Arg>, room: nat)
    requires Matches(fmt, 0, args) && Implemented(fmt, 0) && |FullOutput(fmt, 0, args)| + 2 < room
    ensures Output(fmt, 0, args, room) == FullOutput(fmt, 0, args) <==> AllHandled(fmt, 0, args)
  {
    hide Output, FullOutput, AllHandled, Implemented;
    OutputStep(fmt, 0, args, room, 0);
    assert Blanks(0) + FullOutput(fmt, 0, args) == FullOutput(fmt, 0, args);
  }
  // Single causes, and inputs.

  /** %d puts the sign after the digits, so of the ints it prints exactly the non-negative ones right. */
  lemma SignIffNonNegative(spec: Spec, bits: Word32, room: nat)
    requires !spec.wide && FlagOk('d', spec) && |FullText('d', spec, IntArg(bits))| + 2 < room
    ensures Render('d', spec, IntArg(bits), room) == FullText('d', spec, IntArg(bits)) <==> bits < 0x8000_0000
  {
    hide Render, FullText;
    ConversionIffHandled('d', spec, IntArg(bits), room);
  }

  /** %u sign-extends, so of the ints it prints exactly those below 2^31 right. */
  lemma UnsignedIffSmall(spec: Spec, bits: Word32, room: nat)
    requires !spec.wide && FlagOk('u', spec) && |FullText('u', spec, IntArg(bits))| + 2 < room
    ensures Render('u', spec, IntArg(bits), room) == FullText('u', spec, IntArg(bits)) <==> bits < 0x8000_0000
  {
    hide Render, FullText;
    ConversionIffHandled('u', spec, IntArg(bits), room);
  }

  /** %d of -5 prints 5-, and %u of 2^31 fills whatever room there is. */
  lemma MisprintedInts(room: nat)
    requires room > 2
    ensures Render('d', Spec(1, 0, ' ', false), IntArg(0xffff_fffb), room) == "5-"
    ensures FullText('d', Spec(1, 0, ' ', false), IntArg(0xffff_fffb)) == "-5"
    ensures |Render('u', Spec(1, 0, ' ', false), IntArg(0x8000_0000), room)| == room
  {
    assert Digits(5, 10) == "5" by { assert Digits(0, 10) == ""; }
    NumeralIsSuffix(5, 10, room - 1);
    ExtendedFills(room, 0x8000_0000, 0, ' ');
  }

  /** A width is ignored by %c, pads %s on the wrong side, and does not count the prefix of %p. */
  lemma MisprintedWidths(room: nat)
    requires room > 14
    ensures Render('c', Spec(2, 5, ' ', false), IntArg(65), room) == "A" && FullText('c', Spec(2, 5, ' ', false), IntArg(65)) == "    A"
    ensures Render('s', Spec(2, 5, ' ', false), StrArg("ab"), room) == "ab   "
    ensures FullText('s', Spec(2, 5, ' ', false), StrArg("ab")) == "   ab"
    ensures Render('p', Spec(3, 10, ' ', false), LongArg(255), room) == "0x        ff"
    ensures FullText('p', Spec(3, 10, ' ', false), LongArg(255)) == "      0xff"
  {
    hide Numeral, Digits, NumText;
    PaddedPointer(room);
    PointerPrefix(room);
    assert "ab" + Repeat(' ', 3) == "ab   ";
  }

  lemma PaddedPointer(room: nat)
    requires room > 14
    ensures NumText(room - 2, 255, 16, false, 10, ' ') == "        ff" && FullNumber(255, 16) == "ff"
  {
    hide Numeral;
    assert Digits(255, 16) == "ff" by { assert Digits(0, 16) == "" && Digits(15, 16) == "f"; }
    NumeralIsSuffix(255, 16, room - 2);
  }

  /** Outside the implemented language the directive's last character is printed in its place. */
  lemma UnimplementedConversion(arg: Arg, room: nat)
    requires room > 1
    ensures Matches("%X", 0, [arg]) && Output("%X", 0, [arg], room) == "X" && !Implemented("%X", 0)
  {
    assert SpecAt("%X", 1) == Spec(1, 0, ' ', false) && Output("%X", 2, [arg], room - 1) == "";
  }

  lemma UnimplementedFlag(arg: Arg, room: nat)
    requires room > 3
    ensures Matches("%-5d", 0, [arg]) && Output("%-5d", 0, [arg], room) == "-5d" && !Implemented("%-5d", 0)
  {
    var fmt := "%-5d";
    assert SpecAt(fmt, 1) == Spec(1, 0, ' ', false);
    LiteralTail(fmt, 2, [arg], room - 1);
    assert fmt[2..] == "5d";
  }

  /** Text without directives is printed as far as there is room, to the last character. */
  lemma {:induction false} LiteralTail(fmt: string, i: nat, args: seq<Arg>, room: nat)
    requires i <= |fmt| && forall k :: i <= k < |fmt| ==> fmt[k] != '%'
    ensures Matches(fmt, i, args)
    ensures Output(fmt, i, args, room) == if |fmt| - i <= room then fmt[i..] else fmt[i..i + room]
    decreases |fmt| - i
  {
    hide Render, SpecAt, Takes, ArgFits, FullOutput, FullText;
    if i < |fmt| && room > 0 {
      LiteralTail(fmt, i + 1, args, room - 1);
    } else if i < |fmt| {
      LiteralTail(fmt, i + 1, args, 0);
    }
  }

  /** %08x of an int: eight characters that read back as the number, zeros in front of its numeral. */
  lemma EightHexDigits(bits: Word32, room: nat)
    requires room > 8
    ensures Matches("%08x", 0, [IntArg(bits)])
    ensures |FullNumber(bits, 16)| <= 8
    ensures var text := Output("%08x", 0, [IntArg(bits)], room);
            && |text| == 8 && ValueOf(text, 16) == bits
            && text == seq(8 - |FullNumber(bits, 16)|, k => '0') + FullNumber(bits, 16)
  {
    HexPowers(); ZeroPadded("%08x", bits, 8, room);
  }

  /** %02x of a byte: two characters that read back as the byte. */
  lemma TwoHexDigits(b: Byte, room: nat)
    requires room > 2
    ensures Matches("%02x", 0, [IntArg(b)])
    ensures |FullNumber(b, 16)| <= 2
    ensures var text := Output("%02x", 0, [IntArg(b)], room);
            && |text| == 2 && ValueOf(text, 16) == b
            && text == seq(2 - |FullNumber(b, 16)|, k => '0') + FullNumber(b, 16)
  {
    HexPowers(); ZeroPadded("%02x", b, 2, room);
  }

  lemma HexPowers()
    ensures Power(16, 2) == 0x100 && Power(16, 8) == TWO32
  {
    assert Power(16, 4) == 0x1_0000;
  }

  lemma ZeroPadded(fmt: string, bits: Word32, pad: nat, room: nat)
    requires |fmt| == 4 && fmt[0] == '%' && fmt[1] == '0' && '1' <= fmt[2] <= '9' && fmt[3] == 'x'
    requires pad == fmt[2] as int - '0' as int && room > pad && bits < Power(16, pad)
    ensures Matches(fmt, 0, [IntArg(bits)])
    ensures |FullNumber(bits, 16)| <= pad
    ensures var text := Output(fmt, 0, [IntArg(bits)], room);
            |text| == pad && ValueOf(text, 16) == bits && text == seq(pad - |FullNumber(bits, 16)|, k => '0') + FullNumber(bits, 16)
  {
    hide Render, FullText, FullNumber, SpecAt, ValueOf, Power, Handled;
    var arg, spec := IntArg(bits), Spec(3, pad, '0', false);
    ZeroWidthSpec(fmt, pad);
    HexPlaces(bits, pad);
    ZeroPaddedText(spec, bits, room);
    assert [arg][1..] == [];
    var text := Render('x', spec, arg, room);
    assert Output(fmt, 4, [], room - |text|) == "" && Output(fmt, 0, [arg], room) == text + "" == text;
  }

  lemma ZeroWidthSpec(fmt: string, pad: nat)
    requires |fmt| == 4 && fmt[1] == '0' && '1' <= fmt[2] <= '9' && fmt[3] == 'x' && pad == fmt[2] as int - '0' as int
    ensures SpecAt(fmt, 1) == Spec(3, pad, '0', false)
  {
    assert fmt[1..2] == "0" && fmt[2..3] == [fmt[2]] && fmt[3..3] == "";
    WidthDigit([fmt[2]]);
    FlagRun(fmt, 1, 2, 3, 3);
  }

  lemma ZeroPaddedText(spec: Spec, bits: Word32, room: nat)
    requires spec.padChar == '0' && !spec.wide && |FullNumber(bits, 16)| <= spec.pad < room
    ensures var text := Render('x', spec, IntArg(bits), room);
            && |text| == spec.pad && ValueOf(text, 16) == bits
            && text == seq(spec.pad - |FullNumber(bits, 16)|, k => '0') + FullNumber(bits, 16)
  {
    hide Render, FullNumber, ValueOf;
    var digits := FullNumber(bits, 16);
    var zeros := Repeat('0', spec.pad - |digits|);
    assert zeros == seq(spec.pad - |digits|, k => '0');
    IntsAreHandled('x', spec, IntArg(bits));
    HandledFits('x', spec, IntArg(bits), room);
    PaddedDenotes('0', spec.pad - |digits|, digits, 16);
    FullNumberDenotes(bits);
  }

  lemma WidthDigit(width: string)
    requires |width| == 1 && '1' <= width[0] <= '9'
    ensures ValueOf(width, 10) == width[0] as int - '0' as int
  {
    ValueSnoc("", width[0], 10);
    assert "" + [width[0]] == width;
  }

  lemma FullNumberDenotes(v: nat)
    ensures ValueOf(FullNumber(v, 16), 16) == v
  {
    if v == 0 {
      assert "0"[..0] == "";
    } else {
      DigitsDenote(v, 16);
    }
  }

  lemma {:induction false} HexPlaces(v: nat, places: nat)
    requires places > 0 && v < Power(16, places)
    ensures |FullNumber(v, 16)| <= places && |Digits(v, 16)| <= places
  {
    if v > 0 {
      QuotientLess(v, 16);
      if places == 1 {
        assert Power(16, 1) == 16 * Power(16, 0);
      } else {
        HexPlaces(v / 16, places - 1);
      }
    }
  }

  // Building up what a known format prints, from its end.

  ghost predicate Prints(fmt: string, i: nat, args: seq<Arg>, text: string) {
    i <= |fmt| && Matches(fmt, i, args) && Implemented(fmt, i) && AllHandled(fmt, i, args) && FullOutput(fmt, i, args) == text
  }

  lemma PrintsNothing(fmt: string)
    ensures Prints(fmt, |fmt|, [], "")
  {
  }

  lemma PrintsLiteral(fmt: string, i: nat, args: seq<Arg>, text: string)
    requires i < |fmt| && fmt[i] != '%' && Prints(fmt, i + 1, args, text)
    ensures Prints(fmt, i, args, [fmt[i]] + text)
  {
  }

  lemma PrintsConversion(fmt: string, i: nat, args: seq<Arg>, text: string)
    requires i + 1 < |fmt| && fmt[i] == '%' && !IsFlag(fmt[i + 1]) && args != []
    requires Takes(fmt[i + 1]) && ArgFits(fmt[i + 1], false, args[0])
    requires Handled(fmt[i + 1], Spec(i + 1, 0, ' ', false), args[0])
    requires Prints(fmt, i + 2, args[1..], text)
    ensures Prints(fmt, i, args, FullText(fmt[i + 1], Spec(i + 1, 0, ' ', false), args[0]) + text)
  {
    assert SpecAt(fmt, i + 1) == Spec(i + 1, 0, ' ', false);
    assert fmt[i + 1..i + 1] == "";
  }
}
