/** What the formatter's conversions mean: numerals denote their numbers, and each conversion is compared with the
    text that C11, section 7.21.6.1, asks for. */
module PrintfMeaning {
  import opened Bits
  import opened Printf

  // Numerals.

  function DigitValue(c: char): nat {
    if '0' <= c <= '9' then c as int - '0' as int
    else if 'a' <= c <= 'z' then c as int - 'a' as int + 10
    else 0
  }

  /** The number a string of digits denotes, most significant first. */
  function ValueOf(s: string, base: nat): nat {
    if s == "" then 0 else base * ValueOf(s[..|s| - 1], base) + DigitValue(s[|s| - 1])
  }

  function Power(base: nat, n: nat): (p: nat)
    ensures base >= 1 ==> p >= 1
  {
    if n == 0 then 1 else base * Power(base, n - 1)
  }

  /** The numeral of a number, with no leading zeros; empty for zero. */
  function Digits(value: nat, base: nat): string
    requires 2 <= base <= 36
  {
    if value == 0 then "" else Digits(value / base, base) + [DigitChar(value % base)]
  }

  /** The quotients stay below 2^31, so `append_num` does not cut them. */
  predicate Uncut(value: nat, base: nat)
    requires base >= 2
  {
    value < TWO64 && value / base < 0x8000_0000
  }

  lemma UncutNext(value: Word, base: nat)
    requires 2 <= base <= 36 && Uncut(value, base)
    ensures NextValue(value, base) == value / base && Uncut(value / base, base)
  {
    var q := value / base;
    DivModUnique(q, TWO32, 0, q);
    QuotientShrinks(q, base);
  }

  lemma QuotientShrinks(v: nat, base: nat)
    requires base >= 1
    ensures v / base <= v
  {
    var q, r := v / base, v % base;
    assert v == base * q + r;
    MulMono(q, 1, base);
  }

  lemma QuotientLess(v: nat, base: nat)
    requires base >= 2 && v > 0
    ensures v / base < v && v == base * (v / base) + v % base && v % base < base
  {
    var q, r := v / base, v % base;
    assert v == base * q + r;
    MulMono(q, 2, base);
  }

  lemma DigitRoundTrip(d: nat)
    requires d < 36
    ensures DigitValue(DigitChar(d)) == d
  {
  }

  lemma ValueSnoc(s: string, c: char, base: nat)
    ensures ValueOf(s + [c], base) == base * ValueOf(s, base) + DigitValue(c)
  {
    assert (s + [c])[..|s|] == s;
  }

  /** v modulo b*p: the quotient modulo p, with the last digit put back. */
  lemma ModProduct(v: nat, b: nat, p: nat)
    requires b >= 1 && p >= 1
    ensures b * p >= 1 && v % (b * p) == b * (v / b % p) + v % b
  {
    DivDiv(v, b, p);
    var q, r := v / b, v % b;
    var q2 := q / p;
    assert v == b * q + r && q == p * q2 + q % p;
    assert b * (p * q2 + q % p) == (b * p) * q2 + b * (q % p);
    assert v == (b * p) * q2 + v % (b * p);
  }

  /** The digits in the buffer denote the number modulo base^room: all of it when it fits, and otherwise
      exactly its `room` low-order digits. */
  lemma {:induction false} NumeralDenotes(value: Word, base: nat, room: nat)
    requires 2 <= base <= 36 && Uncut(value, base)
    ensures ValueOf(Numeral(value, base, room), base) == value % Power(base, room)
    ensures value >= Power(base, room) ==> |Numeral(value, base, room)| == room
    decreases room
  {
    if room == 0 || value == 0 {
      DivModUnique(0, Power(base, room), 0, 0);
    } else {
      var q, p := value / base, Power(base, room - 1);
      UncutNext(value, base);
      NumeralDenotes(q, base, room - 1);
      ValueSnoc(Numeral(q, base, room - 1), DigitChar(value % base), base);
      DigitRoundTrip(value % base);
      ModProduct(value, base, p);
      if value >= base * p { AtLeast(value, base, p); }
    }
  }

  lemma AtLeast(v: nat, b: nat, p: nat)
    requires b >= 1 && v >= b * p
    ensures v / b >= p
  {
    var q, r := v / b, v % b;
    assert v == b * q + r;
    if q < p { MulMono(b, q + 1, p); }
  }

  /** The buffer loop yields the last `room` digits of the numeral. */
  lemma {:induction false} NumeralIsSuffix(value: Word, base: nat, room: nat)
    requires 2 <= base <= 36 && Uncut(value, base)
    ensures var d := Digits(value, base);
            Numeral(value, base, room) == if |d| <= room then d else d[|d| - room..]
    decreases room
  {
    if room > 0 && value > 0 {
      UncutNext(value, base);
      NumeralIsSuffix(value / base, base, room - 1);
    }
  }

  lemma {:induction false} DigitsDenote(value: nat, base: nat)
    requires 2 <= base <= 36
    ensures ValueOf(Digits(value, base), base) == value
  {
    if value > 0 {
      QuotientLess(value, base);
      DigitsDenote(value / base, base);
      ValueSnoc(Digits(value / base, base), DigitChar(value % base), base);
      DigitRoundTrip(value % base);
    }
  }

  /** Beyond that range the text can be plainly wrong: 42949672960 prints as 0. */
  lemma CutQuotient(room: nat)
    requires room >= 1
    ensures !Uncut(42949672960, 10) && Numeral(42949672960, 10, room) == "0"
  {
    assert NextValue(42949672960, 10) == 0;
    assert Numeral(0, 10, room - 1) == "";
  }

  // Exactly when the quotients are not cut.

  /** The bases of the conversions. */
  predicate ConversionBase(base: nat) {
    base == 2 || base == 10 || base == 16
  }

  /** A cut quotient that came out negative: the sign extension of a negative int. */
  predicate Stuck(v: Word) {
    v >= TWO64 - 0x8000_0000
  }

  lemma StuckNext(v: Word, base: nat)
    requires ConversionBase(base) && Stuck(v)
    ensures Stuck(NextValue(v, base))
  {
    var high := if base == 2 then 0x7fff_ffff else if base == 10 then 0x1999_9999 else 0xfff_ffff;
    assert high * TWO32 + 0x8000_0000 <= v / base < high * TWO32 + TWO32;
    DivModUnique(v / base, TWO32, high, v / base - high * TWO32);
  }

  /** From then on no quotient is ever zero: the loop only stops when the room is full. */
  lemma {:induction false} StuckFills(v: Word, base: nat, room: nat)
    requires 2 <= base <= 36 && ConversionBase(base) && Stuck(v)
    ensures |Numeral(v, base, room)| == room
    decreases room
  {
    hide Stuck;
    if room > 0 {
      StuckNext(v, base);
      StuckFills(NextValue(v, base), base, room - 1);
      assert v > 0 by { StuckIsPositive(v); }
    }
  }

  lemma StuckIsPositive(v: Word)
    requires Stuck(v)
    ensures v > 0
  {
  }

  lemma CutNext(value: Word, base: nat)
    requires base >= 2 && !Uncut(value, base)
    ensures Stuck(NextValue(value, base)) || NextValue(value, base) < 0x8000_0000 <= value / base
  {
  }

  /** With a place to spare, the loop writes the numeral exactly when the first quotient is not cut. */
  lemma NumeralIffUncut(value: Word, base: nat, room: nat)
    requires 2 <= base <= 36 && ConversionBase(base) && |Digits(value, base)| < room
    ensures Numeral(value, base, room) == Digits(value, base) <==> Uncut(value, base)
    ensures !Uncut(value, base) ==> |Numeral(value, base, room)| == room || ValueOf(Numeral(value, base, room), base) < value
  {
    hide Numeral, Digits, Uncut, Stuck, NextValue;
    NumeralIsSuffixIfUncut(value, base, room);
    if !Uncut(value, base) {
      CutIsPositive(value, base);
      CutNext(value, base);
      NumeralStep(value, base, room);
      if Stuck(NextValue(value, base)) {
        StuckFills(NextValue(value, base), base, room - 1);
      } else {
        CutDenotesLess(value, base, room);
        DigitsDenote(value, base);
      }
    }
  }

  lemma NumeralStep(value: Word, base: nat, room: nat)
    requires 2 <= base <= 36 && value > 0 && room > 0
    ensures Numeral(value, base, room) == Numeral(NextValue(value, base), base, room - 1) + [DigitChar(value % base)]
  {
  }

  lemma CutDenotesLess(value: Word, base: nat, room: nat)
    requires 2 <= base <= 36 && room > 0 && NextValue(value, base) < 0x8000_0000 <= value / base
    ensures ValueOf(Numeral(value, base, room), base) < value
  {
    hide Numeral, ValueOf, NextValue;
    var next := NextValue(value, base);
    QuotientShrinks(value, base);
    QuotientLess(value, base);
    NumeralStep(value, base, room);
    CutQuotientDenotes(next, base, room - 1);
    var n := Numeral(next, base, room - 1);
    ValueSnoc(n, DigitChar(value % base), base);
    DigitRoundTrip(value % base);
    SmallerQuotient(ValueOf(n, base), value / base, base, value % base);
  }

  lemma CutQuotientDenotes(next: Word, base: nat, room: nat)
    requires 2 <= base <= 36 && next < 0x8000_0000
    ensures ValueOf(Numeral(next, base, room), base) <= next
  {
    hide Numeral, ValueOf;
    QuotientShrinks(next, base);
    NumeralDenotes(next, base, room);
    ModShrinks(next, Power(base, room));
  }

  lemma SmallerQuotient(d: nat, q: nat, base: nat, r: nat)
    requires d < q && base >= 1
    ensures base * d + r < base * q + r
  {
    MulMono(base, d + 1, q);
  }

  lemma NumeralIsSuffixIfUncut(value: Word, base: nat, room: nat)
    requires 2 <= base <= 36 && |Digits(value, base)| < room
    ensures Uncut(value, base) ==> Numeral(value, base, room) == Digits(value, base)
  {
    if Uncut(value, base) { NumeralIsSuffix(value, base, room); }
  }

  lemma ModShrinks(v: nat, p: nat)
    requires p >= 1
    ensures v % p <= v
  {
    assert v == p * (v / p) + v % p;
    MulMono(p, 0, v / p);
  }

  /** Padding, with spaces or zeros, does not change what the digits denote. */
  lemma {:induction false} PaddedDenotes(c: char, n: nat, text: string, base: nat)
    requires c == ' ' || c == '0'
    ensures ValueOf(Repeat(c, n) + text, base) == ValueOf(text, base)
    decreases |text|
  {
    if text == "" {
      assert Repeat(c, n) + text == Repeat(c, n);
      RepeatDenotes(c, n, base);
    } else {
      var most := text[..|text| - 1];
      PaddedDenotes(c, n, most, base);
      assert Repeat(c, n) + text == Repeat(c, n) + most + [text[|text| - 1]];
      ValueSnoc(Repeat(c, n) + most, text[|text| - 1], base);
    }
  }

  lemma {:induction false} RepeatDenotes(c: char, n: nat, base: nat)
    requires c == ' ' || c == '0'
    ensures ValueOf(Repeat(c, n), base) == 0
  {
    if n > 0 {
      RepeatDenotes(c, n - 1, base);
      assert Repeat(c, n) == Repeat(c, n - 1) + [c];
      ValueSnoc(Repeat(c, n - 1), c, base);
    }
  }

  // What a conversion should print (C11, section 7.21.6.1), and when it does.

  /** Does the argument denote a negative number? Only %d reads it as signed. */
  predicate Negative(c: char, arg: Arg)
    requires !arg.StrArg?
  {
    c == 'd' && (if arg.IntArg? then arg.bits >= 0x8000_0000 else arg.word >= 0x8000_0000_0000_0000)
  }

  /** The absolute value of the number it denotes. */
  function Magnitude(c: char, arg: Arg): Word
    requires !arg.StrArg?
  {
    match arg
    case IntArg(bits) => if Negative(c, arg) then TWO32 - bits else bits
    case LongArg(word) => if Negative(c, arg) then TWO64 - word else word
  }

  function FullNumber(value: nat, base: nat): string
    requires 2 <= base <= 36
  {
    if value > 0 then Digits(value, base) else "0"
  }

  function PadLeft(text: string, width: nat, c: char): string {
    Repeat(c, if width > |text| then width - |text| else 0) + text
  }

  /** A sign stands before the digits, and before padding zeros. */
  function SignedText(negative: bool, digits: string, width: nat, c: char): string {
    if !negative then PadLeft(digits, width, c)
    else if c == '0' then "-" + PadLeft(digits, if width > 0 then width - 1 else 0, c)
    else PadLeft("-" + digits, width, c)
  }

  /** The base a number is written in: binary, decimal or hexadecimal. */
  function RequiredBase(c: char): nat {
    match c
    case 'b' => 2
    case 'd' => 10
    case 'u' => 10
    case _ => 16
  }

  /** The field width pads the whole text; the width, when it is one of a '0' flag, goes between sign and digits. */
  function FullText(c: char, spec: Spec, arg: Arg): string
    requires Takes(c) && ArgFits(c, spec.wide, arg)
  {
    if c == 's' then PadLeft(arg.text, spec.pad, spec.padChar)
    else if c == 'c' then PadLeft([(arg.bits % 0x100) as char], spec.pad, spec.padChar)
    else if c == 'p' then PadLeft("0x" + FullNumber(arg.word, 16), spec.pad, spec.padChar)
    else SignedText(Negative(c, arg), FullNumber(Magnitude(c, arg), RequiredBase(c)), spec.pad, spec.padChar)
  }

  /** The '0' flag is defined for numbers only. */
  predicate FlagOk(c: char, spec: Spec) {
    spec.padChar == ' ' || (spec.padChar == '0' && c in "dubx")
  }

  /** What the formatter gets right: strings that need no padding (or are nothing but it), characters without a
      width, pointers whose width is used up by the digits, and numbers with a first quotient below 2^31 that are
      not negative under %d, nor ints from 2^31 on under %u. */
  predicate Handled(c: char, spec: Spec, arg: Arg)
    requires Takes(c) && ArgFits(c, spec.wide, arg)
  {
    if c == 's' then spec.pad <= |arg.text| || forall k :: 0 <= k < |arg.text| ==> arg.text[k] == spec.padChar
    else if c == 'c' then spec.pad <= 1
    else if c == 'p' then Uncut(arg.word, 16) && spec.pad <= |FullNumber(arg.word, 16)|
    else
      && Uncut(Magnitude(c, arg), BaseOf(c))
      && !Negative(c, arg)
      && !(c == 'u' && arg.IntArg? && arg.bits >= 0x8000_0000)
  }

  /** Ints are always in range for %x and %b. */
  lemma IntsAreHandled(c: char, spec: Spec, arg: Arg)
    requires ArgFits(c, spec.wide, arg) && arg.IntArg? && (c == 'x' || c == 'b')
    ensures Handled(c, spec, arg)
  {
  }

  /** How a number that would fit compares with what it should be: the same, or else a different text that fills
      the room or is no longer than it should be. */
  predicate Compares(text: string, full: string, room: nat, same: bool) {
    if same then text == full else text != full && (|text| == room || |text| <= |full|)
  }

  // Lengths of numerals.

  lemma {:induction false} DigitsGrow(a: nat, b: nat, base: nat)
    requires 2 <= base <= 36 && a <= b
    ensures |Digits(a, base)| <= |Digits(b, base)|
    decreases b
  {
    hide Digits;
    DigitsStep(a, base);
    DigitsStep(b, base);
    if a > 0 {
      QuotientLess(b, base);
      QuotientsGrow(a, b, base);
      DigitsGrow(a / base, b / base, base);
    }
  }

  lemma DigitsStep(value: nat, base: nat)
    requires 2 <= base <= 36
    ensures |Digits(value, base)| == if value == 0 then 0 else |Digits(value / base, base)| + 1
  {
    hide DigitChar;
  }

  lemma QuotientsGrow(a: nat, b: nat, base: nat)
    requires base >= 1 && a <= b
    ensures a / base <= b / base
  {
    var p, q := a / base, b / base;
    assert a == base * p + a % base && b == base * q + b % base;
    if q < p { MulMono(base, q + 1, p); }
  }

  /** Short of filling the room, the loop writes no more digits than there should be. */
  lemma NumeralLength(value: Word, base: nat, room: nat)
    requires 2 <= base <= 36 && ConversionBase(base)
    ensures |Numeral(value, base, room)| == room || |Numeral(value, base, room)| <= |Digits(value, base)|
  {
    hide Stuck, NextValue, Uncut;
    if Uncut(value, base) {
      NumeralIsSuffix(value, base, room);
    } else if room > 0 {
      CutIsPositive(value, base);
      CutNext(value, base);
      NumeralStep(value, base, room);
      var next := NextValue(value, base);
      if Stuck(next) {
        StuckFills(next, base, room - 1);
      } else {
        SmallIsUncut(next, base);
        NumeralIsSuffix(next, base, room - 1);
        DigitsGrow(next, value / base, base);
      }
    }
  }

  lemma SmallIsUncut(v: Word, base: nat)
    requires base >= 2 && v < 0x8000_0000
    ensures Uncut(v, base)
  {
    QuotientShrinks(v, base);
  }

  lemma CutIsPositive(v: Word, base: nat)
    requires base >= 2 && !Uncut(v, base)
    ensures v > 0
  {
  }

  // The kinds of conversion.

  /** A number that `append_num` is given without a sign. */
  lemma UnsignedCompares(size: nat, v: Word, base: nat, sgn: bool, pad: nat, padChar: char)
    requires 2 <= base <= 36 && ConversionBase(base) && (padChar == ' ' || padChar == '0') && !IsNegative(v, sgn)
    requires |PadLeft(FullNumber(v, base), pad, padChar)| < size
    ensures Compares(NumText(size, v, base, sgn, pad, padChar), PadLeft(FullNumber(v, base), pad, padChar), size, Uncut(v, base))
  {
    hide Numeral, ValueOf, Digits, Repeat, Uncut;
    DigitsWithin(v, base);
    NumeralIsSuffixIfUncut(v, base, size);
    if !Uncut(v, base) {
      CutIsPositive(v, base);
      var n, d := Numeral(v, base, size), Digits(v, base);
      NumeralIffUncut(v, base, size);
      NumeralLength(v, base, size);
      DigitsDenote(v, base);
      PaddedDenotes(padChar, if pad > |d| then pad - |d| else 0, d, base);
      PaddedDenotes(padChar, if pad > |n| then pad - |n| else 0, n, base);
    } else if v > 0 {
      assert FullNumber(v, base) == Digits(v, base);
    }
  }

  /** A width beyond the room is cut: the text leaves exactly one character free, unless its digits need that too. */
  lemma ClampedWidth(size: nat, value: Word, base: nat, sgn: bool, pad: nat, c: char)
    requires 2 <= base <= 36 && 0 < size <= pad
    ensures var n := |Unpadded(size, value, base, sgn)|; |NumText(size, value, base, sgn, pad, c)| == if n == size then size else size - 1
  {
    hide Unpadded;
  }

  lemma DigitsWithin(v: nat, base: nat)
    requires 2 <= base <= 36
    ensures |Digits(v, base)| <= |FullNumber(v, base)|
  {
  }

  /** A negative number: the sign `append_num` writes is the last character. */
  lemma NegativeCompares(size: nat, m: Word, pad: nat, padChar: char)
    requires 0 < m <= 0x8000_0000_0000_0000
    requires |SignedText(true, Digits(m, 10), pad, padChar)| < size
    ensures Compares(NumText(size, TWO64 - m, 10, true, pad, padChar), SignedText(true, Digits(m, 10), pad, padChar), size, false)
  {
    hide Numeral, Repeat;
    NumeralLength(m, 10, size - 1);
    var text, full := NumText(size, TWO64 - m, 10, true, pad, padChar), SignedText(true, Digits(m, 10), pad, padChar);
    assert text[|text| - 1] == '-';
    DigitIsNoSign(m % 10);
    assert full[|full| - 1] == DigitChar(m % 10);
  }

  /** A sign-extended int under %u: the digits run on until the room is full. */
  lemma ExtendedFills(room: nat, bits: Word32, pad: nat, padChar: char)
    requires bits >= 0x8000_0000
    ensures |NumText(room, NumberOf('u', IntArg(bits)), 10, false, pad, padChar)| == room
  {
    StuckFills(NumberOf('u', IntArg(bits)), 10, room);
  }

  lemma PointerPrefix(room: nat)
    requires room >= 2
    ensures StrText(room, "0x", 0, ' ') == "0x"
  {
  }

  /** What `append_num` gets and what the argument denotes. */
  lemma NumberDenoted(c: char, spec: Spec, arg: Arg)
    requires Takes(c) && c != 's' && c != 'c' && ArgFits(c, spec.wide, arg)
    ensures Negative(c, arg) ==> c == 'd' && 0 < Magnitude(c, arg) <= 0x8000_0000_0000_0000 && NumberOf(c, arg) == TWO64 - Magnitude(c, arg)
    ensures !Negative(c, arg) && !(c == 'u' && arg.IntArg? && arg.bits >= 0x8000_0000) ==>
      NumberOf(c, arg) == Magnitude(c, arg) && !IsNegative(NumberOf(c, arg), c == 'd')
    ensures c == 'p' ==> Magnitude(c, arg) == arg.word && !Negative(c, arg)
  {
  }

  lemma NumberCompares(c: char, spec: Spec, arg: Arg, room: nat)
    requires c in "dubx" && ArgFits(c, spec.wide, arg) && |FullText(c, spec, arg)| < room
    requires spec.padChar == ' ' || spec.padChar == '0'
    ensures Compares(Render(c, spec, arg, room), FullText(c, spec, arg), room, Handled(c, spec, arg))
  {
    hide NumText, PadLeft, StrText, NumberOf, Uncut, Magnitude, Digits, Negative;
    NumberDenoted(c, spec, arg);
    if Negative(c, arg) {
      NegativeCompares(room, Magnitude(c, arg), spec.pad, spec.padChar);
    } else if c == 'u' && arg.IntArg? && arg.bits >= 0x8000_0000 {
      ExtendedFills(room, arg.bits, spec.pad, spec.padChar);
    } else {
      UnsignedCompares(room, Magnitude(c, arg), BaseOf(c), c == 'd', spec.pad, spec.padChar);
    }
  }

  /** A handled conversion that fits with a character to spare prints what it should. */
  lemma HandledFits(c: char, spec: Spec, arg: Arg, room: nat)
    requires Takes(c) && ArgFits(c, spec.wide, arg) && FlagOk(c, spec) && |FullText(c, spec, arg)| < room && Handled(c, spec, arg)
    ensures Render(c, spec, arg, room) == FullText(c, spec, arg)
  {
    if c == 's' {
      var n := if spec.pad > |arg.text| then spec.pad - |arg.text| else 0;
      assert arg.text + Repeat(spec.padChar, n) == Repeat(spec.padChar, n) + arg.text;
    } else if c == 'c' {
      assert PadLeft([CharOf(arg.bits)], spec.pad, spec.padChar) == [CharOf(arg.bits)];
    } else if c == 'p' {
      PointerFits(spec, arg, room);
    } else {
      NumberCompares(c, spec, arg, room);
    }
  }

  lemma PointerFits(spec: Spec, arg: Arg, room: nat)
    requires arg.LongArg? && |FullText('p', spec, arg)| < room && Handled('p', spec, arg) && spec.padChar == ' '
    ensures Render('p', spec, arg, room) == FullText('p', spec, arg)
  {
    hide NumText, StrText, Uncut, Digits, FullNumber;
    var digits := FullNumber(arg.word, 16);
    assert PadLeft(digits, spec.pad, ' ') == digits && PadLeft("0x" + digits, spec.pad, ' ') == "0x" + digits;
    PointerPrefix(room);
    UnsignedCompares(room - 2, arg.word, 16, false, spec.pad, ' ');
  }

  lemma DigitIsNoSign(d: nat)
    requires d < 36
    ensures DigitChar(d) != '-'
  {
  }

  // What stands between '%' and the conversion character.

  /** Characters of a width: digits, the first of them not 0. */
  predicate IsWidth(width: string) {
    (forall k :: 0 <= k < |width| ==> '0' <= width[k] <= '9') && (width != "" ==> width[0] != '0')
  }

  predicate IsLength(letters: string) {
    forall k :: 0 <= k < |letters| ==> letters[k] == 'l'
  }

  /** A flag run is an optional '0' (up to j), a width (up to k) and a number of l's (up to at). It asks for the width
      its digits denote, for padding with zeros exactly when the '0' is there, and for a long exactly when there is
      an l. */
  lemma FlagRun(fmt: string, i: nat, j: nat, k: nat, at: nat)
    requires i <= j <= k <= at <= |fmt| && (at < |fmt| ==> !IsFlag(fmt[at]))
    requires (fmt[i..j] == "" || fmt[i..j] == "0") && IsWidth(fmt[j..k]) && IsLength(fmt[k..at])
    ensures SpecAt(fmt, i) == Spec(at, ValueOf(fmt[j..k], 10), if i < j then '0' else ' ', k < at)
  {
    var c := if i < j then '0' else ' ';
    ZeroRun(fmt, i, j);
    EmptyWidth(fmt[j..j]);
    WidthRun(fmt, j, k, j, c);
    assert forall n :: k <= n < at ==> fmt[n] == fmt[k..at][n - k];
    LengthRun(fmt, k, at - k, ValueOf(fmt[j..k], 10), c, false);
  }

  lemma ZeroRun(fmt: string, i: nat, j: nat)
    requires i <= j <= |fmt| && (fmt[i..j] == "" || fmt[i..j] == "0")
    ensures SpecAt(fmt, i) == ReadSpec(fmt, j, 0, if i < j then '0' else ' ', false)
  {
    if i < j { assert fmt[i] == fmt[i..j][0]; }
  }

  lemma {:induction false} WidthRun(fmt: string, j: nat, k: nat, n: nat, c: char)
    requires j <= n <= k <= |fmt| && IsWidth(fmt[j..k])
    ensures ReadSpec(fmt, n, ValueOf(fmt[j..n], 10), c, false) == ReadSpec(fmt, k, ValueOf(fmt[j..k], 10), c, false)
    decreases k - n
  {
    hide ValueOf;
    if n < k {
      var width := fmt[j..k];
      assert fmt[j..n + 1] == fmt[j..n] + [fmt[n]] && fmt[n] == width[n - j];
      ValueSnoc(fmt[j..n], fmt[n], 10);
      if n > j {
        PositiveWidth(width, n - j);
        assert width[..n - j] == fmt[j..n];
      } else {
        EmptyWidth(fmt[j..n]);
      }
      WidthRun(fmt, j, k, n + 1, c);
    }
  }

  lemma EmptyWidth(s: string)
    requires s == ""
    ensures ValueOf(s, 10) == 0
  {
  }

  lemma {:induction false} PositiveWidth(width: string, k: nat)
    requires IsWidth(width) && 0 < k <= |width|
    ensures ValueOf(width[..k], 10) > 0
  {
    assert width[..k] == width[..k - 1] + [width[k - 1]];
    ValueSnoc(width[..k - 1], width[k - 1], 10);
    if k > 1 { PositiveWidth(width, k - 1); }
  }

  lemma {:induction false} LengthRun(fmt: string, j: nat, n: nat, pad: nat, c: char, wide: bool)
    requires j + n <= |fmt| && (forall k :: j <= k < j + n ==> fmt[k] == 'l') && (j + n < |fmt| ==> !IsFlag(fmt[j + n]))
    ensures ReadSpec(fmt, j, pad, c, wide) == Spec(j + n, pad, c, wide || n > 0)
    decreases n
  {
    if n > 0 { LengthRun(fmt, j + 1, n - 1, pad, c, true); }
  }
}
