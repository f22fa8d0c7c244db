/** The integer side of the scanning engine, and the law that scanning undoes printing. */
module Scanning {
  import opened Basics
  import opened Numerals
  import opened Convert
  import opened Readers
  import opened OutputBuffer
  import opened Printing

  datatype Conversion = SignedDecimal | UnsignedDecimal | InRadix(radix: Radix)
  datatype Modifier = NoModifier | ShortShort | Short | Long | LongLong | IntMax | Size | PtrDiff | LongDouble

  predicate IsSpace(c: char) {
    c == ' ' || '\t' <= c <= '\r'
  }

  function SkipSpaces(s: string): (n: nat)
    ensures n <= |s| && (n < |s| ==> !IsSpace(s[n]))
    ensures forall i | 0 <= i < n :: IsSpace(s[i])
  {
    if s == [] || !IsSpace(s[0]) then 0 else 1 + SkipSpaces(s[1..])
  }

  /** Setting the bit that tells the cases of a letter apart. */
  function Lower(c: char): char {
    if c as int < 256 && (c as int / 32) % 2 == 0 then (c as int + 32) as char else c
  }

  function Base(radix: Radix): (b: nat)
    ensures IsBase(b)
  {
    match radix
    case Binary => 2
    case Octal => 8
    case Hex => 16
  }

  /** Characters of the radix prefix; a lone zero counts as one only in octal. */
  function PrefixLength(radix: Radix, s: string): (k: nat)
    ensures k <= |s|
  {
    if At(s, 0) != '0' then 0
    else
      match radix
      case Binary => if Lower(At(s, 1)) == 'b' then 2 else 0
      case Octal => if Lower(At(s, 1)) == 'o' then 2 else 1
      case Hex => if Lower(At(s, 1)) == 'x' then 2 else 0
  }

  /** Reads one number at the start of `s`: characters passed over and the value. */
  function ScanNumber(conv: Conversion, s: string, group: bool): (nat, int) {
    match conv
    case SignedDecimal => ReadInteger(s, group)
    case UnsignedDecimal => ReadDecimal(s, group)
    case InRadix(radix) =>
      var k := PrefixLength(radix, s);
      var (n, v) := ReadUnsigned(s[k..], Base(radix));
      (k + n, v)
  }

  /** Skips white space, then reads a number within the field width. */
  function ScanField(conv: Conversion, s: string, width: nat, group: bool): (nat, int) {
    var k := SkipSpaces(s);
    var rest := s[k..];
    var (n, v) := ScanNumber(conv, if 0 < width < |rest| then rest[..width] else rest, group);
    (k + n, v)
  }

  // ----- Sizes of the arguments -----

  function Modulus(m: Modifier): (n: nat)
    ensures 0 < n <= TWO64
  {
    match m
    case ShortShort => 0x100
    case Short => 0x1_0000
    case NoModifier | LongDouble => TWO32
    case _ => TWO64
  }

  function AsUnsigned(raw: nat, m: Modifier): nat {
    raw % Modulus(m)
  }

  function AsSigned(raw: nat, m: Modifier): int {
    var u := raw % Modulus(m);
    if u < Modulus(m) / 2 then u else u - Modulus(m)
  }

  /** What an argument of a conversion denotes. */
  function Denoted(conv: Conversion, raw: nat, m: Modifier): int {
    if conv == SignedDecimal then AsSigned(raw, m) else AsUnsigned(raw, m)
  }

  /** What the scanner stores for a value it read. */
  function Stored(conv: Conversion, value: int, m: Modifier): int {
    Denoted(conv, Wrap64(value), m)
  }

  /** Binary conversions have scratch for 32 digits only. */
  predicate Printable(conv: Conversion, raw: nat, m: Modifier) {
    conv == InRadix(Binary) ==> AsUnsigned(raw, m) < TWO32
  }

  /** The text of one integer conversion. */
  function Printed(conv: Conversion, c: Config, raw: nat, m: Modifier): string {
    match conv
    case SignedDecimal => FormatDecimal(c, IntText(AsSigned(raw, m), c.plus || c.space, c.group))
    case UnsignedDecimal => FormatDecimal(c, DecimalText(AsUnsigned(raw, m), c.group))
    case InRadix(radix) =>
      FormatRadix(c, radix, Numeral(AsUnsigned(raw, m), Base(radix), c.upper && radix.Hex?))
  }

  // ----- Scanning undoes printing -----

  lemma {:induction false} SkipsBlanks(n: nat, rest: string)
    requires rest == [] || !IsSpace(rest[0])
    ensures SkipSpaces(Spaces(n) + rest) == n && (Spaces(n) + rest)[n..] == rest
  {
    if n == 0 {
      assert Spaces(n) + rest == rest;
    } else {
      assert (Spaces(n) + rest)[1..] == Spaces(n - 1) + rest;
      SkipsBlanks(n - 1, rest);
    }
  }

  /** Padding does not hide the number it surrounds. */
  lemma FieldSkipsPadding(conv: Conversion, n: nat, body: string, tail: string, group: bool)
    requires body != [] && !IsSpace(body[0])
    ensures ScanField(conv, Spaces(n) + body + tail, 0, group) == (n + ScanNumber(conv, body + tail, group).0,
                                                                    ScanNumber(conv, body + tail, group).1)
  {
    hide ScanNumber;
    assert Spaces(n) + body + tail == Spaces(n) + (body + tail);
    SkipsBlanks(n, body + tail);
  }

  lemma BlanksEndNumber(n: nat)
    ensures EndsNumber(Spaces(n))
    ensures n > 0 ==> Spaces(n)[0] == ' ' && Nibble(' ') == 255
  {
  }

  /** A space for a sign is one more blank. */
  lemma LaidSplits(p: Padding, sign: string, digits: string)
    ensures var blanks, mark := if sign == " " then p.before + 1 else p.before, if sign == " " then "" else sign;
            Laid(p, sign, digits) == Spaces(blanks) + (mark + Zeros(p.zeros) + digits) + Spaces(p.after)
  {
    assert Spaces(p.before) + " " == Spaces(p.before + 1);
  }

  /** A laid-out decimal number reads back. */
  lemma DecimalFieldReadsBack(conv: Conversion, p: Padding, sign: string, m: nat)
    requires conv == SignedDecimal || (conv == UnsignedDecimal && sign == "" && m < TWO64)
    requires sign == "" || sign == "+" || sign == "-" || sign == " "
    ensures ScanField(conv, Laid(p, sign, DecimalText(m, false)), 0, false).1 == Signed(sign, m)
  {
    hide DecimalText;
    hide ReadInteger;
    hide ReadDecimal;
    hide Value;
    hide SkipSpaces;
    var digits, tail := DecimalText(m, false), Spaces(p.after);
    DecimalStartsWithDigit(m, false);
    BlanksEndNumber(p.after);
    var blanks, mark := if sign == " " then p.before + 1 else p.before, if sign == " " then "" else sign;
    var body := mark + Zeros(p.zeros) + digits;
    assert !IsSpace(body[0]);
    LaidSplits(p, sign, digits);
    hide Laid;
    FieldSkipsPadding(conv, blanks, body, tail, false);
    if conv == SignedDecimal {
      SignedReadsBack(mark, m, false, p.zeros, false, tail);
    } else {
      assert mark + Zeros(p.zeros) == Zeros(p.zeros);
      DecimalReadsBack(m, false, p.zeros, tail);
    }
  }

  /** Digits of a radix are never taken for the letter of its prefix. */
  lemma DigitIsNoMarker(radix: Radix, c: char)
    requires IsDigit(c, Base(radix)) || c == ' ' || c == '\0'
    ensures Lower(c) != (match radix case Binary => 'b' case Octal => 'o' case Hex => 'x')
  {
  }

  /** A digit string reads back, also when octal takes its first zero for a prefix. */
  lemma DigitsReadBack(radix: Radix, whole: string, tail: string)
    requires whole != [] && AllDigits(whole, Base(radix)) && (tail == [] || tail[0] == ' ')
    ensures ScanNumber(InRadix(radix), whole + tail, false).1 == Wrap64(Value(whole, Base(radix)))
  {
    hide Value;
    hide Lower;
    hide ReadUnsigned;
    hide Wrap64;
    var base, line := Base(radix), whole + tail;
    assert line[0] == whole[0] && (|whole| > 1 ==> line[1] == whole[1]);
    DigitIsNoMarker(radix, At(line, 1));
    var k := PrefixLength(radix, line);
    if k == 0 {
      assert line[k..] == line;
      RunReadsBack(base, whole, tail);
    } else {
      assert k == 1 && whole[0] == '0';
      assert line[k..] == whole[1..] + tail;
      RunReadsBack(base, whole[1..], tail);
      LeadingZeros(1, whole[1..], base);
      assert Zeros(1) + whole[1..] == whole;
    }
  }

  lemma RunReadsBack(base: nat, digits: string, tail: string)
    requires IsBase(base) && AllDigits(digits, base) && (tail == [] || tail[0] == ' ')
    ensures ReadUnsigned(digits + tail, base).1 == Wrap64(Value(digits, base))
  {
    hide Value;
    hide DigitRun;
    hide Wrap64;
    DigitRunOf(digits, tail, base);
    assert (digits + tail)[..|digits|] == digits;
  }

  /** The two-character prefix is passed over. */
  lemma PrefixPassed(radix: Radix, c: Config, s: string)
    requires c.alternate
    ensures PrefixLength(radix, PrefixOf(c, radix) + s) == 2 && (PrefixOf(c, radix) + s)[2..] == s
  {
    var line := PrefixOf(c, radix) + s;
    assert At(line, 0) == '0' && At(line, 1) == PrefixOf(c, radix)[1];
  }

  /** Zeros and digits read back, with or without a prefix in front. */
  lemma RadixReadsBack(radix: Radix, c: Config, x: nat, upper: bool, zeros: nat, tail: string)
    requires x < TWO64 && (tail == [] || tail[0] == ' ')
    ensures ScanNumber(InRadix(radix), PrefixOf(c, radix) + (Zeros(zeros) + Numeral(x, Base(radix), upper) + tail), false).1 == x
  {
    hide Value;
    hide PrefixLength;
    hide Numeral;
    hide DigitRun;
    var base := Base(radix);
    var whole := Zeros(zeros) + Numeral(x, base, upper);
    ValueOfNumeral(x, base, upper);
    LeadingZeros(zeros, Numeral(x, base, upper), base);
    if c.alternate {
      PrefixPassed(radix, c, whole + tail);
      UnsignedReadsBack(x, base, upper, zeros, tail);
    } else {
      assert PrefixOf(c, radix) + (whole + tail) == whole + tail;
      DigitsReadBack(radix, whole, tail);
    }
  }

  /** A laid-out binary, octal or hexadecimal number reads back. */
  lemma RadixFieldReadsBack(radix: Radix, c: Config, p: Padding, x: nat, upper: bool, group: bool)
    requires x < TWO64
    ensures ScanField(InRadix(radix), Laid(p, PrefixOf(c, radix), Numeral(x, Base(radix), upper)), 0, group).1 == x
  {
    hide ScanNumber;
    hide ScanField;
    hide Numeral;
    hide Value;
    hide PrefixOf;
    var base, prefix, tail := Base(radix), PrefixOf(c, radix), Spaces(p.after);
    var whole := Zeros(p.zeros) + Numeral(x, base, upper);
    ValueOfNumeral(x, base, upper);
    LeadingZeros(p.zeros, Numeral(x, base, upper), base);
    BlanksEndNumber(p.after);
    StartsTight(radix, c, whole);
    assert Laid(p, prefix, Numeral(x, base, upper)) == Spaces(p.before) + (prefix + whole) + tail;
    FieldSkipsPadding(InRadix(radix), p.before, prefix + whole, tail, group);
    RadixIgnoresGrouping(radix, (prefix + whole) + tail, group);
    assert (prefix + whole) + tail == prefix + (whole + tail);
    RadixReadsBack(radix, c, x, upper, p.zeros, tail);
  }

  lemma RadixIgnoresGrouping(radix: Radix, s: string, group: bool)
    ensures ScanNumber(InRadix(radix), s, group) == ScanNumber(InRadix(radix), s, false)
  {
  }

  lemma StartsTight(radix: Radix, c: Config, whole: string)
    requires whole != [] && AllDigits(whole, Base(radix))
    ensures var body := PrefixOf(c, radix) + whole;
            body != [] && !IsSpace(body[0])
  {
    assert IsDigit(whole[0], Base(radix));
  }

  // ----- The law -----

  lemma SignedRange(raw: nat, m: Modifier)
    ensures INT64_MIN <= AsSigned(raw, m) <= INT64_MAX
    ensures Stored(SignedDecimal, AsSigned(raw, m), m) == AsSigned(raw, m)
  {
    Wraps(raw % Modulus(m), Modulus(m));
  }

  /** Taking 64 bits of a number that was made negative and then fewer bits gives the number back. */
  lemma Wraps(u: nat, n: nat)
    requires n == 0x100 || n == 0x1_0000 || n == TWO32 || n == TWO64
    requires u < n
    ensures (u % TWO64) % n == u && ((u - n) % TWO64) % n == u
  {
    assert (u - n) % TWO64 == u - n + TWO64;
    if n == 0x100 {
      assert u - n + TWO64 == u + 0xFF_FFFF_FFFF_FFFF * 0x100;
    } else if n == 0x1_0000 {
      assert u - n + TWO64 == u + 0xFFFF_FFFF_FFFF * 0x1_0000;
    } else if n == TWO32 {
      assert u - n + TWO64 == u + 0xFFFF_FFFF * TWO32;
    }
  }

  lemma UnsignedRange(raw: nat, m: Modifier)
    ensures AsUnsigned(raw, m) < TWO64
    ensures forall conv :: conv != SignedDecimal ==> Stored(conv, AsUnsigned(raw, m), m) == AsUnsigned(raw, m)
  {
  }

  /** The sign and digits a signed conversion lays out. */
  lemma SignedLaid(c: Config, x: int)
    requires INT64_MIN <= x <= INT64_MAX
    ensures var sign := if x < 0 then "-" else if c.space then " " else if c.plus then "+" else "";
            var m: nat := if x < 0 then -x else x;
            var text := IntText(x, c.plus || c.space, c.group);
            SignOf(c, text) == sign && DigitsOf(text) == DecimalText(m, c.group && x != INT64_MIN)
  {
    hide DecimalText;
    var (sign, m, g) := Parts(x, c.plus || c.space, c.group);
    IntTextParts(x, c.plus || c.space, c.group);
    DecimalStartsWithDigit(m, g);
    var text := IntText(x, c.plus || c.space, c.group);
    if sign == "" {
      assert text == DecimalText(m, g);
    } else {
      assert text[0] == sign[0] && text[1..] == DecimalText(m, g);
    }
  }

  /**
   * Without grouping, scanning undoes printing: for every argument, size modifier, width, precision and
   * flag setting, the text of a conversion scanned by the same conversion stores the argument again.
   */
  lemma PlainUndone(conv: Conversion, c: Config, raw: nat, m: Modifier)
    requires !c.group && Printable(conv, raw, m)
    ensures Stored(conv, ScanField(conv, Printed(conv, c, raw, m), 0, false).1, m) == Denoted(conv, raw, m)
  {
    hide ScanField;
    hide Laid;
    hide PaddingFor;
    hide DecimalText;
    match conv
    case SignedDecimal =>
      var x := AsSigned(raw, m);
      SignedRange(raw, m);
      SignedLaid(c, x);
      var text := IntText(x, c.plus || c.space, false);
      var sign, digits := SignOf(c, text), DigitsOf(text);
      DecimalFieldReadsBack(conv, PaddingFor(c, |sign|, |digits|, 0), sign, if x < 0 then -x else x);
    case UnsignedDecimal =>
      var x := AsUnsigned(raw, m);
      UnsignedRange(raw, m);
      DecimalStartsWithDigit(x, false);
      var text := DecimalText(x, false);
      assert SignOf(c, text) == "" && DigitsOf(text) == text;
      DecimalFieldReadsBack(conv, PaddingFor(c, 0, |text|, 0), "", x);
    case InRadix(radix) =>
      var x, upper := AsUnsigned(raw, m), c.upper && radix.Hex?;
      UnsignedRange(raw, m);
      var digits, prefix := Numeral(x, Base(radix), upper), PrefixOf(c, radix);
      RadixFieldReadsBack(radix, c, PaddingFor(c, |prefix|, |digits|, 0), x, upper, false);
  }
}
