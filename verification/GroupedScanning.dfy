/** Scanning what was printed with grouped digits: when the number comes back. */
module GroupedScanning {
  import opened Basics
  import opened Numerals
  import opened Convert
  import opened Readers
  import opened OutputBuffer
  import opened Printing
  import opened Scanning

  // ----- Zeros before a grouped numeral -----

  /** The first group of a numeral that has more is worth less than the whole. */
  lemma HeadIsLess(x: nat)
    requires |Numeral(x, 10, false)| > 3
    ensures var digits := Numeral(x, 10, false);
            AllDigits(digits[..HeadDigits(|digits|)], 10) && Value(digits[..HeadDigits(|digits|)], 10) < x
  {
    hide Value;
    hide Power;
    var digits := Numeral(x, 10, false);
    var h := HeadDigits(|digits|);
    ValueOfNumeral(x, 10, false);
    NumeralBound(x, 10, false);
    ValueBound(digits[..h], 10);
    if x == 0 {
      NumeralOfNothing();
    }
    PowerGrows(10, h, |digits| - 1);
  }

  lemma NumeralOfNothing()
    ensures |Numeral(0, 10, false)| == 1
  {
  }

  lemma ZerosDecimal(n: nat)
    ensures |Zeros(n)| == n && AllDecimal(Zeros(n))
  {
  }

  /** The value read after zeros: the number exactly when the reader gets past, else a smaller one. */
  lemma ZerosValue(zeros: nat, x: nat, tail: string) returns (v: nat)
    requires EndsNumber(tail)
    ensures v == Value(DecimalRun(Groups(0, false, true), Zeros(zeros) + DecimalText(x, true) + tail).0, 10)
    ensures v <= x && (v == x <==> Passes(zeros, |Numeral(x, 10, false)|))
  {
    hide DecimalRun;
    hide Value;
    var digits := Numeral(x, 10, false);
    ValueOfNumeral(x, 10, false);
    DecimalDigitsAre(digits);
    ZerosDecimal(zeros);
    ZerosRun(Zeros(zeros), digits, tail);
    LeadingZeros(zeros, digits, 10);
    if |digits| > 3 {
      HeadIsLess(x);
      LeadingZeros(zeros, digits[..HeadDigits(|digits|)], 10);
    }
    v := Value(DecimalRun(Groups(0, false, true), Zeros(zeros) + DecimalText(x, true) + tail).0, 10);
  }

  // ----- Fields -----

  /** What the grouping scanner reads from a laid-out grouped number. */
  lemma GroupedField(conv: Conversion, p: Padding, sign: string, x: nat) returns (v: nat)
    requires conv == SignedDecimal || (conv == UnsignedDecimal && sign == "" && x < TWO64)
    requires sign == "" || sign == "+" || sign == "-" || sign == " "
    ensures ScanField(conv, Laid(p, sign, DecimalText(x, true)), 0, true).1 == Signed(sign, v)
    ensures v <= x && (v == x <==> Passes(p.zeros, |Numeral(x, 10, false)|))
  {
    hide *;
    var digits, tail := DecimalText(x, true), Spaces(p.after);
    DecimalStartsWithDigit(x, true);
    BlanksEndNumber(p.after);
    var blanks, mark := if sign == " " then p.before + 1 else p.before, if sign == " " then "" else sign;
    var number := Zeros(p.zeros) + digits;
    var body := mark + Zeros(p.zeros) + digits;
    ZerosStart(p.zeros, digits);
    MarkIsTight(mark, number);
    assert body == mark + number;
    LaidSplits(p, sign, digits);
    FieldSkipsPadding(conv, blanks, body, tail, true);
    v := ZerosValue(p.zeros, x, tail);
    assert body + tail == mark + (number + tail);
    MarkedRead(conv, mark, number + tail, v);
    SpaceIsNoSign(v);
  }

  lemma SpaceIsNoSign(v: nat)
    ensures Signed(" ", v) == Signed("", v)
  {
  }

  lemma ZerosStart(n: nat, digits: string)
    requires digits != [] && IsDecimal(digits[0])
    ensures IsDecimal((Zeros(n) + digits)[0])
  {
  }

  lemma MarkIsTight(mark: string, number: string)
    requires mark == "" || mark == "+" || mark == "-"
    requires number != [] && IsDecimal(number[0])
    ensures !IsSpace((mark + number)[0])
  {
  }

  /** A sign and the text after it: the value of the digits the grouping reader takes, signed. */
  lemma MarkedRead(conv: Conversion, mark: string, s: string, v: nat)
    requires s != [] && IsDecimal(s[0]) && v == Value(DecimalRun(Groups(0, false, true), s).0, 10)
    requires conv == SignedDecimal || (conv == UnsignedDecimal && mark == "" && v < TWO64)
    requires mark == "" || mark == "+" || mark == "-"
    ensures ScanNumber(conv, mark + s, true).1 == Signed(mark, v)
  {
    hide DecimalRun;
    hide Value;
    if conv == SignedDecimal {
      SignThenRun(mark, s, true);
    } else {
      assert mark + s == s && s[0..] == s;
    }
  }

  // ----- The law -----

  /** Scanning the text of a conversion under the grouping it was printed with stores the argument again. */
  predicate Undone(conv: Conversion, c: Config, raw: nat, m: Modifier) {
    Stored(conv, ScanField(conv, Printed(conv, c, raw, m), 0, c.group).1, m) == Denoted(conv, raw, m)
  }

  /** Zeros that padding puts before the digits of a decimal conversion. */
  function ZerosBefore(c: Config, text: string): nat {
    var sign, digits := SignOf(c, text), DigitsOf(text);
    PaddingFor(c, |sign|, |digits|, Period(c, |digits|)).zeros
  }

  /** The number that is printed comes back: with grouping, the zeros before it do not stop the reader. */
  predicate ComesBack(conv: Conversion, c: Config, raw: nat, m: Modifier) {
    c.group ==>
      match conv
      case SignedDecimal =>
        var x := AsSigned(raw, m);
        var n: nat := if x < 0 then -x else x;
        INT64_MIN <= x <= INT64_MAX && (x == INT64_MIN
          || Passes(ZerosBefore(c, IntText(x, c.plus || c.space, true)), |Numeral(n, 10, false)|))
      case UnsignedDecimal =>
        var x := AsUnsigned(raw, m);
        Passes(ZerosBefore(c, DecimalText(x, true)), |Numeral(x, 10, false)|)
      case InRadix(_) => true
  }

  /** A number within the range of a modifier is stored as it is. */
  lemma StoredSigned(v: int, m: Modifier)
    requires -(Modulus(m) / 2) <= v < Modulus(m) / 2
    ensures Stored(SignedDecimal, v, m) == v
  {
    var n := Modulus(m);
    ModulusIs(m);
    hide Modulus;
    hide Wrap64;
    var u: nat := if v >= 0 then v else v + n;
    Wraps(u, n);
    WrapIs(v, n, u);
  }

  lemma ModulusIs(m: Modifier)
    ensures var n := Modulus(m); n == 0x100 || n == 0x1_0000 || n == TWO32 || n == TWO64
  {
  }

  lemma WrapIs(v: int, n: nat, u: nat)
    requires n > 0 && (v == u || v == u - n)
    requires (u % TWO64) % n == u && ((u - n) % TWO64) % n == u
    ensures Wrap64(v) % n == u
  {
  }

  lemma SignedBounds(raw: nat, m: Modifier)
    ensures -(Modulus(m) / 2) <= AsSigned(raw, m) < Modulus(m) / 2
  {
  }

  lemma SignedGrouped(c: Config, raw: nat, m: Modifier)
    requires c.group
    ensures Undone(SignedDecimal, c, raw, m) <==> ComesBack(SignedDecimal, c, raw, m)
  {
    hide *;
    var x := AsSigned(raw, m);
    var n: nat := if x < 0 then -x else x;
    SignedRange(raw, m);
    SignedBounds(raw, m);
    var sign, p := PrintedSigned(c, raw, m);
    SignedMeans(c, raw, m);
    SignedComesBack(c, raw, m);
    if x == INT64_MIN {
      PlainField(p, sign, n);
      SignedIs(sign, n);
    } else {
      var v := GroupedField(SignedDecimal, p, sign, n);
      SignedIs(sign, n);
      SignedIs(sign, v);
      StoredSigned(Signed(sign, v), m);
    }
  }

  lemma SignedIs(sign: string, v: nat)
    ensures Signed(sign, v) == if sign == "-" then -(v as int) else v
  {
  }

  /** A signed conversion laid out. */
  lemma PrintedSigned(c: Config, raw: nat, m: Modifier) returns (sign: string, p: Padding)
    requires c.group
    ensures var x := AsSigned(raw, m);
            var n: nat := if x < 0 then -x else x;
            && (sign == "-" <==> x < 0) && (sign == "" || sign == "+" || sign == "-" || sign == " ")
            && INT64_MIN <= x <= INT64_MAX && p.zeros == ZerosBefore(c, IntText(x, c.plus || c.space, true))
            && Printed(SignedDecimal, c, raw, m) == Laid(p, sign, DecimalText(n, x != INT64_MIN))
  {
    hide Laid;
    hide PaddingFor;
    hide DecimalText;
    hide IntText;
    var x := AsSigned(raw, m);
    SignedRange(raw, m);
    SignedLaid(c, x);
    var text := IntText(x, c.plus || c.space, true);
    hide AsSigned;
    sign := SignOf(c, text);
    var digits := DigitsOf(text);
    hide SignOf;
    hide DigitsOf;
    p := PaddingFor(c, |sign|, |digits|, Period(c, |digits|));
  }

  lemma SignedMeans(c: Config, raw: nat, m: Modifier)
    requires c.group
    ensures var text := Printed(SignedDecimal, c, raw, m);
            Undone(SignedDecimal, c, raw, m)
            <==> Stored(SignedDecimal, ScanField(SignedDecimal, text, 0, true).1, m) == AsSigned(raw, m)
  {
    hide ScanField;
    hide Printed;
    hide Stored;
    hide AsSigned;
  }

  lemma SignedComesBack(c: Config, raw: nat, m: Modifier)
    requires c.group && INT64_MIN <= AsSigned(raw, m) <= INT64_MAX
    ensures var x := AsSigned(raw, m);
            var n: nat := if x < 0 then -x else x;
            var zeros := ZerosBefore(c, IntText(x, c.plus || c.space, true));
            ComesBack(SignedDecimal, c, raw, m) <==> x == INT64_MIN || Passes(zeros, |Numeral(n, 10, false)|)
  {
    hide AsSigned;
    hide ZerosBefore;
    hide Passes;
    hide IntText;
  }

  /** An ungrouped number is read by the grouping reader too. */
  lemma PlainField(p: Padding, sign: string, x: nat)
    requires sign == "" || sign == "+" || sign == "-" || sign == " "
    ensures ScanField(SignedDecimal, Laid(p, sign, DecimalText(x, false)), 0, true).1 == Signed(sign, x)
  {
    hide DecimalText;
    hide ReadInteger;
    hide SkipSpaces;
    var digits, tail := DecimalText(x, false), Spaces(p.after);
    DecimalStartsWithDigit(x, false);
    BlanksEndNumber(p.after);
    var blanks, mark := if sign == " " then p.before + 1 else p.before, if sign == " " then "" else sign;
    var body := mark + Zeros(p.zeros) + digits;
    assert !IsSpace(body[0]);
    LaidSplits(p, sign, digits);
    hide Laid;
    FieldSkipsPadding(SignedDecimal, blanks, body, tail, true);
    SignedReadsBack(mark, x, false, p.zeros, true, tail);
  }

  lemma UnsignedGrouped(c: Config, raw: nat, m: Modifier)
    requires c.group
    ensures Undone(UnsignedDecimal, c, raw, m) <==> ComesBack(UnsignedDecimal, c, raw, m)
  {
    hide ScanField;
    hide Laid;
    hide PaddingFor;
    hide DecimalText;
    hide Passes;
    var x := AsUnsigned(raw, m);
    UnsignedRange(raw, m);
    DecimalStartsWithDigit(x, true);
    var text := DecimalText(x, true);
    assert SignOf(c, text) == "" && DigitsOf(text) == text;
    var v := GroupedField(UnsignedDecimal, PaddingFor(c, 0, |text|, Period(c, |text|)), "", x);
    StoredUnsigned(v, raw, m);
  }

  lemma StoredUnsigned(v: nat, raw: nat, m: Modifier)
    requires v <= AsUnsigned(raw, m)
    ensures Stored(UnsignedDecimal, v, m) == v
  {
    UnsignedRange(v, m);
  }

  /**
   * Scanning undoes printing: for every argument, size modifier, width, precision and flag setting, the
   * text of a conversion scanned by the same conversion under the same grouping stores the argument again
   * if and only if no more than three digits, counted in eight bits, stand before the first separator.
   */
  lemma ScanUndoesPrint(conv: Conversion, c: Config, raw: nat, m: Modifier)
    requires Printable(conv, raw, m)
    ensures Undone(conv, c, raw, m) <==> ComesBack(conv, c, raw, m)
  {
    hide ScanField;
    hide Printed;
    hide Stored;
    hide Denoted;
    if !c.group {
      PlainUndone(conv, c, raw, m);
    } else {
      match conv
      case SignedDecimal => SignedGrouped(c, raw, m);
      case UnsignedDecimal => UnsignedGrouped(c, raw, m);
      case InRadix(radix) => RadixGrouped(radix, c, raw, m);
    }
  }

  lemma RadixGrouped(radix: Radix, c: Config, raw: nat, m: Modifier)
    requires c.group
    ensures Undone(InRadix(radix), c, raw, m)
  {
    hide ScanField;
    hide Laid;
    hide PaddingFor;
    var x, upper := AsUnsigned(raw, m), c.upper && radix.Hex?;
    UnsignedRange(raw, m);
    var digits, prefix := Numeral(x, Base(radix), upper), PrefixOf(c, radix);
    RadixFieldReadsBack(radix, c, PaddingFor(c, |prefix|, |digits|, 0), x, upper, true);
  }

  /** `%'012d` of 1234567 prints three zeros before the first group, and does not scan back. */
  lemma PaddedExample()
    ensures !Undone(SignedDecimal, TwelveWide(), 1234567, NoModifier)
  {
    hide Undone;
    hide ComesBack;
    PaddedStops();
    ScanUndoesPrint(SignedDecimal, TwelveWide(), 1234567, NoModifier);
  }

  function TwelveWide(): Config {
    Config(false, true, false, false, false, false, true, 12, 0)
  }

  lemma PaddedStops()
    ensures !ComesBack(SignedDecimal, TwelveWide(), 1234567, NoModifier)
  {
    var c := TwelveWide();
    var x: nat := 1234567;
    SevenDigits();
    assert AsSigned(x, NoModifier) == x;
    SignedLaid(c, x);
    var text := IntText(x, false, true);
    var digits := Numeral(x, 10, false);
    assert DigitsOf(text) == Grouped(digits);
    assert |Grouped(digits)| == 9;
  }

  lemma SevenDigits()
    ensures |Numeral(1234567, 10, false)| == 7
  {
    assert Power(10, 6) == 10 * Power(10, 5) && Power(10, 5) == 10 * Power(10, 4) && Power(10, 4) == 10 * Power(10, 3);
    assert Power(10, 3) == 10 * Power(10, 2) && Power(10, 2) == 100 && Power(10, 7) == 10 * Power(10, 6);
    var x: nat := 1234567;
    NumeralFits(x, 10, false, 7);
    NumeralFits(x, 10, false, 6);
  }
}
