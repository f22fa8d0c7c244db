/** What the scanning engine makes of a text, said of its characters. */
module ScannedText {
  import opened Basics
  import opened Numerals
  import opened Readers
  import opened Printing
  import opened Scanning

  /** The white space that is passed over: blank, tab, line feed, vertical tab, form feed, carriage return. */
  lemma SpacesAre(c: char)
    ensures IsSpace(c) <==> c as int == 32 || c as int == 9 || c as int == 10 || c as int == 11 || c as int == 12
                            || c as int == 13
  {
  }

  /** A field width hides what is behind it, counted from the first character that is no white space. */
  lemma WidthHides(conv: Conversion, blanks: string, body: string, width: nat, group: bool)
    requires (forall i | 0 <= i < |blanks| :: IsSpace(blanks[i])) && (body == "" || !IsSpace(body[0])) && width > 0
    ensures var seen := if width < |body| then body[..width] else body;
            ScanField(conv, blanks + body, width, group) == ScanField(conv, blanks + seen, 0, group)
  {
    hide ScanNumber;
    hide IsSpace;
    var seen := if width < |body| then body[..width] else body;
    SkipsAll(blanks, body);
    SkipsAll(blanks, seen);
  }

  lemma {:induction false} SkipsAll(blanks: string, body: string)
    requires (forall i | 0 <= i < |blanks| :: IsSpace(blanks[i])) && (body == "" || !IsSpace(body[0]))
    ensures SkipSpaces(blanks + body) == |blanks| && (blanks + body)[|blanks|..] == body
    decreases blanks
  {
    hide IsSpace;
    if blanks == "" {
      assert blanks + body == body;
    } else {
      assert (blanks + body)[0] == blanks[0] && (blanks + body)[1..] == blanks[1..] + body;
      SkipsAll(blanks[1..], body);
    }
  }

  // ----- Hexadecimal, octal and binary -----

  /** The letter of the prefix of a radix, in either case. */
  ghost predicate PrefixLetter(radix: Radix, c: char) {
    match radix
    case Binary => c == 'b' || c == 'B'
    case Octal => c == 'o' || c == 'O'
    case Hex => c == 'x' || c == 'X'
  }

  ghost function BaseIs(radix: Radix): (b: nat)
    ensures IsBase(b)
  {
    match radix
    case Binary => 2
    case Octal => 8
    case Hex => 16
  }

  /** Digits behind a prefix are the number, 64 bits of it. */
  lemma PrefixedNumber(radix: Radix, letter: char, digits: string, tail: string, group: bool)
    requires PrefixLetter(radix, letter) && AllDigits(digits, BaseIs(radix))
    requires tail == "" || !IsDigit(tail[0], BaseIs(radix))
    ensures ScanNumber(InRadix(radix), ['0', letter] + (digits + tail), group)
         == (2 + |digits|, Value(digits, BaseIs(radix)) % TWO64)
  {
    RadixScan(radix, ['0', letter] + (digits + tail), group);
    hide *;
    PrefixIsTwo(radix, letter, digits + tail);
    ReadsDigits(digits, tail, BaseIs(radix));
  }

  lemma PrefixIsTwo(radix: Radix, letter: char, rest: string)
    requires PrefixLetter(radix, letter)
    ensures var s := ['0', letter] + rest; PrefixLength(radix, s) == 2 && s[2..] == rest
  {
    var s := ['0', letter] + rest;
    assert At(s, 0) == '0' && At(s, 1) == letter;
  }

  lemma ReadsDigits(digits: string, tail: string, base: nat)
    requires IsBase(base) && AllDigits(digits, base) && (tail == "" || !IsDigit(tail[0], base))
    ensures ReadUnsigned(digits + tail, base) == (|digits|, Value(digits, base) % TWO64)
  {
    hide Value;
    hide Nibble;
    hide DigitRun;
    DigitRunOf(digits, tail, base);
  }

  /** Digits without a prefix are the number too, unless the first is a zero that makes one. */
  lemma BareNumber(radix: Radix, digits: string, tail: string, group: bool)
    requires AllDigits(digits, BaseIs(radix)) && (tail == "" || !IsDigit(tail[0], BaseIs(radix)))
    requires !(digits == "0" && tail != "" && PrefixLetter(radix, tail[0]))
    ensures ScanNumber(InRadix(radix), digits + tail, group) == (|digits|, Value(digits, BaseIs(radix)) % TWO64)
  {
    RadixScan(radix, digits + tail, group);
    NoPrefix(radix, digits, tail);
    if radix.Octal? && digits != "" && digits[0] == '0' {
      hide *;
      AfterZero(digits, tail, BaseIs(radix));
    } else {
      hide *;
      assert (digits + tail)[0..] == digits + tail;
      ReadsDigits(digits, tail, BaseIs(radix));
    }
  }

  lemma RadixScan(radix: Radix, s: string, group: bool)
    ensures var k := PrefixLength(radix, s);
            var r := ReadUnsigned(s[k..], BaseIs(radix));
            ScanNumber(InRadix(radix), s, group) == (k + r.0, r.1)
  {
    hide ReadUnsigned;
    hide PrefixLength;
  }

  /** A first zero adds nothing to the number. */
  lemma AfterZero(digits: string, tail: string, base: nat)
    requires IsBase(base) && digits != "" && digits[0] == '0' && AllDigits(digits, base)
    requires tail == "" || !IsDigit(tail[0], base)
    ensures ReadUnsigned((digits + tail)[1..], base) == (|digits| - 1, Value(digits, base) % TWO64)
  {
    hide Value;
    hide Nibble;
    hide ReadUnsigned;
    var rest := digits[1..];
    assert (digits + tail)[1..] == rest + tail;
    ReadsDigits(rest, tail, base);
    LeadingZeros(1, rest, base);
    assert digits == Zeros(1) + rest;
  }

  lemma NoPrefix(radix: Radix, digits: string, tail: string)
    requires AllDigits(digits, BaseIs(radix)) && (tail == "" || !IsDigit(tail[0], BaseIs(radix)))
    requires !(digits == "0" && tail != "" && PrefixLetter(radix, tail[0]))
    ensures PrefixLength(radix, digits + tail) == if radix.Octal? && digits != "" && digits[0] == '0' then 1 else 0
  {
    var s := digits + tail;
    if |digits| >= 2 {
      assert At(s, 0) == digits[0] && At(s, 1) == digits[1];
      assert IsDigit(digits[1], BaseIs(radix));
    } else if |digits| == 1 {
      assert At(s, 0) == digits[0] && At(s, 1) == At(tail, 0);
    } else {
      assert s == tail;
    }
  }

  // ----- Decimal -----

  /** A sign and digits are the signed number, whatever its length. */
  lemma SignedNumber(sign: string, digits: string, tail: string, group: bool)
    requires sign == "" || sign == "+" || sign == "-"
    requires digits != "" && AllDigits(digits, 10) && (tail == "" || (!IsDigit(tail[0], 10) && tail[0] != ','))
    ensures ScanNumber(SignedDecimal, sign + (digits + tail), group)
         == (|sign| + |digits|, if sign == "-" then -(Value(digits, 10) as int) else Value(digits, 10))
  {
    hide Value;
    hide DecimalRun;
    hide Nibble;
    hide IsDecimal;
    hide ReadInteger;
    DecimalDigitsAre(digits);
    TenDigits(tail);
    TenDigits(digits);
    PlainRun(Groups(0, false, group), digits, tail);
    SignThenRun(sign, digits + tail, group);
  }

  /** Without a sign the same digits are the unsigned number, 64 bits of it; a plus is passed over. */
  lemma UnsignedNumber(sign: string, digits: string, tail: string, group: bool)
    requires sign == "" || sign == "+"
    requires digits != "" && AllDigits(digits, 10) && (tail == "" || (!IsDigit(tail[0], 10) && tail[0] != ','))
    ensures ScanNumber(UnsignedDecimal, sign + (digits + tail), group)
         == (|sign| + |digits|, Value(digits, 10) % TWO64)
  {
    hide Value;
    hide DecimalRun;
    hide Nibble;
    hide IsDecimal;
    hide ReadDecimal;
    DecimalDigitsAre(digits);
    TenDigits(tail);
    TenDigits(digits);
    PlainRun(Groups(0, false, group), digits, tail);
    PlusThenRun(sign, digits + tail, group);
  }

  lemma PlusThenRun(sign: string, body: string, group: bool)
    requires (sign == "" || sign == "+") && body != "" && IsDecimal(body[0])
    ensures var (digits, used) := DecimalRun(Groups(0, false, group), body);
            ReadDecimal(sign + body, group) == (|sign| + used, Value(digits, 10) % TWO64)
  {
    hide DecimalRun;
    hide Value;
    var s := sign + body;
    assert s[|sign|..] == body && s[0] == if sign == "" then body[0] else '+';
  }

  lemma TenDigits(tail: string)
    ensures tail != "" ==> (IsDecimal(tail[0]) <==> IsDigit(tail[0], 10))
  {
  }

  /** A minus in front of an unsigned number ends the scan at once. */
  lemma MinusIsNoNumber(s: string, group: bool)
    ensures ScanNumber(UnsignedDecimal, "-" + s, group) == (0, 0)
  {
    var t := "-" + s;
    assert At(t, 0) == '-' && t[0..] == t;
    StepEnd(Groups(0, false, group), t);
    hide DecimalRun;
    ValueOfNothing();
  }

  // ----- Separators out of place -----

  /** A separator with fewer than three digits behind it is not part of the number. */
  lemma ShortGroup(st: Groups, s: string)
    requires st.allowed && |s| > 0
    requires !(|s| >= 3 && IsDecimal(s[0]) && IsDecimal(s[1]) && IsDecimal(s[2]))
    requires s[0] != '\0'
    ensures DecimalRun(st, "," + s) == ("", 0)
  {
    var t := "," + s;
    assert At(t, 0) == ',' && At(t, 1) == s[0] && At(t, 2) == At(s, 1) && At(t, 3) == At(s, 2);
  }

  /** A fourth digit in a group ends the number in front of it. */
  lemma LongGroup(c: char, s: string)
    requires IsDecimal(c)
    ensures DecimalRun(Groups(3, true, true), [c] + s) == ("", 0)
  {
    assert At([c] + s, 0) == c;
  }
}
