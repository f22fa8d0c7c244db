/** Writing integers into scratch arrays and reading them back from a buffer. */
module Convert {
  import opened Basics
  import opened Numerals

  // ----- Writers -----

  lemma {:induction false} PowerAdd(base: nat, m: nat, n: nat)
    requires IsBase(base)
    ensures Power(base, m + n) == Power(base, m) * Power(base, n)
  {
    hide Times;
    if n > 0 {
      PowerAdd(base, m, n - 1);
      TimesAssociates(Power(base, m), Power(base, n - 1), base);
    }
  }

  lemma TimesAssociates(p: nat, q: nat, base: nat)
    requires IsBase(base)
    ensures Times(p * q, base) == p * Times(q, base)
  {
    if base == 2 {
      assert p * (q * 2) == (p * q) * 2;
    } else if base == 8 {
      assert p * (q * 8) == (p * q) * 8;
    } else if base == 10 {
      assert p * (q * 10) == (p * q) * 10;
    } else {
      assert p * (q * 16) == (p * q) * 16;
    }
  }

  lemma PowersOf16()
    ensures Power(16, 16) == TWO64
  {
    PowerAdd(16, 2, 2);
    PowerAdd(16, 4, 4);
    PowerAdd(16, 8, 8);
    assert Power(16, 2) == 256;
  }

  lemma PowersOf8()
    ensures Power(8, 22) > TWO64
  {
    PowerAdd(8, 2, 2);
    PowerAdd(8, 4, 4);
    PowerAdd(8, 8, 8);
    PowerAdd(8, 4, 2);
    PowerAdd(8, 16, 6);
    assert Power(8, 2) == 64;
  }

  lemma PowersOf10()
    ensures Power(10, 20) > TWO64
  {
    PowerAdd(10, 2, 2);
    PowerAdd(10, 4, 4);
    PowerAdd(10, 8, 2);
    PowerAdd(10, 10, 10);
    assert Power(10, 2) == 100;
  }

  lemma PowersOf2()
    ensures Power(2, 32) == TWO32
  {
    PowerAdd(2, 2, 2);
    PowerAdd(2, 4, 4);
    PowerAdd(2, 8, 8);
    PowerAdd(2, 16, 16);
    assert Power(2, 2) == 4;
  }

  /** What fits the 32-byte scratch arrays: every 64-bit number, but in binary only those of 32 bits. */
  lemma ScratchFits(x: nat, base: nat, upper: bool)
    requires IsBase(base)
    ensures x < TWO64 && base == 16 ==> |Numeral(x, base, upper)| <= 16
    ensures x < TWO64 && base == 8 ==> |Numeral(x, base, upper)| <= 22
    ensures x < TWO64 && base == 10 ==> |Numeral(x, base, upper)| <= 20
    ensures base == 2 ==> (|Numeral(x, base, upper)| <= 32 <==> x < TWO32)
  {
    PowersOf16();
    PowersOf8();
    PowersOf10();
    PowersOf2();
    NumeralFits(x, base, upper, if base == 16 then 16 else if base == 8 then 22 else if base == 10 then 20 else 32);
  }

  function Reversed(s: string): (r: string)
    ensures |r| == |s| && forall i | 0 <= i < |s| :: r[i] == s[|s| - 1 - i]
  {
    seq(|s|, i requires 0 <= i < |s| => s[|s| - 1 - i])
  }

  /** Copies the scratch digits, least significant first, into the buffer the other way round. */
  method CopyReversed(temp: array<char>, pos: nat, buffer: array<char>, at: nat)
    requires pos <= temp.Length && at + pos <= buffer.Length && temp != buffer
    modifies buffer
    ensures buffer[..at] == old(buffer[..at]) && buffer[at..at + pos] == Reversed(temp[..pos])
  {
    var i := 0;
    while i < pos
      invariant 0 <= i <= pos
      invariant forall k | 0 <= k < at :: buffer[k] == old(buffer[k])
      invariant forall k | at <= k < at + i :: buffer[k] == temp[pos - 1 - (k - at)]
    {
      buffer[at + i] := temp[(pos - i) - 1];
      i := i + 1;
    }
  }

  lemma ReversedSnoc(s: string, c: char)
    ensures Reversed(s + [c]) == [c] + Reversed(s)
  {
  }

  lemma ShiftDigit(left: string, done: string, digit: char)
    requires left != [] && left[|left| - 1] == digit
    ensures left[..|left| - 1] + ([digit] + done) == left + done
  {
  }

  /** Fills the scratch array with the digits of `x`, least significant first. */
  method UnsignedDigits(temp: array<char>, base: nat, upper: bool, x: nat) returns (pos: nat)
    requires IsBase(base) && temp.Length == 32 && |Numeral(x, base, upper)| <= 32
    modifies temp
    ensures pos == |Numeral(x, base, upper)| && Reversed(temp[..pos]) == Numeral(x, base, upper)
  {
    hide Digit;
    hide Quotient;
    hide Remainder;
    hide Numeral;
    hide Reversed;
    ghost var whole := Numeral(x, base, upper);
    ghost var left, done: string := whole, [];
    var rest: nat := x;
    pos := 0;
    WrittenNothing(temp[..pos], false);
    var more := true;
    while more
      invariant left + done == whole && |whole| <= 32
      invariant if more then left == Numeral(rest, base, upper) else left == []
      invariant pos == |done| && Reversed(temp[..pos]) == done
      decreases more, rest
    {
      NumeralStep(rest, base, upper);
      QuotientRemainder(rest, base);
      var digit := Digit(Remainder(rest, base), upper);
      ReversedSnoc(temp[..pos], digit);
      temp[pos] := digit;
      assert temp[..pos + 1] == temp[..pos] + [digit];
      ShiftDigit(left, done, digit);
      left, done := left[..|left| - 1], [digit] + done;
      pos := pos + 1;
      rest := Quotient(rest, base);
      more := rest != 0;
    }
    assert left + done == done;
  }

  /** The numeral of `x` in a buffer; 32 digits of scratch are enough for every number this accepts. */
  method WriteUnsigned(buffer: array<char>, base: nat, upper: bool, x: nat) returns (n: nat)
    requires IsBase(base) && x < TWO64 && (base == 2 ==> x < TWO32) && buffer.Length >= 32
    modifies buffer
    ensures n == |Numeral(x, base, upper)| <= 32 && buffer[..n] == Numeral(x, base, upper)
  {
    hide Reversed;
    ScratchFits(x, base, upper);
    var temp := new char[32];
    n := UnsignedDigits(temp, base, upper, x);
    CopyReversed(temp, n, buffer, 0);
  }

  lemma NumeralStep(x: nat, base: nat, upper: bool)
    requires IsBase(base)
    ensures Numeral(x, base, upper)
         == (if Quotient(x, base) == 0 then [] else Numeral(Quotient(x, base), base, upper))
            + [Digit(Remainder(x, base), upper)]
  {
    QuotientRemainder(x, base);
  }

  /** Digits with a separator before every third one from the right. */
  function Grouped(s: string): (r: string)
    ensures |r| == if s == [] then 0 else |s| + (|s| - 1) / 3
  {
    if |s| <= 3 then s else Grouped(s[..|s| - 3]) + "," + s[|s| - 3..]
  }

  lemma GroupedStep(s: string)
    ensures |s| <= 3 ==> Grouped(s) == s
    ensures |s| > 3 ==> Grouped(s) == Grouped(s[..|s| - 3]) + "," + s[|s| - 3..]
  {
  }

  function Separator(n: nat): string {
    if n > 0 && n % 3 == 0 then "," else ""
  }

  lemma {:induction false} GroupedCons(c: char, s: string)
    ensures Grouped([c] + s) == [c] + Separator(|s|) + Grouped(s)
  {
    hide Grouped;
    var t := [c] + s;
    GroupedStep(t);
    GroupedStep(s);
    if |s| > 3 {
      var a, b := s[..|s| - 3], s[|s| - 3..];
      assert t[..|t| - 3] == [c] + a && t[|t| - 3..] == b;
      GroupedCons(c, a);
      assert Separator(|a|) == Separator(|s|);
      hide Separator;
      assert [c] + Separator(|a|) + Grouped(a) + "," + b == [c] + Separator(|a|) + (Grouped(a) + "," + b);
    } else if |s| == 3 {
      assert t[..1] == [c] && t[1..] == s;
      GroupedStep([c]);
    }
  }

  function DecimalText(x: nat, group: bool): string {
    if group then Grouped(Numeral(x, 10, false)) else Numeral(x, 10, false)
  }

  /** Fills the scratch array with the digits of `x` and their separators, least significant first. */
  method DecimalDigits(temp: array<char>, x: nat, group: bool) returns (pos: nat)
    requires x < TWO64 && temp.Length == 32
    modifies temp
    ensures pos == |DecimalText(x, group)| <= 32 && Reversed(temp[..pos]) == DecimalText(x, group)
  {
    hide Digit;
    hide Quotient;
    hide Remainder;
    hide Numeral;
    hide Reversed;
    hide Grouped;
    hide Written;
    ghost var whole := Numeral(x, 10, false);
    ScratchFits(x, 10, false);
    ghost var left, done: string := whole, [];
    var rest, sep: nat := x, 0;
    pos := 0;
    WrittenNothing(temp[..pos], group);
    var more := true;
    while more
      invariant left + done == whole && |whole| <= 20
      invariant if more then left == Numeral(rest, 10, false) else left == []
      invariant pos == |Written(done, group)| <= 32 && Reversed(temp[..pos]) == Written(done, group)
      invariant sep == (if done == [] then 0 else (|done| - 1) % 3 + 1)
      decreases more, rest
    {
      NumeralStep(rest, 10, false);
      QuotientRemainder(rest, 10);
      var digit := Digit(Remainder(rest, 10), false);
      pos, sep := PutDigit(temp, pos, sep, digit, group, done);
      left, done := left[..|left| - 1], [digit] + done;
      rest := Quotient(rest, 10);
      more := rest != 0;
    }
    WrittenAll(x, done, group);
  }

  lemma WrittenNothing(s: string, group: bool)
    requires s == []
    ensures Reversed(s) == [] == Written([], group)
  {
  }

  lemma WrittenAll(x: nat, done: string, group: bool)
    requires [] + done == Numeral(x, 10, false)
    ensures Written(done, group) == DecimalText(x, group)
  {
    assert [] + done == done;
  }

  method WriteDecimal(buffer: array<char>, at: nat, x: nat, group: bool) returns (n: nat)
    requires x < TWO64 && buffer.Length >= at + 26
    modifies buffer
    ensures n == |DecimalText(x, group)| <= 26
    ensures buffer[..at] == old(buffer[..at]) && buffer[at..at + n] == DecimalText(x, group)
  {
    hide Reversed;
    ScratchFits(x, 10, false);
    var temp := new char[32];
    n := DecimalDigits(temp, x, group);
    CopyReversed(temp, n, buffer, at);
  }

  /** Stores one more digit in the scratch array, with a separator first when three digits are there. */
  method PutDigit(temp: array<char>, pos: nat, sep: nat, digit: char, group: bool, ghost done: string)
    returns (pos': nat, sep': nat)
    requires temp.Length == 32 && |done| < 20
    requires pos == |Written(done, group)| <= 32 && Reversed(temp[..pos]) == Written(done, group)
    requires sep == (if done == [] then 0 else (|done| - 1) % 3 + 1)
    modifies temp
    ensures pos' == |Written([digit] + done, group)| <= 32
    ensures Reversed(temp[..pos']) == Written([digit] + done, group)
    ensures sep' == |done| % 3 + 1
  {
    hide Reversed;
    hide Written;
    WrittenNext(digit, done, group);
    CountsThree(|done|, sep);
    pos', sep' := pos, sep;
    if sep' == 3 {
      sep' := 0;
      if group {
        ReversedSnoc(temp[..pos'], ',');
        temp[pos'] := ',';
        assert temp[..pos' + 1] == temp[..pos'] + [','];
        pos' := pos' + 1;
      }
    }
    ReversedSnoc(temp[..pos'], digit);
    temp[pos'] := digit;
    assert temp[..pos' + 1] == temp[..pos'] + [digit];
    pos' := pos' + 1;
    sep' := sep' + 1;
  }

  lemma CountsThree(n: nat, sep: nat)
    requires sep == if n == 0 then 0 else (n - 1) % 3 + 1
    ensures sep == 3 <==> n > 0 && n % 3 == 0
    ensures n % 3 + 1 == if sep == 3 then 1 else sep + 1
    ensures n < 20 ==> n + n / 3 < 27
  {
  }

  /** The least significant digits as they stand in the scratch array, read backwards. */
  ghost function Written(done: string, group: bool): string {
    if group then Grouped(done) else done
  }

  lemma WrittenNext(digit: char, done: string, group: bool)
    ensures Written([digit] + done, group)
         == [digit] + (if group && |done| > 0 && |done| % 3 == 0 then "," else "") + Written(done, group)
    ensures |Written(done, group)| <= |done| + |done| / 3
  {
    GroupedCons(digit, done);
    hide Grouped;
    if !group {
      assert [digit] + "" + done == [digit] + done;
    }
  }

  // ----- Signed text -----

  const INT64_MIN: int := -0x8000_0000_0000_0000
  const INT64_MAX: int := 0x7FFF_FFFF_FFFF_FFFF

  /** The smallest integer is written from a literal that ignores grouping. */
  function IntText(x: int, force: bool, group: bool): string
    requires INT64_MIN <= x <= INT64_MAX
  {
    if x == INT64_MIN then "-9223372036854775808"
    else if x < 0 then "-" + DecimalText(-x, group)
    else (if force then "+" else "") + DecimalText(x, group)
  }

  method WriteLiteral(buffer: array<char>, text: string) returns (n: nat)
    requires |text| <= buffer.Length
    modifies buffer
    ensures n == |text| && buffer[..n] == text
  {
    forall i | 0 <= i < |text| {
      buffer[i] := text[i];
    }
    n := |text|;
  }

  method WriteInteger(buffer: array<char>, x: int, force: bool, group: bool) returns (n: nat)
    requires INT64_MIN <= x <= INT64_MAX && buffer.Length >= 32
    modifies buffer
    ensures n == |IntText(x, force, group)| <= 27 && buffer[..n] == IntText(x, force, group)
  {
    IntTextIs(x, force, group);
    hide IntText;
    hide DecimalText;
    if x == INT64_MIN {
      n := WriteLiteral(buffer, "-9223372036854775808");
      return;
    }
    var sign, magnitude: nat := 0, if x < 0 then -x else x;
    if x < 0 {
      sign := 1;
      buffer[0] := '-';
    } else if force {
      sign := 1;
      buffer[0] := '+';
    }
    ghost var head := buffer[..sign];
    var digits := WriteDecimal(buffer, sign, magnitude, group);
    n := digits + sign;
    assert buffer[..n] == buffer[..sign] + buffer[sign..n] == head + DecimalText(magnitude, group);
  }

  /** The text of an integer: a sign and the digits of its magnitude. */
  lemma IntTextIs(x: int, force: bool, group: bool)
    requires INT64_MIN <= x <= INT64_MAX
    ensures x == INT64_MIN ==> IntText(x, force, group) == "-9223372036854775808"
    ensures x > INT64_MIN ==>
              var sign := if x < 0 then "-" else if force then "+" else "";
              IntText(x, force, group) == sign + DecimalText(if x < 0 then -x else x, group)
  {
    hide DecimalText;
  }

  lemma NumeralSnoc(x: nat, d: nat)
    requires x > 0 && d < 10
    ensures Numeral(10 * x + d, 10, false) == Numeral(x, 10, false) + [Digit(d, false)]
  {
    assert Quotient(10 * x + d, 10) == x && Remainder(10 * x + d, 10) == d;
  }

  /** The literal is the numeral of 2^63. */
  lemma MinLiteral()
    ensures "9223372036854775808" == Numeral(-INT64_MIN, 10, false)
  {
    hide Numeral;
    MinLiteralMiddle();
    NumeralSnoc(92233720368547, 7);
    NumeralSnoc(922337203685477, 5);
    NumeralSnoc(9223372036854775, 8);
    NumeralSnoc(92233720368547758, 0);
    NumeralSnoc(922337203685477580, 8);
  }

  lemma MinLiteralMiddle()
    ensures Numeral(92233720368547, 10, false) == "92233720368547"
  {
    hide Numeral;
    MinLiteralHead();
    NumeralSnoc(922337203, 6);
    NumeralSnoc(9223372036, 8);
    NumeralSnoc(92233720368, 5);
    NumeralSnoc(922337203685, 4);
    NumeralSnoc(9223372036854, 7);
  }

  lemma MinLiteralHead()
    ensures Numeral(922337203, 10, false) == "922337203"
  {
    assert Numeral(9, 10, false) == "9";
    NumeralSnoc(9, 2);
    NumeralSnoc(92, 2);
    NumeralSnoc(922, 3);
    NumeralSnoc(9223, 3);
    NumeralSnoc(92233, 7);
    NumeralSnoc(922337, 2);
    NumeralSnoc(9223372, 0);
    NumeralSnoc(92233720, 3);
  }
}
