/** Digits, numerals and their values in the bases 2, 8, 10 and 16. */
module Numerals {
  import opened Basics

  predicate IsBase(b: nat) {
    b == 2 || b == 8 || b == 10 || b == 16
  }

  function Digit(d: nat, upper: bool): (c: char)
    requires d < 16
  {
    if d < 10 then '0' + d as char
    else if upper then 'A' + (d - 10) as char
    else 'a' + (d - 10) as char
  }

  /** The digit a character stands for, 255 when it stands for none. */
  function Nibble(c: char): (d: nat)
    ensures d < 16 || d == 255
  {
    if '0' <= c <= '9' then c as int - '0' as int
    else if 'a' <= c <= 'f' then c as int - 'a' as int + 10
    else if 'A' <= c <= 'F' then c as int - 'A' as int + 10
    else 255
  }

  predicate IsDigit(c: char, base: nat) {
    Nibble(c) < base
  }

  lemma NibbleOfDigit(d: nat, upper: bool)
    requires d < 16
    ensures Nibble(Digit(d, upper)) == d
  {
  }

  ghost predicate AllDigits(s: string, base: nat) {
    forall i | 0 <= i < |s| :: IsDigit(s[i], base)
  }

  /** `v * base` for the bases that occur. */
  function Times(v: nat, base: nat): (r: nat)
    requires IsBase(base)
  {
    if base == 2 then v * 2 else if base == 8 then v * 8 else if base == 10 then v * 10 else v * 16
  }

  function Quotient(x: nat, base: nat): (q: nat)
    requires IsBase(base)
  {
    if base == 2 then x / 2 else if base == 8 then x / 8 else if base == 10 then x / 10 else x / 16
  }

  function Remainder(x: nat, base: nat): (m: nat)
    requires IsBase(base)
    ensures m < base
  {
    if base == 2 then x % 2 else if base == 8 then x % 8 else if base == 10 then x % 10 else x % 16
  }

  lemma QuotientRemainder(x: nat, base: nat)
    requires IsBase(base)
    ensures x == Times(Quotient(x, base), base) + Remainder(x, base)
    ensures x > 0 ==> Quotient(x, base) < x
    ensures x >= base ==> Quotient(x, base) > 0
    ensures x < base ==> Quotient(x, base) == 0 && Remainder(x, base) == x
  {
  }

  lemma TimesMonotone(a: nat, b: nat, base: nat)
    requires IsBase(base) && a <= b
    ensures Times(a, base) <= Times(b, base) && a <= Times(a, base)
    ensures a < b ==> Times(a, base) + base <= Times(b, base)
  {
  }

  /** The number a digit string denotes; leading zeros are allowed. */
  function Value(s: string, base: nat): nat
    requires IsBase(base) && AllDigits(s, base)
  {
    if s == [] then 0 else Times(Value(s[..|s| - 1], base), base) + Nibble(s[|s| - 1])
  }

  /** The usual numeral, without leading zeros. */
  function Numeral(x: nat, base: nat, upper: bool): (s: string)
    requires IsBase(base)
    ensures s != []
    decreases x
  {
    if x < base then [Digit(x, upper)]
    else
      QuotientRemainder(x, base);
      Numeral(Quotient(x, base), base, upper) + [Digit(Remainder(x, base), upper)]
  }

  function Power(base: nat, n: nat): nat
    requires IsBase(base)
  {
    if n == 0 then 1 else Times(Power(base, n - 1), base)
  }

  lemma ValueSnoc(s: string, c: char, base: nat)
    requires IsBase(base) && AllDigits(s, base) && IsDigit(c, base)
    ensures AllDigits(s + [c], base) && Value(s + [c], base) == Times(Value(s, base), base) + Nibble(c)
  {
    var t := s + [c];
    assert t[..|t| - 1] == s;
  }

  /** Reading a numeral gives the number back. */
  lemma {:induction false} ValueOfNumeral(x: nat, base: nat, upper: bool)
    requires IsBase(base)
    ensures AllDigits(Numeral(x, base, upper), base)
    ensures Value(Numeral(x, base, upper), base) == x
    decreases x
  {
    hide Digit;
    hide Nibble;
    hide Times;
    hide Quotient;
    hide Remainder;
    if x < base {
      NibbleOfDigit(x, upper);
      ValueSnoc([], Digit(x, upper), base);
      assert [] + [Digit(x, upper)] == [Digit(x, upper)];
      QuotientRemainder(0, base);
    } else {
      var q := Quotient(x, base);
      QuotientRemainder(x, base);
      ValueOfNumeral(q, base, upper);
      NibbleOfDigit(Remainder(x, base), upper);
      ValueSnoc(Numeral(q, base, upper), Digit(Remainder(x, base), upper), base);
    }
  }

  /** A string of n digits denotes a number below base^n. */
  lemma {:induction false} ValueBound(s: string, base: nat)
    requires IsBase(base) && AllDigits(s, base)
    ensures Value(s, base) < Power(base, |s|)
  {
    hide Nibble;
    hide Times;
    if s != [] {
      var init := s[..|s| - 1];
      ValueBound(init, base);
      TimesMonotone(Value(init, base), Power(base, |init|), base);
    }
  }

  /** A numeral has at least base^(n-1), so no shorter string denotes the number. */
  lemma {:induction false} NumeralBound(x: nat, base: nat, upper: bool)
    requires IsBase(base)
    ensures var n := |Numeral(x, base, upper)|;
            x < Power(base, n) && (x > 0 ==> Power(base, n - 1) <= x)
    decreases x
  {
    hide Digit;
    hide Value;
    hide Times;
    hide Quotient;
    hide Remainder;
    ValueOfNumeral(x, base, upper);
    ValueBound(Numeral(x, base, upper), base);
    if x >= base {
      var q := Quotient(x, base);
      QuotientRemainder(x, base);
      NumeralBound(q, base, upper);
      TimesMonotone(Power(base, |Numeral(q, base, upper)| - 1), q, base);
    }
  }

  lemma {:induction false} PowerGrows(base: nat, m: nat, n: nat)
    requires IsBase(base) && m <= n
    ensures 0 < Power(base, m) <= Power(base, n)
    decreases n
  {
    hide Times;
    if n > 0 {
      PowerGrows(base, if m < n then m else m - 1, n - 1);
      TimesMonotone(Power(base, n - 1), Power(base, n - 1), base);
    }
  }

  /** The numeral fits in n digits exactly when the number is below base^n. */
  lemma NumeralFits(x: nat, base: nat, upper: bool, n: nat)
    requires IsBase(base) && n > 0
    ensures |Numeral(x, base, upper)| <= n <==> x < Power(base, n)
  {
    hide Times;
    var len := |Numeral(x, base, upper)|;
    NumeralBound(x, base, upper);
    if len <= n {
      PowerGrows(base, len, n);
    } else {
      PowerGrows(base, n, len - 1);
    }
  }

  /** The writers give the shortest numeral: every digit string of the same value is at least as long. */
  lemma NumeralIsShortest(x: nat, base: nat, upper: bool, s: string)
    requires IsBase(base) && s != [] && AllDigits(s, base) && Value(s, base) == x
    ensures |Numeral(x, base, upper)| <= |s|
  {
    ValueBound(s, base);
    NumeralFits(x, base, upper, |s|);
  }

  function Zeros(z: nat): (t: string)
    ensures |t| == z && forall i | 0 <= i < z :: t[i] == '0'
  {
    Repeat('0', z)
  }

  lemma {:induction false} LeadingZeros(z: nat, s: string, base: nat)
    requires IsBase(base) && AllDigits(s, base)
    ensures AllDigits(Zeros(z) + s, base) && Value(Zeros(z) + s, base) == Value(s, base)
    decreases |s|, z
  {
    hide Times;
    var t := Zeros(z) + s;
    if s != [] {
      LeadingZeros(z, s[..|s| - 1], base);
      assert t[..|t| - 1] == Zeros(z) + s[..|s| - 1];
    } else if z > 0 {
      LeadingZeros(z - 1, s, base);
      assert t[..|t| - 1] == Zeros(z - 1) + s;
      QuotientRemainder(0, base);
    }
  }
}
