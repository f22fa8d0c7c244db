/** What the printing engine writes for an integer, said of the letters of the format. */
module PrintedText {
  import opened Basics
  import opened Numerals
  import opened Convert
  import opened Readers
  import opened Printing
  import opened Scanning
  import opened Specifiers
  import opened Engine

  // ----- Digits -----

  /** The digits are the usual ones, ten to fifteen by letters of the case asked for. */
  lemma DigitLetters(d: nat)
    requires d < 16
    ensures Digit(d, false) == "0123456789abcdef"[d] && Digit(d, true) == "0123456789ABCDEF"[d]
    ensures Nibble("0123456789abcdef"[d]) == d && Nibble("0123456789ABCDEF"[d]) == d
  {
  }

  /** `s` is the number written in the base, without leading zeros. */
  ghost predicate Spells(s: string, v: nat, base: nat)
    requires IsBase(base)
  {
    s != [] && AllDigits(s, base) && Value(s, base) == v && (s[0] == '0' ==> |s| == 1)
  }

  /** No letter of the other case stands for a digit. */
  ghost predicate OneCase(s: string, upper: bool) {
    forall i | 0 <= i < |s| :: if upper then !('a' <= s[i] <= 'z') else !('A' <= s[i] <= 'Z')
  }

  lemma {:induction false} NumeralCase(x: nat, base: nat, upper: bool)
    requires IsBase(base)
    ensures OneCase(Numeral(x, base, upper), upper)
    decreases x
  {
    if x >= base {
      QuotientRemainder(x, base);
      NumeralCase(Quotient(x, base), base, upper);
    }
  }

  lemma {:induction false} NumeralStart(x: nat, base: nat, upper: bool)
    requires IsBase(base)
    ensures Numeral(x, base, upper)[0] == '0' ==> |Numeral(x, base, upper)| == 1
    ensures x > 0 ==> Numeral(x, base, upper)[0] != '0'
    decreases x
  {
    if x >= base {
      QuotientRemainder(x, base);
      NumeralStart(Quotient(x, base), base, upper);
    }
  }

  lemma NumeralSpells(x: nat, base: nat, upper: bool)
    requires IsBase(base)
    ensures Spells(Numeral(x, base, upper), x, base)
  {
    ValueOfNumeral(x, base, upper);
    NumeralStart(x, base, upper);
  }

  // ----- Sizes -----

  /** How many values an argument of a length modifier has. */
  ghost function SizeOf(modifier: string): nat {
    if modifier == "hh" then 0x100
    else if modifier == "h" then 0x1_0000
    else if modifier == "" || modifier == "L" then 0x1_0000_0000
    else 0x1_0000_0000_0000_0000
  }

  lemma ModulusIsSize(m: Modifier)
    ensures Modulus(m) == SizeOf(ModifierText(m)) > 0
  {
  }

  /** `x` is the argument as a signed number of that size. */
  ghost predicate IsSigned(x: int, raw: nat, size: nat)
    requires size > 0
  {
    -(size / 2) <= x < size / 2 && x % size == raw % size
  }

  lemma SignedIsSigned(raw: nat, m: Modifier)
    ensures IsSigned(AsSigned(raw, m), raw, Modulus(m))
  {
    Below(raw % Modulus(m), Modulus(m));
  }

  lemma Below(u: nat, n: nat)
    requires u < n
    ensures u % n == u && (u - n) % n == u
  {
    var k := (u - n) / n;
    assert u - n == k * n + (u - n) % n;
    assert k == -1;
  }

  /** What the scanner stores is the value read, cut to the size and taken as signed or not. */
  lemma StoredIs(conv: Conversion, v: int, m: Modifier)
    ensures var x, size := Stored(conv, v, m), SizeOf(ModifierText(m));
            if conv == SignedDecimal then IsSigned(x, v % TWO64, size) else 0 <= x < size && x == (v % TWO64) % size
  {
    ModulusIsSize(m);
    SignedIsSigned(Wrap64(v), m);
  }

  // ----- Padding -----

  /** How a field is laid out: blanks, prefix, zeros, digits, blanks. */
  ghost function Field(before: nat, prefix: string, zeros: nat, digits: string, after: nat): string {
    Repeat(' ', before) + prefix + Repeat('0', zeros) + digits + Repeat(' ', after)
  }

  /**
   * Where padding goes. `counted` is how many digits the formatter sees. The minus flag puts blanks
   * behind; the zero flag, without minus and precision, puts zeros in front of the digits; else blanks go
   * in front. A precision is met by zeros, and the field is as wide as asked or as its text needs.
   */
  ghost predicate Padded(sp: Spec, width: nat, precision: nat, before: nat, prefix: nat, zeros: nat, digits: nat,
                         counted: nat, after: nat)
  {
    var f, needed := sp.flags, if precision > counted then precision - counted else 0;
    && before + prefix + zeros + digits + after == Max(width, prefix + needed + digits)
    && (f.left ==> before == 0 && zeros == needed)
    && (!f.left ==> after == 0)
    && (!f.left && f.zero && sp.precision.None? ==> before == 0)
    && (!f.left && !(f.zero && sp.precision.None?) ==> zeros == needed)
  }

  lemma PaddingIs(sp: Spec, width: nat, precision: nat, prefix: nat, digits: nat, period: nat)
    requires period <= digits && (sp.precision.None? ==> precision == 0)
    ensures var p := PaddingFor(ConfigOf(sp, width, precision), prefix, digits, period);
            Padded(sp, width, precision, p.before, prefix, p.zeros, digits, digits - period, p.after)
  {
  }

  lemma LaidIsField(p: Padding, prefix: string, digits: string)
    ensures Laid(p, prefix, digits) == Field(p.before, prefix, p.zeros, digits, p.after)
  {
    assert Repeat('0', p.zeros) == Zeros(p.zeros);
  }

  // ----- The letters -----

  /** The base that a letter asks for. */
  ghost function BaseOf(letter: char): nat {
    if letter == 'b' || letter == 'B' then 2 else if letter == 'o' || letter == 'O' then 8 else 16
  }

  /** What `%b`, `%o` and `%x` write, in either case. */
  lemma RadixText(sp: Spec, g: Gathered, other: Renderer) returns (p: Padding, prefix: string, digits: string)
    requires sp.letter in "bBoOxX" && (sp.precision.None? ==> g.precision == 0)
    ensures TextOf(sp, g, other) == Field(p.before, prefix, p.zeros, digits, p.after)
    ensures Padded(sp, g.width, g.precision, p.before, |prefix|, p.zeros, |digits|, |digits|, p.after)
    ensures Spells(digits, g.raw % SizeOf(ModifierText(sp.modifier)), BaseOf(sp.letter))
    ensures sp.letter == 'x' ==> OneCase(digits, false)
    ensures sp.letter == 'X' ==> OneCase(digits, true)
    ensures prefix == if sp.flags.alternate then ['0', sp.letter] else ""
  {
    hide PaddingFor;
    hide Laid;
    hide Numeral;
    hide Spells;
    hide OneCase;
    hide Padded;
    hide Field;
    var c, conv := ConfigOf(sp, g.width, g.precision), ConversionOf(sp.letter);
    var base, upper := Base(conv.radix), c.upper && conv.radix.Hex?;
    ModulusIsSize(sp.modifier);
    var x := AsUnsigned(g.raw, sp.modifier);
    digits, prefix := Numeral(x, base, upper), PrefixOf(c, conv.radix);
    p := PaddingFor(c, |prefix|, |digits|, 0);
    LaidIsField(p, prefix, digits);
    PaddingIs(sp, g.width, g.precision, |prefix|, |digits|, 0);
    NumeralSpells(x, base, upper);
    NumeralCase(x, base, upper);
  }

  /** Digits the formatter counts in a decimal text: with grouping it takes off a third. */
  ghost function Counted(group: bool, digits: nat): nat {
    if group && digits > 0 then digits - (digits - 1) / 3 else digits
  }

  /** What `%u` writes; `plain` is the number without separators. */
  lemma UnsignedText(sp: Spec, g: Gathered, other: Renderer) returns (p: Padding, digits: string, plain: string)
    requires sp.letter == 'u' && (sp.precision.None? ==> g.precision == 0)
    ensures TextOf(sp, g, other) == Field(p.before, "", p.zeros, digits, p.after)
    ensures Padded(sp, g.width, g.precision, p.before, 0, p.zeros, |digits|, Counted(sp.flags.group, |digits|), p.after)
    ensures Spells(plain, g.raw % SizeOf(ModifierText(sp.modifier)), 10)
    ensures digits == if sp.flags.group then Grouped(plain) else plain
  {
    hide PaddingFor;
    hide Laid;
    hide Numeral;
    hide Spells;
    hide Padded;
    hide Field;
    hide Grouped;
    var c := ConfigOf(sp, g.width, g.precision);
    ModulusIsSize(sp.modifier);
    var x := AsUnsigned(g.raw, sp.modifier);
    plain, digits := Numeral(x, 10, false), DecimalText(x, c.group);
    DecimalStartsWithDigit(x, c.group);
    assert SignOf(c, digits) == "" && DigitsOf(digits) == digits;
    p := PaddingFor(c, 0, |digits|, Period(c, |digits|));
    LaidIsField(p, "", digits);
    PaddingIs(sp, g.width, g.precision, 0, |digits|, Period(c, |digits|));
    NumeralSpells(x, 10, false);
  }

  /** The sign a signed number is written with. */
  ghost function Sign(x: int, f: Flags): string {
    if x < 0 then "-" else if f.plus then "+" else if f.space then " " else ""
  }

  ghost function Magnitude(x: int): nat {
    if x < 0 then -x else x
  }

  lemma SignedParts(c: Config, x: int, f: Flags)
    requires INT64_MIN <= x <= INT64_MAX && c.plus == f.plus && c.space == (f.space && !f.plus) && c.group == f.group
    ensures var text := IntText(x, c.plus || c.space, c.group);
            SignOf(c, text) == Sign(x, f) && DigitsOf(text) == DecimalText(Magnitude(x), f.group && x != INT64_MIN)
  {
    hide IntText;
    hide SignOf;
    hide DigitsOf;
    hide DecimalText;
    SignedLaid(c, x);
  }

  lemma SignedPrinted(c: Config, raw: nat, m: Modifier, f: Flags) returns (p: Padding, x: int, digits: string)
    requires c.plus == f.plus && c.space == (f.space && !f.plus) && c.group == f.group
    ensures x == AsSigned(raw, m) && digits == DecimalText(Magnitude(x), f.group && x != INT64_MIN)
    ensures p == PaddingFor(c, |Sign(x, f)|, |digits|, Period(c, |digits|))
    ensures Printed(SignedDecimal, c, raw, m) == Laid(p, Sign(x, f), digits)
  {
    hide Laid;
    hide PaddingFor;
    hide DecimalText;
    hide SignOf;
    hide DigitsOf;
    hide Sign;
    hide Period;
    x := AsSigned(raw, m);
    SignedRange(raw, m);
    hide AsSigned;
    SignedParts(c, x, f);
    hide IntText;
    digits := DecimalText(Magnitude(x), f.group && x != INT64_MIN);
    p := PaddingFor(c, |Sign(x, f)|, |digits|, Period(c, |digits|));
  }

  lemma ConfigIs(sp: Spec, width: nat, precision: nat)
    ensures var c, f := ConfigOf(sp, width, precision), sp.flags;
            c.plus == f.plus && c.space == (f.space && !f.plus) && c.group == f.group
  {
  }

  lemma SignedTextIs(sp: Spec, g: Gathered, other: Renderer)
    requires sp.letter == 'd' || sp.letter == 'i'
    ensures TextOf(sp, g, other) == Printed(SignedDecimal, ConfigOf(sp, g.width, g.precision), g.raw, sp.modifier)
  {
    hide Printed;
    hide ConfigOf;
  }

  lemma DecimalSpells(x: nat, group: bool) returns (plain: string)
    ensures Spells(plain, x, 10) && DecimalText(x, group) == if group then Grouped(plain) else plain
  {
    plain := Numeral(x, 10, false);
    NumeralSpells(x, 10, false);
  }

  lemma PeriodIs(c: Config, digits: nat)
    ensures Period(c, digits) <= digits && digits - Period(c, digits) == Counted(c.group, digits)
  {
  }

  /** What `%d` and `%i` write; the smallest 64-bit number goes without separators. */
  lemma SignedText(sp: Spec, g: Gathered, other: Renderer) returns (p: Padding, x: int, digits: string, plain: string)
    requires (sp.letter == 'd' || sp.letter == 'i') && (sp.precision.None? ==> g.precision == 0)
    ensures TextOf(sp, g, other) == Field(p.before, Sign(x, sp.flags), p.zeros, digits, p.after)
    ensures Padded(sp, g.width, g.precision, p.before, |Sign(x, sp.flags)|, p.zeros, |digits|,
                   Counted(sp.flags.group, |digits|), p.after)
    ensures SizeOf(ModifierText(sp.modifier)) > 0 && IsSigned(x, g.raw, SizeOf(ModifierText(sp.modifier)))
    ensures Spells(plain, Magnitude(x), 10)
    ensures digits == if sp.flags.group && x != INT64_MIN then Grouped(plain) else plain
  {
    hide *;
    var c, f := ConfigOf(sp, g.width, g.precision), sp.flags;
    ConfigIs(sp, g.width, g.precision);
    SignedTextIs(sp, g, other);
    p, x, digits := SignedPrinted(c, g.raw, sp.modifier, f);
    plain := DecimalSpells(Magnitude(x), f.group && x != INT64_MIN);
    ModulusIsSize(sp.modifier);
    SignedIsSigned(g.raw, sp.modifier);
    LaidIsField(p, Sign(x, f), digits);
    PeriodIs(c, |digits|);
    PaddingIs(sp, g.width, g.precision, |Sign(x, f)|, |digits|, Period(c, |digits|));
  }

  /**
   * What an integer conversion prints, from format and arguments to text: a field with `prefix`, zeros and
   * `digits`, where `plain` is the number without separators and `x` the argument as a signed number.
   */
  lemma PrintsInteger(sp: Spec, list: seq<nat>, current: nat, other: Renderer)
    returns (p: Padding, prefix: string, digits: string, plain: string, x: int)
    requires Renderable(sp) && sp.letter in "diubBoOxX" && CanGather(sp, list, current)
    requires sp.letter in "bB" ==> Gather(sp, list, current).raw % SizeOf(ModifierText(sp.modifier)) < TWO32
    ensures Supplied("%" + Render(sp, ""), list, current)
    ensures Output("%" + Render(sp, ""), list, current, other) == Field(p.before, prefix, p.zeros, digits, p.after)
    ensures var g, group := Gather(sp, list, current), sp.flags.group && sp.letter in "diu";
            Padded(sp, g.width, g.precision, p.before, |prefix|, p.zeros, |digits|, Counted(group, |digits|), p.after)
    ensures var raw, size := Gather(sp, list, current).raw, SizeOf(ModifierText(sp.modifier));
            && (sp.letter in "bBoOxX" ==> Spells(digits, raw % size, BaseOf(sp.letter)))
            && (sp.letter == 'u' ==> Spells(plain, raw % size, 10))
            && (sp.letter in "di" ==> IsSigned(x, raw, size) && Spells(plain, Magnitude(x), 10))
    ensures sp.letter == 'x' ==> OneCase(digits, false)
    ensures sp.letter == 'X' ==> OneCase(digits, true)
    ensures sp.letter in "bBoOxX" ==> prefix == if sp.flags.alternate then ['0', sp.letter] else ""
    ensures sp.letter == 'u' ==> prefix == "" && digits == if sp.flags.group then Grouped(plain) else plain
    ensures sp.letter in "di" ==> prefix == Sign(x, sp.flags)
    ensures sp.letter in "di" ==> digits == if sp.flags.group && x != INT64_MIN then Grouped(plain) else plain
  {
    var g := Gather(sp, list, current);
    LettersAreIntegers(sp, g.raw);
    NoPrecision(sp, list, current);
    hide *;
    EndsHere("", list, g.current);
    OutputOfSpec(sp, "", list, current, other);
    assert TextOf(sp, g, other) + "" == TextOf(sp, g, other);
    p, prefix, digits, plain, x := TextIs(sp, g, other);
  }

  lemma TextIs(sp: Spec, g: Gathered, other: Renderer)
    returns (p: Padding, prefix: string, digits: string, plain: string, x: int)
    requires sp.letter in "diubBoOxX" && (sp.precision.None? ==> g.precision == 0)
    ensures TextOf(sp, g, other) == Field(p.before, prefix, p.zeros, digits, p.after)
    ensures var group := sp.flags.group && sp.letter in "diu";
            Padded(sp, g.width, g.precision, p.before, |prefix|, p.zeros, |digits|, Counted(group, |digits|), p.after)
    ensures var raw, size := g.raw, SizeOf(ModifierText(sp.modifier));
            && size > 0
            && (sp.letter in "bBoOxX" ==> Spells(digits, raw % size, BaseOf(sp.letter)))
            && (sp.letter == 'u' ==> Spells(plain, raw % size, 10))
            && (sp.letter in "di" ==> IsSigned(x, raw, size) && Spells(plain, Magnitude(x), 10))
    ensures sp.letter == 'x' ==> OneCase(digits, false)
    ensures sp.letter == 'X' ==> OneCase(digits, true)
    ensures sp.letter in "bBoOxX" ==> prefix == if sp.flags.alternate then ['0', sp.letter] else ""
    ensures sp.letter == 'u' ==> prefix == "" && digits == if sp.flags.group then Grouped(plain) else plain
    ensures sp.letter in "di" ==> prefix == Sign(x, sp.flags)
    ensures sp.letter in "di" ==> digits == if sp.flags.group && x != INT64_MIN then Grouped(plain) else plain
  {
    hide TextOf;
    hide Padded;
    hide Field;
    hide Spells;
    hide OneCase;
    hide IsSigned;
    hide Sign;
    hide Grouped;
    ModulusIsSize(sp.modifier);
    plain, x := "", 0;
    if sp.letter == 'u' {
      prefix := "";
      p, digits, plain := UnsignedText(sp, g, other);
    } else if sp.letter == 'd' || sp.letter == 'i' {
      p, x, digits, plain := SignedText(sp, g, other);
      prefix := Sign(x, sp.flags);
    } else {
      p, prefix, digits := RadixText(sp, g, other);
    }
  }

  lemma LettersAreIntegers(sp: Spec, raw: nat)
    requires sp.letter in "diubBoOxX"
    ensures IsInteger(sp.letter)
    ensures (sp.letter in "bB" ==> raw % SizeOf(ModifierText(sp.modifier)) < TWO32) ==>
              Printable(ConversionOf(sp.letter), raw, sp.modifier)
  {
    ModulusIsSize(sp.modifier);
  }

  lemma NoPrecision(sp: Spec, list: seq<nat>, current: nat)
    requires CanGather(sp, list, current)
    ensures sp.precision.None? ==> Gather(sp, list, current).precision == 0
  {
  }

  // ----- The arguments -----

  /** Where an amount comes from: written out, the next argument, or a numbered one; 32 bits of it are kept. */
  ghost function AmountAt(a: Amount, list: seq<nat>, next: nat): int {
    match a
    case Fixed(n) => n
    case FromArgument(k) =>
      var i: int := if k == 0 then next else k - 1;
      if 0 <= i < |list| then list[i] % TWO32 else -1
  }

  ghost function Uses(a: Amount): nat {
    if a == FromArgument(0) then 1 else 0
  }

  /** Width, precision and argument are taken in this order, each from the next place unless numbered. */
  lemma GatheredFrom(sp: Spec, list: seq<nat>, current: nat)
    requires CanGather(sp, list, current)
    ensures var g, w := Gather(sp, list, current), current + Uses(sp.width);
            var p := w + if sp.precision.Some? then Uses(sp.precision.value) else 0;
            && g.width == AmountAt(sp.width, list, current)
            && g.precision == (if sp.precision.Some? then AmountAt(sp.precision.value, list, w) else 0)
            && (sp.argument == 0 ==> p < |list| && g.raw == list[p] && g.current == p + 1)
            && (sp.argument > 0 ==> sp.argument <= |list| && g.raw == list[sp.argument - 1] && g.current == p)
  {
  }

  // ----- The format -----

  /** The letters that end a specification. */
  lemma ConversionLetters(c: char)
    ensures IsConversion(c) <==> c in "diubBoOxXaAfFeEgGcspn"
  {
  }

  /** Formats of up to 65536 characters are read whole. */
  lemma LimitedIs(format: string)
    ensures Limited(format) <= format && |Limited(format)| == if |format| < 0x1_0000 then |format| else 0x1_0000
  {
  }

  /** The flags with those added that letters ask for. */
  ghost function With(f: Flags, letters: string): Flags {
    Flags(f.alternate || '#' in letters, f.zero || '0' in letters, f.space || ' ' in letters,
          f.left || '-' in letters, f.plus || '+' in letters, f.group || '\'' in letters)
  }

  /** Flags in any order and number: each letter that occurs sets its flag. */
  lemma {:induction false} FlagLetters(f: Flags, letters: string, tail: string)
    requires forall i | 0 <= i < |letters| :: letters[i] in "#0 -+'"
    requires tail == "" || tail[0] !in "#0 -+'"
    ensures ParseFlags(f, letters + tail) == (With(f, letters), |letters|)
    decreases letters
  {
    hide ParseFlags;
    hide AddFlag;
    if letters == "" {
      assert letters + tail == tail;
      NoFlags(f, tail);
    } else {
      var s := letters + tail;
      assert s[0] == letters[0] && s[1..] == letters[1..] + tail;
      FlagsNext(f, s);
      OneFlag(f, letters[0], letters[1..]);
      assert letters == [letters[0]] + letters[1..];
      hide With;
      FlagLetters(AddFlag(f, letters[0]).value, letters[1..], tail);
    }
  }

  lemma OneFlag(f: Flags, c: char, rest: string)
    requires c in "#0 -+'"
    ensures AddFlag(f, c).Some? && With(AddFlag(f, c).value, rest) == With(f, [c] + rest)
  {
    assert forall x: char :: x in [c] + rest <==> x == c || x in rest;
  }

  lemma NoFlags(f: Flags, tail: string)
    requires tail == "" || tail[0] !in "#0 -+'"
    ensures ParseFlags(f, tail) == (f, 0) && With(f, "") == f
  {
  }

  lemma WrittenParses(sp: Spec, text: string)
    requires Renderable(sp) && Render(sp, "") == text
    ensures Parse(text) == Some((sp, |text|))
  {
    hide *;
    RenderParses(sp, "");
  }

  /** `%2$0-8.*lx`: argument 2, zero and minus flags, width 8, precision from an argument, long, hexadecimal. */
  lemma FormatExample()
    ensures var sp := Spec(2, Flags(false, true, false, true, false, false), Fixed(8), Some(FromArgument(0)), Long, 'x');
            var text := "2$0-8.*lx";
            Parse(text) == Some((sp, |text|))
  {
    var sp := Spec(2, Flags(false, true, false, true, false, false), Fixed(8), Some(FromArgument(0)), Long, 'x');
    ExampleText(sp);
    hide *;
    WrittenParses(sp, "2$0-8.*lx");
  }

  /** `%+*3$.4hhd`: plus flag, width from argument 3, precision 4, a signed char. */
  lemma NumberedExample()
    ensures var sp := Spec(0, Flags(false, false, false, false, true, false), FromArgument(3), Some(Fixed(4)), ShortShort, 'd');
            var text := "+*3$.4hhd";
            Parse(text) == Some((sp, |text|))
  {
    var sp := Spec(0, Flags(false, false, false, false, true, false), FromArgument(3), Some(Fixed(4)), ShortShort, 'd');
    NumberedText(sp);
    hide *;
    WrittenParses(sp, "+*3$.4hhd");
  }

  lemma NumberedText(sp: Spec)
    requires sp == Spec(0, Flags(false, false, false, false, true, false), FromArgument(3), Some(Fixed(4)), ShortShort, 'd')
    ensures Renderable(sp) && Render(sp, "") == "+*3$.4hhd"
  {
    assert FromModifier(sp, "") == "hhd";
    assert NumberText(4) == "4" && NumberText(3) == "3";
    hide NumberText;
    assert FromPrecision(sp, "") == ".4hhd";
    hide FromPrecision;
    assert FromWidth(sp, "") == "*3$.4hhd";
  }

  lemma ExampleText(sp: Spec)
    requires sp == Spec(2, Flags(false, true, false, true, false, false), Fixed(8), Some(FromArgument(0)), Long, 'x')
    ensures Renderable(sp) && Render(sp, "") == "2$0-8.*lx"
  {
    assert FromModifier(sp, "") == "lx";
    assert FromPrecision(sp, "") == ".*lx";
    assert NumberText(8) == "8" && NumberText(2) == "2";
    hide NumberText;
    assert FromWidth(sp, "") == "8.*lx";
    hide FromWidth;
    assert FromFlags(sp, "") == "0-8.*lx";
  }

  /** Text without percent signs is printed as it is. */
  lemma {:induction false} PlainText(text: string, tail: string, list: seq<nat>, current: nat, other: Renderer)
    requires '%' !in text && '\0' !in text && Supplied(tail, list, current)
    ensures Supplied(text + tail, list, current)
    ensures Output(text + tail, list, current, other) == text + Output(tail, list, current, other)
    decreases text
  {
    hide Parse;
    if text == "" {
      assert text + tail == tail;
    } else {
      var s := text + tail;
      assert s[0] == text[0] && s[1..] == text[1..] + tail;
      PlainText(text[1..], tail, list, current, other);
      assert text == [text[0]] + text[1..];
    }
  }

  /** Two percent signs print one, and so does one at the very end or one that starts no specification. */
  lemma PercentSigns(tail: string, list: seq<nat>, current: nat, other: Renderer)
    requires Supplied(tail, list, current)
    ensures Supplied("%%" + tail, list, current)
    ensures Output("%%" + tail, list, current, other) == "%" + Output(tail, list, current, other)
    ensures Supplied("%", list, current) && Output("%", list, current, other) == "%"
    ensures tail != "" && tail[0] != '%' && tail[0] != '\0' && Parse(tail) == None ==>
              Supplied("%" + tail, list, current)
              && Output("%" + tail, list, current, other) == "%" + Output(tail, list, current, other)
  {
    hide Parse;
    assert ("%%" + tail)[2..] == tail && ("%" + tail)[1..] == tail;
  }
}
