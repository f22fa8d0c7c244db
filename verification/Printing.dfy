/** The integer side of the printing engine: sign or prefix, padding, precision and grouping. */
module Printing {
  import opened Basics
  import opened Numerals
  import opened Convert
  import opened OutputBuffer

  datatype Radix = Binary | Octal | Hex

  /** Flags, width and precision of one conversion, after the parser has settled conflicts. */
  datatype Config = Config(alternate: bool, zero: bool, space: bool, left: bool, plus: bool,
                           upper: bool, group: bool, width: nat, precision: nat)

  /** What the parser guarantees: `0` yields to `-` and to a precision, and ` ` yields to `+`. */
  predicate Settled(c: Config) {
    && (c.zero ==> !c.left && c.precision == 0)
    && !(c.space && c.plus)
  }

  function Minus(a: nat, b: nat): nat {
    if a > b then a - b else 0
  }

  function Spaces(n: nat): (s: string)
    ensures |s| == n && forall i | 0 <= i < n :: s[i] == ' '
  {
    Repeat(' ', n)
  }

  /** Blanks before, zeros after the prefix, blanks after. `period` is what grouping takes off the digit count. */
  datatype Padding = Padding(before: nat, zeros: nat, after: nat)

  function PaddingFor(c: Config, prefix: nat, digits: nat, period: nat): Padding
    requires period <= digits
  {
    var zeros := Minus(c.precision, digits - period);
    var core := prefix + zeros + digits;
    if c.left then Padding(0, zeros, Minus(c.width, core))
    else if c.width > Max(c.precision, digits) then
      if c.zero then Padding(0, Minus(c.width, prefix + digits), 0) else Padding(Minus(c.width, core), zeros, 0)
    else Padding(0, zeros, 0)
  }

  function Laid(p: Padding, prefix: string, digits: string): string {
    Spaces(p.before) + prefix + Zeros(p.zeros) + digits + Spaces(p.after)
  }

  /** The blank flag turns a plus sign into a blank. */
  function SignOf(c: Config, text: string): string {
    if text == [] || (text[0] != '-' && text[0] != '+') then []
    else if c.space && text[0] == '+' then " "
    else [text[0]]
  }

  function DigitsOf(text: string): string {
    if text == [] || (text[0] != '-' && text[0] != '+') then text else text[1..]
  }

  /** Separators the formatter believes the digits contain. */
  function Period(c: Config, digits: nat): (p: nat)
    ensures p <= digits
  {
    if c.group && digits > 0 then (digits - 1) / 3 else 0
  }

  /** A signed or unsigned decimal conversion. */
  function FormatDecimal(c: Config, text: string): string {
    var sign, digits := SignOf(c, text), DigitsOf(text);
    Laid(PaddingFor(c, |sign|, |digits|, Period(c, |digits|)), sign, digits)
  }

  function PrefixOf(c: Config, radix: Radix): string {
    if !c.alternate then []
    else
      match radix
      case Binary => if c.upper then "0B" else "0b"
      case Octal => if c.upper then "0O" else "0o"
      case Hex => if c.upper then "0X" else "0x"
  }

  /** A binary, octal or hexadecimal conversion. */
  function FormatRadix(c: Config, radix: Radix, digits: string): string {
    var prefix := PrefixOf(c, radix);
    Laid(PaddingFor(c, |prefix|, |digits|, 0), prefix, digits)
  }

  // ----- Lengths -----

  /** Without grouping the text is as wide as asked, or its sign and digits up to the precision. */
  lemma PaddedLength(c: Config, prefix: string, digits: string)
    requires Settled(c)
    ensures |Laid(PaddingFor(c, |prefix|, |digits|, 0), prefix, digits)|
         == Max(c.width, |prefix| + Max(c.precision, |digits|))
  {
  }

  /** Separators in a grouped numeral of `d` digits. */
  function Separators(d: nat): nat
    requires d > 0
  {
    (d - 1) / 3
  }

  /** The formatter counts the separators right for numerals of up to five digits and of seven. */
  lemma SeparatorsCounted(d: nat)
    requires d > 0
    ensures (d + Separators(d) - 1) / 3 == Separators(d) <==> d <= 5 || d == 7
  {
    if d > 7 {
      assert Separators(d) >= 2;
    }
  }

  /**
   * A grouped numeral gets the zeros its precision asks for exactly when the separators are counted
   * right or the precision asks for no more digits than the formatter counts.
   */
  lemma GroupedPrecision(c: Config, sign: nat, digits: string)
    requires c.group && digits != [] && Settled(c)
    requires c.left || !c.zero
    ensures var text := Grouped(digits);
            var period := Period(c, |text|);
            PaddingFor(c, sign, |text|, period).zeros == Minus(c.precision, |digits|) <==>
              |digits| <= 5 || |digits| == 7 || c.precision <= |text| - period
  {
    SeparatorsCounted(|digits|);
    var text := Grouped(digits);
    assert |text| == |digits| + Separators(|digits|);
    assert Period(c, |text|) >= Separators(|digits|);
  }

  // ----- The formatters -----

  /** The pieces in the order they are written. */
  lemma Assembled(was: string, p: Padding, prefix: string, digits: string)
    ensures was + Repeat(' ', p.before) + prefix + Repeat('0', p.zeros) + digits + Repeat(' ', p.after)
         == was + Laid(p, prefix, digits)
    ensures p.before == 0 ==> was + Repeat(' ', p.before) == was
    ensures p.after == 0 ==> forall s: string :: s + Repeat(' ', p.after) == s
    ensures |Laid(p, prefix, digits)| == p.before + |prefix| + p.zeros + |digits| + p.after
  {
    assert Repeat('0', p.zeros) == Zeros(p.zeros);
  }

  lemma AssembledLeft(was: string, p: Padding, prefix: string, digits: string)
    requires p.before == 0
    ensures was + prefix + Repeat('0', p.zeros) + digits + Repeat(' ', p.after) == was + Laid(p, prefix, digits)
    ensures |Laid(p, prefix, digits)| == |prefix| + p.zeros + |digits| + p.after
  {
    assert Repeat('0', p.zeros) == Zeros(p.zeros);
  }

  /** Left-justified: prefix, zeros up to the precision, digits, then blanks. */
  method PrintLeft(c: Config, buffer: Buffer, prefix: string, digits: string, period: nat) returns (result: nat)
    requires buffer.Valid() && c.left && period <= |digits|
    modifies buffer, buffer.data
    ensures buffer.Valid() && (buffer.data == old(buffer.data) || fresh(buffer.data))
    ensures buffer.Contents() == old(buffer.Contents()) + Laid(PaddingFor(c, |prefix|, |digits|, period), prefix, digits)
    ensures result == |Laid(PaddingFor(c, |prefix|, |digits|, period), prefix, digits)|
  {
    hide Laid;
    hide Repeat;
    ghost var p := PaddingFor(c, |prefix|, |digits|, period);
    AssembledLeft(buffer.Contents(), p, prefix, digits);
    buffer.WriteN(prefix);
    var zeros := buffer.Fill('0', |digits| - period, c.precision);
    buffer.WriteN(digits);
    result := buffer.Fill(' ', zeros + period + |prefix|, c.width);
  }

  /** Zeros up to the width, between prefix and digits. */
  method PrintZeroPadded(c: Config, buffer: Buffer, prefix: string, digits: string, period: nat) returns (result: nat)
    requires buffer.Valid() && !c.left && c.zero && c.width > Max(c.precision, |digits|) && period <= |digits|
    modifies buffer, buffer.data
    ensures buffer.Valid() && (buffer.data == old(buffer.data) || fresh(buffer.data))
    ensures buffer.Contents() == old(buffer.Contents()) + Laid(PaddingFor(c, |prefix|, |digits|, period), prefix, digits)
    ensures result == |Laid(PaddingFor(c, |prefix|, |digits|, period), prefix, digits)|
  {
    hide Laid;
    hide Repeat;
    Assembled(buffer.Contents(), PaddingFor(c, |prefix|, |digits|, period), prefix, digits);
    buffer.WriteN(prefix);
    result := buffer.Fill('0', |prefix| + |digits|, c.width);
    buffer.WriteN(digits);
  }

  /** Blanks up to the width, then prefix, zeros up to the precision and digits. */
  method PrintRight(c: Config, buffer: Buffer, prefix: string, digits: string, period: nat) returns (result: nat)
    requires buffer.Valid() && !c.left && !c.zero && c.width > Max(c.precision, |digits|) && period <= |digits|
    modifies buffer, buffer.data
    ensures buffer.Valid() && (buffer.data == old(buffer.data) || fresh(buffer.data))
    ensures buffer.Contents() == old(buffer.Contents()) + Laid(PaddingFor(c, |prefix|, |digits|, period), prefix, digits)
    ensures result == |Laid(PaddingFor(c, |prefix|, |digits|, period), prefix, digits)|
  {
    hide Laid;
    hide Repeat;
    ghost var was, p := buffer.Contents(), PaddingFor(c, |prefix|, |digits|, period);
    Assembled(was, p, prefix, digits);
    var count := Max(c.precision, |digits| - period) + |prefix| + period;
    assert p.after == 0 && p.zeros == Minus(c.precision, |digits| - period) && p.before == Minus(c.width, count);
    hide PaddingFor;
    result := buffer.Fill(' ', count, c.width);
    assert buffer.Contents() == was + Repeat(' ', p.before);
    buffer.WriteN(prefix);
    var _ := buffer.Fill('0', |digits| - period, c.precision);
    assert buffer.Contents() == was + Repeat(' ', p.before) + prefix + Repeat('0', p.zeros);
    buffer.WriteN(digits);
  }

  /** The text is as wide as asked already: prefix, zeros up to the precision and digits. */
  method PrintNarrow(c: Config, buffer: Buffer, prefix: string, digits: string, period: nat) returns (result: nat)
    requires buffer.Valid() && !c.left && c.width <= Max(c.precision, |digits|) && period <= |digits|
    modifies buffer, buffer.data
    ensures buffer.Valid() && (buffer.data == old(buffer.data) || fresh(buffer.data))
    ensures buffer.Contents() == old(buffer.Contents()) + Laid(PaddingFor(c, |prefix|, |digits|, period), prefix, digits)
    ensures result == |Laid(PaddingFor(c, |prefix|, |digits|, period), prefix, digits)|
  {
    hide Laid;
    hide Repeat;
    ghost var p := PaddingFor(c, |prefix|, |digits|, period);
    AssembledLeft(buffer.Contents(), p, prefix, digits);
    buffer.WriteN(prefix);
    var zeros := buffer.Fill('0', |digits| - period, c.precision);
    buffer.WriteN(digits);
    result := zeros + period + |prefix|;
  }

  /** Writes one formatted number and returns how many characters that took. */
  method PrintNumber(c: Config, buffer: Buffer, prefix: string, digits: string, period: nat) returns (result: nat)
    requires buffer.Valid() && period <= |digits|
    modifies buffer, buffer.data
    ensures buffer.Valid() && (buffer.data == old(buffer.data) || fresh(buffer.data))
    ensures buffer.Contents() == old(buffer.Contents()) + Laid(PaddingFor(c, |prefix|, |digits|, period), prefix, digits)
    ensures result == |Laid(PaddingFor(c, |prefix|, |digits|, period), prefix, digits)|
  {
    hide Laid;
    hide PaddingFor;
    if c.left {
      result := PrintLeft(c, buffer, prefix, digits, period);
    } else if c.width > Max(c.precision, |digits|) {
      if c.zero {
        result := PrintZeroPadded(c, buffer, prefix, digits, period);
      } else {
        result := PrintRight(c, buffer, prefix, digits, period);
      }
    } else {
      result := PrintNarrow(c, buffer, prefix, digits, period);
    }
  }

  /** A decimal conversion of a signed or unsigned number already turned into text. */
  method PrintDecimal(c: Config, buffer: Buffer, text: string) returns (result: nat)
    requires buffer.Valid()
    modifies buffer, buffer.data
    ensures buffer.Valid() && (buffer.data == old(buffer.data) || fresh(buffer.data))
    ensures buffer.Contents() == old(buffer.Contents()) + FormatDecimal(c, text)
    ensures result == |FormatDecimal(c, text)|
  {
    hide Laid;
    hide PaddingFor;
    var digits := DigitsOf(text);
    result := PrintNumber(c, buffer, SignOf(c, text), digits, Period(c, |digits|));
  }

  /** A binary, octal or hexadecimal conversion of digits already produced. */
  method PrintRadix(c: Config, radix: Radix, buffer: Buffer, digits: string) returns (result: nat)
    requires buffer.Valid()
    modifies buffer, buffer.data
    ensures buffer.Valid() && (buffer.data == old(buffer.data) || fresh(buffer.data))
    ensures buffer.Contents() == old(buffer.Contents()) + FormatRadix(c, radix, digits)
    ensures result == |FormatRadix(c, radix, digits)|
  {
    hide Laid;
    hide PaddingFor;
    result := PrintNumber(c, buffer, PrefixOf(c, radix), digits, 0);
  }
}
