/** Conversion specifications of the printing engine: how they are parsed, and that rendering one parses back. */
module Specifiers {
  import opened Basics
  import opened Numerals
  import opened Readers
  import opened Printing
  import opened Scanning

  /** A width or precision: written out, or taken from an argument (0 is the next one). */
  datatype Amount = Fixed(n: nat) | FromArgument(index: nat)

  datatype Flags = Flags(alternate: bool, zero: bool, space: bool, left: bool, plus: bool, group: bool)

  datatype Spec = Spec(argument: nat, flags: Flags, width: Amount, precision: Option<Amount>,
                       modifier: Modifier, letter: char)

  const NO_FLAGS := Flags(false, false, false, false, false, false)

  /** The letters the engine has a conversion for. */
  predicate IsConversion(c: char) {
    || c == 'i' || c == 'd' || c == 'u' || c == 'b' || c == 'B' || c == 'o' || c == 'O' || c == 'x' || c == 'X'
    || c == 'a' || c == 'A' || c == 'f' || c == 'F' || c == 'e' || c == 'E' || c == 'g' || c == 'G'
    || c == 'c' || c == 's' || c == 'p' || c == 'n'
  }

  /** A decimal number at the start of `s`, wrapping at 32 bits, and its length. */
  function ParseNumber(s: string): (r: (nat, nat))
    ensures r.1 <= |s|
  {
    var n := DigitRun(s, 10);
    (Wrap32(Value(s[..n], 10)), n)
  }

  /** The argument number, when digits other than zero and a `$` come first. */
  function ParseArgument(s: string): (r: (nat, nat))
    ensures r.1 <= |s|
  {
    var (index, n) := ParseNumber(s);
    if index != 0 && At(s, n) == '$' then (index, n + 1) else (0, 0)
  }

  function AddFlag(f: Flags, c: char): Option<Flags> {
    if c == '#' then Some(f.(alternate := true))
    else if c == '0' then Some(f.(zero := true))
    else if c == ' ' then Some(f.(space := true))
    else if c == '-' then Some(f.(left := true))
    else if c == '+' then Some(f.(plus := true))
    else if c == '\'' then Some(f.(group := true))
    else None
  }

  function ParseFlags(f: Flags, s: string): (r: (Flags, nat))
    ensures r.1 <= |s|
    decreases s
  {
    if s == [] || AddFlag(f, s[0]).None? then (f, 0)
    else
      var (g, n) := ParseFlags(AddFlag(f, s[0]).value, s[1..]);
      (g, n + 1)
  }

  /** A width or precision. Digits after `*` that no `$` follows are passed over. */
  function ParseAmount(s: string): (r: (Amount, nat))
    ensures r.1 <= |s|
  {
    if At(s, 0) == '*' then
      var (index, n) := ParseNumber(s[1..]);
      if At(s, n + 1) == '$' then (FromArgument(index), n + 2) else (FromArgument(0), n + 1)
    else
      var (k, n) := ParseNumber(s);
      (Fixed(k), n)
  }

  function ParseModifier(s: string): (r: (Modifier, nat))
    ensures r.1 <= |s|
  {
    match At(s, 0)
    case 'h' => if At(s, 1) == 'h' then (ShortShort, 2) else (Short, 1)
    case 'l' => if At(s, 1) == 'l' then (LongLong, 2) else (Long, 1)
    case 'L' => (LongDouble, 1)
    case 'j' => (IntMax, 1)
    case 'z' => (Size, 1)
    case 't' => (PtrDiff, 1)
    case _ => (NoModifier, 0)
  }

  /** A precision after its dot, or none. */
  function ParsePrecision(s: string): (r: (Option<Amount>, nat))
    ensures r.1 <= |s|
  {
    if At(s, 0) != '.' then (None, 0)
    else
      var (amount, n) := ParseAmount(s[1..]);
      (Some(amount), n + 1)
  }

  /** Argument number, flags and width, and where they end. */
  function ParseHead(s: string): (r: (nat, Flags, Amount, nat))
    ensures r.3 <= |s|
  {
    var (argument, a) := ParseArgument(s);
    var (flags, b) := ParseFlags(NO_FLAGS, s[a..]);
    var (width, c) := ParseAmount(s[a + b..]);
    (argument, flags, width, a + b + c)
  }

  /** The specification after a `%` and its length, or nothing when no conversion letter ends it. */
  function Parse(s: string): (r: Option<(Spec, nat)>)
    ensures r.Some? ==> 0 < r.value.1 <= |s| && IsConversion(r.value.0.letter)
  {
    var (argument, flags, width, p) := ParseHead(s);
    var (precision, d) := ParsePrecision(s[p..]);
    var (modifier, e) := ParseModifier(s[p + d..]);
    var letter := At(s, p + d + e);
    if IsConversion(letter)
    then Some((Spec(argument, flags, width, precision, modifier, letter), p + d + e + 1))
    else None
  }

  // ----- Rendering -----

  function NumberText(n: nat): string {
    if n == 0 then "" else Numeral(n, 10, false)
  }

  function AmountText(a: Amount): string {
    match a
    case Fixed(n) => NumberText(n)
    case FromArgument(k) => if k == 0 then "*" else "*" + NumberText(k) + "$"
  }

  /** `rest` with a flag in front of it or not. */
  function Flagged(on: bool, c: char, rest: string): (s: string)
    ensures |s| == |rest| + (if on then 1 else 0)
  {
    if on then [c] + rest else rest
  }

  /** The flags of a specification and what follows them. */
  function FlagsThen(f: Flags, rest: string): string {
    Flagged(f.alternate, '#', Flagged(f.zero, '0', Flagged(f.space, ' ',
      Flagged(f.left, '-', Flagged(f.plus, '+', Flagged(f.group, '\'', rest))))))
  }

  function ModifierText(m: Modifier): string {
    match m
    case NoModifier => ""
    case ShortShort => "hh"
    case Short => "h"
    case Long => "l"
    case LongLong => "ll"
    case IntMax => "j"
    case Size => "z"
    case PtrDiff => "t"
    case LongDouble => "L"
  }

  function PrecisionText(p: Option<Amount>): string {
    if p.Some? then "." + AmountText(p.value) else ""
  }

  predicate Small(a: Amount) {
    match a
    case Fixed(n) => n < TWO32
    case FromArgument(k) => k < TWO32
  }

  predicate Renderable(sp: Spec) {
    && sp.argument < TWO32 && Small(sp.width) && (sp.precision.Some? ==> Small(sp.precision.value))
    && IsConversion(sp.letter)
  }

  // ----- Rendering parses back -----

  lemma NumberParses(n: nat, tail: string)
    requires n < TWO32 && (tail == [] || !IsDigit(tail[0], 10))
    ensures ParseNumber(NumberText(n) + tail) == (n, |NumberText(n)|)
    ensures DigitRun(NumberText(n) + tail, 10) == |NumberText(n)|
  {
    hide Value;
    hide DigitRun;
    var text := NumberText(n);
    if n == 0 {
      DigitRunOf([], tail, 10);
      ValueOfNothing();
    } else {
      ValueOfNumeral(n, 10, false);
      DigitRunOf(text, tail, 10);
    }
  }

  /** What may follow a width or a precision. */
  ghost predicate AfterAmount(tail: string) {
    tail != [] && !IsDigit(tail[0], 10) && tail[0] != '$' && tail[0] != '*'
  }

  lemma NumberStarts(n: nat)
    ensures n > 0 ==> NumberText(n) != [] && IsDigit(NumberText(n)[0], 10) && NumberText(n)[0] != '0'
  {
    if n > 0 {
      hide Value;
      ValueOfNumeral(n, 10, false);
      FirstDigit(n);
    }
  }

  lemma {:induction false} FirstDigit(n: nat)
    requires n > 0
    ensures Numeral(n, 10, false)[0] != '0'
    decreases n
  {
    if n >= 10 {
      QuotientRemainder(n, 10);
      FirstDigit(Quotient(n, 10));
    }
  }

  lemma FixedParses(n: nat, tail: string)
    requires n < TWO32 && AfterAmount(tail)
    ensures ParseAmount(NumberText(n) + tail) == (Fixed(n), |NumberText(n)|)
  {
    hide ParseNumber;
    hide NumberText;
    NumberParses(n, tail);
    NumberStarts(n);
    NumberTextOfZero();
    var s := NumberText(n) + tail;
    assert At(s, 0) == if n == 0 then tail[0] else NumberText(n)[0];
  }

  lemma NextParses(tail: string)
    requires AfterAmount(tail)
    ensures ParseAmount("*" + tail) == (FromArgument(0), 1)
  {
    hide ParseNumber;
    hide NumberText;
    NumberParses(0, tail);
    NumberTextOfZero();
    assert "" + tail == tail;
    var s := "*" + tail;
    assert s[1..] == tail && At(s, 1) == tail[0];
  }

  lemma NumberedParses(k: nat, tail: string)
    requires 0 < k < TWO32
    ensures ParseAmount("*" + NumberText(k) + "$" + tail) == (FromArgument(k), |NumberText(k)| + 2)
  {
    hide ParseNumber;
    hide NumberText;
    NumberParses(k, "$" + tail);
    var s := "*" + NumberText(k) + "$" + tail;
    assert s[1..] == NumberText(k) + ("$" + tail);
    assert At(s, |NumberText(k)| + 1) == '$';
  }

  lemma AmountParses(a: Amount, tail: string)
    requires Small(a) && AfterAmount(tail)
    ensures ParseAmount(AmountText(a) + tail) == (a, |AmountText(a)|)
  {
    hide ParseAmount;
    hide NumberText;
    match a
    case Fixed(n) => FixedParses(n, tail);
    case FromArgument(k) =>
      if k == 0 {
        NextParses(tail);
      } else {
        NumberedParses(k, tail);
      }
  }

  lemma NumberTextOfZero()
    ensures NumberText(0) == ""
  {
  }

  lemma FlagStep(f: Flags, c: char, s: string)
    requires AddFlag(f, c).Some?
    ensures var r := ParseFlags(AddFlag(f, c).value, s);
            ParseFlags(f, [c] + s) == (r.0, r.1 + 1)
  {
    assert ([c] + s)[1..] == s;
  }

  /** One flag, present or not. */
  lemma MaybeFlag(f: Flags, f': Flags, on: bool, c: char, s: string, last: Flags, n: nat)
    requires AddFlag(f, c).Some? && f' == (if on then AddFlag(f, c).value else f)
    requires ParseFlags(f', s) == (last, n)
    ensures ParseFlags(f, Flagged(on, c, s)) == (last, n + if on then 1 else 0)
  {
    hide ParseFlags;
    if on {
      FlagStep(f, c, s);
    }
  }

  /** No flag can start the text. */
  ghost predicate AfterFlags(tail: string) {
    tail == [] || AddFlag(NO_FLAGS, tail[0]).None?
  }

  lemma FlaggedEnd(on: bool, c: char, rest: string, tail: string)
    requires IsEnd(tail, rest)
    ensures IsEnd(tail, Flagged(on, c, rest))
  {
    var s := Flagged(on, c, rest);
    assert s[|s| - |rest|..] == rest;
    assert s[|s| - |tail|..] == s[|s| - |rest|..][|rest| - |tail|..];
  }

  lemma FlagsEnd(f: Flags, tail: string)
    ensures IsEnd(tail, FlagsThen(f, tail))
  {
    hide Flagged;
    hide IsEnd;
    var e := Flagged(f.group, '\'', tail);
    var d := Flagged(f.plus, '+', e);
    var c := Flagged(f.left, '-', d);
    var b := Flagged(f.space, ' ', c);
    var a := Flagged(f.zero, '0', b);
    EndOfItself(tail);
    FlaggedEnd(f.group, '\'', tail, tail);
    FlaggedEnd(f.plus, '+', e, tail);
    FlaggedEnd(f.left, '-', d, tail);
    FlaggedEnd(f.space, ' ', c, tail);
    FlaggedEnd(f.zero, '0', b, tail);
    FlaggedEnd(f.alternate, '#', a, tail);
  }

  lemma EndOfItself(s: string)
    ensures IsEnd(s, s)
  {
    assert s[0..] == s;
  }

  /** The flags from the fourth on. */
  lemma LastFlagsParse(f: Flags, g: Flags, tail: string)
    requires AfterFlags(tail) && g == Flags(f.alternate, f.zero, f.space, false, false, false)
    ensures var s := Flagged(f.left, '-', Flagged(f.plus, '+', Flagged(f.group, '\'', tail)));
            |s| >= |tail| && ParseFlags(g, s) == (f, |s| - |tail|)
  {
    assert ParseFlags(f, tail) == (f, 0);
    hide ParseFlags;
    hide Flagged;
    var c := Flagged(f.group, '\'', tail);
    var b := Flagged(f.plus, '+', c);
    var f2 := Flags(f.alternate, f.zero, f.space, f.left, f.plus, false);
    var f1 := Flags(f.alternate, f.zero, f.space, f.left, false, false);
    MaybeFlag(f2, f, f.group, '\'', tail, f, 0);
    MaybeFlag(f1, f2, f.plus, '+', c, f, |c| - |tail|);
    MaybeFlag(g, f1, f.left, '-', b, f, |b| - |tail|);
  }

  lemma FlagsParse(f: Flags, tail: string)
    requires AfterFlags(tail)
    ensures var s := FlagsThen(f, tail);
            |s| >= |tail| && ParseFlags(NO_FLAGS, s) == (f, |s| - |tail|)
  {
    hide ParseFlags;
    hide Flagged;
    var g := Flags(f.alternate, f.zero, f.space, false, false, false);
    var d := Flagged(f.left, '-', Flagged(f.plus, '+', Flagged(f.group, '\'', tail)));
    LastFlagsParse(f, g, tail);
    var c := Flagged(f.space, ' ', d);
    var b := Flagged(f.zero, '0', c);
    var f2 := Flags(f.alternate, f.zero, false, false, false, false);
    var f1 := Flags(f.alternate, false, false, false, false, false);
    MaybeFlag(f2, g, f.space, ' ', d, f, |d| - |tail|);
    MaybeFlag(f1, f2, f.zero, '0', c, f, |c| - |tail|);
    MaybeFlag(NO_FLAGS, f1, f.alternate, '#', b, f, |b| - |tail|);
  }

  ghost predicate IsEnd(t: string, s: string) {
    |t| <= |s| && s[|s| - |t|..] == t
  }

  lemma LetterIsNoModifier(letter: char)
    requires IsConversion(letter)
    ensures letter != 'h' && letter != 'l' && letter != 'L' && letter != 'j' && letter != 'z' && letter != 't'
    ensures !IsDigit(letter, 10) && letter != '$' && letter != '*' && letter != '.' && letter != '\0'
    ensures AddFlag(NO_FLAGS, letter).None?
  {
  }

  lemma ModifierParses(m: Modifier, letter: char, tail: string)
    requires IsConversion(letter)
    ensures ParseModifier(ModifierText(m) + ([letter] + tail)) == (m, |ModifierText(m)|)
  {
    hide IsConversion;
    LetterIsNoModifier(letter);
    var text := ModifierText(m);
    var s := text + ([letter] + tail);
    assert At(s, |text|) == letter && (|text| > 0 ==> At(s, 0) == text[0]) && (|text| > 1 ==> At(s, 1) == text[1]);
  }

  // The text of a specification from each of its parts on.

  function FromModifier(sp: Spec, tail: string): string {
    ModifierText(sp.modifier) + ([sp.letter] + tail)
  }

  function FromPrecision(sp: Spec, tail: string): string {
    PrecisionText(sp.precision) + FromModifier(sp, tail)
  }

  function FromWidth(sp: Spec, tail: string): string {
    AmountText(sp.width) + FromPrecision(sp, tail)
  }

  function FromFlags(sp: Spec, tail: string): string {
    FlagsThen(sp.flags, FromWidth(sp, tail))
  }

  /** A specification and the text after it. */
  function Render(sp: Spec, tail: string): string {
    if sp.argument == 0 then FromFlags(sp, tail) else NumberText(sp.argument) + ("$" + FromFlags(sp, tail))
  }

  lemma ModifierStarts(sp: Spec, tail: string)
    requires Renderable(sp)
    ensures var s := FromModifier(sp, tail);
            AfterAmount(s) && s[0] != '.' && AddFlag(NO_FLAGS, s[0]).None?
  {
    LetterIsNoModifier(sp.letter);
    hide IsConversion;
  }

  lemma PrecisionStarts(sp: Spec, tail: string)
    requires Renderable(sp)
    ensures var s := FromPrecision(sp, tail);
            AfterAmount(s) && AddFlag(NO_FLAGS, s[0]).None?
  {
    ModifierStarts(sp, tail);
    hide IsConversion;
    hide AmountText;
    hide FromModifier;
  }

  /** A width starts with a digit other than zero or a `*`, or leaves the precision in front. */
  lemma WidthStarts(sp: Spec, tail: string)
    requires Renderable(sp)
    ensures var s := FromWidth(sp, tail);
            AfterFlags(s) && At(s, DigitRun(s, 10)) != '$'
  {
    hide IsConversion;
    hide FromPrecision;
    hide NumberText;
    hide DigitRun;
    PrecisionStarts(sp, tail);
    var s, rest := FromWidth(sp, tail), FromPrecision(sp, tail);
    match sp.width
    case Fixed(n) =>
      NumberParses(n, rest);
      NumberStarts(n);
      NumberTextOfZero();
      assert n == 0 ==> s == rest;
      assert At(s, |NumberText(n)|) == rest[0];
    case FromArgument(k) =>
      assert s[0] == '*';
      DigitRunOf([], s, 10);
      assert [] + s == s;
  }

  /** No `$` ends the digits in front. */
  ghost predicate Undollared(s: string) {
    At(s, DigitRun(s, 10)) != '$'
  }

  lemma FlagUndollared(on: bool, c: char, rest: string)
    requires AddFlag(NO_FLAGS, c).Some? && Undollared(rest)
    ensures Undollared(Flagged(on, c, rest))
  {
    if on {
      var s := [c] + rest;
      assert s[1..] == rest;
    }
  }

  lemma NoArgument(sp: Spec, tail: string)
    requires Renderable(sp)
    ensures ParseArgument(FromFlags(sp, tail)) == (0, 0)
  {
    hide FromWidth;
    hide Flagged;
    hide Renderable;
    hide DigitRun;
    WidthStarts(sp, tail);
    var f, w := sp.flags, FromWidth(sp, tail);
    var e := Flagged(f.group, '\'', w);
    var d := Flagged(f.plus, '+', e);
    var c := Flagged(f.left, '-', d);
    var b := Flagged(f.space, ' ', c);
    var a := Flagged(f.zero, '0', b);
    FlagUndollared(f.group, '\'', w);
    FlagUndollared(f.plus, '+', e);
    FlagUndollared(f.left, '-', d);
    FlagUndollared(f.space, ' ', c);
    FlagUndollared(f.zero, '0', b);
    FlagUndollared(f.alternate, '#', a);
  }

  lemma ArgumentParses(sp: Spec, tail: string)
    requires Renderable(sp)
    ensures var s, rest := Render(sp, tail), FromFlags(sp, tail);
            ParseArgument(s) == (sp.argument, |s| - |rest|) && IsEnd(rest, s)
  {
    hide FromFlags;
    hide NumberText;
    var rest := FromFlags(sp, tail);
    if sp.argument == 0 {
      NoArgument(sp, tail);
      EndOfItself(rest);
    } else {
      hide ParseNumber;
      NumberParses(sp.argument, "$" + rest);
      var s := Render(sp, tail);
      assert At(s, |NumberText(sp.argument)|) == '$';
      assert s[|s| - |rest|..] == rest;
    }
  }

  lemma FromFlagsParses(sp: Spec, tail: string)
    requires Renderable(sp)
    ensures var s, rest := FromFlags(sp, tail), FromWidth(sp, tail);
            ParseFlags(NO_FLAGS, s) == (sp.flags, |s| - |rest|) && IsEnd(rest, s)
  {
    hide FromWidth;
    WidthStarts(sp, tail);
    FlagsParse(sp.flags, FromWidth(sp, tail));
    FlagsEnd(sp.flags, FromWidth(sp, tail));
  }

  lemma FromWidthParses(sp: Spec, tail: string)
    requires Renderable(sp)
    ensures var s, rest := FromWidth(sp, tail), FromPrecision(sp, tail);
            ParseAmount(s) == (sp.width, |s| - |rest|) && IsEnd(rest, s)
  {
    hide FromPrecision;
    PrecisionStarts(sp, tail);
    AmountParses(sp.width, FromPrecision(sp, tail));
  }

  lemma FromPrecisionParses(sp: Spec, tail: string)
    requires Renderable(sp)
    ensures var s, rest := FromPrecision(sp, tail), FromModifier(sp, tail);
            ParsePrecision(s) == (sp.precision, |s| - |rest|) && IsEnd(rest, s)
  {
    hide FromModifier;
    hide ParseAmount;
    hide AmountText;
    ModifierStarts(sp, tail);
    var s, rest := FromPrecision(sp, tail), FromModifier(sp, tail);
    if sp.precision.Some? {
      AmountParses(sp.precision.value, rest);
      assert s[1..] == AmountText(sp.precision.value) + rest;
    }
  }

  lemma FromModifierParses(sp: Spec, tail: string)
    requires Renderable(sp)
    ensures var s := FromModifier(sp, tail);
            && |s| > |tail| && ParseModifier(s) == (sp.modifier, |s| - |tail| - 1)
            && At(s, |s| - |tail| - 1) == sp.letter
  {
    hide IsConversion;
    ModifierParses(sp.modifier, sp.letter, tail);
  }

  lemma EndAt(s: string, t: string, k: nat)
    requires IsEnd(t, s) && k <= |t|
    ensures |t| <= |s|
    ensures s[|s| - |t| + k..] == t[k..]
    ensures At(s, |s| - |t| + k) == At(t, k)
  {
    assert s[|s| - |t| + k..] == s[|s| - |t|..][k..];
  }

  lemma EndOfEnd(s: string, t: string, u: string)
    requires IsEnd(t, s) && IsEnd(u, t)
    ensures IsEnd(u, s)
  {
    EndAt(s, t, |t| - |u|);
  }

  /** Every specification the engine knows is parsed back from its text, whatever follows. */
  lemma RenderParses(sp: Spec, tail: string)
    requires Renderable(sp)
    ensures Parse(Render(sp, tail)) == Some((sp, |Render(sp, tail)| - |tail|))
  {
    hide Render;
    hide FromFlags;
    hide FromWidth;
    hide FromPrecision;
    hide FromModifier;
    hide IsEnd;
    hide At;
    hide ParseArgument;
    hide ParseFlags;
    hide ParseAmount;
    hide ParsePrecision;
    hide ParseModifier;
    hide IsConversion;
    var s, f, w := Render(sp, tail), FromFlags(sp, tail), FromWidth(sp, tail);
    var p, m := FromPrecision(sp, tail), FromModifier(sp, tail);
    ArgumentParses(sp, tail);
    FromFlagsParses(sp, tail);
    FromWidthParses(sp, tail);
    FromPrecisionParses(sp, tail);
    FromModifierParses(sp, tail);
    EndOfEnd(s, f, w);
    EndOfEnd(s, w, p);
    EndOfEnd(s, p, m);
    EndAt(s, f, 0);
    EndAt(s, w, 0);
    EndAt(s, p, 0);
    EndAt(s, m, 0);
    EndAt(s, m, |m| - |tail| - 1);
    assert f[0..] == f && w[0..] == w && p[0..] == p && m[0..] == m;
  }

  lemma RenderEnds(sp: Spec, tail: string)
    requires Renderable(sp)
    ensures IsEnd(tail, Render(sp, tail))
  {
    hide Render;
    hide FromFlags;
    hide FromWidth;
    hide FromPrecision;
    hide IsEnd;
    hide ParseArgument;
    hide ParseFlags;
    hide ParseAmount;
    hide ParsePrecision;
    hide IsConversion;
    hide ModifierText;
    var s, f, w := Render(sp, tail), FromFlags(sp, tail), FromWidth(sp, tail);
    var p, m := FromPrecision(sp, tail), FromModifier(sp, tail);
    ArgumentParses(sp, tail);
    FromFlagsParses(sp, tail);
    FromWidthParses(sp, tail);
    FromPrecisionParses(sp, tail);
    EndOfEnd(s, f, w);
    EndOfEnd(s, w, p);
    EndOfEnd(s, p, m);
    PlainEnd(ModifierText(sp.modifier) + [sp.letter], tail);
    assert m == ModifierText(sp.modifier) + [sp.letter] + tail;
    EndOfEnd(s, m, tail);
  }

  lemma PlainEnd(s: string, tail: string)
    ensures IsEnd(tail, s + tail)
  {
    assert (s + tail)[|s|..] == tail;
  }
}
