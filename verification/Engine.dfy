/** The printing and scanning engines at work: buffers, cursors, argument cache and format string together. */
module Engine {
  import opened Basics
  import opened Numerals
  import opened Convert
  import opened Readers
  import opened OutputBuffer
  import opened Printing
  import opened Scanning
  import opened GroupedScanning
  import opened Specifiers
  import Varargs

  // ----- Parsing a specification in place -----

  method TakeNumber(format: Cursor) returns (index: nat)
    requires format.Valid()
    modifies format`pos
    ensures format.Valid() && var (k, n) := ParseNumber(old(format.Rest()));
            index == k && format.pos == old(format.pos) + n && format.Rest() == old(format.Rest())[n..]
  {
    hide Value;
    hide DigitRun;
    ghost var all := format.Rest();
    index := 0;
    ghost var n := 0;
    ValueOfNothing();
    assert all[..0] == [] && all[0..] == all && Wrap32(0) == 0;
    hide Wrap32;
    while format.Peek(0) != '\0'
      invariant format.Valid() && n <= |all| && format.pos == old(format.pos) + n && format.Rest() == all[n..]
      invariant AllDigits(all[..n], 10) && index == Wrap32(Value(all[..n], 10))
      decreases |all| - n
    {
      var byte := format.Peek(0);
      if !('0' <= byte <= '9') {
        break;
      }
      DropAgain(all, n, 1);
      assert all[..n + 1] == all[..n] + [all[n]];
      NextOf32(all[..n], byte);
      index := Wrap32(index * 10 + (byte as int - '0' as int));
      format.Advance(1);
      n := n + 1;
    }
    assert all == all[..n] + all[n..];
    DigitRunOf(all[..n], all[n..], 10);
  }

  lemma NextOf32(s: string, c: char)
    requires AllDigits(s, 10) && '0' <= c <= '9'
    ensures AllDigits(s + [c], 10)
    ensures Wrap32(Value(s + [c], 10)) == Wrap32(Wrap32(Value(s, 10)) * 10 + (c as int - '0' as int))
  {
    ValueSnoc(s, c, 10);
    hide Value;
    Wrap32Step(Value(s, 10), c as int - '0' as int);
  }

  lemma Wrap32Step(v: nat, d: nat)
    ensures Wrap32(Wrap32(v) * 10 + d) == Wrap32(v * 10 + d)
  {
    var q, r := v / 0x1_0000_0000, v % 0x1_0000_0000;
    assert v * 10 + d == q * 10 * 0x1_0000_0000 + (r * 10 + d);
  }

  method TakeFlags(format: Cursor) returns (flags: Flags)
    requires format.Valid()
    modifies format`pos
    ensures format.Valid() && var (f, n) := ParseFlags(NO_FLAGS, old(format.Rest()));
            flags == f && format.pos == old(format.pos) + n && format.Rest() == old(format.Rest())[n..]
  {
    hide ParseFlags;
    hide AddFlag;
    ghost var all := format.Rest();
    flags := NO_FLAGS;
    ghost var n := 0;
    assert all[0..] == all;
    while format.Peek(0) != '\0'
      invariant format.Valid() && n <= |all| && format.pos == old(format.pos) + n && format.Rest() == all[n..]
      invariant var (f, k) := ParseFlags(NO_FLAGS, all);
                ParseFlags(flags, all[n..]) == (f, k - n)
      decreases |all| - n
    {
      var next := AddFlag(flags, format.Peek(0));
      DropAgain(all, n, 1);
      FlagsNext(flags, all[n..]);
      if next.None? {
        break;
      }
      flags := next.value;
      format.Advance(1);
      n := n + 1;
    }
    FlagsNext(flags, all[n..]);
  }

  lemma FlagsNext(f: Flags, s: string)
    ensures At(s, 0) == '\0' ==> ParseFlags(f, s) == (f, 0)
    ensures s != [] ==> ParseFlags(f, s) == match AddFlag(f, s[0])
                                            case None => (f, 0)
                                            case Some(g) => (ParseFlags(g, s[1..]).0, ParseFlags(g, s[1..]).1 + 1)
  {
  }

  method TakeArgument(format: Cursor) returns (index: nat)
    requires format.Valid()
    modifies format`pos
    ensures format.Valid() && var (k, n) := ParseArgument(old(format.Rest()));
            index == k && format.pos == old(format.pos) + n && format.Rest() == old(format.Rest())[n..]
  {
    hide ParseNumber;
    ghost var all := format.Rest();
    assert all[0..] == all;
    var pos := format.pos;
    index := TakeNumber(format);
    ghost var n := ParseNumber(all).1;
    assert At(all, n) == At(all[n..], 0);
    if index != 0 && format.Peek(0) == '$' {
      format.Advance(1);
      assert all[n..][1..] == all[n + 1..];
    } else {
      format.pos := pos;
      index := 0;
    }
  }

  method TakeAmount(format: Cursor) returns (amount: Amount)
    requires format.Valid()
    modifies format`pos
    ensures format.Valid() && var (a, n) := ParseAmount(old(format.Rest()));
            amount == a && format.pos == old(format.pos) + n && format.Rest() == old(format.Rest())[n..]
  {
    hide ParseNumber;
    ghost var all := format.Rest();
    if format.Peek(0) == '*' {
      format.Advance(1);
      var index := TakeNumber(format);
      ghost var n := ParseNumber(all[1..]).1;
      assert all[1..][n..] == all[n + 1..] && At(all, n + 1) == At(all[n + 1..], 0);
      if format.Peek(0) == '$' {
        format.Advance(1);
        assert all[n + 1..][1..] == all[n + 2..];
        return FromArgument(index);
      }
      return FromArgument(0);
    }
    var index := TakeNumber(format);
    return Fixed(index);
  }

  method TakeModifier(format: Cursor) returns (modifier: Modifier)
    requires format.Valid()
    modifies format`pos
    ensures format.Valid() && var (m, n) := ParseModifier(old(format.Rest()));
            modifier == m && format.pos == old(format.pos) + n && format.Rest() == old(format.Rest())[n..]
  {
    ghost var all := format.Rest();
    assert all[0..] == all;
    modifier := NoModifier;
    var byte := format.Peek(0);
    if byte == 'h' || byte == 'l' {
      format.Advance(1);
      assert format.Peek(0) == At(all, 1);
      if format.Peek(0) == byte {
        format.Advance(1);
        assert all[1..][1..] == all[2..];
        return if byte == 'h' then ShortShort else LongLong;
      }
      return if byte == 'h' then Short else Long;
    }
    if byte == 'L' || byte == 'j' || byte == 'z' || byte == 't' {
      format.Advance(1);
      modifier := if byte == 'L' then LongDouble else if byte == 'j' then IntMax else if byte == 'z' then Size else PtrDiff;
    }
  }

  /** Parses the specification at the cursor; without a conversion letter there is none. */
  method TakeSpec(format: Cursor) returns (sp: Option<Spec>)
    requires format.Valid()
    modifies format`pos
    ensures format.Valid() && (sp.Some? <==> Parse(old(format.Rest())).Some?)
    ensures sp.Some? ==> var n := Parse(old(format.Rest())).value.1;
            && sp.value == Parse(old(format.Rest())).value.0 && n <= |old(format.Rest())|
            && format.pos == old(format.pos) + n && format.Rest() == old(format.Rest())[n..]
  {
    hide Parse;
    hide IsConversion;
    hide At;
    hide Cursor.Rest;
    ghost var s := format.Rest();
    var body, e := TakeBody(format);
    var letter := format.Peek(0);
    PeekIs(s, e);
    if !IsConversion(letter) {
      return None;
    }
    LetterIsNoModifier(letter);
    AtNothing(s, e);
    format.Advance(1);
    DropTwice(s, e, 1);
    sp := Some(body.(letter := letter));
  }

  lemma PeekIs(s: string, e: nat)
    requires e <= |s|
    ensures At(s[e..], 0) == At(s, e)
  {
  }

  /** Everything before the letter; what it makes of the whole follows from the letter. */
  method TakeBody(format: Cursor) returns (body: Spec, ghost e: nat)
    requires format.Valid()
    modifies format`pos
    ensures format.Valid() && var s := old(format.Rest());
            && e <= |s| && format.pos == old(format.pos) + e && format.Rest() == s[e..]
            && Parse(s) == if IsConversion(At(s, e)) then Some((body.(letter := At(s, e)), e + 1))
                           else None
  {
    hide Parse;
    hide ParseHead;
    hide ParsePrecision;
    hide ParseModifier;
    hide IsConversion;
    hide At;
    hide Cursor.Rest;
    ghost var s := format.Rest();
    ghost var p := ParseHead(s).3;
    ghost var d := ParsePrecision(s[p..]).1;
    ghost var k := ParseModifier(s[p + d..]).1;
    ParseUnfolds(s, p, d, k);
    DropTwice(s, p, d);
    DropTwice(s, p + d, k);
    var argument, flags, width := TakeHead(format);
    var precision := TakePrecision(format);
    assert format.Rest() == s[p + d..];
    var modifier := TakeModifier(format);
    e := p + d + k;
    body := Spec(argument, flags, width, precision, modifier, '\0');
  }

  lemma ParseUnfolds(s: string, p: nat, d: nat, e: nat)
    requires p == ParseHead(s).3 && d == ParsePrecision(s[p..]).1 && e == ParseModifier(s[p + d..]).1
    ensures Parse(s) ==
            if IsConversion(At(s, p + d + e)) then
              Some((Spec(ParseHead(s).0, ParseHead(s).1, ParseHead(s).2, ParsePrecision(s[p..]).0,
                                    ParseModifier(s[p + d..]).0, At(s, p + d + e)), p + d + e + 1))
            else None
  {
    hide IsConversion;
    hide ParseHead;
    hide ParsePrecision;
    hide ParseModifier;
    hide At;
  }

  lemma AtNothing(s: string, k: nat)
    requires k <= |s| && At(s, k) != '\0'
    ensures k < |s| && |s[k..]| > 0
  {
  }

  method TakeLead(format: Cursor) returns (argument: nat, flags: Flags, ghost a: nat, ghost b: nat)
    requires format.Valid()
    modifies format`pos
    ensures format.Valid() && var s := old(format.Rest());
            && a == ParseArgument(s).1 && argument == ParseArgument(s).0
            && b == ParseFlags(NO_FLAGS, s[a..]).1 && flags == ParseFlags(NO_FLAGS, s[a..]).0
            && a + b <= |s| && format.pos == old(format.pos) + a + b && format.Rest() == s[a + b..]
  {
    hide ParseArgument;
    hide ParseFlags;
    hide Cursor.Rest;
    hide At;
    ghost var s := format.Rest();
    argument := TakeArgument(format);
    a := ParseArgument(s).1;
    flags := TakeFlags(format);
    b := ParseFlags(NO_FLAGS, s[a..]).1;
    DropTwice(s, a, b);
  }

  method TakeHead(format: Cursor) returns (argument: nat, flags: Flags, width: Amount)
    requires format.Valid()
    modifies format`pos
    ensures format.Valid() && var r := ParseHead(old(format.Rest()));
            && argument == r.0 && flags == r.1 && width == r.2
            && format.pos == old(format.pos) + r.3 && format.Rest() == old(format.Rest())[r.3..]
  {
    hide ParseArgument;
    hide ParseFlags;
    hide ParseAmount;
    hide ParseHead;
    hide Cursor.Rest;
    hide At;
    ghost var s := format.Rest();
    ghost var a, b;
    argument, flags, a, b := TakeLead(format);
    HeadUnfolds(s, a, b);
    ghost var rest := s[a + b..];
    width := TakeAmount(format);
    DropTwice(s, a + b, ParseAmount(rest).1);
  }

  lemma HeadUnfolds(s: string, a: nat, b: nat)
    requires a == ParseArgument(s).1 && b == ParseFlags(NO_FLAGS, s[a..]).1
    ensures var (width, c) := ParseAmount(s[a + b..]);
            ParseHead(s) == (ParseArgument(s).0, ParseFlags(NO_FLAGS, s[a..]).0, width, a + b + c)
  {
    hide ParseArgument;
    hide ParseFlags;
    hide ParseAmount;
  }

  method TakePrecision(format: Cursor) returns (precision: Option<Amount>)
    requires format.Valid()
    modifies format`pos
    ensures format.Valid() && var (p, n) := ParsePrecision(old(format.Rest()));
            precision == p && format.pos == old(format.pos) + n && format.Rest() == old(format.Rest())[n..]
  {
    hide ParseAmount;
    ghost var s := format.Rest();
    precision := None;
    assert s[0..] == s;
    if format.Peek(0) == '.' {
      format.Advance(1);
      var amount := TakeAmount(format);
      DropTwice(s, 1, ParseAmount(s[1..]).1);
      precision := Some(amount);
    }
  }

  lemma DropTwice(s: string, a: nat, b: nat)
    requires a + b <= |s|
    ensures s[a..][b..] == s[a + b..] && At(s[a..], b) == At(s, a + b) && At(s[a + b..], 0) == At(s, a + b)
  {
  }

  // ----- Printing and scanning one integer -----

  /** Converts one argument and formats it; the result counts the characters appended. */
  method PrintInteger(buffer: Buffer, conv: Conversion, c: Config, raw: nat, m: Modifier) returns (result: nat)
    requires buffer.Valid() && Printable(conv, raw, m)
    modifies buffer, buffer.data
    ensures buffer.Valid() && (buffer.data == old(buffer.data) || fresh(buffer.data))
    ensures buffer.Contents() == old(buffer.Contents()) + Printed(conv, c, raw, m)
    ensures result == |Printed(conv, c, raw, m)|
  {
    hide FormatDecimal;
    hide FormatRadix;
    hide IntText;
    hide DecimalText;
    hide Numeral;
    var temp := new char[128];
    match conv
    case SignedDecimal =>
      SignedRange(raw, m);
      var n := WriteInteger(temp, AsSigned(raw, m), c.plus || c.space, c.group);
      result := PrintDecimal(c, buffer, temp[..n]);
    case UnsignedDecimal =>
      UnsignedRange(raw, m);
      var n := WriteDecimal(temp, 0, AsUnsigned(raw, m), c.group);
      assert temp[..n] == temp[0..0 + n];
      result := PrintDecimal(c, buffer, temp[..n]);
    case InRadix(radix) =>
      UnsignedRange(raw, m);
      var n := WriteUnsigned(temp, Base(radix), c.upper && radix.Hex?, AsUnsigned(raw, m));
      result := PrintRadix(c, radix, buffer, temp[..n]);
  }

  method ConsumeSpaces(buffer: Cursor) returns (count: nat)
    requires buffer.Valid()
    modifies buffer`pos
    ensures buffer.Valid() && count == SkipSpaces(old(buffer.Rest()))
    ensures buffer.pos == old(buffer.pos) + count && buffer.Rest() == old(buffer.Rest())[count..]
  {
    ghost var all := buffer.Rest();
    count := 0;
    assert all[0..] == all;
    while buffer.Peek(0) != '\0'
      invariant buffer.Valid() && count <= |all| && buffer.pos == old(buffer.pos) + count && buffer.Rest() == all[count..]
      invariant SkipSpaces(all) == count + SkipSpaces(all[count..])
      decreases |all| - count
    {
      if !IsSpace(buffer.Peek(0)) {
        break;
      }
      assert all[count..][1..] == all[count + 1..];
      buffer.Advance(1);
      count := count + 1;
    }
  }

  /** Passes over the prefix of a radix: in octal the zero and the letter one by one, else both at once. */
  method PassPrefix(buffer: Cursor, radix: Radix) returns (count: nat)
    requires buffer.Valid()
    modifies buffer`pos
    ensures buffer.Valid() && count == PrefixLength(radix, old(buffer.Rest())) <= |old(buffer.Rest())|
    ensures buffer.pos == old(buffer.pos) + count && buffer.Rest() == old(buffer.Rest())[count..]
  {
    ghost var all := buffer.Rest();
    assert all[0..] == all;
    count := 0;
    if radix.Octal? {
      if buffer.Peek(0) == '0' {
        buffer.Advance(1);
        count := 1;
        assert buffer.Peek(0) == At(all, 1);
        if Lower(buffer.Peek(0)) == 'o' {
          buffer.Advance(1);
          assert all[1..][1..] == all[2..];
          count := 2;
        }
      }
    } else if buffer.Peek(0) == '0' && Lower(buffer.Peek(1)) == (if radix.Binary? then 'b' else 'x') {
      buffer.Advance(2);
      count := 2;
    }
  }

  method TakeNumberOf(buffer: Cursor, conv: Conversion, group: bool) returns (count: nat, value: int)
    requires buffer.Valid()
    modifies buffer`pos
    ensures buffer.Valid() && (count, value) == ScanNumber(conv, old(buffer.Rest()), group)
    ensures count <= |old(buffer.Rest())| && buffer.pos == old(buffer.pos) + count
  {
    hide ReadDecimal;
    hide ReadInteger;
    hide ReadUnsigned;
    hide PrefixLength;
    match conv
    case SignedDecimal =>
      count, value := buffer.TakeInteger(group);
    case UnsignedDecimal =>
      count, value := buffer.TakeDecimal(group);
    case InRadix(radix) =>
      count, value := TakePrefixed(buffer, radix);
  }

  method TakePrefixed(buffer: Cursor, radix: Radix) returns (count: nat, value: nat)
    requires buffer.Valid()
    modifies buffer`pos
    ensures var rest := old(buffer.Rest());
            var k := PrefixLength(radix, rest);
            var (n, v) := ReadUnsigned(rest[k..], Base(radix));
            buffer.Valid() && count == k + n <= |rest| && value == v && buffer.pos == old(buffer.pos) + count
  {
    hide ReadUnsigned;
    hide PrefixLength;
    var k := PassPrefix(buffer, radix);
    var n;
    n, value := buffer.TakeUnsigned(Base(radix));
    count := k + n;
  }

  /** Scans one integer field and stores what its size modifier keeps of it. */
  method ScanInteger(buffer: Cursor, conv: Conversion, m: Modifier, width: nat, group: bool) returns (count: nat, stored: int)
    requires buffer.Valid() && buffer.size >= |buffer.data|
    modifies buffer
    ensures buffer.Valid() && buffer.size == old(buffer.size) && buffer.pos == old(buffer.pos) + count
    ensures var (n, v) := ScanField(conv, old(buffer.Rest()), width, group);
            count == n && stored == Stored(conv, v, m)
  {
    hide ScanNumber;
    hide Stored;
    hide SkipSpaces;
    var spaces := ConsumeSpaces(buffer);
    var n, v := TakeWithin(buffer, conv, width, group);
    count, stored := spaces + n, Stored(conv, v, m);
  }

  /** Takes a number with the end of the buffer moved to the field width, and moves it back. */
  method TakeWithin(buffer: Cursor, conv: Conversion, width: nat, group: bool) returns (count: nat, value: int)
    requires buffer.Valid() && buffer.size >= |buffer.data|
    modifies buffer
    ensures buffer.Valid() && buffer.size == old(buffer.size) && buffer.pos == old(buffer.pos) + count
    ensures var rest := old(buffer.Rest());
            (count, value) == ScanNumber(conv, if 0 < width < |rest| then rest[..width] else rest, group)
  {
    hide ScanNumber;
    var saved := buffer.size;
    ghost var rest := buffer.Rest();
    if width > 0 {
      buffer.size := buffer.pos + width;
    }
    assert buffer.Rest() == if 0 < width < |rest| then rest[..width] else rest;
    count, value := TakeNumberOf(buffer, conv, group);
    if width > 0 {
      buffer.size := saved;
    }
  }

  // ----- The format loop -----

  predicate IsInteger(letter: char) {
    || letter == 'i' || letter == 'd' || letter == 'u' || letter == 'b' || letter == 'B'
    || letter == 'o' || letter == 'O' || letter == 'x' || letter == 'X'
  }

  function ConversionOf(letter: char): Conversion {
    if letter == 'i' || letter == 'd' then SignedDecimal
    else if letter == 'u' then UnsignedDecimal
    else if letter == 'b' || letter == 'B' then InRadix(Binary)
    else if letter == 'o' || letter == 'O' then InRadix(Octal)
    else InRadix(Hex)
  }

  /** Flags, width and precision with the conflicts settled. */
  function ConfigOf(sp: Spec, width: nat, precision: nat): (c: Config)
    ensures (sp.precision.None? ==> precision == 0) ==> Settled(c)
  {
    var f := sp.flags;
    Config(f.alternate, f.zero && !f.left && sp.precision.None?, f.space && !f.plus, f.left, f.plus,
           sp.letter == 'B' || sp.letter == 'O' || sp.letter == 'X', f.group, width, precision)
  }

  /** Argument `index` of the list, where 0 stands for the next one in sequence. */
  predicate Reachable(list: seq<nat>, index: nat, current: nat) {
    if index == 0 then current < |list| else index <= |list|
  }

  function Pick(list: seq<nat>, index: nat, current: nat): (nat, nat)
    requires Reachable(list, index, current)
  {
    if index == 0 then (list[current], current + 1) else (list[index - 1], current)
  }

  predicate AmountReachable(a: Amount, list: seq<nat>, current: nat) {
    a.FromArgument? ==> Reachable(list, a.index, current)
  }

  /** The number an amount denotes, 32 bits of it, and the next argument in sequence. */
  function PickAmount(a: Amount, list: seq<nat>, current: nat): (nat, nat)
    requires AmountReachable(a, list, current)
  {
    match a
    case Fixed(n) => (n, current)
    case FromArgument(k) => (Wrap32(Pick(list, k, current).0), Pick(list, k, current).1)
  }

  /** What a specification takes from the arguments, in the order it takes them. */
  datatype Gathered = Gathered(width: nat, precision: nat, raw: nat, current: nat)

  function PrecisionOf(sp: Spec): Amount {
    if sp.precision.Some? then sp.precision.value else Fixed(0)
  }

  predicate CanGather(sp: Spec, list: seq<nat>, current: nat) {
    && AmountReachable(sp.width, list, current)
    && var c1 := PickAmount(sp.width, list, current).1;
       && AmountReachable(PrecisionOf(sp), list, c1)
       && Reachable(list, sp.argument, PickAmount(PrecisionOf(sp), list, c1).1)
  }

  function Gather(sp: Spec, list: seq<nat>, current: nat): Gathered
    requires CanGather(sp, list, current)
  {
    var (width, c1) := PickAmount(sp.width, list, current);
    var (precision, c2) := PickAmount(PrecisionOf(sp), list, c1);
    var (raw, c3) := Pick(list, sp.argument, c2);
    Gathered(width, precision, raw, c3)
  }

  /** The text of the conversions that are not integers. */
  type Renderer = (Spec, nat, nat, nat) -> string

  function TextOf(sp: Spec, g: Gathered, other: Renderer): string {
    if IsInteger(sp.letter) then
      Printed(ConversionOf(sp.letter), ConfigOf(sp, g.width, g.precision), g.raw, sp.modifier)
    else other(sp, g.width, g.precision, g.raw)
  }

  /** The list has every argument the format asks for, and binary conversions stay within their scratch. */
  predicate Supplied(format: string, list: seq<nat>, current: nat)
    decreases |format|
  {
    if At(format, 0) == '\0' || (format[0] == '%' && At(format, 1) == '\0') then true
    else if format[0] != '%' then Supplied(format[1..], list, current)
    else if format[1] == '%' then Supplied(format[2..], list, current)
    else
      match Parse(format[1..])
      case None => Supplied(format[1..], list, current)
      case Some((sp, n)) =>
        && CanGather(sp, list, current)
        && var g := Gather(sp, list, current);
           && (IsInteger(sp.letter) ==> Printable(ConversionOf(sp.letter), g.raw, sp.modifier))
           && Supplied(format[1 + n..], list, g.current)
  }

  /** What a format and its arguments print, with arguments looked up by direct indexing. */
  function Output(format: string, list: seq<nat>, current: nat, other: Renderer): string
    requires Supplied(format, list, current)
    decreases |format|
  {
    if At(format, 0) == '\0' then ""
    else if format[0] != '%' then [format[0]] + Output(format[1..], list, current, other)
    else if At(format, 1) == '\0' then "%"
    else if format[1] == '%' then "%" + Output(format[2..], list, current, other)
    else
      match Parse(format[1..])
      case None => "%" + Output(format[1..], list, current, other)
      case Some((sp, n)) =>
        var g := Gather(sp, list, current);
        TextOf(sp, g, other) + Output(format[1 + n..], list, g.current, other)
  }

  method TakeFrom(cache: Varargs.Cache<nat>, a: Amount) returns (n: nat)
    requires cache.Valid() && AmountReachable(a, cache.list, cache.current)
    modifies cache, cache.args, cache.extra
    ensures cache.Valid() && (n, cache.current) == PickAmount(a, cache.list, old(cache.current))
    ensures cache.extra == old(cache.extra) || fresh(cache.extra)
  {
    match a
    case Fixed(k) => n := k;
    case FromArgument(k) =>
      var x := cache.Get(k);
      n := Wrap32(x);
  }

  /** Fetches width, precision and argument, in that order. */
  method GatherFrom(cache: Varargs.Cache<nat>, sp: Spec) returns (g: Gathered)
    requires cache.Valid() && CanGather(sp, cache.list, cache.current)
    modifies cache, cache.args, cache.extra
    ensures cache.Valid() && g == Gather(sp, cache.list, old(cache.current)) && cache.current == g.current
    ensures cache.extra == old(cache.extra) || fresh(cache.extra)
  {
    var width := TakeFrom(cache, sp.width);
    var precision := TakeFrom(cache, PrecisionOf(sp));
    var raw := cache.Get(sp.argument);
    g := Gathered(width, precision, raw, cache.current);
  }

  ghost predicate Apart(buffer: Buffer, cache: Varargs.Cache<nat>)
    reads buffer, cache
  {
    && buffer.data as object != cache.args
    && (cache.extra != null ==> buffer.data as object != cache.extra)
  }

  /** One conversion: fetches what it needs, writes its text and counts it. */
  method PrintSpec(buffer: Buffer, cache: Varargs.Cache<nat>, sp: Spec, other: Renderer) returns (result: nat)
    requires buffer.Valid() && cache.Valid() && Apart(buffer, cache) && CanGather(sp, cache.list, cache.current)
    requires var g := Gather(sp, cache.list, cache.current);
             IsInteger(sp.letter) ==> Printable(ConversionOf(sp.letter), g.raw, sp.modifier)
    modifies buffer, buffer.data, cache, cache.args, cache.extra
    ensures buffer.Valid() && cache.Valid() && Apart(buffer, cache)
    ensures buffer.data == old(buffer.data) || fresh(buffer.data)
    ensures cache.extra == old(cache.extra) || fresh(cache.extra)
    ensures var g := Gather(sp, cache.list, old(cache.current));
            && cache.current == g.current && result == |TextOf(sp, g, other)|
            && buffer.Contents() == old(buffer.Contents()) + TextOf(sp, g, other)
  {
    hide Printed;
    hide Gather;
    hide CanGather;
    hide Printable;
    var g := GatherFrom(cache, sp);
    if IsInteger(sp.letter) {
      result := PrintInteger(buffer, ConversionOf(sp.letter), ConfigOf(sp, g.width, g.precision), g.raw, sp.modifier);
    } else {
      var text := other(sp, g.width, g.precision, g.raw);
      buffer.WriteN(text);
      result := |text|;
    }
  }

  /** Everything the loop keeps apart and in order from one directive to the next. */
  ghost predicate Ready(buffer: Buffer, input: Cursor, cache: Varargs.Cache<nat>)
    reads buffer, input, cache, cache.args, cache.extra
  {
    && buffer.Valid() && cache.Valid() && Apart(buffer, cache)
    && input.Valid() && Supplied(input.Rest(), cache.list, cache.current)
  }

  /** What follows a percent sign; `more` tells whether the loop goes on. */
  method PrintDirective(buffer: Buffer, input: Cursor, cache: Varargs.Cache<nat>, other: Renderer)
    returns (result: nat, more: bool, ghost text: string)
    requires Ready(buffer, input, cache) && input.Peek(0) == '%'
    modifies buffer, buffer.data, input`pos, cache, cache.args, cache.extra
    ensures Ready(buffer, input, cache)
    ensures buffer.data == old(buffer.data) || fresh(buffer.data)
    ensures cache.extra == old(cache.extra) || fresh(cache.extra)
    ensures buffer.Contents() == old(buffer.Contents()) + text && result == |text|
    ensures |input.Rest()| < old(|input.Rest()|)
    ensures old(Output(input.Rest(), cache.list, cache.current, other))
         == text + if more then Output(input.Rest(), cache.list, cache.current, other) else ""
  {
    hide Output;
    hide Supplied;
    hide Parse;
    hide CanGather;
    hide Gather;
    hide TextOf;
    hide Printable;
    ghost var rest := input.Rest();
    Unfolds(rest, cache.list, cache.current, other);
    input.Advance(1);
    assert input.Peek(0) == At(rest, 1);
    var next := input.Peek(0);
    if next == '\0' || next == '%' {
      if next == '%' {
        input.Advance(1);
        assert rest[1..][1..] == rest[2..];
      } else {
        EndsHere(input.Rest(), cache.list, cache.current);
      }
      buffer.WriteByte('%');
      return 1, next == '%', "%";
    }
    more := true;
    result, text := PrintConversion(buffer, input, cache, other, rest);
  }

  /** A conversion, or a percent sign that does not start one. */
  method PrintConversion(buffer: Buffer, input: Cursor, cache: Varargs.Cache<nat>, other: Renderer, ghost rest: string)
    returns (result: nat, ghost text: string)
    requires buffer.Valid() && cache.Valid() && Apart(buffer, cache) && input.Valid()
    requires Supplied(rest, cache.list, cache.current)
    requires At(rest, 0) == '%' && At(rest, 1) != '\0' && At(rest, 1) != '%' && input.Rest() == rest[1..]
    modifies buffer, buffer.data, input`pos, cache, cache.args, cache.extra
    ensures Ready(buffer, input, cache)
    ensures buffer.data == old(buffer.data) || fresh(buffer.data)
    ensures cache.extra == old(cache.extra) || fresh(cache.extra)
    ensures buffer.Contents() == old(buffer.Contents()) + text && result == |text|
    ensures |input.Rest()| < |rest|
    ensures Output(rest, cache.list, old(cache.current), other)
         == text + Output(input.Rest(), cache.list, cache.current, other)
  {
    hide Output;
    hide Supplied;
    hide Parse;
    hide CanGather;
    hide Gather;
    hide TextOf;
    hide Printable;
    Unfolds(rest, cache.list, cache.current, other);
    var start := input.pos;
    var sp := TakeSpec(input);
    match sp
    case None =>
      input.pos := start;
      buffer.WriteByte('%');
      result, text := 1, "%";
    case Some(found) =>
      ghost var n := Parse(rest[1..]).value.1;
      assert rest[1..][n..] == rest[1 + n..];
      text := TextOf(found, Gather(found, cache.list, cache.current), other);
      result := PrintSpec(buffer, cache, found, other);
  }

  /** One turn of the loop: a plain character, or a directive. */
  method PrintNext(buffer: Buffer, input: Cursor, cache: Varargs.Cache<nat>, other: Renderer)
    returns (result: nat, more: bool, ghost text: string)
    requires Ready(buffer, input, cache) && input.Peek(0) != '\0'
    modifies buffer, buffer.data, input`pos, cache, cache.args, cache.extra
    ensures Ready(buffer, input, cache)
    ensures buffer.data == old(buffer.data) || fresh(buffer.data)
    ensures cache.extra == old(cache.extra) || fresh(cache.extra)
    ensures buffer.Contents() == old(buffer.Contents()) + text && result == |text|
    ensures |input.Rest()| < old(|input.Rest()|)
    ensures old(Output(input.Rest(), cache.list, cache.current, other))
         == text + if more then Output(input.Rest(), cache.list, cache.current, other) else ""
  {
    hide Output;
    hide Supplied;
    if input.Peek(0) == '%' {
      result, more, text := PrintDirective(buffer, input, cache, other);
    } else {
      Unfolds(input.Rest(), cache.list, cache.current, other);
      var byte := input.Peek(0);
      input.Advance(1);
      buffer.WriteByte(byte);
      result, more, text := 1, true, [byte];
    }
  }

  lemma EndsHere(s: string, list: seq<nat>, current: nat)
    requires At(s, 0) == '\0'
    ensures Supplied(s, list, current)
  {
  }

  const LONGEST: nat := 65536

  /** The part of a format the engine looks at. */
  function Limited(format: string): string {
    if |format| <= LONGEST then format else format[..LONGEST]
  }

  /**
   * The whole engine: prints what the format and the arguments denote, and returns exactly the number
   * of characters it appended to the buffer.
   */
  method Printf(buffer: Buffer, format: string, cache: Varargs.Cache<nat>, other: Renderer) returns (result: nat)
    requires buffer.Valid() && cache.Valid() && Apart(buffer, cache)
    requires Supplied(Limited(format), cache.list, cache.current)
    modifies buffer, buffer.data, cache, cache.args, cache.extra
    ensures buffer.Valid()
    ensures var text := Output(Limited(format), cache.list, old(cache.current), other);
            buffer.Contents() == old(buffer.Contents()) + text && result == |text|
  {
    hide Output;
    hide Supplied;
    hide Varargs.Cache.Valid;
    hide Buffer.Valid;
    hide At;
    hide Cursor.Rest;
    hide Cursor.Valid;
    hide Buffer.Contents;
    hide Apart;
    var input := new Cursor(Limited(format));
    var more := true;
    result := 0;
    ghost var whole: string, done: string := Output(input.Rest(), cache.list, cache.current, other), "";
    while more && input.Peek(0) != '\0'
      invariant fresh(input) && Ready(buffer, input, cache)
      invariant buffer.data == old(buffer.data) || fresh(buffer.data)
      invariant cache.extra == old(cache.extra) || fresh(cache.extra)
      invariant whole == done + if more then Output(input.Rest(), cache.list, cache.current, other) else ""
      invariant buffer.Contents() == old(buffer.Contents()) + done && result == |done|
      decreases |input.Rest()|
    {
      ghost var text;
      var count;
      count, more, text := PrintNext(buffer, input, cache, other);
      result, done := result + count, done + text;
    }
    if more {
      OutputEnds(input.Rest(), cache.list, cache.current, other);
    }
  }

  lemma OutputEnds(s: string, list: seq<nat>, current: nat, other: Renderer)
    requires Supplied(s, list, current) && At(s, 0) == '\0'
    ensures Output(s, list, current, other) == ""
  {
  }

  /** One step of the format loop. */
  lemma Unfolds(s: string, list: seq<nat>, current: nat, other: Renderer)
    requires Supplied(s, list, current)
    ensures At(s, 0) == '\0' ==> Output(s, list, current, other) == ""
    ensures At(s, 0) != '\0' && s[0] != '%' ==>
              Supplied(s[1..], list, current)
              && Output(s, list, current, other) == [s[0]] + Output(s[1..], list, current, other)
    ensures At(s, 0) == '%' && At(s, 1) == '\0' ==> Output(s, list, current, other) == "%"
    ensures At(s, 0) == '%' && At(s, 1) == '%' ==>
              Supplied(s[2..], list, current)
              && Output(s, list, current, other) == "%" + Output(s[2..], list, current, other)
    ensures At(s, 0) == '%' && At(s, 1) != '\0' && At(s, 1) != '%' ==>
              if Parse(s[1..]).None? then
                Supplied(s[1..], list, current)
                && Output(s, list, current, other) == "%" + Output(s[1..], list, current, other)
              else
                var sp, n := Parse(s[1..]).value.0, Parse(s[1..]).value.1;
                && CanGather(sp, list, current)
                && var g := Gather(sp, list, current);
                   && (IsInteger(sp.letter) ==> Printable(ConversionOf(sp.letter), g.raw, sp.modifier))
                   && Supplied(s[1 + n..], list, g.current)
                   && Output(s, list, current, other) == TextOf(sp, g, other) + Output(s[1 + n..], list, g.current, other)
  {
    hide Parse;
    hide Gather;
    hide CanGather;
    hide TextOf;
    hide Printable;
  }

  // ----- Formats put together from specifications -----

  /** What the parser makes of a text that starts with nothing it knows. */
  lemma NothingKnown(s: string)
    requires At(s, 0) == '\0' || At(s, 0) == '%'
    ensures ParseArgument(s) == (0, 0) && ParseFlags(NO_FLAGS, s) == (NO_FLAGS, 0) && ParseAmount(s) == (Fixed(0), 0)
    ensures ParsePrecision(s) == (None, 0) && ParseModifier(s).1 == 0 && !IsConversion(At(s, 0))
  {
    assert DigitRun(s, 10) == 0;
    assert s[..0] == [];
    ValueOfNothing();
  }

  lemma NoPercent(s: string)
    requires Parse(s).Some?
    ensures s != [] && s[0] != '\0' && s[0] != '%'
  {
    hide Parse;
    hide ParseHead;
    hide ParseArgument;
    hide ParseFlags;
    hide ParseAmount;
    hide ParsePrecision;
    hide ParseModifier;
    hide IsConversion;
    assert s[0..] == s;
    if At(s, 0) == '\0' || At(s, 0) == '%' {
      NothingKnown(s);
      HeadUnfolds(s, 0, 0);
      ParseUnfolds(s, 0, 0, 0);
      assert false;
    }
  }

  /**
   * A percent sign and the text of a specification print what that specification makes of its
   * arguments, and the format goes on behind it with the argument after those.
   */
  lemma OutputOfSpec(sp: Spec, tail: string, list: seq<nat>, current: nat, other: Renderer)
    requires Renderable(sp) && CanGather(sp, list, current)
    requires var g := Gather(sp, list, current);
             && (IsInteger(sp.letter) ==> Printable(ConversionOf(sp.letter), g.raw, sp.modifier))
             && Supplied(tail, list, g.current)
    ensures var format, g := "%" + Render(sp, tail), Gather(sp, list, current);
            && Supplied(format, list, current)
            && Output(format, list, current, other) == TextOf(sp, g, other) + Output(tail, list, g.current, other)
  {
    hide Parse;
    hide Render;
    hide Gather;
    hide CanGather;
    hide TextOf;
    hide Printable;
    var text := Render(sp, tail);
    RenderParses(sp, tail);
    NoPercent(text);
    RenderEnds(sp, tail);
    var format, n := "%" + text, |text| - |tail|;
    assert format[1..] == text && format[1 + n..] == text[n..] == tail;
  }

  /**
   * From the caller's side: an integer printed by any specification the engine knows comes back when its
   * output is scanned by the same conversion, if and only if the zeros before grouped digits allow it.
   */
  lemma IntegerComesBack(sp: Spec, list: seq<nat>, current: nat, other: Renderer)
    requires Renderable(sp) && IsInteger(sp.letter) && CanGather(sp, list, current)
    requires Printable(ConversionOf(sp.letter), Gather(sp, list, current).raw, sp.modifier)
    ensures Supplied("%" + Render(sp, ""), list, current)
    ensures var conv, g, m := ConversionOf(sp.letter), Gather(sp, list, current), sp.modifier;
            var text := Output("%" + Render(sp, ""), list, current, other);
            (Stored(conv, ScanField(conv, text, 0, sp.flags.group).1, m) == Denoted(conv, g.raw, m))
            <==> ComesBack(conv, ConfigOf(sp, g.width, g.precision), g.raw, m)
  {
    hide ComesBack;
    hide Stored;
    hide ScanField;
    hide Denoted;
    hide Printed;
    hide Render;
    hide Gather;
    hide CanGather;
    hide Printable;
    hide Renderable;
    var g := Gather(sp, list, current);
    EndsHere("", list, g.current);
    OutputOfSpec(sp, "", list, current, other);
    ScanUndoesPrint(ConversionOf(sp.letter), ConfigOf(sp, g.width, g.precision), g.raw, sp.modifier);
    assert TextOf(sp, g, other) + "" == TextOf(sp, g, other);
  }
}
