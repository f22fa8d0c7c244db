/** Reading integers from a buffer: digit runs, grouped digits and signs. */
module Readers {
  import opened Basics
  import opened Numerals
  import opened Convert

  function At(s: string, i: nat): char {
    if i < |s| then s[i] else '\0'
  }

  /** How many digits `s` starts with. */
  function DigitRun(s: string, base: nat): (n: nat)
    requires IsBase(base)
    ensures n <= |s| && AllDigits(s[..n], base) && (n < |s| ==> !IsDigit(s[n], base))
  {
    if s == [] || !IsDigit(s[0], base) then 0
    else
      var n := 1 + DigitRun(s[1..], base);
      assert s[..n] == [s[0]] + s[1..][..n - 1];
      n
  }

  lemma {:induction false} DigitRunOf(s: string, tail: string, base: nat)
    requires IsBase(base) && AllDigits(s, base) && (tail == [] || !IsDigit(tail[0], base))
    ensures DigitRun(s + tail, base) == |s| && (s + tail)[..|s|] == s
  {
    if s == [] {
      assert s + tail == tail;
    } else {
      assert (s + tail)[1..] == s[1..] + tail;
      DigitRunOf(s[1..], tail, base);
    }
  }

  // ----- Grouped decimal digits -----

  /** How far the current group has come, and whether a separator has been seen. */
  datatype Groups = Groups(period: nat, grouping: bool, allowed: bool)

  /** One digit delivered, or '\0' when the number ends here; `used` characters are passed over. */
  datatype Parsed = Parsed(byte: char, state: Groups, used: nat)

  predicate IsDecimal(c: char) {
    '0' <= c <= '9'
  }

  /** Takes a digit that is not one too many for its group. */
  function TakeDigit(st: Groups, c: char, before: nat): Parsed {
    if st.grouping && st.period == 3 then Parsed('\0', st, before)
    else Parsed(c, st.(period := (st.period + 1) % 256), before + 1)
  }

  function ParseDigit(st: Groups, s: string): (r: Parsed)
    ensures r.used <= |s| && (r.byte != '\0' ==> r.used > 0 && IsDecimal(r.byte))
  {
    var c := At(s, 0);
    if IsDecimal(c) then TakeDigit(st, c, 0)
    else if c == ',' && st.allowed then
      if At(s, 1) == '\0' then Parsed('\0', st, 1)
      else if (if st.grouping then st.period != 3 else st.period > 3) then Parsed('\0', st, 0)
      else
        var st' := st.(grouping := true, period := 0);
        if IsDecimal(At(s, 1)) && IsDecimal(At(s, 2)) && IsDecimal(At(s, 3)) then TakeDigit(st', At(s, 1), 1)
        else Parsed('\0', st', 0)
    else Parsed('\0', st, 0)
  }

  /** The digits delivered until the number ends, and the characters passed over. */
  function DecimalRun(st: Groups, s: string): (r: (string, nat))
    ensures r.1 <= |s| && AllDigits(r.0, 10)
    decreases |s|
  {
    var p := ParseDigit(st, s);
    if p.byte == '\0' then ([], p.used)
    else
      var (digits, used) := DecimalRun(p.state, s[p.used..]);
      ([p.byte] + digits, p.used + used)
  }

  ghost predicate EndsNumber(tail: string) {
    tail == [] || (!IsDecimal(tail[0]) && tail[0] != ',')
  }

  lemma StepEnd(st: Groups, tail: string)
    requires tail == [] || !IsDecimal(tail[0])
    requires st.allowed ==> tail == [] || tail[0] != ','
    ensures DecimalRun(st, tail) == ([], 0)
  {
  }

  lemma StepDigit(st: Groups, c: char, s: string)
    requires IsDecimal(c) && !(st.grouping && st.period == 3)
    ensures var r := DecimalRun(st.(period := (st.period + 1) % 256), s);
            DecimalRun(st, [c] + s) == ([c] + r.0, 1 + r.1)
  {
    assert ([c] + s)[1..] == s;
  }

  lemma StepSeparator(st: Groups, a: char, b: char, c: char, s: string)
    requires st.allowed && IsDecimal(a) && IsDecimal(b) && IsDecimal(c)
    requires if st.grouping then st.period == 3 else st.period <= 3
    ensures var r := DecimalRun(Groups(1, true, true), [b, c] + s);
            DecimalRun(st, [',', a, b, c] + s) == ([a] + r.0, 2 + r.1)
  {
    var line := [',', a, b, c] + s;
    assert line[2..] == [b, c] + s;
    assert At(line, 0) == ',' && At(line, 1) == a && At(line, 2) == b && At(line, 3) == c;
  }

  /** Digits without separators are delivered one by one, whatever the flag. */
  lemma {:induction false} PlainRun(st: Groups, s: string, tail: string)
    requires !st.grouping && AllDecimal(s)
    requires tail == [] || !IsDecimal(tail[0])
    requires st.allowed ==> tail == [] || tail[0] != ','
    ensures DecimalRun(st, s + tail) == (s, |s|)
    decreases |s|
  {
    hide DecimalRun;
    if s == [] {
      assert s + tail == tail;
      StepEnd(st, tail);
    } else {
      assert s + tail == [s[0]] + (s[1..] + tail);
      StepDigit(st, s[0], s[1..] + tail);
      PlainRun(st.(period := (st.period + 1) % 256), s[1..], tail);
      assert [s[0]] + s[1..] == s;
    }
  }

  ghost predicate AllDecimal(s: string) {
    forall i | 0 <= i < |s| :: IsDecimal(s[i])
  }

  lemma DecimalDigitsAre(s: string)
    ensures AllDecimal(s) <==> AllDigits(s, 10)
  {
    forall i | 0 <= i < |s| ensures IsDecimal(s[i]) <==> IsDigit(s[i], 10) {
    }
  }

  /** Groups of three, each after a separator. */
  function Triples(s: string): string {
    if |s| < 3 then [] else "," + s[..3] + Triples(s[3..])
  }

  /** A grouped numeral is one to three digits and then triples. */
  lemma {:induction false} GroupedFromLeft(s: string, h: nat, k: nat)
    requires |s| == h + 3 * k && 1 <= h <= 3
    ensures Grouped(s) == s[..h] + Triples(s[h..])
    decreases k
  {
    hide Grouped;
    hide Triples;
    GroupedOnce(s);
    if k == 0 {
      assert s[..h] == s && s[h..] == [];
    } else {
      var init, last := s[..|s| - 3], s[|s| - 3..];
      GroupedFromLeft(init, h, k - 1);
      TriplesSnoc(init[h..], last, k - 1);
      assert init[h..] + last == s[h..] && init[..h] == s[..h];
      assert init[..h] + Triples(init[h..]) + "," + last == init[..h] + (Triples(init[h..]) + "," + last);
    }
  }

  lemma GroupedOnce(s: string)
    ensures |s| <= 3 ==> Grouped(s) == s
    ensures |s| > 3 ==> Grouped(s) == Grouped(s[..|s| - 3]) + "," + s[|s| - 3..]
    ensures Triples([]) == []
  {
  }

  lemma {:induction false} TriplesSnoc(s: string, last: string, k: nat)
    requires |s| == 3 * k && |last| == 3
    ensures Triples(s + last) == Triples(s) + "," + last
    decreases k
  {
    if k == 0 {
      assert s + last == last && last[..3] == last && last[3..] == [];
    } else {
      assert (s + last)[..3] == s[..3] && (s + last)[3..] == s[3..] + last;
      TriplesSnoc(s[3..], last, k - 1);
    }
  }

  lemma TriplesFirst(s: string, tail: string)
    requires |s| >= 3
    ensures Triples(s) + tail == [',', s[0], s[1], s[2]] + (Triples(s[3..]) + tail)
    ensures |Triples(s)| == 4 + |Triples(s[3..])|
  {
    hide Triples;
    TriplesOnce(s);
    CommaThree(s);
    var first, rest := [',', s[0], s[1], s[2]], Triples(s[3..]);
    assert first + rest + tail == first + (rest + tail);
  }

  lemma TriplesOnce(s: string)
    requires |s| >= 3
    ensures Triples(s) == "," + s[..3] + Triples(s[3..])
  {
  }

  lemma CommaThree(s: string)
    requires |s| >= 3
    ensures "," + s[..3] == [',', s[0], s[1], s[2]]
  {
  }

  /** Triples are delivered as their digits. */
  lemma {:induction false} TriplesRun(st: Groups, s: string, tail: string)
    requires st.allowed && |s| % 3 == 0 && AllDecimal(s) && EndsNumber(tail)
    requires if st.grouping then st.period == 3 else st.period <= 3
    ensures DecimalRun(st, Triples(s) + tail) == (s, |Triples(s)|)
    decreases |s|
  {
    hide DecimalRun;
    hide IsDecimal;
    hide Triples;
    if s == [] {
      GroupedOnce(s);
      assert [] + tail == tail;
      StepEnd(st, tail);
    } else {
      ThreeLess(|s|);
      TriplesFirst(s, tail);
      StepTriple(st, s[0], s[1], s[2], Triples(s[3..]) + tail);
      TriplesRun(Groups(3, true, true), s[3..], tail);
      assert [s[0], s[1], s[2]] + s[3..] == s;
    }
  }

  /** A separator and its three digits. */
  lemma StepTriple(st: Groups, a: char, b: char, c: char, s: string)
    requires st.allowed && IsDecimal(a) && IsDecimal(b) && IsDecimal(c)
    requires if st.grouping then st.period == 3 else st.period <= 3
    ensures var r := DecimalRun(Groups(3, true, true), s);
            DecimalRun(st, [',', a, b, c] + s) == ([a, b, c] + r.0, 4 + r.1)
  {
    hide DecimalRun;
    hide IsDecimal;
    StepSeparator(st, a, b, c, s);
    assert [b, c] + s == [b] + ([c] + s);
    StepDigit(Groups(1, true, true), b, [c] + s);
    StepDigit(Groups(2, true, true), c, s);
    var more := DecimalRun(Groups(3, true, true), s).0;
    assert [a] + ([b] + ([c] + more)) == [a, b, c] + more;
  }

  lemma StopsAtSeparator(st: Groups, c: char, s: string)
    requires st.allowed && !st.grouping && st.period > 3 && IsDecimal(c)
    ensures DecimalRun(st, [',', c] + s) == ([], 0)
  {
    var line := [',', c] + s;
    assert At(line, 0) == ',' && At(line, 1) == c;
  }

  /** At the first separator: the reader passes it exactly when it has counted at most three digits. */
  lemma AtSeparator(st: Groups, digits: string, tail: string)
    requires st.allowed && !st.grouping && AllDecimal(digits) && EndsNumber(tail)
    requires |digits| >= 3 && |digits| % 3 == 0
    ensures DecimalRun(st, Triples(digits) + tail) == if st.period <= 3 then (digits, |Triples(digits)|) else ([], 0)
  {
    hide DecimalRun;
    hide Triples;
    if st.period <= 3 {
      TriplesRun(st, digits, tail);
    } else {
      var rest := Triples(digits[3..]) + tail;
      TriplesFirst(digits, tail);
      assert [',', digits[0], digits[1], digits[2]] + rest == [',', digits[0]] + ([digits[1], digits[2]] + rest);
      StopsAtSeparator(st, digits[0], [digits[1], digits[2]] + rest);
    }
  }

  /** Digits before the first separator, any number of them, are counted in eight bits. */
  lemma {:induction false} HeadRun(st: Groups, head: string, more: string, after: (string, nat))
    requires !st.grouping && st.period < 256 && AllDecimal(head)
    requires after == DecimalRun(st.(period := (st.period + |head|) % 256), more)
    ensures DecimalRun(st, head + more) == (head + after.0, |head| + after.1)
    decreases |head|
  {
    hide DecimalRun;
    hide IsDecimal;
    if head == [] {
      assert head + more == more && head + after.0 == after.0;
    } else {
      var next := st.(period := (st.period + 1) % 256);
      CountsOn(st.period, |head| - 1);
      assert head + more == [head[0]] + (head[1..] + more);
      StepDigit(st, head[0], head[1..] + more);
      HeadRun(next, head[1..], more, after);
      assert [head[0]] + (head[1..] + after.0) == head + after.0;
    }
  }

  lemma CountsOn(period: nat, n: nat)
    ensures ((period + 1) % 256 + n) % 256 == (period + (n + 1)) % 256
  {
  }

  /** Zeros, then a numeral of several groups: it is read to its end, or up to its first separator. */
  lemma GroupsRun(zeros: string, s: string, h: nat, k: nat, tail: string)
    requires AllDecimal(zeros) && AllDecimal(s) && EndsNumber(tail)
    requires |s| == h + 3 * k && 1 <= h <= 3 && k > 0
    ensures DecimalRun(Groups(0, false, true), zeros + Grouped(s) + tail)
         == if (|zeros| + h) % 256 <= 3 then (zeros + s, |zeros| + |Grouped(s)|) else (zeros + s[..h], |zeros| + h)
  {
    hide *;
    var first, rest := s[..h], s[h..];
    var st, triples := Groups((|zeros| + h) % 256, false, true), Triples(rest);
    SplitDecimal(zeros, s, h);
    ThreesOf(|rest|, k);
    GroupedFromLeft(s, h, k);
    Regrouped(zeros, first, triples, tail);
    AtSeparator(st, rest, tail);
    HeadRun(Groups(0, false, true), zeros + first, triples + tail, DecimalRun(st, triples + tail));
    assert (zeros + first) + rest == zeros + s && (zeros + first) + [] == zeros + first;
  }

  lemma SplitDecimal(zeros: string, s: string, h: nat)
    requires AllDecimal(zeros) && AllDecimal(s) && h <= |s|
    ensures AllDecimal(zeros + s[..h]) && AllDecimal(s[h..])
  {
  }

  lemma ThreeLess(n: nat)
    requires n > 0 && n % 3 == 0
    ensures n >= 3 && (n - 3) % 3 == 0
  {
  }

  lemma ThreesOf(n: nat, k: nat)
    requires n == 3 * k
    ensures n % 3 == 0
  {
  }

  lemma Regrouped(a: string, b: string, c: string, d: string)
    ensures a + (b + c) + d == (a + b) + (c + d)
  {
  }

  /** Digits of the first group of a numeral of `n` digits. */
  function HeadDigits(n: nat): (h: nat)
    ensures n > 0 ==> 1 <= h <= 3 && n == h + 3 * ((n - 1) / 3)
  {
    if n == 0 then 0 else (n - 1) % 3 + 1
  }

  /** The reader gets past the first separator after zeros, or there is none. */
  predicate Passes(zeros: nat, digits: nat) {
    digits <= 3 || (zeros + HeadDigits(digits)) % 256 <= 3
  }

  /** What the grouping reader makes of zeros and a grouped numeral: all of it, or up to the first separator. */
  lemma ZerosRun(zeros: string, s: string, tail: string)
    requires s != [] && AllDecimal(zeros) && AllDecimal(s) && EndsNumber(tail)
    ensures DecimalRun(Groups(0, false, true), zeros + Grouped(s) + tail)
         == if Passes(|zeros|, |s|) then (zeros + s, |zeros| + |Grouped(s)|)
            else (zeros + s[..HeadDigits(|s|)], |zeros| + HeadDigits(|s|))
  {
    hide DecimalRun;
    hide Grouped;
    hide IsDecimal;
    if |s| <= 3 {
      GroupedOnce(s);
      PlainRun(Groups(0, false, true), zeros + s, tail);
    } else {
      GroupsRun(zeros, s, HeadDigits(|s|), (|s| - 1) / 3, tail);
    }
  }

  /** A grouped numeral is read back as its digits, to its end. */
  lemma GroupedRun(s: string, tail: string)
    requires s != [] && AllDecimal(s) && EndsNumber(tail)
    ensures DecimalRun(Groups(0, false, true), Grouped(s) + tail) == (s, |Grouped(s)|)
  {
    hide DecimalRun;
    hide Grouped;
    ZerosRun([], s, tail);
    assert [] + Grouped(s) == Grouped(s) && [] + s == s;
  }

  // ----- What the readers return: characters passed over, and the value -----

  function ReadUnsigned(s: string, base: nat): (nat, nat)
    requires IsBase(base)
  {
    var n := DigitRun(s, base);
    (n, Wrap64(Value(s[..n], base)))
  }

  function ReadDecimal(s: string, group: bool): (nat, nat) {
    var sign := if At(s, 0) == '+' then 1 else 0;
    var (digits, used) := DecimalRun(Groups(0, false, group), s[sign..]);
    (sign + used, Wrap64(Value(digits, 10)))
  }

  function ReadInteger(s: string, group: bool): (nat, int) {
    var sign := if At(s, 0) == '+' || At(s, 0) == '-' then 1 else 0;
    var (digits, used) := DecimalRun(Groups(0, false, group), s[sign..]);
    (sign + used, if At(s, 0) == '-' then -(Value(digits, 10) as int) else Value(digits, 10) as int)
  }

  /** A numeral with any number of leading zeros reads back, and the reader stops at its end. */
  lemma UnsignedReadsBack(x: nat, base: nat, upper: bool, zeros: nat, tail: string)
    requires IsBase(base) && x < TWO64 && (tail == [] || !IsDigit(tail[0], base))
    ensures var text := Zeros(zeros) + Numeral(x, base, upper);
            ReadUnsigned(text + tail, base) == (|text|, x)
  {
    hide Value;
    hide DigitRun;
    var text := Zeros(zeros) + Numeral(x, base, upper);
    ValueOfNumeral(x, base, upper);
    LeadingZeros(zeros, Numeral(x, base, upper), base);
    DigitRunOf(text, tail, base);
  }

  /** What stands for a decimal number: a grouped numeral, or zeros and a plain one. */
  lemma DecimalRunsBack(x: nat, group: bool, zeros: nat, allowed: bool, tail: string)
    requires EndsNumber(tail) && (group ==> zeros == 0 && allowed)
    ensures var r := DecimalRun(Groups(0, false, allowed), Zeros(zeros) + DecimalText(x, group) + tail);
            r.1 == zeros + |DecimalText(x, group)| && Value(r.0, 10) == x
  {
    hide DecimalRun;
    hide Value;
    var digits := Numeral(x, 10, false);
    ValueOfNumeral(x, 10, false);
    LeadingZeros(zeros, digits, 10);
    DecimalDigitsAre(digits);
    DecimalDigitsAre(Zeros(zeros) + digits);
    if group {
      GroupedRun(digits, tail);
      assert Zeros(zeros) + DecimalText(x, group) == Grouped(digits);
    } else {
      PlainRun(Groups(0, false, allowed), Zeros(zeros) + digits, tail);
    }
  }

  lemma DecimalStartsWithDigit(x: nat, group: bool)
    ensures DecimalText(x, group) != [] && IsDecimal(DecimalText(x, group)[0])
  {
    hide Value;
    hide IsDecimal;
    var digits := Numeral(x, 10, false);
    ValueOfNumeral(x, 10, false);
    DecimalDigitsAre(digits);
    GroupedFromLeft(digits, (|digits| - 1) % 3 + 1, (|digits| - 1) / 3);
  }

  lemma DecimalReadsBack(x: nat, group: bool, zeros: nat, tail: string)
    requires x < TWO64 && EndsNumber(tail) && (group ==> zeros == 0)
    ensures ReadDecimal(Zeros(zeros) + DecimalText(x, group) + tail, group) == (zeros + |DecimalText(x, group)|, x)
  {
    hide DecimalRun;
    hide Value;
    hide DecimalText;
    var text := Zeros(zeros) + DecimalText(x, group) + tail;
    DecimalStartsWithDigit(x, group);
    assert IsDecimal(text[0]);
    assert text[0..] == text;
    DecimalRunsBack(x, group, zeros, group, tail);
  }

  function Signed(sign: string, m: nat): int {
    if sign == "-" then -(m as int) else m
  }

  /** A sign, zeros and digits read back as the signed number. */
  lemma SignedReadsBack(sign: string, m: nat, group: bool, zeros: nat, allowed: bool, tail: string)
    requires sign == "" || sign == "+" || sign == "-"
    requires EndsNumber(tail) && (group ==> zeros == 0 && allowed)
    ensures var text := sign + Zeros(zeros) + DecimalText(m, group);
            ReadInteger(text + tail, allowed) == (|text|, Signed(sign, m))
  {
    hide DecimalRun;
    hide Value;
    hide DecimalText;
    var body := Zeros(zeros) + DecimalText(m, group) + tail;
    DecimalStartsWithDigit(m, group);
    assert IsDecimal(body[0]);
    DecimalRunsBack(m, group, zeros, allowed, tail);
    assert sign + Zeros(zeros) + DecimalText(m, group) + tail == sign + body;
    SignThenRun(sign, body, allowed);
  }

  /** A sign before digits is passed over, and a minus sign turns the value. */
  lemma SignThenRun(sign: string, body: string, allowed: bool)
    requires sign == "" || sign == "+" || sign == "-"
    requires body != [] && IsDecimal(body[0])
    ensures var (digits, used) := DecimalRun(Groups(0, false, allowed), body);
            ReadInteger(sign + body, allowed) == (|sign| + used, Signed(sign, Value(digits, 10)))
  {
    hide DecimalRun;
    hide Value;
    var line := sign + body;
    assert line[|sign|..] == body && line[0] == if sign == "" then body[0] else sign[0];
  }

  /** Every 64-bit integer reads back from its text under the same grouping, the smallest included. */
  lemma IntegerReadsBack(x: int, force: bool, group: bool, tail: string)
    requires INT64_MIN <= x <= INT64_MAX && EndsNumber(tail)
    ensures ReadInteger(IntText(x, force, group) + tail, group) == (|IntText(x, force, group)|, x)
  {
    hide DecimalText;
    hide ReadInteger;
    var (sign, m, g) := Parts(x, force, group);
    IntTextParts(x, force, group);
    SignedReadsBack(sign, m, g, 0, group, tail);
    assert sign + Zeros(0) == sign;
  }

  /** Sign, magnitude, and whether the digits are grouped. */
  function Parts(x: int, force: bool, group: bool): (string, nat, bool) {
    (if x < 0 then "-" else if force then "+" else "", if x < 0 then -x else x, group && x != INT64_MIN)
  }

  lemma IntTextParts(x: int, force: bool, group: bool)
    requires INT64_MIN <= x <= INT64_MAX
    ensures var (sign, m, g) := Parts(x, force, group);
            IntText(x, force, group) == sign + DecimalText(m, g)
  {
    hide Grouped;
    hide Numeral;
    MinLiteral();
  }

  // ----- The readers over a buffer -----

  lemma ModStep(v: nat, d: nat, base: nat)
    requires IsBase(base)
    ensures Wrap64(Times(Wrap64(v), base) + d) == Wrap64(Times(v, base) + d)
  {
    var q, r := v / TWO64, v % TWO64;
    assert v == q * TWO64 + r;
    assert Times(v, base) == Times(q, base) * TWO64 + Times(r, base);
    ModShift(Times(r, base) + d, Times(q, base));
  }

  lemma ModShift(y: nat, k: nat)
    ensures (y + k * TWO64) % TWO64 == y % TWO64
  {
  }

  class Cursor {
    const data: string
    var pos: nat
    /** Where reading stops; a field width moves it, possibly past the data. */
    var size: nat

    constructor (text: string)
      ensures data == text && pos == 0 && size == |text| && Valid() && Rest() == text
    {
      data, pos, size := text, 0, |text|;
    }

    predicate Valid()
      reads this
    {
      pos <= size && pos <= |data|
    }

    /** The characters still to be read. */
    function Rest(): (s: string)
      requires Valid()
      reads this
    {
      data[pos..if size < |data| then size else |data|]
    }

    function Peek(offset: nat): char
      requires Valid()
      reads this
    {
      At(Rest(), offset)
    }

    method Advance(n: nat)
      requires Valid() && n <= |Rest()|
      modifies this`pos
      ensures Valid() && pos == old(pos) + n && Rest() == old(Rest())[n..]
    {
      pos := pos + n;
    }

    /** Reads digits of a power-of-two base; the value wraps at 64 bits. */
    method TakeUnsigned(base: nat) returns (count: nat, value: nat)
      requires Valid() && IsBase(base)
      modifies this`pos
      ensures Valid() && (count, value) == ReadUnsigned(old(Rest()), base)
      ensures pos == old(pos) + count && Rest() == old(Rest())[count..]
    {
      hide Times;
      ghost var all := Rest();
      count, value := 0, 0;
      assert value == Wrap64(Value(all[..0], base));
      hide Wrap64;
      hide Value;
      while Peek(0) != '\0'
        invariant Valid() && count <= |all| && pos == old(pos) + count && Rest() == all[count..]
        invariant AllDigits(all[..count], base) && value == Wrap64(Value(all[..count], base))
        decreases |all| - count
      {
        var nibble := Nibble(Peek(0));
        if nibble >= base {
          break;
        }
        DropAgain(all, count, 1);
        assert all[..count + 1] == all[..count] + [all[count]];
        NextOf64(all[..count], all[count], base);
        value := Wrap64(Times(value, base) + nibble);
        Advance(1);
        count := count + 1;
      }
      assert all == all[..count] + all[count..];
      DigitRunOf(all[..count], all[count..], base);
    }

    /** Delivers the next digit of a decimal number, stepping over a separator where one may stand. */
    method NextDigit(st: Groups) returns (byte: char, st': Groups, used: nat)
      requires Valid()
      modifies this`pos
      ensures Valid() && Parsed(byte, st', used) == ParseDigit(st, old(Rest()))
      ensures pos == old(pos) + used && Rest() == old(Rest())[used..]
    {
      byte, st', used := Peek(0), st, 0;
      if byte == ',' && st.allowed {
        if Peek(1) == '\0' {
          Advance(1);
          return '\0', st, 1;
        }
        if st.grouping {
          if st.period != 3 {
            return '\0', st, 0;
          }
        } else if st.period > 3 {
          return '\0', st, 0;
        }
        st' := st.(grouping := true, period := 0);
        if !(IsDecimal(Peek(1)) && IsDecimal(Peek(2)) && IsDecimal(Peek(3))) {
          return '\0', st', 0;
        }
        Advance(1);
        byte, used := Peek(0), 1;
      }
      if !IsDecimal(byte) {
        return '\0', st', used;
      }
      if st'.grouping && st'.period == 3 {
        return '\0', st', used;
      }
      Advance(1);
      st' := st'.(period := (st'.period + 1) % 256);
      used := used + 1;
    }

    /** One digit of a run: it is the next the run delivers, or the run is over. */
    method RunStep(st: Groups, ghost seen: string, ghost passed: nat, ghost run: (string, nat))
      returns (byte: char, st': Groups, used: nat)
      requires Valid()
      requires var more := DecimalRun(st, Rest());
               run == (seen + more.0, passed + more.1)
      modifies this`pos
      ensures Valid() && pos == old(pos) + used && used <= |old(Rest())| && Rest() == old(Rest())[used..]
      ensures byte == '\0' ==> run == (seen, passed + used)
      ensures byte != '\0' ==> IsDecimal(byte) && used > 0
      ensures byte != '\0' ==> var more := DecimalRun(st', Rest());
                               run == (seen + [byte] + more.0, passed + used + more.1)
    {
      hide ParseDigit;
      DecimalRunNext(st, Rest());
      hide DecimalRun;
      byte, st', used := NextDigit(st);
      assert seen + [] == seen;
      assert byte != '\0' ==> seen + ([byte] + DecimalRun(st', Rest()).0) == seen + [byte] + DecimalRun(st', Rest()).0;
    }

    /** Reads the digits of a decimal number, wrapping at 64 bits and, beside it, on the side of a sign. */
    method TakeRun(group: bool, minus: bool) returns (count: nat, wrapped: nat, signed: int)
      requires Valid()
      modifies this`pos
      ensures Valid() && pos == old(pos) + count && count <= |old(Rest())| && Rest() == old(Rest())[count..]
      ensures var run := DecimalRun(Groups(0, false, group), old(Rest()));
              && count == run.1 && wrapped == Wrap64(Value(run.0, 10))
              && signed == if minus then -(Value(run.0, 10) as int) else Value(run.0, 10)
    {
      hide DecimalRun;
      hide Value;
      ghost var all := Rest();
      count, wrapped, signed := 0, 0, 0;
      ghost var seen: string := [];
      var st := Groups(0, false, group);
      ghost var run := DecimalRun(st, Rest());
      ValueOfNothing();
      assert seen + run.0 == run.0 && all[0..] == all && Wrap64(0) == 0;
      hide Wrap64;
      while true
        invariant Valid() && count <= |all| && pos == old(pos) + count && Rest() == all[count..]
        invariant AllDigits(seen, 10) && wrapped == Wrap64(Value(seen, 10))
        invariant signed == if minus then -(Value(seen, 10) as int) else Value(seen, 10)
        invariant var more := DecimalRun(st, Rest());
                  run == (seen + more.0, count + more.1)
        decreases |all| - count
      {
        var byte, st', used := RunStep(st, seen, count, run);
        DropAgain(all, count, used);
        count := count + used;
        if byte == '\0' {
          break;
        }
        wrapped, signed := Accumulate(seen, byte, minus, wrapped, signed);
        seen, st := seen + [byte], st';
      }
    }

    /** Reads an unsigned decimal number; the value wraps at 64 bits. */
    method TakeDecimal(group: bool) returns (count: nat, value: nat)
      requires Valid()
      modifies this`pos
      ensures Valid() && (count, value) == ReadDecimal(old(Rest()), group)
      ensures pos == old(pos) + count && Rest() == old(Rest())[count..]
    {
      hide DecimalRun;
      hide Value;
      ghost var all := Rest();
      count := 0;
      assert all[0..] == all;
      if Peek(0) == '+' {
        Advance(1);
        count := 1;
      }
      var used, ignored;
      used, value, ignored := TakeRun(group, false);
      assert all[count..][used..] == all[count + used..];
      count := count + used;
    }

    /** Reads a signed decimal number, adding digits to the side of its sign. */
    method TakeInteger(group: bool) returns (count: nat, value: int)
      requires Valid()
      modifies this`pos
      ensures Valid() && (count, value) == ReadInteger(old(Rest()), group)
      ensures pos == old(pos) + count && Rest() == old(Rest())[count..]
    {
      hide DecimalRun;
      hide Value;
      ghost var all := Rest();
      var minus := Peek(0) == '-';
      count := 0;
      assert all[0..] == all;
      if Peek(0) == '+' || Peek(0) == '-' {
        Advance(1);
        count := 1;
      }
      var used, ignored;
      used, ignored, value := TakeRun(group, minus);
      assert all[count..][used..] == all[count + used..];
      count := count + used;
    }
  }

  lemma NextOf64(s: string, c: char, base: nat)
    requires IsBase(base) && AllDigits(s, base) && Nibble(c) < base
    ensures AllDigits(s + [c], base)
    ensures Wrap64(Value(s + [c], base)) == Wrap64(Times(Wrap64(Value(s, base)), base) + Nibble(c))
  {
    hide Value;
    ValueSnoc(s, c, base);
    ModStep(Value(s, base), Nibble(c), base);
  }

  lemma DropAgain(s: string, k: nat, n: nat)
    requires k + n <= |s|
    ensures s[k..][n..] == s[k + n..]
  {
  }

  /** One more digit on both accumulators: the wrapping one, and the one on the side of the sign. */
  method Accumulate(ghost seen: string, c: char, minus: bool, wrapped: nat, signed: int) returns (w: nat, v: int)
    requires AllDigits(seen, 10) && IsDecimal(c)
    requires wrapped == Wrap64(Value(seen, 10))
    requires signed == if minus then -(Value(seen, 10) as int) else Value(seen, 10)
    ensures AllDigits(seen + [c], 10) && w == Wrap64(Value(seen + [c], 10))
    ensures v == if minus then -(Value(seen + [c], 10) as int) else Value(seen + [c], 10)
  {
    hide Value;
    hide Wrap64;
    AddDigit(seen, c);
    var digit := c as int - '0' as int;
    w := Wrap64(wrapped * 10 + digit);
    v := if minus then signed * 10 - digit else signed * 10 + digit;
  }

  lemma ValueOfNothing()
    ensures Value([], 10) == 0
  {
  }

  lemma AddDigit(seen: string, c: char)
    requires AllDigits(seen, 10) && IsDecimal(c)
    ensures AllDigits(seen + [c], 10) && Value(seen + [c], 10) == Value(seen, 10) * 10 + (c as int - '0' as int)
    ensures Wrap64(Value(seen + [c], 10)) == Wrap64(Wrap64(Value(seen, 10)) * 10 + (c as int - '0' as int))
  {
    hide Value;
    ValueSnoc(seen, c, 10);
    ModStep(Value(seen, 10), Nibble(c), 10);
  }

  lemma DecimalRunNext(st: Groups, s: string)
    ensures var p := ParseDigit(st, s);
            DecimalRun(st, s) == if p.byte == '\0' then ([], p.used)
                                 else ([p.byte] + DecimalRun(p.state, s[p.used..]).0,
                                       p.used + DecimalRun(p.state, s[p.used..]).1)
  {
  }
}
