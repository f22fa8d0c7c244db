/** The UTF-8 and UTF-16 codecs: section 3 of RFC 3629 and sections 2.1 and 2.2 of RFC 2781. */
module Utf {
  /** The Unicode scalar values: every code point but the surrogates. */
  predicate Scalar(cp: bv32) {
    cp < 0xD800 || 0xDFFF < cp <= 0x10FFFF
  }

  // ----- UTF-8 -----

  // The bytes: a marker and the low bits of what is shifted into place.

  function Six(x: bv32): bv8 {
    (0x80 | (x & 0x3F)) as bv8
  }

  function Lead2(x: bv32): bv8 {
    (0xC0 | (x & 0x1F)) as bv8
  }

  function Lead3(x: bv32): bv8 {
    (0xE0 | (x & 0x0F)) as bv8
  }

  function Lead4(x: bv32): bv8 {
    (0xF0 | (x & 0x07)) as bv8
  }

  /** The bytes of a code point; surrogates are not refused, values beyond Unicode have none. */
  function Utf8(cp: bv32): seq<bv8> {
    if cp <= 0x7F then [(cp & 0x7F) as bv8]
    else if cp <= 0x7FF then [Lead2(cp >> 6), Six(cp)]
    else if cp <= 0xFFFF then [Lead3(cp >> 12), Six(cp >> 6), Six(cp)]
    else if cp <= 0x10FFFF then [Lead4(cp >> 18), Six(cp >> 12), Six(cp >> 6), Six(cp)]
    else []
  }

  predicate Tail(b: bv8) {
    b & 0xC0 == 0x80
  }

  function Pack2(a: bv32, b: bv32): bv32 {
    (a << 6) | b
  }

  function Pack3(a: bv32, b: bv32, c: bv32): bv32 {
    (a << 12) | (b << 6) | c
  }

  function Pack4(a: bv32, b: bv32, c: bv32, d: bv32): bv32 {
    (a << 18) | (b << 12) | (c << 6) | d
  }

  function Low6(b: bv8): (x: bv32)
    ensures x <= 0x3F
  {
    (b & 0x3F) as bv32
  }

  // The code point in two, three and four bytes.

  function Join2(a: bv8, b: bv8): bv32 {
    Pack2((a & 0x1F) as bv32, Low6(b))
  }

  function Join3(a: bv8, b: bv8, c: bv8): bv32 {
    Pack3((a & 0x0F) as bv32, Low6(b), Low6(c))
  }

  function Join4(a: bv8, b: bv8, c: bv8, d: bv8): bv32 {
    Pack4((a & 0x07) as bv32, Low6(b), Low6(c), Low6(d))
  }

  /** The bytes used and the code point found; no bytes are used when the input is refused. */
  function Decode8(s: seq<bv8>): (r: (nat, bv32))
    ensures r.0 <= 4 && r.0 <= |s|
  {
    if |s| == 0 then (0, 0)
    else if s[0] <= 0x7F then (1, s[0] as bv32)
    else if s[0] & 0xE0 == 0xC0 then
      if |s| < 2 || !Tail(s[1]) || Join2(s[0], s[1]) < 0x80 then (0, 0)
      else (2, Join2(s[0], s[1]))
    else if s[0] & 0xF0 == 0xE0 then
      if |s| < 3 || !Tail(s[1]) || !Tail(s[2]) then (0, 0)
      else
        var cp := Join3(s[0], s[1], s[2]);
        if 0xD800 <= cp <= 0xDFFF || cp < 0x800 then (0, 0) else (3, cp)
    else if s[0] & 0xF8 == 0xF0 then
      if |s| < 4 || !Tail(s[1]) || !Tail(s[2]) || !Tail(s[3]) || Join4(s[0], s[1], s[2], s[3]) < 0x1_0000 then (0, 0)
      else (4, Join4(s[0], s[1], s[2], s[3]))
    else (0, 0)
  }

  predicate Within(lo: bv8, b: bv8, hi: bv8) {
    lo <= b <= hi
  }

  /** The syntax of section 4 of RFC 3629: how many bytes of `s` are one well-formed character, or none. */
  function WellFormed8(s: seq<bv8>): nat {
    if |s| >= 1 && Within(0x00, s[0], 0x7F) then 1
    else if |s| >= 2 && Within(0xC2, s[0], 0xDF) && Within(0x80, s[1], 0xBF) then 2
    else if |s| >= 3 && Within(0x80, s[2], 0xBF)
            && (|| (s[0] == 0xE0 && Within(0xA0, s[1], 0xBF))
                || (Within(0xE1, s[0], 0xEC) && Within(0x80, s[1], 0xBF))
                || (s[0] == 0xED && Within(0x80, s[1], 0x9F))
                || (Within(0xEE, s[0], 0xEF) && Within(0x80, s[1], 0xBF))) then 3
    else if |s| >= 4 && Within(0x80, s[2], 0xBF) && Within(0x80, s[3], 0xBF)
            && (|| (s[0] == 0xF0 && Within(0x90, s[1], 0xBF))
                || (Within(0xF1, s[0], 0xF3) && Within(0x80, s[1], 0xBF))
                || (s[0] == 0xF4 && Within(0x80, s[1], 0x8F))) then 4
    else 0
  }

  // The ranges of the syntax as the decoder's masks and limits.

  lemma ByteRanges(b: bv8)
    ensures Tail(b) <==> Within(0x80, b, 0xBF)
    ensures b & 0xE0 == 0xC0 <==> Within(0xC0, b, 0xDF)
    ensures b & 0xF0 == 0xE0 <==> Within(0xE0, b, 0xEF)
    ensures b & 0xF8 == 0xF0 <==> Within(0xF0, b, 0xF7)
  {
  }

  lemma Limits2(a: bv8, b: bv8)
    requires Within(0xC0, a, 0xDF)
    ensures Join2(a, b) <= 0x10FFFF
    ensures Join2(a, b) < 0x80 <==> a < 0xC2
  {
  }

  lemma Limits3(a: bv8, b: bv8, c: bv8)
    requires Within(0xE0, a, 0xEF) && Within(0x80, b, 0xBF)
    ensures Join3(a, b, c) <= 0x10FFFF
    ensures Join3(a, b, c) < 0x800 <==> a == 0xE0 && b < 0xA0
    ensures 0xD800 <= Join3(a, b, c) <= 0xDFFF <==> a == 0xED && b > 0x9F
  {
  }

  lemma Limits4(a: bv8, b: bv8, c: bv8, d: bv8)
    requires Within(0xF0, a, 0xF7) && Within(0x80, b, 0xBF)
    ensures Join4(a, b, c, d) < 0x1_0000 <==> a == 0xF0 && b < 0x90
    ensures Join4(a, b, c, d) > 0x10FFFF <==> a > 0xF4 || (a == 0xF4 && b > 0x8F)
  {
  }

  /** The decoder accepts exactly the syntax, and besides it only four-byte forms beyond Unicode. */
  lemma AcceptsSyntax(s: seq<bv8>)
    ensures var (n, cp) := Decode8(s);
            WellFormed8(s) == if cp <= 0x10FFFF then n else 0
  {
    hide Join2;
    hide Join3;
    hide Join4;
    hide Tail;
    if s != [] && s[0] > 0x7F {
      ByteRanges(s[0]);
      if |s| >= 2 {
        ByteRanges(s[1]);
        if Within(0xC0, s[0], 0xDF) {
          Limits2(s[0], s[1]);
        } else if |s| >= 3 {
          ByteRanges(s[2]);
          if Within(0xE0, s[0], 0xEF) && Within(0x80, s[1], 0xBF) {
            Limits3(s[0], s[1], s[2]);
          } else if |s| >= 4 {
            ByteRanges(s[3]);
            if Within(0xF0, s[0], 0xF7) && Within(0x80, s[1], 0xBF) {
              Limits4(s[0], s[1], s[2], s[3]);
            }
          }
        }
      }
    }
  }

  // What the bit patterns of each length say, apart from sequences.

  lemma SixBits(x: bv32)
    ensures Tail(Six(x)) && Low6(Six(x)) == x & 0x3F
  {
  }

  lemma LeadBits(x: bv32)
    ensures Lead2(x) > 0x7F && Lead2(x) & 0xE0 == 0xC0 && (Lead2(x) & 0x1F) as bv32 == x & 0x1F
    ensures Lead3(x) > 0x7F && Lead3(x) & 0xE0 == 0xE0 && Lead3(x) & 0xF0 == 0xE0 && (Lead3(x) & 0x0F) as bv32 == x & 0x0F
    ensures Lead4(x) > 0x7F && Lead4(x) & 0xE0 == 0xE0 && Lead4(x) & 0xF0 == 0xF0 && Lead4(x) & 0xF8 == 0xF0
    ensures (Lead4(x) & 0x07) as bv32 == x & 0x07
  {
  }

  lemma Reassembled(cp: bv32)
    ensures cp <= 0x7FF ==> cp == Pack2((cp >> 6) & 0x1F, cp & 0x3F)
    ensures cp <= 0xFFFF ==> cp == Pack3((cp >> 12) & 0x0F, (cp >> 6) & 0x3F, cp & 0x3F)
    ensures cp <= 0x10FFFF ==> cp == Pack4((cp >> 18) & 0x07, (cp >> 12) & 0x3F, (cp >> 6) & 0x3F, cp & 0x3F)
  {
  }

  lemma Joined2(cp: bv32)
    requires cp <= 0x7FF
    ensures Join2(Lead2(cp >> 6), Six(cp)) == cp
  {
    hide Six;
    hide Lead2;
    hide Tail;
    hide Low6;
    hide Pack2;
    LeadBits(cp >> 6);
    SixBits(cp);
    Reassembled(cp);
  }

  lemma Joined3(cp: bv32)
    requires cp <= 0xFFFF
    ensures Join3(Lead3(cp >> 12), Six(cp >> 6), Six(cp)) == cp
  {
    hide Six;
    hide Lead3;
    hide Tail;
    hide Low6;
    hide Pack3;
    LeadBits(cp >> 12);
    SixBits(cp >> 6);
    SixBits(cp);
    Reassembled(cp);
  }

  lemma Joined4(cp: bv32)
    requires cp <= 0x10FFFF
    ensures Join4(Lead4(cp >> 18), Six(cp >> 12), Six(cp >> 6), Six(cp)) == cp
  {
    hide Six;
    hide Lead4;
    hide Tail;
    hide Low6;
    hide Pack4;
    LeadBits(cp >> 18);
    SixBits(cp >> 12);
    SixBits(cp >> 6);
    SixBits(cp);
    Reassembled(cp);
  }

  lemma Decodes2(cp: bv32, tail: seq<bv8>)
    requires 0x7F < cp <= 0x7FF
    ensures Decode8([Lead2(cp >> 6), Six(cp)] + tail) == (2, cp)
  {
    Joined2(cp);
    LeadBits(cp >> 6);
    SixBits(cp);
    hide Six;
    hide Lead2;
    hide Join2;
    hide Tail;
    var s := [Lead2(cp >> 6), Six(cp)] + tail;
    assert s[0] == Lead2(cp >> 6) && s[1] == Six(cp);
  }

  lemma Decodes3(cp: bv32, tail: seq<bv8>)
    requires 0x7FF < cp <= 0xFFFF
    ensures Decode8([Lead3(cp >> 12), Six(cp >> 6), Six(cp)] + tail)
         == if 0xD800 <= cp <= 0xDFFF then (0, 0) else (3, cp)
  {
    Joined3(cp);
    LeadBits(cp >> 12);
    SixBits(cp);
    SixBits(cp >> 6);
    hide Six;
    hide Lead3;
    hide Join3;
    hide Tail;
    var s := [Lead3(cp >> 12), Six(cp >> 6), Six(cp)] + tail;
    assert s[0] == Lead3(cp >> 12) && s[1] == Six(cp >> 6) && s[2] == Six(cp);
  }

  lemma Decodes4(cp: bv32, tail: seq<bv8>)
    requires 0xFFFF < cp <= 0x10FFFF
    ensures Decode8([Lead4(cp >> 18), Six(cp >> 12), Six(cp >> 6), Six(cp)] + tail) == (4, cp)
  {
    Joined4(cp);
    LeadBits(cp >> 18);
    SixBits(cp);
    SixBits(cp >> 6);
    SixBits(cp >> 12);
    hide Six;
    hide Lead4;
    hide Join4;
    hide Tail;
    var s := [Lead4(cp >> 18), Six(cp >> 12), Six(cp >> 6), Six(cp)] + tail;
    assert s[0] == Lead4(cp >> 18) && s[1] == Six(cp >> 12) && s[2] == Six(cp >> 6) && s[3] == Six(cp);
  }

  /** Decoding undoes encoding exactly on the scalar values, whatever follows. */
  lemma DecodesEncoded8(cp: bv32, tail: seq<bv8>)
    ensures Utf8(cp) != [] && Decode8(Utf8(cp) + tail) == (|Utf8(cp)|, cp) <==> Scalar(cp)
  {
    hide Six;
    hide Lead2;
    hide Lead3;
    hide Lead4;
    if cp <= 0x7F {
      assert (Utf8(cp) + tail)[0] == Utf8(cp)[0];
    } else {
      hide Decode8;
      if cp <= 0x7FF {
        Decodes2(cp, tail);
      } else if cp <= 0xFFFF {
        Decodes3(cp, tail);
      } else if cp <= 0x10FFFF {
        Decodes4(cp, tail);
      }
    }
  }

  lemma SixWhole(b: bv8, x: bv32)
    ensures Tail(b) && x & 0x3F == Low6(b) ==> Six(x) == b
  {
  }

  lemma Apart2(a: bv32, b: bv32)
    requires a <= 0x1F && b <= 0x3F
    ensures var cp := Pack2(a, b);
            cp <= 0x7FF && cp >> 6 == a && cp & 0x3F == b
  {
  }

  lemma Apart3(a: bv32, b: bv32, c: bv32)
    requires a <= 0x0F && b <= 0x3F && c <= 0x3F
    ensures var cp := Pack3(a, b, c);
            cp <= 0xFFFF && cp >> 12 == a && (cp >> 6) & 0x3F == b && cp & 0x3F == c
  {
  }

  lemma Apart4(a: bv32, b: bv32, c: bv32, d: bv32)
    requires a <= 0x07 && b <= 0x3F && c <= 0x3F && d <= 0x3F
    ensures var cp := Pack4(a, b, c, d);
            cp >> 18 == a && (cp >> 12) & 0x3F == b && (cp >> 6) & 0x3F == c && cp & 0x3F == d
  {
  }

  lemma LeadWhole2(a: bv8, x: bv32)
    requires a & 0xE0 == 0xC0
    ensures (a & 0x1F) as bv32 <= 0x1F
    ensures x == (a & 0x1F) as bv32 ==> Lead2(x) == a
  {
  }

  lemma LeadWhole3(a: bv8, x: bv32)
    requires a & 0xF0 == 0xE0
    ensures (a & 0x0F) as bv32 <= 0x0F
    ensures x == (a & 0x0F) as bv32 ==> Lead3(x) == a
  {
  }

  lemma LeadWhole4(a: bv8, x: bv32)
    requires a & 0xF8 == 0xF0
    ensures (a & 0x07) as bv32 <= 0x07
    ensures x == (a & 0x07) as bv32 ==> Lead4(x) == a
  {
  }

  lemma BytesOf(cp: bv32)
    ensures 0x80 <= cp <= 0x7FF ==> Utf8(cp) == [Lead2(cp >> 6), Six(cp)]
    ensures 0x800 <= cp <= 0xFFFF ==> Utf8(cp) == [Lead3(cp >> 12), Six(cp >> 6), Six(cp)]
    ensures 0x1_0000 <= cp <= 0x10FFFF ==> Utf8(cp) == [Lead4(cp >> 18), Six(cp >> 12), Six(cp >> 6), Six(cp)]
  {
    hide Six;
    hide Lead2;
    hide Lead3;
    hide Lead4;
  }

  lemma Beyond(cp: bv32)
    requires cp > 0x10FFFF
    ensures Utf8(cp) == []
  {
  }

  lemma Whole1(a: bv8)
    requires a <= 0x7F
    ensures Utf8(a as bv32) == [a]
  {
    assert (a as bv32 & 0x7F) as bv8 == a;
  }

  lemma Whole2(a: bv8, b: bv8)
    requires a & 0xE0 == 0xC0 && 0x80 <= Join2(a, b)
    requires Tail(b)
    ensures Join2(a, b) <= 0x7FF && Utf8(Join2(a, b)) == [a, b]
  {
    hide Utf8;
    hide Tail;
    hide Six;
    hide Low6;
    hide Pack2;
    var cp := Join2(a, b);
    Apart2((a & 0x1F) as bv32, Low6(b));
    LeadWhole2(a, cp >> 6);
    SixWhole(b, cp);
    assert Lead2(cp >> 6) == a && Six(cp) == b;
    BytesOf(cp);
  }

  lemma Whole3(a: bv8, b: bv8, c: bv8)
    requires a & 0xF0 == 0xE0 && 0x800 <= Join3(a, b, c)
    requires Tail(b) && Tail(c)
    ensures Join3(a, b, c) <= 0xFFFF && Utf8(Join3(a, b, c)) == [a, b, c]
  {
    hide Utf8;
    hide Tail;
    hide Six;
    hide Low6;
    hide Pack3;
    var cp := Join3(a, b, c);
    Apart3((a & 0x0F) as bv32, Low6(b), Low6(c));
    LeadWhole3(a, cp >> 12);
    SixWhole(b, cp >> 6);
    SixWhole(c, cp);
    assert Lead3(cp >> 12) == a && Six(cp >> 6) == b && Six(cp) == c;
    BytesOf(cp);
  }

  lemma Whole4(a: bv8, b: bv8, c: bv8, d: bv8)
    requires a & 0xF8 == 0xF0 && 0x1_0000 <= Join4(a, b, c, d)
    requires Tail(b) && Tail(c) && Tail(d)
    ensures Join4(a, b, c, d) <= 0x10FFFF ==> Utf8(Join4(a, b, c, d)) == [a, b, c, d]
  {
    hide Utf8;
    hide Tail;
    hide Six;
    hide Low6;
    hide Pack4;
    var cp := Join4(a, b, c, d);
    Apart4((a & 0x07) as bv32, Low6(b), Low6(c), Low6(d));
    LeadWhole4(a, cp >> 18);
    SixWhole(b, cp >> 12);
    SixWhole(c, cp >> 6);
    SixWhole(d, cp);
    assert Lead4(cp >> 18) == a && Six(cp >> 12) == b && Six(cp >> 6) == c && Six(cp) == d;
    BytesOf(cp);
  }

  /** One accepted character and its encoding. */
  ghost predicate Whole(s: seq<bv8>, n: nat, cp: bv32)
    requires n <= |s|
  {
    (Scalar(cp) <==> cp <= 0x10FFFF) && (s[..n] == Utf8(cp) <==> cp <= 0x10FFFF)
  }

  lemma Accepted1(s: seq<bv8>)
    requires Decode8(s).0 == 1
    ensures Whole(s, 1, Decode8(s).1)
  {
    hide Utf8;
    hide Tail;
    hide Join2;
    hide Join3;
    hide Join4;
    assert s[..1] == [s[0]];
    Whole1(s[0]);
  }

  lemma Accepted2(s: seq<bv8>)
    requires Decode8(s).0 == 2
    ensures Whole(s, 2, Decode8(s).1)
  {
    hide Utf8;
    hide Tail;
    hide Join2;
    hide Join3;
    hide Join4;
    assert s[..2] == [s[0], s[1]];
    Whole2(s[0], s[1]);
  }

  lemma Accepted3(s: seq<bv8>)
    requires Decode8(s).0 == 3
    ensures Whole(s, 3, Decode8(s).1)
  {
    hide Utf8;
    hide Tail;
    hide Join2;
    hide Join3;
    hide Join4;
    assert s[..3] == [s[0], s[1], s[2]];
    Whole3(s[0], s[1], s[2]);
  }

  lemma Accepted4(s: seq<bv8>)
    requires Decode8(s).0 == 4
    ensures Whole(s, 4, Decode8(s).1)
  {
    hide Utf8;
    hide Tail;
    hide Join2;
    hide Join3;
    hide Join4;
    assert s[..4] == [s[0], s[1], s[2], s[3]];
    var cp := Decode8(s).1;
    if cp <= 0x10FFFF {
      Whole4(s[0], s[1], s[2], s[3]);
    } else {
      Beyond(cp);
    }
  }

  /** An accepted sequence is the one encoding of its value exactly when the value is within Unicode. */
  lemma EncodesDecoded8(s: seq<bv8>)
    requires Decode8(s).0 > 0
    ensures var (n, cp) := Decode8(s);
            (Scalar(cp) <==> cp <= 0x10FFFF) && (s[..n] == Utf8(cp) <==> cp <= 0x10FFFF)
  {
    hide Decode8;
    hide Utf8;
    var n := Decode8(s).0;
    if n == 1 {
      Accepted1(s);
    } else if n == 2 {
      Accepted2(s);
    } else if n == 3 {
      Accepted3(s);
    } else {
      Accepted4(s);
    }
  }

  /** Beyond Unicode the decoder accepts what nothing encodes to. */
  lemma AcceptsBeyondUnicode()
    ensures Decode8([0xF4, 0x90, 0x80, 0x80]) == (4, 0x11_0000) && Utf8(0x11_0000) == []
  {
  }

  // ----- UTF-16 -----

  /** The units of a code point; surrogates are not refused, values beyond Unicode have none. */
  function Utf16(cp: bv32): seq<bv16> {
    if cp > 0x10FFFF then []
    else if cp <= 0xFFFF then [Narrow(cp)]
    else [High(cp - 0x1_0000), Low(cp - 0x1_0000)]
  }

  function Narrow(cp: bv32): bv16
    requires cp <= 0xFFFF
  {
    cp as bv16
  }

  function Wide(unit: bv16): bv32 {
    unit as bv32
  }

  predicate IsHigh(unit: bv16) {
    0xD800 <= unit <= 0xDBFF
  }

  predicate IsLow(unit: bv16) {
    0xDC00 <= unit <= 0xDFFF
  }

  function High(v: bv32): bv16 {
    (0xD800 | ((v >> 10) & 0x3FF)) as bv16
  }

  function Low(v: bv32): bv16 {
    (0xDC00 | (v & 0x3FF)) as bv16
  }

  function Twenty(high: bv16, low: bv16): bv32 {
    ((high & 0x3FF) as bv32 << 10) | (low & 0x3FF) as bv32
  }

  function Paired(high: bv16, low: bv16): bv32 {
    Twenty(high, low) + 0x1_0000
  }

  /** The units used and the code point found; no units are used when the input is refused. */
  function Decode16(u: seq<bv16>): (r: (nat, bv32))
    ensures r.0 <= 2 && r.0 <= |u|
  {
    if |u| < 1 then (0, 0)
    else if !IsHigh(u[0]) && !IsLow(u[0]) then (1, Wide(u[0]))
    else if IsHigh(u[0]) && |u| >= 2 && IsLow(u[1]) then (2, Paired(u[0], u[1]))
    else (0, 0)
  }

  lemma HalvesBits(v: bv32)
    requires v <= 0xF_FFFF
    ensures IsHigh(High(v)) && !IsLow(High(v)) && IsLow(Low(v)) && Twenty(High(v), Low(v)) == v
  {
  }

  lemma HalvesWhole(high: bv16, low: bv16)
    requires IsHigh(high) && IsLow(low)
    ensures Twenty(high, low) <= 0xF_FFFF && High(Twenty(high, low)) == high && Low(Twenty(high, low)) == low
  {
  }

  lemma Offset(cp: bv32)
    requires 0xFFFF < cp <= 0x10FFFF
    ensures cp - 0x1_0000 <= 0xF_FFFF && cp - 0x1_0000 + 0x1_0000 == cp
  {
  }

  lemma OffsetBack(v: bv32)
    requires v <= 0xF_FFFF
    ensures 0xFFFF < v + 0x1_0000 <= 0x10FFFF && v + 0x1_0000 - 0x1_0000 == v
  {
  }

  lemma UnitBits(cp: bv32)
    requires cp <= 0xFFFF
    ensures Wide(Narrow(cp)) == cp
    ensures !IsHigh(Narrow(cp)) && !IsLow(Narrow(cp)) <==> Scalar(cp)
  {
  }

  lemma UnitWhole(x: bv16)
    ensures Wide(x) <= 0xFFFF && Narrow(Wide(x)) == x
    ensures !IsHigh(x) && !IsLow(x) ==> Scalar(Wide(x))
  {
  }

  lemma PairDecodes(cp: bv32, tail: seq<bv16>)
    requires 0xFFFF < cp <= 0x10FFFF
    ensures Decode16(Utf16(cp) + tail) == (2, cp) && |Utf16(cp)| == 2
  {
    hide High;
    hide Low;
    hide IsHigh;
    hide IsLow;
    hide Twenty;
    var v := cp - 0x1_0000;
    Offset(cp);
    HalvesBits(v);
    var u := Utf16(cp) + tail;
    assert u[0] == High(v) && u[1] == Low(v);
  }

  lemma UnitDecodes(cp: bv32, tail: seq<bv16>)
    requires cp <= 0xFFFF
    ensures |Utf16(cp)| == 1
    ensures Decode16(Utf16(cp) + tail) == (1, cp) <==> Scalar(cp)
  {
    hide Paired;
    hide Scalar;
    hide IsHigh;
    hide IsLow;
    hide Narrow;
    hide Wide;
    UnitBits(cp);
    var u := Utf16(cp) + tail;
    assert u[0] == Narrow(cp);
  }

  /** Decoding undoes encoding exactly on the scalar values, whatever follows. */
  lemma DecodesEncoded16(cp: bv32, tail: seq<bv16>)
    ensures Utf16(cp) != [] && Decode16(Utf16(cp) + tail) == (|Utf16(cp)|, cp) <==> Scalar(cp)
  {
    hide Decode16;
    if cp <= 0xFFFF {
      UnitDecodes(cp, tail);
    } else if cp <= 0x10FFFF {
      PairDecodes(cp, tail);
    }
    hide High;
    hide Low;
  }

  lemma PairEncodes(high: bv16, low: bv16)
    requires IsHigh(high) && IsLow(low)
    ensures Scalar(Paired(high, low)) && Utf16(Paired(high, low)) == [high, low]
  {
    hide High;
    hide Low;
    hide Twenty;
    HalvesWhole(high, low);
    OffsetBack(Twenty(high, low));
  }

  lemma UnitEncodes(x: bv16)
    ensures !IsHigh(x) && !IsLow(x) ==> Scalar(Wide(x))
    ensures Utf16(Wide(x)) == [x]
  {
    hide Scalar;
    hide IsHigh;
    hide IsLow;
    hide Narrow;
    hide Wide;
    UnitWhole(x);
  }

  /** Whatever is accepted is the one encoding of a scalar value. */
  lemma EncodesDecoded16(u: seq<bv16>)
    requires Decode16(u).0 > 0
    ensures var (n, cp) := Decode16(u);
            Scalar(cp) && u[..n] == Utf16(cp)
  {
    hide Utf16;
    hide Paired;
    hide Scalar;
    hide IsHigh;
    hide IsLow;
    hide Wide;
    if Decode16(u).0 == 2 {
      PairEncodes(u[0], u[1]);
      assert u[..2] == [u[0], u[1]];
    } else {
      UnitEncodes(u[0]);
      assert u[..1] == [u[0]];
    }
  }

  // ----- The values -----

  /** What each length stands for: the lead byte without its mark, then six bits for every byte behind it. */
  lemma DecodedValue8(s: seq<bv8>)
    ensures var (n, cp) := Decode8(s);
            && (n == 1 ==> cp == s[0] as bv32)
            && (n == 2 ==> cp == (s[0] as bv32 - 0xC0) * 0x40 + (s[1] as bv32 - 0x80))
            && (n == 3 ==> cp == (s[0] as bv32 - 0xE0) * 0x1000 + (s[1] as bv32 - 0x80) * 0x40 + (s[2] as bv32 - 0x80))
            && (n == 4 ==> cp == (s[0] as bv32 - 0xF0) * 0x4_0000 + (s[1] as bv32 - 0x80) * 0x1000
                                 + (s[2] as bv32 - 0x80) * 0x40 + (s[3] as bv32 - 0x80))
  {
    var n := Decode8(s).0;
    if n == 2 {
      Sum2(s[0], s[1]);
    } else if n == 3 {
      Sum3(s[0], s[1], s[2]);
    } else if n == 4 {
      Sum4(s[0], s[1], s[2], s[3]);
    }
    hide Join2;
    hide Join3;
    hide Join4;
    hide Tail;
  }

  lemma Sum2(a: bv8, b: bv8)
    requires a & 0xE0 == 0xC0 && Tail(b)
    ensures Join2(a, b) == (a as bv32 - 0xC0) * 0x40 + (b as bv32 - 0x80)
  {
  }

  lemma Sum3(a: bv8, b: bv8, c: bv8)
    requires a & 0xF0 == 0xE0 && Tail(b) && Tail(c)
    ensures Join3(a, b, c) == (a as bv32 - 0xE0) * 0x1000 + (b as bv32 - 0x80) * 0x40 + (c as bv32 - 0x80)
  {
  }

  lemma Sum4(a: bv8, b: bv8, c: bv8, d: bv8)
    requires a & 0xF8 == 0xF0 && Tail(b) && Tail(c) && Tail(d)
    ensures Join4(a, b, c, d) == (a as bv32 - 0xF0) * 0x4_0000 + (b as bv32 - 0x80) * 0x1000
                                 + (c as bv32 - 0x80) * 0x40 + (d as bv32 - 0x80)
  {
  }

  /** A unit stands for itself, and a pair for ten bits of each above 0xFFFF. */
  lemma DecodedValue16(u: seq<bv16>)
    ensures var (n, cp) := Decode16(u);
            && (n == 1 ==> cp == u[0] as bv32)
            && (n == 2 ==> cp == 0x1_0000 + (u[0] as bv32 - 0xD800) * 0x400 + (u[1] as bv32 - 0xDC00))
  {
    if Decode16(u).0 == 2 {
      SumOfPair(u[0], u[1]);
    }
  }

  lemma SumOfPair(high: bv16, low: bv16)
    requires IsHigh(high) && IsLow(low)
    ensures Paired(high, low) == 0x1_0000 + (high as bv32 - 0xD800) * 0x400 + (low as bv32 - 0xDC00)
  {
  }
}
