/** Wide strings: the `%ls` conversion, which turns UTF-16 into UTF-8. */
module WideStrings {
  import opened Basics
  import opened OutputBuffer
  import opened Utf

  // ----- Whole strings -----

  ghost predicate Scalars(cps: seq<bv32>) {
    forall i | 0 <= i < |cps| :: Scalar(cps[i])
  }

  function All8(cps: seq<bv32>): seq<bv8> {
    if cps == [] then [] else Utf8(cps[0]) + All8(cps[1..])
  }

  function All16(cps: seq<bv32>): seq<bv16> {
    if cps == [] then [] else Utf16(cps[0]) + All16(cps[1..])
  }

  /** The code points of a string of bytes, as far as they decode. */
  function Read8(s: seq<bv8>): seq<bv32> {
    var (n, cp) := Decode8(s);
    if n == 0 then [] else [cp] + Read8(s[n..])
  }

  /** The units are some sequence of scalar values in UTF-16. */
  ghost predicate WellFormed16(units: seq<bv16>) {
    exists cps :: Scalars(cps) && All16(cps) == units
  }

  /** Nothing is lost in UTF-8. */
  lemma {:induction false} Read8OfAll8(cps: seq<bv32>)
    requires Scalars(cps)
    ensures Read8(All8(cps)) == cps
  {
    hide Decode8;
    hide Utf8;
    hide Scalar;
    if cps == [] {
      NothingDecodes();
    } else {
      var rest := All8(cps[1..]);
      DecodesEncoded8(cps[0], rest);
      assert (Utf8(cps[0]) + rest)[|Utf8(cps[0])|..] == rest;
      Read8OfAll8(cps[1..]);
    }
  }

  lemma NothingDecodes()
    ensures Decode8([]).0 == 0
  {
  }

  // ----- What the conversion prints -----

  /** The code points the loop prints: those that begin within `count` units, up to the first bad sequence. */
  function Points(u: seq<bv16>, count: int): seq<bv32>
    decreases |u|
  {
    if count <= 0 then []
    else
      var (n, cp) := Decode16(u);
      if n == 0 || cp == 0 then [] else [cp] + Points(u[n..], count - n)
  }

  lemma UnitsOfScalar(cp: bv32)
    requires Scalar(cp)
    ensures 1 <= |Utf16(cp)| <= 2 && (cp != 0 ==> 0 !in Utf16(cp))
  {
    hide High;
    hide Low;
    if cp > 0xFFFF {
      HalvesNotZero(cp - 0x1_0000);
    }
  }

  lemma HalvesNotZero(v: bv32)
    ensures High(v) != 0 && Low(v) != 0
  {
  }

  /** One well-formed character is printed, and the loop goes on behind it. */
  lemma PointsOfOne(cp: bv32, s: seq<bv16>, count: int)
    requires Scalar(cp) && cp != 0 && count > 0
    ensures Points(Utf16(cp) + s, count) == [cp] + Points(s, count - |Utf16(cp)|)
    ensures |Utf16(cp)| >= 1
  {
    hide Decode16;
    hide Utf16;
    hide Scalar;
    DecodesEncoded16(cp, s);
    UnitsOfScalar(cp);
    assert (Utf16(cp) + s)[|Utf16(cp)|..] == s;
  }

  /** The units of a prefix. */
  lemma All16Takes(cps: seq<bv32>, k: nat)
    requires k <= |cps|
    ensures k == 0 ==> All16(cps[..k]) == []
    ensures k > 0 ==> All16(cps[..k]) == Utf16(cps[0]) + All16(cps[1..][..k - 1])
    ensures k == |cps| ==> cps[..k] == cps && (k > 0 ==> cps[1..][..k - 1] == cps[1..])
  {
    if k > 0 {
      assert cps[..k][1..] == cps[1..][..k - 1];
    }
  }

  /**
   * Within `count` units of a well-formed string the loop prints a prefix of its characters: the
   * shortest one that covers those units.
   */
  lemma {:induction false} PointsOfAll16(cps: seq<bv32>, tail: seq<bv16>, count: nat) returns (k: nat)
    requires Scalars(cps) && 0 !in cps && count <= |All16(cps)|
    ensures k <= |cps| && Points(All16(cps) + tail, count) == cps[..k]
    ensures count <= |All16(cps[..k])| && (k > 0 ==> |All16(cps[..k - 1])| < count)
    decreases |cps|
  {
    hide Points;
    hide All16;
    hide Utf16;
    hide Scalar;
    if count == 0 {
      k := 0;
      NoPoints(All16(cps) + tail, count);
      All16Takes(cps, k);
    } else {
      if cps == [] {
        All16Takes(cps, 0);
      }
      var cp, rest := cps[0], All16(cps[1..]);
      All16Takes(cps, |cps|);
      var n := |Utf16(cp)|;
      assert Utf16(cp) + rest + tail == Utf16(cp) + (rest + tail);
      PointsOfOne(cp, rest + tail, count);
      if count <= n {
        k := 1;
        NoPoints(rest + tail, count - n);
      } else {
        var j := PointsOfAll16(cps[1..], tail, count - n);
        k := j + 1;
        assert cps[..k] == [cp] + cps[1..][..j];
      }
      All16Takes(cps, k - 1);
      All16Takes(cps, k);
    }
  }

  /** Without a precision the loop stops only at the end or before units that are no character. */
  lemma {:induction false} PointsStop(units: seq<bv16>)
    requires 0 !in units
    ensures var cps := Points(units + [0], |units|);
            var m := |All16(cps)|;
            && Scalars(cps) && 0 !in cps && m <= |units| && All16(cps) == units[..m]
            && (m < |units| ==> Decode16(units[m..] + [0]).0 == 0)
    decreases |units|
  {
    hide Decode16;
    hide Utf16;
    hide Scalar;
    if units != [] {
      var (n, cp) := Decode16(units + [0]);
      if n > 0 {
        EncodesDecoded16(units + [0]);
        UnitsOfScalar(cp);
        NotTheEnd(units);
        assert (units + [0])[..n] == units[..n] && (units + [0])[n..] == units[n..] + [0];
        PointsStop(units[n..]);
        var rest := Points(units[n..] + [0], |units| - n);
        assert Points(units + [0], |units|) == [cp] + rest;
        assert ([cp] + rest)[1..] == rest;
        Continued(units, n, |All16(rest)|);
      } else {
        assert units[0..] == units;
      }
    }
  }

  lemma Continued(units: seq<bv16>, n: nat, m: nat)
    requires n + m <= |units|
    ensures units[..n] + units[n..][..m] == units[..n + m]
    ensures units[n..][m..] == units[n + m..]
  {
  }

  /** The terminator is no low surrogate, and no unit before it reads as the code point zero. */
  lemma NotTheEnd(units: seq<bv16>)
    requires units != [] && 0 !in units && Decode16(units + [0]).0 > 0
    ensures Decode16(units + [0]).0 <= |units| && Decode16(units + [0]).1 != 0
  {
    var u := units + [0];
    assert u[0] == units[0] && units[0] != 0;
    if |units| == 1 {
      assert u[1] == 0;
    } else {
      assert u[1] == units[1];
    }
    EncodesDecoded16(u);
    ZeroUnit();
    hide Utf16;
  }

  lemma ZeroUnit()
    ensures Utf16(0) == [0]
  {
  }

  /** Without a precision every unit is printed exactly when the string is well-formed. */
  lemma PrintsAllWhenWellFormed(units: seq<bv16>)
    requires 0 !in units
    ensures All16(Points(units + [0], |units|)) == units <==> WellFormed16(units)
  {
    hide Utf16;
    hide Scalar;
    hide Decode16;
    var cps := Points(units + [0], |units|);
    PointsStop(units);
    if WellFormed16(units) {
      var all :| Scalars(all) && All16(all) == units;
      ZeroFree(all);
      var k := PointsOfAll16(all, [0], |units|);
      CoversAll(all, k);
    } else {
      assert Scalars(cps);
    }
  }

  lemma {:induction false} ZeroFree(cps: seq<bv32>)
    requires Scalars(cps) && 0 !in All16(cps)
    ensures 0 !in cps
  {
    hide Scalar;
    if cps != [] {
      ZeroUnit();
      hide Utf16;
      assert 0 !in Utf16(cps[0]) + All16(cps[1..]);
      assert forall x | x in Utf16(cps[0]) :: x in Utf16(cps[0]) + All16(cps[1..]);
      assert forall x | x in All16(cps[1..]) :: x in Utf16(cps[0]) + All16(cps[1..]);
      ZeroFree(cps[1..]);
      assert cps == [cps[0]] + cps[1..];
    }
  }

  lemma {:induction false} CoversAll(cps: seq<bv32>, k: nat)
    requires Scalars(cps) && k <= |cps| && |All16(cps[..k])| >= |All16(cps)|
    ensures k == |cps|
  {
    hide Scalar;
    hide Utf16;
    if cps != [] {
      UnitsOfScalar(cps[0]);
      if k > 0 {
        assert cps[..k][1..] == cps[1..][..k - 1];
        CoversAll(cps[1..], k - 1);
      }
    }
  }

  /** Without a precision the text of a string in UTF-16 is the same string in UTF-8, and can be read back. */
  lemma TextIsUtf8(cps: seq<bv32>)
    requires Scalars(cps) && 0 !in cps
    ensures var units := All16(cps);
            var text := All8(Points(units + [0], |units|));
            text == All8(cps) && Read8(text) == cps
  {
    hide Utf16;
    hide Utf8;
    hide Scalar;
    hide Decode16;
    hide Decode8;
    var k := PointsOfAll16(cps, [0], |All16(cps)|);
    CoversAll(cps, k);
    assert cps[..k] == cps;
    Read8OfAll8(cps);
  }

  // ----- The code -----

  function Char(b: bv8): char {
    b as char
  }

  function Chars(s: seq<bv8>): (text: string)
    ensures |text| == |s| && forall i | 0 <= i < |s| :: text[i] == s[i] as char
  {
    seq(|s|, i requires 0 <= i < |s| => Char(s[i]))
  }

  /** Stores the bytes of a code point at the start of a scratch array. */
  method Encode8(temp: array<bv8>, cp: bv32) returns (size: nat)
    requires temp.Length >= 4
    modifies temp
    ensures size <= 4 && size == |Utf8(cp)| && temp[..size] == Utf8(cp)
  {
    hide Six;
    hide Lead2;
    hide Lead3;
    hide Lead4;
    if cp <= 0x7F {
      temp[0] := (cp & 0x7F) as bv8;
      return 1;
    }
    if cp <= 0x7FF {
      temp[0], temp[1] := Lead2(cp >> 6), Six(cp);
      return 2;
    }
    if cp <= 0xFFFF {
      temp[0], temp[1], temp[2] := Lead3(cp >> 12), Six(cp >> 6), Six(cp);
      return 3;
    }
    if cp <= 0x10FFFF {
      temp[0], temp[1], temp[2], temp[3] := Lead4(cp >> 18), Six(cp >> 12), Six(cp >> 6), Six(cp);
      return 4;
    }
    return 0;
  }

  /** How many units are printed: up to the terminator, and no more than the precision. */
  method CountUnits(data: seq<bv16>, precision: nat) returns (count: nat)
    requires data != [] && data[|data| - 1] == 0 && 0 !in data[..|data| - 1]
    ensures count == if precision < |data| - 1 then precision else |data| - 1
  {
    count := 0;
    while data[count] != 0 && count < precision
      invariant count <= precision && count < |data|
      decreases precision - count
    {
      count := count + 1;
    }
    assert count < |data| - 1 ==> data[count] in data[..|data| - 1];
  }

  method PrintPoint(buffer: Buffer, temp: array<bv8>, cp: bv32) returns (size: nat)
    requires buffer.Valid() && temp.Length >= 4 && (temp as object) != buffer.data
    modifies buffer, buffer.data, temp
    ensures buffer.Valid() && (buffer.data == old(buffer.data) || fresh(buffer.data))
    ensures size == |Utf8(cp)| && buffer.Contents() == old(buffer.Contents()) + Chars(Utf8(cp))
  {
    hide Utf8;
    hide Char;
    size := Encode8(temp, cp);
    buffer.WriteN(Chars(temp[..size]));
  }

  /** The text of a wide string, unit by unit. */
  method PrintUnits(buffer: Buffer, data: seq<bv16>, count: nat) returns (result: nat)
    requires buffer.Valid() && count < |data|
    modifies buffer, buffer.data
    ensures buffer.Valid() && (buffer.data == old(buffer.data) || fresh(buffer.data))
    ensures var text := Chars(All8(Points(data, count)));
            buffer.Contents() == old(buffer.Contents()) + text && result == |text|
  {
    hide Utf8;
    hide Decode16;
    hide Chars;
    hide Points;
    hide All8;
    var temp := new bv8[32];
    ghost var all, done: seq<bv8> := All8(Points(data, count)), [];
    var i, pos := 0, 0;
    result := 0;
    assert data[0..] == data;
    while i < count
      invariant pos <= |data| && (i == pos || i > count)
      invariant buffer.Valid() && (buffer.data == old(buffer.data) || fresh(buffer.data))
      invariant fresh(temp) && (temp as object) != buffer.data
      invariant all == done + All8(Points(data[pos..], count - i))
      invariant buffer.Contents() == old(buffer.Contents()) + Chars(done) && result == |done|
      decreases count - i
    {
      var (n, cp) := Decode16(data[pos..]);
      PointsStep(data, pos, count - i);
      pos := pos + n;
      if n == 2 {
        i := i + 1;
      }
      if n == 0 || cp == 0 {
        assert all == done;
        break;
      }
      var size := PrintPoint(buffer, temp, cp);
      result := result + size;
      CharsOfMore(done, Utf8(cp));
      done := done + Utf8(cp);
      i := i + 1;
    }
    if i >= count {
      NoPoints(data[pos..], count - i);
    }
    assert all == done;
  }

  /** One turn of the loop. */
  lemma PointsStep(data: seq<bv16>, pos: nat, left: int)
    requires pos <= |data| && left > 0
    ensures var (n, cp) := Decode16(data[pos..]);
            All8(Points(data[pos..], left))
            == if n == 0 || cp == 0 then [] else Utf8(cp) + All8(Points(data[pos + n..], left - n))
  {
    hide Decode16;
    hide Utf8;
    var (n, cp) := Decode16(data[pos..]);
    assert data[pos..][n..] == data[pos + n..];
    if n > 0 && cp != 0 {
      var rest := Points(data[pos + n..], left - n);
      assert ([cp] + rest)[1..] == rest;
    }
  }

  lemma NoPoints(u: seq<bv16>, left: int)
    requires left <= 0
    ensures Points(u, left) == [] && All8(Points(u, left)) == []
  {
  }

  lemma CharsOfMore(s: seq<bv8>, t: seq<bv8>)
    ensures Chars(s + t) == Chars(s) + Chars(t)
  {
  }

  /** The conversion: padding goes by units, on the side the flags ask for. */
  method PrintWideString(buffer: Buffer, data: seq<bv16>, width: nat, precision: nat, left: bool) returns (result: nat)
    requires buffer.Valid()
    requires data != [] && data[|data| - 1] == 0 && 0 !in data[..|data| - 1]
    modifies buffer, buffer.data
    ensures buffer.Valid() && (buffer.data == old(buffer.data) || fresh(buffer.data))
    ensures var count := if precision < |data| - 1 then precision else |data| - 1;
            var pad := Repeat(' ', if width > count then width - count else 0);
            var text := Chars(All8(Points(data, count)));
            && buffer.Contents() == old(buffer.Contents()) + (if left then text + pad else pad + text)
            && result == |pad| + |text|
  {
    hide All8;
    hide Points;
    hide Chars;
    var count := CountUnits(data, precision);
    result := 0;
    if width > count && !left {
      result := buffer.Fill(' ', 0, width - count);
    }
    var n := PrintUnits(buffer, data, count);
    result := result + n;
    if width > count && left {
      var padding := buffer.Fill(' ', 0, width - count);
      result := result + padding;
    }
  }
}
