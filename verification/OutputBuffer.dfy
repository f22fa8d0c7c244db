/** The output buffer of the printing engine, with the growing write hook. */
module OutputBuffer {
  import opened Basics

  const FIRST_SIZE: nat := 64

  class Buffer {
    var data: array<char>
    var pos: nat

    constructor ()
      ensures Valid() && Contents() == [] && fresh(data)
    {
      data := new char[0];
      pos := 0;
    }

    predicate Valid()
      reads this
    {
      pos <= data.Length
    }

    ghost function Contents(): string
      requires Valid()
      reads this, data
    {
      data[..pos]
    }

    /** Makes room for `n` more characters by doubling, and no further than needed. */
    method Grow(n: nat)
      requires Valid() && n > data.Length - pos
      modifies this
      ensures Valid() && Contents() == old(Contents()) && pos == old(pos)
      ensures fresh(data) && data.Length - pos >= n
      ensures data.Length == FIRST_SIZE || data.Length / 2 - pos < n
      ensures forall i | old(data.Length) <= i < data.Length :: data[i] == '\0'
    {
      var size := if data.Length == 0 then FIRST_SIZE else data.Length;
      while n > size - pos
        invariant size >= data.Length && size > 0
        invariant size == FIRST_SIZE || size == data.Length || size / 2 - pos < n
        decreases n - (size - pos)
      {
        size := size * 2;
      }
      var grown := new char[size](_ => '\0');
      forall i | 0 <= i < data.Length {
        grown[i] := data[i];
      }
      data := grown;
    }

    method WriteByte(c: char)
      requires Valid()
      modifies this, data
      ensures Valid() && Contents() == old(Contents()) + [c]
      ensures data == old(data) || fresh(data)
    {
      if pos + 1 > data.Length {
        Grow(1);
      }
      data[pos] := c;
      pos := pos + 1;
    }

    method WriteN(text: string)
      requires Valid()
      modifies this, data
      ensures Valid() && Contents() == old(Contents()) + text
      ensures data == old(data) || fresh(data)
    {
      if pos + |text| > data.Length {
        Grow(|text|);
      }
      forall i | 0 <= i < |text| {
        data[pos + i] := text[i];
      }
      pos := pos + |text|;
    }

    /** Writes one character until a count reaches a limit. */
    method Fill(c: char, from: nat, limit: nat) returns (to: nat)
      requires Valid()
      modifies this, data
      ensures Valid() && (data == old(data) || fresh(data))
      ensures to == (if from < limit then limit else from)
      ensures Contents() == old(Contents()) + Repeat(c, to - from)
    {
      to := from;
      while to < limit
        invariant Valid() && (data == old(data) || fresh(data))
        invariant from <= to && (to <= limit || to == from)
        invariant Contents() == old(Contents()) + Repeat(c, to - from)
      {
        assert Repeat(c, to + 1 - from) == Repeat(c, to - from) + [c];
        WriteByte(c);
        to := to + 1;
      }
    }
  }
}
