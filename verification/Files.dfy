/** Byte sequences seen as files: overwriting at an offset with zero fill past the end. */
module Files {
  import opened Basics

  type Byte = b: int | 0 <= b < 256

  function Zeros(n: nat): (z: seq<Byte>)
    ensures |z| == n
  {
    seq(n, _ => 0)
  }

  /** What a positioned write leaves: a gap between the old end and `at` reads as zeros. */
  function Overwrite(f: seq<Byte>, at: nat, data: seq<Byte>): (g: seq<Byte>)
    ensures data == [] ==> g == f
    ensures data != [] ==> |g| == Max(|f|, at + |data|)
  {
    if data == [] then f
    else
      var base := if at <= |f| then f else f + Zeros(at - |f|);
      base[..at] + data + (if at + |data| <= |base| then base[at + |data|..] else [])
  }

  /** Two adjacent writes are one write of the concatenation. */
  lemma OverwriteJoin(f: seq<Byte>, at: nat, a: seq<Byte>, b: seq<Byte>)
    ensures Overwrite(Overwrite(f, at, a), at + |a|, b) == Overwrite(f, at, a + b)
  {
    hide Overwrite;
    if a == [] {
      assert a + b == b;
    } else if b == [] {
      assert a + b == a;
    } else {
      var mid := Overwrite(f, at, a);
      var twice, once := Overwrite(mid, at + |a|, b), Overwrite(f, at, a + b);
      forall i | 0 <= i < |once| ensures twice[i] == once[i] {
        OverwriteAt(mid, at + |a|, b, i);
        OverwriteAt(f, at, a + b, i);
        if i < |mid| {
          OverwriteAt(f, at, a, i);
        }
      }
    }
  }

  /** A byte after a write: old before it, new within it, old after it, and zero in the gap. */
  lemma OverwriteAt(f: seq<Byte>, at: nat, data: seq<Byte>, i: nat)
    requires data != [] && i < |Overwrite(f, at, data)|
    ensures Overwrite(f, at, data)[i] == if at <= i < at + |data| then data[i - at] else if i < |f| then f[i] else 0
  {
  }
}
