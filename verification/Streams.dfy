/**
 * Buffered FILE streams over a descriptor, and the unbuffered file they stand for.
 *
 * A stream caches the window [start, end) of its file. While reading, the window mirrors the file and
 * the descriptor stands at `end`; while writing, the window holds bytes not yet in the file and the
 * descriptor stands at `start`. `Seen` is the file a caller of the stream believes in.
 */
module Streams {
  import opened Basics
  import opened Files
  import opened Descriptors

  const SIZE_MAX: nat := 0xFFFF_FFFF_FFFF_FFFF
  const EOF: int := -1
  const DEFAULT_BUFFER: nat := 512

  datatype Access = ReadOnly | WriteOnly | ReadWrite
  datatype Mode = Unbuffered | Internal(ready: bool) | External
  datatype Operation = Nothing | Reading | Writing
  datatype Flag = Clear | AtEof | Failed

  /** An unbuffered file: contents, position and the end-of-file/error indicator. */
  datatype View = View(file: seq<Byte>, pos: nat, flag: Flag)

  function Remaining(v: View): seq<Byte> {
    if v.pos <= |v.file| then v.file[v.pos..] else []
  }

  /** Reading `n` bytes from an unbuffered file that never stops short. */
  function ReadRef(v: View, n: nat): (r: (View, seq<Byte>)) {
    var rest := Remaining(v);
    if v.flag != Clear then (v, [])
    else if n <= |rest| then (v.(pos := v.pos + n), rest[..n])
    else (v.(pos := v.pos + |rest|, flag := AtEof), rest)
  }

  /** What one read may do; a partial read stops early without reaching the end. */
  ghost predicate ReadAllowed(v: View, n: nat, partial: bool, faulty: bool, v': View, out: seq<Byte>) {
    && v'.file == v.file && v'.pos == v.pos + |out|
    && |out| <= n && out <= Remaining(v)
    && (v.flag != Clear ==> v' == v)
    && (v.flag == Clear ==>
          match v'.flag
          case Clear => |out| == n || (partial && out != [])
          case AtEof => |out| < n && out == Remaining(v)
          case Failed => |out| < n && faulty)
  }

  /** Without partial reads or faults there is exactly one allowed outcome. */
  lemma ReadAllowedIsReadRef(v: View, n: nat, v': View, out: seq<Byte>)
    requires n > 0
    ensures ReadAllowed(v, n, false, false, v', out) <==> (v', out) == ReadRef(v, n)
  {
    assert Remaining(v)[..|Remaining(v)|] == Remaining(v);
    if ReadAllowed(v, n, false, false, v', out) {
      assert out == Remaining(v)[..|out|];
    }
  }

  function WriteRef(v: View, data: seq<Byte>): View {
    View(Overwrite(v.file, v.pos, data), v.pos + |data|, v.flag)
  }

  /** A successful seek clears end-of-file, and a rewind clears everything. */
  function SeekRef(v: View, delta: int, whence: Whence): (r: (View, int)) {
    var target := SeekTarget(|v.file|, v.pos, delta, whence);
    if target < 0 then (v, -1)
    else
      (View(v.file, target,
            if whence.FromStart? && delta == 0 then Clear else if v.flag == AtEof then Clear else v.flag), 0)
  }

  /** Where a seek on an unbuffered file lands, from each origin, and what it does to the indicator. */
  lemma SeekLands(v: View, delta: int, whence: Whence)
    ensures var (v', r) := SeekRef(v, delta, whence);
            && (whence.FromStart? ==> r == (if delta >= 0 then 0 else -1) && (r == 0 ==> v'.pos == delta))
            && (whence.FromCurrent? ==> r == (if v.pos + delta >= 0 then 0 else -1) && (r == 0 ==> v'.pos - v.pos == delta))
            && (whence.FromEnd? ==> r == if |v.file| + delta >= 0 then 0 else -1)
            && (whence.FromEnd? && r == 0 ==> v'.pos - |v.file| == delta)
            && v'.file == v.file && (r == -1 ==> v' == v)
            && (r == 0 ==> v'.flag != AtEof)
            && (r == 0 && v.flag == Failed ==> (v'.flag == Failed <==> !(whence.FromStart? && delta == 0)))
            && (r == 0 && v.flag != Failed ==> v'.flag == Clear)
  {
  }

  /** The int a signed char converts to. */
  function AsChar(b: Byte): int {
    if b < 128 then b else b - 256
  }

  /** A byte read as a char is the one signed 8-bit number that has it as its low byte. */
  predicate ReadsAs(b: Byte, c: int) {
    -128 <= c <= 127 && c % 256 == b
  }

  /** What fgetc may do on an unbuffered file; the value after a failure is indeterminate. */
  ghost predicate GetcAllowed(v: View, access: Access, faulty: bool, v': View, c: int) {
    if v.flag == Clear && access == WriteOnly then v' == v.(flag := Failed)
    else
      var out := if v.pos < v'.pos <= |v.file| then v.file[v.pos..v'.pos] else [];
      && ReadAllowed(v, 1, false, faulty, v', out)
      && (out != [] ==> ReadsAs(out[0], c))
      && (v'.flag == AtEof ==> c == EOF)
  }

  /** A position that has moved has moved over one byte, and that is the byte returned. */
  lemma GetcDelivers(v: View, access: Access, faulty: bool, v': View, c: int)
    requires GetcAllowed(v, access, faulty, v', c) && v'.pos > v.pos
    ensures v'.pos == v.pos + 1 <= |v.file| && ReadsAs(v.file[v.pos], c)
  {
  }

  /** One byte read, or none, is what fgetc may do. */
  lemma ReadIsGetc(v: View, access: Access, partial: bool, faulty: bool, v': View, out: seq<Byte>, c: int)
    requires if v.flag == Clear && access == WriteOnly then v' == v.(flag := Failed)
             else ReadAllowed(v, 1, partial, faulty, v', out)
    requires |out| <= 1 && (v'.flag == AtEof ==> c == EOF) && (v'.flag != AtEof && |out| == 1 ==> c == AsChar(out[0]))
    ensures GetcAllowed(v, access, faulty, v', c)
  {
    if !(v.flag == Clear && access == WriteOnly) && |out| == 1 {
      assert out == Remaining(v)[..1];
      assert out == v.file[v.pos..v'.pos];
    }
  }

  /** A byte that is there is delivered. */
  lemma GetcSucceeds(v: View, access: Access, v': View, c: int)
    requires GetcAllowed(v, access, false, v', c) && v.flag == Clear && access != WriteOnly && v.pos < |v.file|
    ensures v' == v.(pos := v.pos + 1) && ReadsAs(v.file[v.pos], c)
  {
  }

  /** EOF does not tell the end of the file from a byte: it is also what 255 reads as. */
  lemma EofIsAByte(v: View, access: Access, v': View, c: int)
    requires GetcAllowed(v, access, false, v', c) && v.flag != Failed && access != WriteOnly
    ensures c == EOF <==> v'.flag == AtEof || (v.pos < |v.file| && v'.pos == v.pos + 1 && v.file[v.pos] == 255)
  {
    var out := if v.pos < v'.pos <= |v.file| then v.file[v.pos..v'.pos] else [];
    if v.flag == Clear && v'.flag == Clear {
      assert |out| == 1 && out[0] == v.file[v.pos];
    }
  }

  lemma EofReturned(v: View, access: Access, v': View, c: int)
    requires GetcAllowed(v, access, false, v', c) && v.flag != Failed && access != WriteOnly
    ensures c == EOF <==> v'.flag == AtEof || (v.pos < |v.file| && v.file[v.pos] == 255)
  {
    EofIsAByte(v, access, v', c);
  }

  /** `out` is what `f` holds at `at`; nothing may lie past the end. */
  ghost predicate Slice(f: seq<Byte>, at: nat, out: seq<Byte>) {
    out == [] || (at + |out| <= |f| && out == f[at..at + |out|])
  }

  lemma SliceJoin(f: seq<Byte>, at: nat, a: seq<Byte>, b: seq<Byte>)
    requires Slice(f, at, a) && Slice(f, at + |a|, b)
    ensures Slice(f, at, a + b)
  {
    if a == [] {
      assert a + b == b;
    } else if b == [] {
      assert a + b == a;
    }
  }

  /** A slice is a prefix of what remains, and all of it once it reaches the end. */
  lemma SliceOfRemaining(v: View, out: seq<Byte>)
    requires Slice(v.file, v.pos, out)
    ensures out <= Remaining(v)
    ensures v.pos + |out| >= |v.file| ==> out == Remaining(v)
  {
  }

  lemma ReadConcludes(v: View, n: nat, partial: bool, faulty: bool, flag: Flag, out: seq<Byte>)
    requires v.flag == Clear && Slice(v.file, v.pos, out) && |out| <= n
    requires if |out| < n && !(partial && out != []) then flag != Clear else flag == Clear
    requires flag == AtEof ==> v.pos + |out| >= |v.file|
    requires flag == Failed ==> faulty
    ensures ReadAllowed(v, n, partial, faulty, View(v.file, v.pos + |out|, flag), out)
  {
    SliceOfRemaining(v, out);
  }

  lemma SubSlice(f: seq<Byte>, start: nat, end: nat, from: nat, n: nat)
    requires start + from + n <= end <= |f|
    ensures f[start..end][from..from + n] == f[start + from..start + from + n]
  {
    var inner, outer := f[start..end][from..from + n], f[start + from..start + from + n];
    assert forall i | 0 <= i < n :: inner[i] == f[start..end][from + i] == outer[i];
  }

  lemma PrefixSlice(s: seq<Byte>, m: nat, from: nat, n: nat)
    requires from + n <= m <= |s|
    ensures s[..m][from..from + n] == s[from..from + n]
  {
  }

  /** A window that repeats the file still does after one byte is stored exactly when the file has that byte there. */
  lemma PokedMirrors(window: seq<Byte>, f: seq<Byte>, start: nat, end: nat, p: nat, b: Byte)
    requires start <= end <= |f| && p < end - start && window == f[start..end]
    ensures window[p := b] == f[start..end] <==> f[start + p] == b
  {
    assert window[p := b][p] == b && window[p] == f[start + p];
  }

  lemma SlicesMeet(s: seq<Byte>, i: nat, j: nat, k: nat)
    requires i <= j <= k <= |s|
    ensures s[i..j] + s[j..k] == s[i..k]
  {
  }

  /** Flushing a topped-up window and then writing on is writing everything at the window's position. */
  lemma OverwriteSplit(f: seq<Byte>, at: nat, pending: seq<Byte>, data: seq<Byte>, i: nat, j: nat)
    requires i <= j <= |data|
    ensures Overwrite(Overwrite(f, at, pending + data[..i]), at + |pending| + i, data[i..j])
         == Overwrite(Overwrite(f, at, pending), at + |pending|, data[..j])
  {
    hide Overwrite;
    assert (pending + data[..i]) + data[i..j] == pending + data[..j];
    OverwriteJoin(f, at, pending + data[..i], data[i..j]);
    OverwriteJoin(f, at, pending, data[..j]);
  }

  method CopyBytes(src: seq<Byte>, dst: array<Byte>, at: nat)
    requires at + |src| <= dst.Length
    modifies dst
    ensures dst[..at] == old(dst[..at])
    ensures dst[at..at + |src|] == src
    ensures dst[at + |src|..] == old(dst[at + |src|..])
    ensures dst[..] == Overwrite(old(dst[..]), at, src)
  {
    forall i | 0 <= i < |src| {
      dst[at + i] := src[i];
    }
  }

  class Stream {
    const d: Descriptor
    const access: Access
    var mode: Mode
    var buffer: array<Byte>
    var bufSize: nat
    var start: nat
    var end: nat
    var pos: nat
    var op: Operation
    var flag: Flag

    predicate HasBuffer()
      reads this
    {
      mode.External? || (mode.Internal? && mode.ready)
    }

    predicate Buffered()
      reads this
    {
      !mode.Unbuffered?
    }

    /** Bytes written by the caller that the file does not hold yet. */
    ghost predicate Dirty()
      reads this
    {
      Buffered() && op == Writing && start != pos
    }

    ghost predicate Shape()
      reads this, d
    {
      && start <= pos <= end
      && (Buffered() ==> bufSize > 0 && end - start <= bufSize)
      && (!Buffered() || op == Nothing ==> start == end && d.offset == pos)
      && (op == Writing ==> access != ReadOnly)
      && (op == Reading ==> access != WriteOnly)
      && (HasBuffer() ==> bufSize <= buffer.Length)
      && (start < end ==> HasBuffer())
    }

    /** The window repeats the file, and end-of-file is only known with nothing left in the window. */
    ghost predicate Mirrors()
      requires start <= end && (start < end ==> end - start <= buffer.Length)
      reads this, d, buffer
    {
      && (start < end ==> end <= |d.file| && buffer[..end - start] == d.file[start..end])
      && (flag == AtEof ==> pos == end)
    }

    ghost predicate Valid()
      reads this, d, buffer
    {
      && Shape()
      && (op == Reading ==> d.offset == end && Mirrors())
      && (op == Writing ==> d.offset == start)
    }

    /** The unbuffered file this stream stands for. */
    ghost function Seen(): View
      requires Valid()
      reads this, d, buffer
    {
      View(if Dirty() then Overwrite(d.file, start, buffer[..pos - start]) else d.file, pos, flag)
    }

    /**
     * A stream on a descriptor. It counts from 0 wherever the descriptor stands, so it stands for the file
     * exactly when the descriptor has not moved, as fopen leaves it; fdopen takes any descriptor.
     */
    constructor (fd: Descriptor, how: Access)
      ensures d == fd && access == how && fresh(buffer)
      ensures Valid() <==> fd.offset == 0
      ensures Valid() ==> Seen() == View(fd.file, 0, Clear)
      ensures pos == 0 && op == Nothing && flag == Clear
      ensures mode == Internal(false) && bufSize == DEFAULT_BUFFER && start == end
    {
      d, access := fd, how;
      mode, bufSize := Internal(false), DEFAULT_BUFFER;
      start, end, pos, op, flag := 0, 0, 0, Nothing, Clear;
      buffer := new Byte[0];
    }

    method Fflush() returns (r: int)
      requires Valid()
      modifies this`start, this`flag, d
      ensures Valid()
      ensures r == 0 ==> !Dirty() && Seen() == old(Seen()) && d.file == old(Seen()).file
      ensures r == 0 || (r == -1 && d.faulty && old(Dirty()))
      ensures r == -1 ==> Seen() == old(Seen()).(flag := Failed) && start == old(start) && d.file == old(d.file)
      ensures !old(Dirty()) ==> unchanged(d) && unchanged(this)
    {
      hide Overwrite;
      if mode.Unbuffered? {
        return 0;
      }
      if access == ReadOnly {
        return 0;
      }
      if op == Reading {
        return 0;
      }
      if start != pos {
        var ok := d.Write(buffer[..pos - start]);
        if !ok {
          flag := Failed;
          return -1;
        }
        start := pos;
      }
      return 0;
    }

    /** Allocates the internal buffer the first time it is needed. */
    method EnsureBuffer()
      requires Shape() && Buffered()
      modifies this`buffer, this`mode
      ensures Buffered() && HasBuffer() && bufSize <= buffer.Length
      ensures old(HasBuffer()) ==> buffer == old(buffer) && mode == old(mode)
      ensures !old(HasBuffer()) ==> fresh(buffer)
    {
      if mode.Internal? && !mode.ready {
        buffer := new Byte[bufSize];
        mode := Internal(true);
      }
    }

    /** The window has been shortened by a flush and `n` more bytes do not fit in what is left of it. */
    predicate Overruns(n: nat)
      reads this
    {
      && Buffered() && op == Writing && flag != Failed
      && start < end && end - start < bufSize
      && pos <= end && n > end - pos
    }

    /** No flush has shortened the window. */
    predicate WholeWindow()
      reads this
    {
      Buffered() && op == Writing && start < end ==> end - start == bufSize
    }

    /** Leaves reading, allocates the buffer and opens a window when there is none. */
    method BeginWriting()
      requires Valid() && Buffered() && access != ReadOnly
      modifies this`mode, this`buffer, this`op, this`start, this`end, d`offset
      ensures Valid() && op == Writing && Seen() == old(Seen())
      ensures Buffered() && HasBuffer() && start < end
      ensures buffer == old(buffer) || fresh(buffer)
      ensures if old(op == Writing && start < end)
              then start == old(start) && end == old(end) && buffer == old(buffer)
              else start == pos && end == pos + bufSize
    {
      if op != Writing {
        if op == Reading {
          var _ := d.Lseek(pos, FromStart);
        }
        start, end := pos, pos;
      }
      op := Writing;
      EnsureBuffer();
      if start == end {
        start, end := pos, pos + bufSize;
      }
    }

    /** Appends bytes that fit in the window. */
    method Store(data: seq<Byte>)
      requires Valid() && op == Writing && Buffered() && HasBuffer()
      requires |data| <= end - pos
      modifies this`pos, buffer
      ensures Valid() && pos == old(pos) + |data|
      ensures Seen() == WriteRef(old(Seen()), data)
    {
      hide Overwrite;
      ghost var pending := buffer[..pos - start];
      CopyBytes(data, buffer, pos - start);
      pos := pos + |data|;
      assert buffer[..pos - start] == pending + data;
      OverwriteJoin(d.file, start, pending, data);
    }

    /** Tops the buffer up with the head of `data` and writes `bufSize` bytes of it out. */
    method FillAndWrite(data: seq<Byte>) returns (ok: bool)
      requires Valid() && op == Writing && Buffered() && HasBuffer()
      requires |data| > end - pos
      modifies d, buffer
      ensures buffer[..pos - start] == old(buffer[..pos - start])
      ensures !ok ==> d.faulty && d.file == old(d.file) && d.offset == old(d.offset)
      ensures ok ==> d.offset == old(d.offset) + bufSize && |d.file| >= d.offset
      ensures ok && end - start == bufSize ==>
                d.file == Overwrite(old(d.file), start, old(buffer[..pos - start]) + data[..end - pos])
    {
      ghost var pending := buffer[..pos - start];
      CopyBytes(data[..end - pos], buffer, pos - start);
      assert end - start == bufSize ==> buffer[..bufSize] == pending + data[..end - pos];
      ok := d.Write(buffer[..bufSize]);
    }

    /** Writes whole buffers straight from the caller's data, leaving at most one buffer of it. */
    method DirectWrites(data: seq<Byte>, from: nat) returns (done: nat, ok: bool)
      requires from < |data| && bufSize > 0
      modifies d
      ensures from <= done < |data|
      ensures d.offset == old(d.offset) + (done - from)
      ensures d.file == Overwrite(old(d.file), old(d.offset), data[from..done])
      ensures |old(d.file)| >= old(d.offset) ==> |d.file| >= d.offset
      ensures if ok then |data| - done <= bufSize else d.faulty
    {
      hide Overwrite;
      done, ok := from, true;
      while done + bufSize < |data|
        invariant from <= done < |data|
        invariant ok
        invariant d.offset == old(d.offset) + (done - from)
        invariant d.file == Overwrite(old(d.file), old(d.offset), data[from..done])
        invariant |old(d.file)| >= old(d.offset) ==> |d.file| >= d.offset
      {
        ok := d.Write(data[done..done + bufSize]);
        if !ok {
          return;
        }
        OverwriteJoin(old(d.file), old(d.offset), data[from..done], data[done..done + bufSize]);
        SlicesMeet(data, from, done, done + bufSize);
        done := done + bufSize;
      }
    }

    /** Tops up and writes the window out, then whole buffers of the caller's data; `refused` if the first failed. */
    method WriteOut(data: seq<Byte>) returns (done: nat, ok: bool, refused: bool)
      requires Valid() && op == Writing && Buffered() && HasBuffer() && start < end
      requires |data| > end - pos
      modifies d, buffer
      ensures done < |data| && (if ok then |data| - done <= bufSize else d.faulty)
      ensures buffer[..pos - start] == old(buffer[..pos - start])
      ensures refused ==> !ok && done == 0 && d.file == old(d.file) && d.offset == old(d.offset)
      ensures !refused && end - start == bufSize ==>
                && d.offset == pos + done
                && d.file == Overwrite(Overwrite(old(d.file), start, old(buffer[..pos - start])), pos, data[..done])
      ensures !refused && end - start < bufSize ==>
                d.offset == pos + done + (bufSize - (end - start)) && |d.file| >= d.offset && pos + done >= end
    {
      hide Overwrite;
      ghost var pending, file0 := buffer[..pos - start], d.file;
      var written := 0;
      if end - pos != bufSize {
        ok := FillAndWrite(data);
        if !ok {
          return 0, false, true;
        }
        written := end - pos;
      }
      ghost var file1 := d.file;
      done, ok := DirectWrites(data, written);
      refused := false;
      if end - start == bufSize {
        assert data[..0] == [] && pending + [] == pending;
        assert file1 == Overwrite(file0, start, pending + data[..written]);
        OverwriteSplit(file0, start, pending, data, written, done);
      }
    }

    /** The part of a write that does not stay in the window. */
    method SpillHead(data: seq<Byte>) returns (done: nat, ok: bool)
      requires Valid() && op == Writing && Buffered() && HasBuffer() && start < end
      requires |data| > end - pos
      modifies this`start, this`end, this`pos, this`flag, d, buffer
      ensures done < |data|
      ensures !ok ==> d.faulty
      ensures flag == old(flag) || (flag == Failed && !ok && done == 0)
      ensures ok ==> |data| - done <= bufSize && start == end && Shape()
      ensures old(end - start) == bufSize ==> Valid() && Seen() == WriteRef(old(Seen()), data[..done]).(flag := flag)
      ensures old(WholeWindow()) ==> WholeWindow()
      ensures pos == old(pos) + done
      ensures old(end - start) < bufSize && !d.faulty ==>
                d.offset == pos + (bufSize - old(end - start)) && |d.file| >= d.offset && pos >= old(end)
    {
      hide Overwrite;
      var refused;
      done, ok, refused := WriteOut(data);
      assert data[..0] == [];
      if refused {
        flag := Failed;
        return;
      }
      pos := pos + done;
      start, end := pos, pos;
    }

    /** A write that does not fit in the window: fill, direct writes, and a buffered tail. */
    method Spill(data: seq<Byte>) returns (result: nat)
      requires Valid() && op == Writing && Buffered() && HasBuffer() && start < end
      requires |data| > end - pos
      modifies this`start, this`end, this`pos, this`flag, d, buffer
      ensures result <= |data| && (result < |data| ==> d.faulty)
      ensures flag == old(flag) || (flag == Failed && result == 0 && d.faulty)
      ensures old(end - start) == bufSize ==> Valid() && Seen() == WriteRef(old(Seen()), data[..result]).(flag := flag)
      ensures old(WholeWindow()) ==> WholeWindow()
      ensures old(end - start) < bufSize && !d.faulty ==>
                && d.offset == start + (bufSize - old(end - start)) && |d.file| >= d.offset && start >= old(end)
                && pos == old(pos) + |data|
    {
      hide Overwrite;
      var done, ok := SpillHead(data);
      result := done;
      if ok {
        FillTail(data[done..]);
        assert data[..done] + data[done..] == data == data[..|data|];
        OverwriteJoin(old(Seen()).file, old(pos), data[..done], data[done..]);
        result := |data|;
      }
    }

    /** Opens a fresh window at the position and puts the last bytes of a write in it. */
    method FillTail(tail: seq<Byte>)
      requires Shape() && op == Writing && Buffered() && HasBuffer()
      requires start == end && 0 < |tail| <= bufSize
      modifies this`start, this`end, this`pos, buffer
      ensures start == old(pos) && pos == old(pos) + |tail| && end == start + bufSize
      ensures old(Valid()) ==> Valid() && Seen() == WriteRef(old(Seen()), tail)
    {
      hide Overwrite;
      CopyBytes(tail, buffer, 0);
      end := pos + bufSize;
      start := pos;
      pos := pos + |tail|;
      assert buffer[..pos - start] == tail;
    }

    /** The byte-level body of Fwrite: how many bytes were accepted, or -1 when an unbuffered write failed. */
    method Put(data: seq<Byte>) returns (result: int)
      requires Valid() && data != []
      modifies this, d, buffer
      ensures buffer == old(buffer) || fresh(buffer)
      ensures bufSize == old(bufSize) && Buffered() == old(Buffered())
      ensures -1 <= result <= |data|
      ensures old(WholeWindow()) ==> WholeWindow()
      ensures old(Overruns(|data|)) && !d.faulty ==>
                && op == Writing && start >= old(end) && pos == old(pos) + |data|
                && |d.file| >= d.offset && d.offset == start + (bufSize - old(end - start))
      ensures !old(Overruns(|data|)) ==>
                Valid() && Seen() == WriteRef(old(Seen()), data[..Max(0, result)]).(flag := flag)
      ensures PutOutcome(|data|, old(flag), result)
      ensures result == |data| && Buffered() && old(start == end) && |data| <= bufSize ==>
                op == Writing && start == old(pos) && end == start + bufSize
    {
      hide Overwrite;
      assert data[..|data|] == data;
      if flag == Failed {
        return 0;
      }
      if access == ReadOnly {
        flag := Failed;
        return 0;
      }
      if mode.Unbuffered? {
        result := PutDirect(data);
        return;
      }
      result := PutBuffered(data);
    }

    method PutBuffered(data: seq<Byte>) returns (result: nat)
      requires Valid() && Buffered() && access != ReadOnly && flag != Failed && data != []
      modifies this, d, buffer
      ensures buffer == old(buffer) || fresh(buffer)
      ensures bufSize == old(bufSize) && Buffered() && result <= |data|
      ensures old(WholeWindow()) ==> WholeWindow()
      ensures old(Overruns(|data|)) && !d.faulty ==>
                && op == Writing && start >= old(end) && pos == old(pos) + |data|
                && |d.file| >= d.offset && d.offset == start + (bufSize - old(end - start))
      ensures !old(Overruns(|data|)) ==>
                Valid() && Seen() == WriteRef(old(Seen()), data[..result]).(flag := flag)
      ensures !d.faulty ==> result == |data| && flag == old(flag)
      ensures flag != old(flag) ==> flag == Failed && result == 0
      ensures result == |data| && old(start == end) && |data| <= bufSize ==>
                op == Writing && start == old(pos) && end == start + bufSize
    {
      hide Overwrite;
      BeginWriting();
      if |data| <= end - pos {
        assert data[..|data|] == data;
        Store(data);
        return |data|;
      }
      result := Spill(data);
    }

    /** The indicator and count a write of `n` bytes ends with. */
    ghost predicate PutOutcome(n: nat, flag0: Flag, result: int)
      reads this
    {
      && (flag0 == Failed || access == ReadOnly ==> result == 0 && flag == Failed)
      && (flag0 != Failed && access != ReadOnly && !d.faulty ==> result == n && flag == flag0)
      && (flag0 != Failed && access != ReadOnly && flag == flag0 ==> result >= 0)
      && (flag != flag0 ==> flag == Failed && result == if Buffered() || access == ReadOnly then 0 else -1)
    }

    method PutDirect(data: seq<Byte>) returns (result: int)
      requires Valid() && !Buffered() && access != ReadOnly && flag != Failed
      modifies this`op, this`pos, this`start, this`end, this`flag, d
      ensures Valid()
      ensures if flag == old(flag) then result == |data| && Seen() == WriteRef(old(Seen()), data)
              else d.faulty && flag == Failed && result == -1 && Seen() == old(Seen()).(flag := Failed)
    {
      var ok := d.Write(data);
      op := Writing;
      if ok {
        pos := pos + |data|;
        start, end := pos, pos;
        return |data|;
      }
      flag := Failed;
      return -1;
    }

    /**
     * Writes `count` items of `size` bytes. `took` is how many bytes the stream accepted: all of them
     * unless the descriptor failed. A call on a sound descriptor keeps the stream valid exactly when it
     * does not overrun a window that an earlier flush shortened.
     */
    method Fwrite(data: seq<Byte>, size: nat, count: nat) returns (r: nat, ghost took: nat)
      requires Valid()
      requires size > 0 && count > 0 && |data| == size * count
      modifies this, d, buffer
      ensures buffer == old(buffer) || fresh(buffer)
      ensures bufSize == old(bufSize) && Buffered() == old(Buffered())
      ensures took <= |data|
      ensures old(WholeWindow()) ==> WholeWindow()
      ensures !d.faulty ==> (Valid() <==> !old(Overruns(|data|)))
      ensures old(Overruns(|data|)) && !d.faulty ==>
                && start >= old(end) && pos == old(pos) + |data|
                && |d.file| >= d.offset && d.offset == start + (bufSize - old(end - start))
      ensures !old(Overruns(|data|)) ==> Valid() && Seen() == WriteRef(old(Seen()), data[..took]).(flag := flag)
      ensures flag == old(flag) ==> r == Items(took, size)
      ensures flag != old(flag) ==>
                flag == Failed && took == 0 && r == if Buffered() || access == ReadOnly then 0 else Items(SIZE_MAX, size)
      ensures old(flag) == Failed || access == ReadOnly ==> flag == Failed && took == r == 0
      ensures old(flag) != Failed && access != ReadOnly && !d.faulty ==>
                flag == old(flag) && took == |data| && r == count
      ensures took == |data| && Buffered() && old(start == end) && |data| <= bufSize ==>
                op == Writing && start == old(pos) && end == start + bufSize
    {
      hide Items;
      hide WriteRef;
      ProductDivides(size, count);
      NoItems(size);
      var result := Put(data);
      took := Max(0, result);
      r := Items(if result < 0 then SIZE_MAX else result, size);
    }

    /** One kernel read, recording end-of-file and failure. */
    method ReadWrapper(n: nat) returns (data: seq<Byte>)
      requires n > 0 && flag == Clear
      modifies this`flag, d`offset
      ensures |data| <= n && d.offset == old(d.offset) + |data|
      ensures Slice(d.file, old(d.offset), data)
      ensures data != [] ==> flag == Clear
      ensures data == [] ==> flag != Clear
      ensures flag == AtEof ==> d.offset >= |d.file|
      ensures flag == Failed ==> d.faulty
    {
      var ok;
      ok, data := d.Read(n);
      if !ok {
        flag := Failed;
      } else if data == [] {
        flag := AtEof;
      }
    }

    /** Flushes after writing, and allocates the buffer. */
    method BeginReading()
      requires Valid() && Buffered() && access != WriteOnly && flag == Clear
      requires Dirty() ==> !d.faulty
      modifies this`mode, this`buffer, this`op, this`start, this`end, this`flag, d
      ensures Valid() && op == Reading && Seen() == old(Seen())
      ensures Buffered() && HasBuffer()
      ensures buffer == old(buffer) || fresh(buffer)
    {
      hide Overwrite;
      if op == Writing {
        var _ := Fflush();
        end := start;
      }
      op := Reading;
      EnsureBuffer();
    }

    /** Serves a request from the window. */
    method Serve(target: array<Byte>, n: nat) returns (ghost out: seq<Byte>)
      requires Valid() && op == Reading && target != buffer
      requires n <= end - pos && n <= target.Length && (n > 0 ==> flag != AtEof)
      modifies this`pos, target
      ensures Valid() && pos == old(pos) + n
      ensures |out| == n && Slice(d.file, old(pos), out) && target[..] == Overwrite(old(target[..]), 0, out)
    {
      hide Overwrite;
      var from := pos - start;
      out := [];
      if n > 0 {
        PrefixSlice(buffer[..], end - start, from, n);
        SubSlice(d.file, start, end, from, n);
        out := buffer[from..from + n];
        CopyBytes(buffer[from..from + n], target, 0);
      }
      pos := pos + n;
    }

    /** Whole-buffer reads straight into the target, leaving at most one buffer to go. */
    method DirectReads(target: array<Byte>, from: nat, n: nat) returns (done: nat, more: bool, ghost out: seq<Byte>)
      requires from < n <= target.Length && bufSize > 0 && flag == Clear
      modifies this`flag, d`offset, target
      ensures from <= done < n && |out| == done - from && d.offset == old(d.offset) + |out|
      ensures Slice(d.file, old(d.offset), out) && target[..] == Overwrite(old(target[..]), from, out)
      ensures if more then flag == Clear && n - done <= bufSize else flag != Clear
      ensures flag == AtEof ==> d.offset >= |d.file|
      ensures flag == Failed ==> d.faulty
    {
      hide Overwrite;
      done, more, out := from, true, [];
      while done + bufSize < n
        invariant from <= done < n && |out| == done - from && d.offset == old(d.offset) + |out|
        invariant more && flag == Clear
        invariant Slice(d.file, old(d.offset), out) && target[..] == Overwrite(old(target[..]), from, out)
        decreases n - done
      {
        var data := ReadWrapper(bufSize);
        if data == [] {
          more := false;
          return;
        }
        CopyBytes(data, target, done);
        OverwriteJoin(old(target[..]), from, out, data);
        SliceJoin(d.file, old(d.offset), out, data);
        done, out := done + |data|, out + data;
      }
    }

    /** Reads into the empty stream buffer until `need` bytes are there, the buffer is full, or no more come. */
    method Refill(need: nat) returns (last: nat)
      requires HasBuffer() && 0 < need <= bufSize <= buffer.Length && flag == Clear
      modifies this`flag, d`offset, buffer
      ensures last <= bufSize && d.offset == old(d.offset) + last
      ensures Slice(d.file, old(d.offset), buffer[..last])
      ensures if last < need then flag != Clear else flag == Clear
      ensures flag == AtEof ==> d.offset >= |d.file|
      ensures flag == Failed ==> d.faulty
    {
      hide Overwrite;
      last := 0;
      while last < bufSize && last < need
        invariant last <= bufSize && d.offset == old(d.offset) + last
        invariant Slice(d.file, old(d.offset), buffer[..last])
        invariant flag == Clear
        decreases bufSize - last
      {
        var data := ReadWrapper(bufSize - last);
        if data == [] {
          break;
        }
        ghost var got := buffer[..last];
        CopyBytes(data, buffer, last);
        assert buffer[..last + |data|] == got + data;
        SliceJoin(d.file, old(d.offset), got, data);
        last := last + |data|;
      }
    }

    /** The last block goes through the stream buffer; what was not asked for stays in the window. */
    method LastBlock(target: array<Byte>, done: nat, n: nat) returns (ghost out: seq<Byte>)
      requires Valid() && op == Reading && Buffered() && HasBuffer() && flag == Clear
      requires start == end && 0 < n - done <= bufSize && n <= target.Length && target != buffer
      modifies this`flag, this`start, this`end, this`pos, d`offset, buffer, target
      ensures Valid() && |out| <= n - done && pos == old(pos) + |out|
      ensures Slice(d.file, old(pos), out) && target[..] == Overwrite(old(target[..]), done, out)
      ensures if |out| < n - done then flag != Clear else flag == Clear
      ensures flag == AtEof ==> pos >= |d.file|
      ensures flag == Failed ==> d.faulty
    {
      hide Overwrite;
      out := [];
      var last := Refill(n - done);
      if last > 0 {
        out := Deliver(target, done, if n - done < last then n - done else last, last);
      }
    }

    /** Hands out the head of a filled buffer and keeps the whole of it as the window. */
    method Deliver(target: array<Byte>, done: nat, m: nat, last: nat) returns (ghost out: seq<Byte>)
      requires Shape() && op == Reading && HasBuffer() && start == end && target != buffer
      requires 0 < m <= last <= bufSize && done + m <= target.Length && (flag == AtEof ==> m == last)
      requires d.offset == pos + last <= |d.file| && buffer[..last] == d.file[pos..pos + last]
      modifies this`start, this`end, this`pos, target
      ensures Valid() && |out| == m && pos == old(pos) + m
      ensures Slice(d.file, old(pos), out) && target[..] == Overwrite(old(target[..]), done, out)
    {
      hide Overwrite;
      ghost var window := buffer[..last];
      out := buffer[..m];
      assert buffer[..m] == window[..m];
      SubSlice(d.file, pos, pos + last, 0, m);
      CopyBytes(buffer[..m], target, done);
      assert buffer[..last] == window;
      end := pos + last;
      start := pos;
      pos := pos + m;
    }

    /** Empties the window into the target and reads whole buffers past it. */
    method FirstBlocks(target: array<Byte>, n: nat) returns (done: nat, more: bool, ghost out: seq<Byte>)
      requires Valid() && op == Reading && Buffered() && HasBuffer() && flag == Clear
      requires end - pos < n <= target.Length && target != buffer
      modifies this`flag, this`start, this`end, this`pos, d`offset, target
      ensures Valid() && start == end && |out| == done < n && pos == old(pos) + done
      ensures Slice(d.file, old(pos), out) && target[..] == Overwrite(old(target[..]), 0, out)
      ensures if more then flag == Clear && n - done <= bufSize else flag != Clear
      ensures flag == AtEof ==> pos >= |d.file|
      ensures flag == Failed ==> d.faulty
    {
      hide Overwrite;
      var drained := end - pos;
      out := Serve(target, drained);
      ghost var direct;
      done, more, direct := DirectReads(target, drained, n);
      SliceJoin(d.file, old(pos), out, direct);
      OverwriteJoin(old(target[..]), 0, out, direct);
      out := out + direct;
      pos := pos + (done - drained);
      start, end := pos, pos;
    }

    /** A buffered read that the window cannot serve alone. */
    method GetBeyond(target: array<Byte>, n: nat) returns (k: nat, ghost out: seq<Byte>)
      requires Valid() && op == Reading && Buffered() && HasBuffer() && flag == Clear
      requires end - pos < n <= target.Length && target != buffer
      modifies this`flag, this`start, this`end, this`pos, d`offset, buffer, target
      ensures Valid() && |out| == k <= n && target[..] == Overwrite(old(target[..]), 0, out)
      ensures ReadAllowed(old(Seen()), n, false, d.faulty, Seen(), out)
    {
      hide Overwrite;
      hide ReadAllowed;
      hide Slice;
      var done, more, from := 0, false, pos;
      done, more, out := FirstBlocks(target, n);
      if more {
        ghost var tail := LastBlock(target, done, n);
        SliceJoin(d.file, old(pos), out, tail);
        OverwriteJoin(old(target[..]), 0, out, tail);
        out := out + tail;
      }
      k := pos - from;
      ReadConcludes(old(Seen()), n, false, d.faulty, flag, out);
    }

    method GetDirect(target: array<Byte>, n: nat) returns (k: nat, ghost out: seq<Byte>)
      requires Valid() && !Buffered() && access != WriteOnly && flag == Clear
      requires 0 < n <= target.Length
      modifies this`flag, this`op, this`start, this`end, this`pos, d`offset, target
      ensures Valid() && |out| == k <= n && target[..] == Overwrite(old(target[..]), 0, out)
      ensures ReadAllowed(old(Seen()), n, true, d.faulty, Seen(), out)
    {
      hide Overwrite;
      var data := ReadWrapper(n);
      op := Reading;
      k, out := |data|, data;
      if k != 0 {
        CopyBytes(data, target, 0);
        pos := pos + k;
        start, end := pos, pos;
      }
      ReadConcludes(old(Seen()), n, true, d.faulty, flag, data);
    }

    /** The byte-level body of Fread; `out` is what arrives in the target. */
    method Get(target: array<Byte>, n: nat) returns (k: nat, ghost out: seq<Byte>)
      requires Valid() && 0 < n <= target.Length && target != buffer
      requires Dirty() ==> !d.faulty
      modifies this, d, buffer, target
      ensures Valid() && (buffer == old(buffer) || fresh(buffer))
      ensures bufSize == old(bufSize) && Buffered() == old(Buffered())
      ensures |out| == k <= n && target[..] == Overwrite(old(target[..]), 0, out)
      ensures if old(flag) == Clear && access == WriteOnly
              then k == 0 && Seen() == old(Seen()).(flag := Failed)
              else ReadAllowed(old(Seen()), n, !Buffered(), d.faulty, Seen(), out)
    {
      hide Overwrite;
      if flag != Clear {
        return 0, [];
      }
      if access == WriteOnly {
        flag := Failed;
        return 0, [];
      }
      if mode.Unbuffered? {
        k, out := GetDirect(target, n);
        return;
      }
      BeginReading();
      if n <= end - pos {
        out := Serve(target, n);
        ReadConcludes(old(Seen()), n, false, d.faulty, flag, out);
        return n, out;
      }
      k, out := GetBeyond(target, n);
    }

    /**
     * Reads `count` items of `size` bytes into the target. The bytes delivered are the next ones of the
     * file the stream stands for: as many as were asked for, or all that remain and the end is recorded.
     */
    method Fread(target: array<Byte>, size: nat, count: nat) returns (r: nat, ghost out: seq<Byte>)
      requires Valid() && target != buffer
      requires size > 0 && count > 0 && size * count <= target.Length
      requires Dirty() ==> !d.faulty
      modifies this, d, buffer, target
      ensures Valid() && (buffer == old(buffer) || fresh(buffer))
      ensures bufSize == old(bufSize) && Buffered() == old(Buffered())
      ensures r == Items(|out|, size) && target[..] == Overwrite(old(target[..]), 0, out)
      ensures if old(flag) == Clear && access == WriteOnly
              then out == [] && Seen() == old(Seen()).(flag := Failed)
              else ReadAllowed(old(Seen()), size * count, !Buffered(), d.faulty, Seen(), out)
    {
      hide Overwrite;
      ProductDivides(size, count);
      var k;
      k, out := Get(target, size * count);
      r := Items(k, size);
    }

    predicate FastGet()
      reads this
    {
      Buffered() && op == Reading && start != end && pos != end
    }

    predicate FastPut()
      reads this
    {
      Buffered() && op == Writing && start != end && pos != end
    }

    /**
     * Reads one byte as a char. The window is consulted before the error indicator, so the call
     * disagrees with a one-byte read exactly when the indicator shows an error and the window has bytes.
     */
    method Fgetc() returns (c: int)
      requires Shape() && (Valid() || FastGet())
      requires Dirty() ==> !d.faulty
      modifies this, d, buffer
      ensures buffer == old(buffer) || fresh(buffer)
      ensures bufSize == old(bufSize) && Buffered() == old(Buffered())
      ensures old(FastGet()) ==> -128 <= c <= 127 && c % 256 == old(buffer[pos - start]) && pos == old(pos) + 1
      ensures old(Valid()) ==> Valid()
      ensures old(Valid()) && pos > old(pos) ==>
                pos == old(pos) + 1 <= |old(Seen()).file| && -128 <= c <= 127 && c % 256 == old(Seen()).file[old(pos)]
      ensures old(Valid()) ==>
                (GetcAllowed(old(Seen()), access, d.faulty, Seen(), c) <==> !old(FastGet() && flag == Failed))
      ensures old(Valid()) && !d.faulty && access != WriteOnly && old(flag) != Failed ==>
                (c == EOF <==> flag == AtEof || old(pos < |Seen().file| && Seen().file[pos] == 255))
    {
      hide Overwrite;
      hide GetcAllowed;
      if !mode.Unbuffered? && op == Reading {
        if start != end && pos != end {
          c := FgetcFast();
          return;
        }
      }
      c := FgetcSlow();
      if pos > old(pos) {
        GetcDelivers(old(Seen()), access, d.faulty, Seen(), c);
      }
      if !d.faulty && access != WriteOnly && old(flag) != Failed {
        EofReturned(old(Seen()), access, Seen(), c);
      }
    }

    /** Takes the next byte of the window. */
    method FgetcFast() returns (c: int)
      requires Shape() && FastGet()
      modifies this`pos
      ensures -128 <= c <= 127 && c % 256 == buffer[old(pos) - start] && pos == old(pos) + 1
      ensures old(Valid()) ==> Valid() && old(pos) < |d.file| && c % 256 == d.file[old(pos)]
      ensures old(Valid()) ==> (GetcAllowed(old(Seen()), access, d.faulty, Seen(), c) <==> flag != Failed)
    {
      if Valid() {
        assert buffer[..end - start][pos - start] == d.file[start..end][pos - start];
      }
      c := AsChar(buffer[pos - start]);
      pos := pos + 1;
    }

    method FgetcSlow() returns (c: int)
      requires Valid() && (Dirty() ==> !d.faulty)
      modifies this, d, buffer
      ensures Valid() && (buffer == old(buffer) || fresh(buffer))
      ensures bufSize == old(bufSize) && Buffered() == old(Buffered())
      ensures GetcAllowed(old(Seen()), access, d.faulty, Seen(), c)
    {
      hide Overwrite;
      hide ReadAllowed;
      hide GetcAllowed;
      var ch := new Byte[1];
      ghost var was := ch[..];
      var k, out := Get(ch, 1);
      c := if flag == AtEof then EOF else AsChar(ch[0]);
      if k == 1 {
        OverwriteAt(was, 0, out, 0);
      }
      ReadIsGetc(old(Seen()), access, !Buffered(), d.faulty, Seen(), out, c);
    }

    /**
     * Writes one character. The window is consulted before the error indicator, so a byte is taken
     * although the indicator shows an error exactly when the window has room.
     */
    method Fputc(ch: int) returns (r: int, ghost took: nat)
      requires Valid()
      modifies this, d, buffer
      ensures buffer == old(buffer) || fresh(buffer)
      ensures bufSize == old(bufSize) && Buffered() == old(Buffered())
      ensures old(WholeWindow()) ==> WholeWindow()
      ensures took <= 1 && r == if took == 1 then ch else EOF
      ensures !d.faulty ==> (Valid() <==> !old(Overruns(1)))
      ensures !old(Overruns(1)) ==> Valid() && Seen() == WriteRef(old(Seen()), [ch % 256][..took]).(flag := flag)
      ensures took == 1 ==> flag == old(flag)
      ensures took == 0 && !d.faulty ==> flag == Failed
      ensures !d.faulty ==> (took == 1 <==> access != ReadOnly && (old(flag) != Failed || old(FastPut())))
    {
      hide Overwrite;
      if !mode.Unbuffered? && op == Writing {
        if start != end && pos != end {
          Store([ch % 256]);
          assert [ch % 256][..1] == [ch % 256];
          return ch, 1;
        }
      }
      var res;
      res, took := Fwrite([ch % 256], 1, 1);
      if res != 1 {
        return EOF, took;
      }
      return ch, took;
    }

    /**
     * Pushes a character back over the one just read. The window keeps mirroring the file exactly when
     * the character is the one that was read.
     */
    method Ungetc(ch: int) returns (r: int)
      requires Valid()
      modifies this`pos, this`flag, buffer
      ensures old(op != Reading || pos == start) ==> r == EOF && Valid() && Seen() == old(Seen())
      ensures old(op == Reading && pos > start) ==>
                && r == ch && Shape() && FastGet() && pos == old(pos) - 1
                && buffer[pos - start] == ch % 256
                && flag == (if old(flag) == AtEof then Clear else old(flag))
                && (Valid() <==> d.file[pos] == ch % 256)
    {
      if op != Reading {
        return EOF;
      }
      if pos > start {
        ghost var window := buffer[..end - start];
        var byte: Byte := ch % 256;
        pos := pos - 1;
        buffer[pos - start] := byte;
        flag := if flag == AtEof then Clear else flag;
        assert buffer[..end - start] == window[pos - start := byte];
        PokedMirrors(window, d.file, start, end, pos - start, byte);
        return ch;
      }
      return EOF;
    }

    /** A pushed-back character is the next one read, whatever it is. */
    method UngetcThenFgetc(ch: int) returns (ok: bool, c: int)
      requires Valid()
      modifies this, d, buffer
      ensures ok <==> old(op == Reading && pos > start)
      ensures ok ==> -128 <= c <= 127 && c % 256 == ch % 256 && pos == old(pos)
      ensures !ok ==> Valid() && Seen() == old(Seen())
    {
      ok := op == Reading && pos > start;
      c := Ungetc(ch);
      if ok {
        c := Fgetc();
      }
    }

    /** When a seek lands where it should: see Fseek. */
    predicate SeekAgrees(delta: int, whence: Whence)
      reads this
    {
      whence.FromCurrent? && op == Reading ==>
        if start <= pos + delta <= end && start != end then flag != AtEof
        else pos == end || end + delta < 0
    }

    /** Asks the kernel to seek and closes the window there. */
    method Reposition(delta: int, whence: Whence) returns (r: int)
      requires Shape()
      modifies this`start, this`end, this`pos, this`flag, d`offset
      ensures var target := SeekTarget(|d.file|, old(d.offset), delta, whence);
              if target < 0 then
                && r == -1 && d.offset == old(d.offset) && pos == old(pos) && flag == old(flag)
                && start == old(start) && end == old(end)
              else
                && r == 0 && d.offset == target == pos == start == end && Shape()
                && flag == if (whence.FromStart? && delta == 0) || old(flag) == AtEof then Clear else old(flag)
    {
      var result := d.Lseek(delta, whence);
      if result != -1 {
        pos := result;
        start, end := pos, pos;
        flag := if (whence.FromStart? && delta == 0) || flag == AtEof then Clear else flag;
        return 0;
      }
      return -1;
    }

    /**
     * Moves the position. A relative seek while reading stays in the window without clearing
     * end-of-file, or is taken from the end of the window instead of the position; it agrees with the
     * unbuffered file exactly when neither matters.
     */
    method Fseek(delta: int, whence: Whence) returns (r: int)
      requires Valid()
      modifies this`start, this`end, this`pos, this`flag, d
      ensures old(SeekAgrees(delta, whence)) ==> Valid()
      ensures !(d.faulty && old(Dirty())) ==>
                (Valid() && (Seen(), r) == SeekRef(old(Seen()), delta, whence) <==> old(SeekAgrees(delta, whence)))
    {
      hide Overwrite;
      if op == Writing {
        var _ := Fflush();
      }
      if whence.FromCurrent? && op == Reading {
        var target := pos + delta;
        if start <= target <= end && start != end {
          pos := target;
          return 0;
        }
      }
      r := Reposition(delta, whence);
    }

    /** The buffering setvbuf leaves behind; a stream without a buffer is not given one on request alone. */
    function ModeAfter(given: bool, unbuffered: bool, size: nat): (Mode, nat)
      reads this
    {
      if unbuffered then (Unbuffered, 0)
      else if given then (External, size)
      else if size == 0 || mode.Unbuffered? || (mode.Internal? && size == bufSize) then (mode, bufSize)
      else (Internal(true), size)
    }

    /** Changes the buffering in the middle of a run; the file the stream stands for does not change. */
    method Setvbuf(given: array?<Byte>, unbuffered: bool, size: nat) returns (r: int)
      requires Valid()
      requires given != null && !unbuffered ==> 0 < size <= given.Length
      modifies this`mode, this`buffer, this`bufSize, this`start, this`end, this`flag, d
      ensures Valid() && !Dirty()
      ensures buffer == old(buffer) || buffer == given || fresh(buffer)
      ensures !(d.faulty && old(Dirty())) ==> Seen() == old(Seen()) && d.file == Seen().file
      ensures (mode, bufSize) == old(ModeAfter(given != null, unbuffered, size)) && start == end
      ensures unbuffered ==> !Buffered()
      ensures !unbuffered && given != null ==> mode == External && buffer == given && bufSize == size
      ensures !unbuffered && given == null ==> Buffered() == old(Buffered())
      ensures !unbuffered && given == null && Buffered() ==> bufSize == if size == 0 then old(bufSize) else size
      ensures r == if !unbuffered && given == null && size == 0 then -1 else 0
    {
      hide Overwrite;
      var _ := Fflush();
      var _ := d.Lseek(pos, FromStart);
      start, end := pos, pos;
      r := Rebuffer(given, unbuffered, size);
    }

    /** Replaces the buffer of a stream whose window is empty. */
    method Rebuffer(given: array?<Byte>, unbuffered: bool, size: nat) returns (r: int)
      requires Valid() && start == end
      requires given != null && !unbuffered ==> 0 < size <= given.Length
      modifies this`mode, this`buffer, this`bufSize
      ensures Valid() && Seen() == old(Seen())
      ensures buffer == old(buffer) || buffer == given || fresh(buffer)
      ensures (mode, bufSize) == old(ModeAfter(given != null, unbuffered, size))
      ensures !unbuffered && given != null ==> buffer == given
      ensures r == if !unbuffered && given == null && size == 0 then -1 else 0
    {
      if unbuffered {
        mode, bufSize := Unbuffered, 0;
        buffer := new Byte[0];
      } else if given == null {
        if size == 0 {
          return -1;
        }
        if mode.External? {
          buffer := new Byte[size];
          mode, bufSize := Internal(true), size;
        }
        if mode.Internal? && size != bufSize {
          buffer := new Byte[size];
          mode, bufSize := Internal(true), size;
        }
      } else {
        buffer := given;
        mode, bufSize := External, size;
      }
      return 0;
    }
  }

  /**
   * A write, a flush, and a write that overruns what the flush left of the window: the kernel's offset is
   * ahead of the window by the length of the first write, so what is pending goes to the wrong place. If
   * the second write is shorter than the buffer, the file is already longer than the position.
   */
  method FlushThenOverrun(s: Stream, first: seq<Byte>, second: seq<Byte>)
    requires s.Valid() && !s.d.faulty && s.Buffered() && s.start == s.end
    requires s.access != ReadOnly && s.flag != Failed && 0 < |first| < s.bufSize < |first| + |second|
    modifies s, s.d, s.buffer
    ensures s.pos == old(s.pos) + |first| + |second| && !s.Valid()
    ensures s.d.offset == s.start + |first|
    ensures |s.d.file| >= old(s.pos) + s.bufSize + |first|
    ensures s.bufSize == old(s.bufSize) && (|second| < s.bufSize ==> |s.d.file| > s.pos)
  {
    hide Overwrite;
    var _, _ := s.Fwrite(first, 1, |first|);
    assert s.Seen().pos == s.pos;
    var _ := s.Fflush();
    assert s.Seen().pos == s.pos;
    assert s.Overruns(|second|);
    var _, _ := s.Fwrite(second, 1, |second|);
  }

  /** Whole items in so many bytes. */
  function Items(bytes: nat, size: nat): nat
    requires size > 0
  {
    bytes / size
  }

  /** The whole items are as many as fit: one more would not. */
  lemma ItemsFit(bytes: nat, size: nat)
    requires size > 0
    ensures size * Items(bytes, size) <= bytes < size * Items(bytes, size) + size
  {
    assert bytes == size * (bytes / size) + bytes % size;
  }

  lemma NoItems(size: nat)
    requires size > 0
    ensures Items(0, size) == 0
  {
  }

  lemma ProductDivides(size: nat, count: nat)
    requires size > 0 && count > 0
    ensures size * count > 0 && Items(size * count, size) == count
  {
    Grows(size, count);
    var q, rem := (size * count) / size, (size * count) % size;
    assert size * count == size * q + rem;
    assert size * (count - q) == rem;
    if count > q {
      Grows(size, count - q);
    }
  }

  lemma {:induction false} Grows(a: nat, b: nat)
    requires a > 0 && b > 0
    ensures a * b >= a
  {
    if b > 1 {
      Grows(a, b - 1);
    }
    assert a * b == a * (b - 1) + a;
  }
}
