/** A disk file behind a descriptor: contents, offset, and the kernel calls the stream layer makes. */
module Descriptors {
  import opened Basics
  import opened Files

  datatype Whence = FromStart | FromCurrent | FromEnd

  /** Where a seek lands; negative when the kernel refuses it. */
  function SeekTarget(length: nat, current: nat, offset: int, whence: Whence): int {
    match whence
    case FromStart => offset
    case FromCurrent => current + offset
    case FromEnd => length + offset
  }

  class Descriptor {
    var file: seq<Byte>
    var offset: nat
    /** Whether transfers may fail. Short reads happen either way. */
    const faulty: bool

    constructor (contents: seq<Byte>, mayFail: bool)
      ensures file == contents && offset == 0 && faulty == mayFail
    {
      file, offset, faulty := contents, 0, mayFail;
    }

    /** Any 1..n of the remaining bytes; none exactly at the end of the file or on failure. */
    method Read(n: nat) returns (ok: bool, data: seq<Byte>)
      requires n > 0
      modifies this`offset
      ensures !ok ==> faulty && data == [] && offset == old(offset)
      ensures ok && old(offset) >= |file| ==> data == [] && offset == old(offset)
      ensures ok && old(offset) < |file| ==> 1 <= |data| <= n
      ensures offset == old(offset) + |data|
      ensures data != [] ==> offset <= |file| && data == file[old(offset)..offset]
    {
      ok, data := true, [];
      if faulty {
        ok := *;
      }
      if ok && offset < |file| {
        assert 1 <= 1 <= n && offset + 1 <= |file|;
        var k: nat :| 1 <= k <= n && offset + k <= |file|;
        data := file[offset..offset + k];
        offset := offset + k;
      }
    }

    /** All of the bytes, or none of them. */
    method Write(data: seq<Byte>) returns (ok: bool)
      modifies this
      ensures !ok ==> faulty && file == old(file) && offset == old(offset)
      ensures ok ==> file == Overwrite(old(file), old(offset), data) && offset == old(offset) + |data|
    {
      ok := true;
      if faulty {
        ok := *;
      }
      if ok {
        file := Overwrite(file, offset, data);
        offset := offset + |data|;
      }
    }

    method Lseek(delta: int, whence: Whence) returns (r: int)
      modifies this`offset
      ensures var target := SeekTarget(|file|, old(offset), delta, whence);
              if target < 0 then r == -1 && offset == old(offset) else r == target == offset
      ensures r != -1 ==> offset == delta + match whence
                                            case FromStart => 0
                                            case FromCurrent => old(offset)
                                            case FromEnd => |file|
    {
      var target := SeekTarget(|file|, offset, delta, whence);
      if target < 0 {
        return -1;
      }
      offset := target;
      r := target;
    }
  }
}
