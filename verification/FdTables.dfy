/** The table of file descriptors: a growing array that stands for a finite map. */
module FdTables {
  import opened Basics

  /** A kernel handle; 0 is NULL. */
  type Handle = nat

  datatype Kind = Invalid | NullDevice | Console | File | Directory | Pipe

  datatype Entry = Entry(handle: Handle, kind: Kind, flags: bv32, sequence: nat)

  /** The handle that stands for an error. */
  const INVALID_HANDLE: Handle := 0xFFFF_FFFF_FFFF_FFFF

  /** O_CLOEXEC, which is also O_NOINHERIT. */
  const CLOEXEC: bv32 := 0x80

  /** The descriptor that stands for the working directory. */
  const AT_FDCWD: int := 0x100_0000

  function Both(a: bv32, b: bv32): bv32 {
    a | b
  }

  /** The flags of both are those of the one and those of the other. */
  lemma BothHas(a: bv32, b: bv32, flag: bv32)
    ensures Both(a, b) & flag == (a & flag) | (b & flag)
  {
  }

  predicate Live(t: seq<Entry>, fd: int) {
    0 <= fd < |t| && t[fd].handle != 0
  }

  /** The finite map the table stands for. */
  function Open(t: seq<Entry>): map<nat, Entry> {
    map fd: nat | fd < |t| && Live(t, fd) :: t[fd]
  }

  /** The lowest descriptor not in use, from `low` on. */
  ghost predicate LowestFree(open: map<nat, Entry>, low: nat, fd: nat) {
    low <= fd && fd !in open && forall i: nat | low <= i < fd :: i in open
  }

  /** The sequence number given to insertion number `n`, counted from 1 in 32 bits. */
  function Stamp(n: nat): nat {
    n % TWO32
  }

  class Table {
    var entries: array<Entry>
    var sequence: nat

    predicate Valid()
      reads this
    {
      entries.Length >= 4 && sequence < TWO32
    }

    ghost function Map(): map<nat, Entry>
      reads this, entries
    {
      Open(entries[..])
    }

    constructor ()
      ensures Valid() && fresh(entries) && entries.Length == 4 && Map() == map[] && sequence == 0
    {
      entries := new Entry[4](_ => Entry(0, Invalid, 0, 0));
      sequence := 0;
      new;
      assert forall fd | 0 <= fd < 4 :: entries[..][fd].handle == 0;
      assert Open(entries[..]) == map[];
    }

    /** True exactly for the descriptors of the map. */
    predicate Validate(fd: int)
      reads this, entries
      ensures Validate(fd) <==> fd >= 0 && fd in Map()
    {
      fd >= 0 && fd < entries.Length && entries[fd].handle != 0
    }

    /** What is known of a descriptor. */
    function Info(fd: int): (r: Option<Entry>)
      reads this, entries
      ensures r == if Present(Map(), fd) then Some(Map()[fd]) else None
    {
      if Validate(fd) then Some(entries[fd]) else None
    }

    /** Fills one slot and stamps it with the next sequence number. */
    method SetEntry(fd: nat, h: Handle, kind: Kind, flags: bv32)
      requires Valid() && fd < entries.Length && h != 0
      modifies this`sequence, entries
      ensures Valid() && sequence == (old(sequence) + 1) % TWO32
      ensures entries[..] == old(entries[..])[fd := Entry(h, kind, flags, sequence)]
      ensures Map() == old(Map())[fd := Entry(h, kind, flags, sequence)]
    {
      sequence := (sequence + 1) % TWO32;
      entries[fd] := Entry(h, kind, flags, sequence);
      assert entries[..] == old(entries[..])[fd := Entry(h, kind, flags, sequence)];
      OpenAfterSet(old(entries[..]), fd, entries[fd]);
    }

    /** Moves the entries to a longer array whose new slots are free. */
    method Resize(size: nat)
      requires Valid() && size >= entries.Length
      modifies this`entries
      ensures Valid() && fresh(entries) && entries.Length == size && Map() == old(Map())
    {
      var grown := new Entry[size](_ => Entry(0, Invalid, 0, 0));
      forall i | 0 <= i < entries.Length {
        grown[i] := entries[i];
      }
      ghost var was := entries[..];
      entries := grown;
      assert entries[..|was|] == was;
      assert entries[..] == was + entries[|was|..];
      OpenAfterGrowth(was, entries[|was|..]);
    }

    /** The first free slot, or the table's size when there is none. */
    method FindFree() returns (fd: nat)
      requires Valid()
      ensures fd <= entries.Length && LowestFree(Map(), 0, fd)
    {
      fd := 0;
      while fd < entries.Length && entries[fd].handle != 0
        invariant fd <= entries.Length
        invariant forall i: nat | i < fd :: i in Map()
      {
        fd := fd + 1;
      }
    }

    /** Gives a handle the lowest free descriptor, even when the table has to double for it. */
    method Register(h: Handle, kind: Kind, flags: bv32) returns (fd: nat)
      requires Valid() && h != 0
      modifies this, entries
      ensures Valid() && (entries == old(entries) || fresh(entries))
      ensures LowestFree(old(Map()), 0, fd)
      ensures sequence == (old(sequence) + 1) % TWO32
      ensures Map() == old(Map())[fd := Entry(h, kind, flags, sequence)]
    {
      fd := FindFree();
      if fd == entries.Length {
        Resize(entries.Length * 2);
      }
      SetEntry(fd, h, kind, flags);
    }

    /** Puts a handle at a given descriptor; the others keep theirs. */
    method Insert(fd: nat, h: Handle, kind: Kind, flags: bv32)
      requires Valid() && h != 0
      modifies this, entries
      ensures Valid() && (entries == old(entries) || fresh(entries))
      ensures sequence == (old(sequence) + 1) % TWO32
      ensures Map() == old(Map())[fd := Entry(h, kind, flags, sequence)]
    {
      if fd >= entries.Length {
        Resize(fd * 2);
      }
      SetEntry(fd, h, kind, flags);
    }

    /** Frees a descriptor if the kernel closes its handle. */
    method CloseFd(fd: nat, closes: bool) returns (r: int)
      requires Valid() && Validate(fd)
      modifies entries
      ensures Valid() && r == (if closes then 0 else -1)
      ensures Map() == if closes then old(Map()) - {fd} else old(Map())
    {
      if !closes {
        return -1;
      }
      entries[fd] := entries[fd].(handle := 0, kind := Invalid);
      OpenAfterClear(old(entries[..]), fd, entries[fd]);
      assert entries[..] == old(entries[..])[fd := entries[fd]];
      r := 0;
    }

    /** Close as called by programs. */
    method Close(fd: int, closes: bool) returns (r: int)
      requires Valid()
      modifies entries
      ensures Valid()
      ensures fd == AT_FDCWD ==> r == 0 && Map() == old(Map())
      ensures fd != AT_FDCWD ==> r == if Present(old(Map()), fd) && closes then 0 else -1
      ensures fd != AT_FDCWD ==> Map() == if r == 0 then old(Map()) - {fd as nat} else old(Map())
    {
      if fd == AT_FDCWD {
        return 0;
      }
      if !Validate(fd) {
        return -1;
      }
      r := CloseFd(fd, closes);
    }

    /**
     * Drops a handle that is already closed: the lowest descriptor that has it becomes free. The handle
     * that stands for an error is never dropped.
     */
    method Unregister(h: Handle)
      requires Valid()
      modifies entries
      ensures Valid()
      ensures h == INVALID_HANDLE || (forall fd | fd in old(Map()) :: old(Map())[fd].handle != h) ==> Map() == old(Map())
      ensures h != INVALID_HANDLE ==> forall fd | First(old(Map()), h, fd) :: Map() == old(Map()) - {fd}
    {
      var i := 0;
      while i < entries.Length && !(entries[i].handle != INVALID_HANDLE && entries[i].handle == h)
        invariant i <= entries.Length && unchanged(entries)
        invariant h != INVALID_HANDLE ==> forall j: nat | j < i && j in Map() :: Map()[j].handle != h
      {
        i := i + 1;
      }
      if i < entries.Length {
        assert h != 0 ==> First(Map(), h, i);
        OpenAfterClear(entries[..], i, entries[i].(handle := 0));
        entries[i] := entries[i].(handle := 0);
        assert entries[..] == old(entries[..])[i := entries[i]];
      }
    }

    /**
     * Duplicates a descriptor: at the lowest free one for -1, else at `newfd`, closing what was there.
     * `target` is what the kernel makes of the handle.
     */
    method DoDup(oldfd: nat, newfd: int, flags: bv32, target: Option<Handle>, closes: bool) returns (r: int)
      requires Valid() && Validate(oldfd) && newfd >= -1 && newfd != oldfd
      requires target.Some? ==> target.value != 0
      modifies this, entries
      ensures Valid() && (entries == old(entries) || fresh(entries))
      ensures Duplicated(old(Map()), old(sequence), oldfd, newfd, flags, target, closes, r, Map(), sequence)
    {
      hide Both;
      var info := entries[oldfd];
      assert Map()[oldfd] == info;
      hide Open;
      if target.None? {
        return -1;
      }
      if newfd == -1 {
        var fd := Register(target.value, info.kind, info.flags);
        return fd;
      }
      if Validate(newfd) {
        var status := CloseFd(newfd, closes);
        if status == -1 {
          return -1;
        }
      }
      Insert(newfd, target.value, info.kind, Both(info.flags, flags));
      r := newfd;
    }

    /** dup, dup2 and dup3. */
    method Dup(oldfd: int, newfd: int, flags: bv32, target: Option<Handle>, closes: bool) returns (r: int)
      requires Valid() && newfd >= -1 && (target.Some? ==> target.value != 0)
      modifies this, entries
      ensures Valid() && (entries == old(entries) || fresh(entries))
      ensures if !Present(old(Map()), oldfd) || (flags != 0 && flags != CLOEXEC) then
                r == -1 && Map() == old(Map()) && sequence == old(sequence)
              else if newfd == oldfd then r == newfd && Map() == old(Map()) && sequence == old(sequence)
              else Duplicated(old(Map()), old(sequence), oldfd, newfd, flags, target, closes, r, Map(), sequence)
    {
      if !Validate(oldfd) {
        return -1;
      }
      if flags != 0 && flags != CLOEXEC {
        return -1;
      }
      if newfd == oldfd {
        return newfd;
      }
      r := DoDup(oldfd, newfd, flags, target, closes);
    }

    /** F_DUPFD: the duplicate is at the lowest free descriptor from `from` on. */
    method DupFrom(oldfd: nat, from: nat, flags: bv32, target: Option<Handle>) returns (r: int)
      requires Valid() && Validate(oldfd) && (target.Some? ==> target.value != 0)
      modifies this, entries
      ensures Valid() && (entries == old(entries) || fresh(entries))
      ensures target.None? ==> r == -1 && Map() == old(Map()) && sequence == old(sequence)
      ensures target.Some? ==>
                && r >= 0 && LowestFree(old(Map()), from, r) && sequence == (old(sequence) + 1) % TWO32
                && var source := old(Map())[oldfd];
                   Map() == old(Map())[r as nat := Entry(target.value, source.kind, Both(source.flags, flags), sequence)]
    {
      var fd := from;
      while Validate(fd)
        invariant from <= fd && forall i: nat | from <= i < fd :: i in Map()
        decreases entries.Length - fd
      {
        fd := fd + 1;
      }
      r := DoDup(oldfd, fd, flags, target, true);
    }
  }

  predicate Present(open: map<nat, Entry>, fd: int) {
    fd >= 0 && fd in open
  }

  ghost predicate First(open: map<nat, Entry>, h: Handle, fd: nat) {
    fd in open && open[fd].handle == h && forall i | i in open && i < fd :: open[i].handle != h
  }

  /** What a duplication does to the map and to the sequence counter. */
  ghost predicate Duplicated(open: map<nat, Entry>, sequence: nat, oldfd: nat, newfd: int, flags: bv32,
                             target: Option<Handle>, closes: bool, r: int, open': map<nat, Entry>, sequence': nat)
    requires oldfd in open
  {
    var source := open[oldfd];
    if target.None? || (Present(open, newfd) && !closes) then
      r == -1 && open' == open && sequence' == sequence
    else
      && r >= 0 && sequence' == (sequence + 1) % TWO32
      && (if newfd == -1 then LowestFree(open, 0, r) else r == newfd)
      && open' == open[r as nat := Entry(target.value, source.kind,
                                         if newfd == -1 then source.flags else Both(source.flags, flags), sequence')]
  }

  /**
   * A duplication in words: it fails when there is no handle or the target stays open, and changes nothing
   * then; else the new descriptor has the new handle and the old kind, the flags asked for are added unless
   * dup chose the descriptor, bit by bit, and every other descriptor is as before.
   */
  lemma DuplicatedMeans(open: map<nat, Entry>, sequence: nat, oldfd: nat, newfd: int, flags: bv32,
                        target: Option<Handle>, closes: bool, r: int, open': map<nat, Entry>, sequence': nat, x: bv32)
    requires oldfd in open && newfd >= -1
    requires Duplicated(open, sequence, oldfd, newfd, flags, target, closes, r, open', sequence')
    ensures r == -1 <==> target.None? || (newfd >= 0 && newfd in open && !closes)
    ensures r == -1 ==> open' == open && sequence' == sequence
    ensures r != -1 ==>
              && r >= 0 && r in open' && open'[r].handle == target.value && open'[r].kind == open[oldfd].kind
              && open'[r].sequence == sequence' == (sequence + 1) % TWO32
              && (newfd >= 0 ==> r == newfd)
              && (newfd == -1 ==> r !in open && open'[r].flags == open[oldfd].flags && forall i: nat | i < r :: i in open)
              && (newfd >= 0 ==> open'[r].flags & x == (open[oldfd].flags & x) | (flags & x))
              && (forall fd: nat | fd != r :: (fd in open' <==> fd in open) && (fd in open ==> open'[fd] == open[fd]))
  {
    hide Both;
    BothHas(open[oldfd].flags, flags, x);
  }

  lemma OpenAfterSet(t: seq<Entry>, fd: nat, e: Entry)
    requires fd < |t| && e.handle != 0
    ensures Open(t[fd := e]) == Open(t)[fd := e]
  {
  }

  lemma OpenAfterClear(t: seq<Entry>, fd: nat, e: Entry)
    requires fd < |t| && e.handle == 0
    ensures Open(t[fd := e]) == Open(t) - {fd}
  {
  }

  lemma OpenAfterGrowth(t: seq<Entry>, extra: seq<Entry>)
    requires forall i | 0 <= i < |extra| :: extra[i].handle == 0
    ensures Open(t + extra) == Open(t)
  {
    assert forall fd | 0 <= fd < |t + extra| && fd >= |t| :: (t + extra)[fd] == extra[fd - |t|];
  }
}
