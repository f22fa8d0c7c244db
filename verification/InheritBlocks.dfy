/** The descriptors a process passes on to its children, as a block of bytes. */
module InheritBlocks {
  import opened Basics
  import opened Files
  import opened FdTables

  const O_APPEND: bv32 := 0x0008

  // ----- Little-endian numbers -----

  function Range(n: nat): nat {
    if n == 0 then 1 else 256 * Range(n - 1)
  }

  function Little(x: nat, n: nat): (s: seq<Byte>)
    ensures |s| == n
  {
    if n == 0 then [] else [x % 256] + Little(x / 256, n - 1)
  }

  function FromLittle(s: seq<Byte>): nat {
    if s == [] then 0 else s[0] + 256 * FromLittle(s[1..])
  }

  lemma {:induction false} FromLittleOfLittle(x: nat, n: nat)
    requires x < Range(n)
    ensures FromLittle(Little(x, n)) == x
  {
    if n > 0 {
      FromLittleOfLittle(x / 256, n - 1);
    }
  }

  lemma Ranges()
    ensures Range(4) == 0x1_0000_0000 && Range(8) == 0x1_0000_0000_0000_0000
  {
    assert Range(2) == 0x1_0000 && Range(4) == 0x1_0000 * Range(2);
    assert Range(6) == 0x1_0000 * Range(4) && Range(8) == 0x1_0000 * Range(6);
  }

  // ----- The block -----

  /** The flag byte of a descriptor: open, and perhaps appending, a pipe or a device. */
  function FlagOf(e: Entry): Byte {
    1 + (if e.flags & O_APPEND != 0 then 0x20 else 0)
      + (if e.kind == Pipe then 0x08 else if e.kind == Console || e.kind == NullDevice then 0x40 else 0)
  }

  function Passed(e: Entry): Handle {
    if e.handle != 0 then e.handle else INVALID_HANDLE
  }

  function FlagsOf(entries: seq<Entry>): (s: seq<Byte>)
    ensures |s| == |entries|
  {
    seq(|entries|, i requires 0 <= i < |entries| => FlagOf(entries[i]))
  }

  function HandlesOf(entries: seq<Entry>): (s: seq<Byte>)
    ensures |s| == 8 * |entries|
  {
    if entries == [] then [] else HandlesOf(entries[..|entries| - 1]) + Little(Passed(entries[|entries| - 1]), 8)
  }

  /** Four bytes of count, a flag byte for each descriptor, then eight bytes of handle for each. */
  function Block(entries: seq<Entry>): (s: seq<Byte>)
    ensures |s| == 4 + 9 * |entries|
  {
    Little(|entries|, 4) + FlagsOf(entries) + HandlesOf(entries)
  }

  // ----- What the child reads -----

  /** How many descriptors are passed on; none when there is no block. */
  function CountOf(block: seq<Byte>): nat
    requires block == [] || |block| >= 4
  {
    if block == [] then 0 else FromLittle(block[..4])
  }

  predicate WellFormed(block: seq<Byte>) {
    block == [] || (|block| >= 4 && |block| >= 4 + 9 * CountOf(block))
  }

  function FlagAt(block: seq<Byte>, i: nat): Byte
    requires WellFormed(block) && i < CountOf(block)
  {
    block[4 + i]
  }

  function HandleAt(block: seq<Byte>, i: nat): Handle
    requires WellFormed(block) && i < CountOf(block)
  {
    var start := 4 + CountOf(block) + 8 * i;
    FromLittle(block[start..start + 8])
  }

  lemma {:induction false} HandleInPlace(entries: seq<Entry>, i: nat)
    requires i < |entries|
    ensures HandlesOf(entries)[8 * i..8 * i + 8] == Little(Passed(entries[i]), 8)
  {
    var last := |entries| - 1;
    if i < last {
      HandleInPlace(entries[..last], i);
      assert HandlesOf(entries)[8 * i..8 * i + 8] == HandlesOf(entries[..last])[8 * i..8 * i + 8];
    }
  }

  predicate Handles64(entries: seq<Entry>) {
    forall i | 0 <= i < |entries| :: entries[i].handle <= INVALID_HANDLE
  }

  /** The child reads back every count, flag and handle the parent wrote. */
  lemma BlockReadsBack(entries: seq<Entry>, i: nat)
    requires |entries| < TWO32 && Handles64(entries) && i < |entries|
    ensures var block := Block(entries);
            && CountOf(block) == |entries| && WellFormed(block)
            && FlagAt(block, i) == FlagOf(entries[i]) && HandleAt(block, i) == Passed(entries[i])
  {
    hide FlagOf;
    hide Little;
    hide Range;
    hide FromLittle;
    hide HandlesOf;
    var n, block := |entries|, Block(entries);
    Ranges();
    assert block[..4] == Little(n, 4);
    FromLittleOfLittle(n, 4);
    assert block[4 + i] == FlagsOf(entries)[i];
    var start := 4 + n + 8 * i;
    assert block[start..start + 8] == HandlesOf(entries)[8 * i..8 * i + 8];
    HandleInPlace(entries, i);
    FromLittleOfLittle(Passed(entries[i]), 8);
  }

  /** Four bytes are read with the lowest first. */
  lemma FourBytes(s: seq<Byte>)
    requires |s| == 4
    ensures FromLittle(s) == (s[0] as int) + 0x100 * (s[1] as int) + 0x1_0000 * (s[2] as int) + 0x100_0000 * (s[3] as int)
  {
    var s1, s2 := s[1..], s[1..][1..];
    assert s1[0] == s[1] && s2[0] == s[2] && s2[1..][0] == s[3];
    assert FromLittle(s2[1..]) == s[3] + 256 * FromLittle(s2[1..][1..]);
    assert FromLittle(s2) == s[2] + 256 * FromLittle(s2[1..]) && FromLittle(s1) == s[1] + 256 * FromLittle(s2);
  }

  /** The flag byte, bit by bit: open, a pipe, appending, a device, and no other. */
  lemma FlagBits(e: Entry)
    ensures var b := FlagOf(e);
            && b % 2 == 1 && b / 2 % 2 == 0 && b / 4 % 2 == 0 && b / 16 % 2 == 0 && b / 128 == 0
            && (b / 8 % 2 == 1 <==> e.kind == Pipe)
            && (b / 32 % 2 == 1 <==> e.flags & 0x8 == 0x8)
            && (b / 64 % 2 == 1 <==> e.kind == Console || e.kind == NullDevice)
  {
    var x := e.flags;
    assert x & 0x8 != 0 <==> x & 0x8 == 0x8;
  }

  /** Where the parts of the block lie: the count in front, then a byte for each descriptor, then the handles. */
  lemma BlockLayout(entries: seq<Entry>, i: nat)
    requires i < |entries| < TWO32 && Handles64(entries)
    ensures var n, s := |entries|, Block(entries);
            && n == (s[0] as int) + 0x100 * (s[1] as int) + 0x1_0000 * (s[2] as int) + 0x100_0000 * (s[3] as int)
            && s[4 + i] == FlagOf(entries[i])
            && FromLittle(s[4 + n + 8 * i..4 + n + 8 * i + 8])
               == if entries[i].handle != 0 then entries[i].handle else 0xFFFF_FFFF_FFFF_FFFF
  {
    hide FlagOf;
    hide Little;
    hide FromLittle;
    hide HandlesOf;
    BlockReadsBack(entries, i);
    FourBytes(Block(entries)[..4]);
  }

  // ----- Writing the block -----

  const LARGEST: nat := 7281

  /** The block's size fits the 16 bits it is passed on in exactly up to 7281 descriptors. */
  lemma SizeFits(n: nat)
    ensures (4 + 9 * n) % 0x1_0000 == 4 + 9 * n <==> n <= LARGEST
  {
  }

  /** The highest descriptor in use, or 0. */
  ghost predicate LastOpen(info: seq<Entry>, k: nat) {
    && k < |info| && (k > 0 ==> info[k].handle != 0)
    && forall i | k < i < |info| :: info[i].handle == 0
  }

  method FindLast(info: seq<Entry>) returns (k: nat)
    requires info != []
    ensures LastOpen(info, k)
  {
    k := 0;
    for i := 0 to |info|
      invariant k < |info| && (k > 0 ==> info[k].handle != 0)
      invariant forall j | k < j < i :: info[j].handle == 0
    {
      if info[i].handle != 0 {
        k := i;
      }
    }
  }

  method PutLittle(block: array<Byte>, at: nat, x: nat, n: nat)
    requires at + n <= block.Length
    modifies block
    ensures block[at..at + n] == Little(x, n)
    ensures block[..at] == old(block[..at]) && block[at + n..] == old(block[at + n..])
    decreases n
  {
    if n > 0 {
      block[at] := x % 256;
      PutLittle(block, at + 1, x / 256, n - 1);
      assert block[at..at + n] == [block[..at + 1][at]] + block[at + 1..at + n];
      assert block[..at] == block[..at + 1][..at];
    }
  }

  /** The block covers the descriptors up to the highest in use, and its size is passed on whole. */
  method WriteBlock(info: seq<Entry>) returns (block: array<Byte>, size: nat, n: nat)
    requires info != [] && (forall k: nat | LastOpen(info, k) :: k < LARGEST)
    ensures n > 0 && LastOpen(info, n - 1) && block[..] == Block(info[..n])
    ensures size == block.Length < 0x1_0000 && fresh(block)
  {
    var last := FindLast(info);
    n := last + 1;
    SizeFits(n);
    size := (4 + 9 * n) % 0x1_0000;
    block := new Byte[size];
    PutLittle(block, 0, n, 4);
    FillBlock(block, info[..n]);
  }

  /** The block with the flags and handles of the first `i` descriptors. */
  ghost predicate Filled(s: seq<Byte>, entries: seq<Entry>, i: nat)
    requires i <= |entries|
  {
    var n := |entries|;
    && |s| == 4 + 9 * n && s[..4] == Little(n, 4)
    && s[4..4 + i] == FlagsOf(entries)[..i] && s[4 + n..4 + n + 8 * i] == HandlesOf(entries[..i])
  }

  /** Stores the flag and the handle of each descriptor. */
  method FillBlock(block: array<Byte>, entries: seq<Entry>)
    requires block.Length == 4 + 9 * |entries| && block[..4] == Little(|entries|, 4)
    modifies block
    ensures block[..] == Block(entries)
  {
    FilledStart(block[..], entries);
    hide Filled;
    hide Block;
    hide Little;
    for i := 0 to |entries|
      invariant Filled(block[..], entries, i)
    {
      PutOne(block, entries, i);
    }
    FilledAll(block[..], entries);
  }

  lemma FilledStart(s: seq<Byte>, entries: seq<Entry>)
    requires |s| == 4 + 9 * |entries| && s[..4] == Little(|entries|, 4)
    ensures Filled(s, entries, 0)
  {
    hide Little;
  }

  lemma FilledAll(s: seq<Byte>, entries: seq<Entry>)
    requires Filled(s, entries, |entries|)
    ensures s == Block(entries)
  {
    hide Little;
    hide HandlesOf;
    hide FlagsOf;
    var n := |entries|;
    assert entries[..n] == entries && FlagsOf(entries)[..n] == FlagsOf(entries);
    Rejoined(s, 0, 4, 4 + n);
    Rejoined(s, 0, 4 + n, 4 + n + 8 * n);
    assert s[0..4 + n + 8 * n] == s && s[0..4] == s[..4];
  }

  method PutOne(block: array<Byte>, entries: seq<Entry>, i: nat)
    requires i < |entries| && Filled(block[..], entries, i)
    modifies block
    ensures Filled(block[..], entries, i + 1)
  {
    hide FlagOf;
    hide Little;
    hide HandlesOf;
    hide FlagsOf;
    ghost var was := block[..];
    var at := 4 + |entries| + 8 * i;
    block[4 + i] := FlagOf(entries[i]);
    PutLittle(block, at, Passed(entries[i]), 8);
    assert block[..at] == was[..at][4 + i := FlagOf(entries[i])];
    FilledMore(was, block[..], entries, i, at);
  }

  lemma FilledMore(was: seq<Byte>, now: seq<Byte>, entries: seq<Entry>, i: nat, at: nat)
    requires i < |entries| && Filled(was, entries, i) && |now| == |was| && at == 4 + |entries| + 8 * i
    requires now[..at] == was[..at][4 + i := FlagOf(entries[i])] && now[at..at + 8] == Little(Passed(entries[i]), 8)
    ensures Filled(now, entries, i + 1)
  {
    hide Little;
    hide HandlesOf;
    hide FlagOf;
    SlicesAfter(was, now, |entries|, i, FlagOf(entries[i]));
    HandlesStep(entries, i);
    assert FlagsOf(entries)[..i + 1] == FlagsOf(entries)[..i] + [FlagOf(entries[i])];
  }

  /** What storing flag and handle number `i` makes of the block so far. */
  lemma SlicesAfter(was: seq<Byte>, now: seq<Byte>, n: nat, i: nat, flag: Byte)
    requires i < n && |was| == |now| == 4 + 9 * n
    requires now[..4 + n + 8 * i] == was[..4 + n + 8 * i][4 + i := flag]
    ensures now[..4] == was[..4] && now[4..4 + i + 1] == was[4..4 + i] + [flag]
    ensures now[4 + n..4 + n + 8 * (i + 1)] == was[4 + n..4 + n + 8 * i] + now[4 + n + 8 * i..4 + n + 8 * i + 8]
  {
    var at := 4 + n + 8 * i;
    Poked(was, now, at, 4 + i, flag, 0, 4);
    Poked(was, now, at, 4 + i, flag, 4, 4 + i);
    Poked(was, now, at, 4 + i, flag, 4 + n, at);
    assert now[4 + i] == now[..at][4 + i];
    Rejoined(now, 4, 4 + i, 4 + i + 1);
    Rejoined(now, 4 + n, at, at + 8);
  }

  /** Storing one byte leaves the slices beside it. */
  lemma Poked(was: seq<Byte>, now: seq<Byte>, at: nat, p: nat, b: Byte, i: nat, j: nat)
    requires p < at <= |was| == |now| && now[..at] == was[..at][p := b]
    requires i <= j <= at && (j <= p || p < i)
    ensures now[i..j] == was[i..j]
  {
    Within(was, at, i, j);
    Within(now, at, i, j);
    assert was[..at][p := b][i..j] == was[..at][i..j];
  }

  lemma Within(s: seq<Byte>, at: nat, i: nat, j: nat)
    requires i <= j <= at <= |s|
    ensures s[..at][i..j] == s[i..j]
  {
  }

  lemma Rejoined(s: seq<Byte>, i: nat, j: nat, k: nat)
    requires i <= j <= k <= |s|
    ensures s[i..k] == s[i..j] + s[j..k]
  {
  }

  lemma HandlesStep(entries: seq<Entry>, i: nat)
    requires i < |entries|
    ensures HandlesOf(entries[..i + 1]) == HandlesOf(entries[..i]) + Little(Passed(entries[i]), 8)
  {
    hide Little;
    var t := entries[..i + 1];
    assert t[..|t| - 1] == entries[..i] && t[|t| - 1] == entries[i];
  }

  // ----- The table of the child -----

  /** A standard handle, and the console handle that can take its place; 0 when there is none. */
  datatype Std = Std(handle: Handle, console: Handle, mode: bv32)

  /** What the kernel tells of a handle. */
  datatype Kernel = Kernel(kind: Handle -> Kind, mode: Handle -> bv32)

  /** What is at a descriptor, its sequence number aside. */
  datatype Held = Nothing | Held(handle: Handle, kind: Kind, flags: bv32)

  function HeldAt(open: map<nat, Entry>, fd: nat): Held {
    if fd in open then Held(open[fd].handle, open[fd].kind, open[fd].flags) else Nothing
  }

  /** The table has this handle at the descriptor, with this kind and these flags. */
  ghost predicate Has(open: map<nat, Entry>, fd: nat, h: Handle, kind: Kind, flags: bv32) {
    fd in open && open[fd].handle == h && open[fd].kind == kind && open[fd].flags == flags
  }

  /** A handle as the kernel describes it. */
  function Described(kernel: Kernel, h: Handle): Held {
    if kernel.kind(h) == Invalid then Nothing else Held(h, kernel.kind(h), kernel.mode(h))
  }

  function StdHeld(std: Std, kernel: Kernel): Held {
    if kernel.kind(std.handle) != Invalid then Described(kernel, std.handle)
    else if std.console != 0 then Held(std.console, Console, std.mode)
    else Nothing
  }

  /** What a child finds at a descriptor from 3 on. */
  function Heir(block: seq<Byte>, kernel: Kernel, fd: nat): Held
    requires WellFormed(block)
  {
    if fd >= CountOf(block) || FlagAt(block, fd) % 2 == 0 || HandleAt(block, fd) == INVALID_HANDLE then Nothing
    else Described(kernel, HandleAt(block, fd))
  }

  /** Every entry has been stamped, in the order of the descriptors. */
  ghost predicate Stamped(open: map<nat, Entry>, sequence: nat) {
    && (forall fd | fd in open :: 1 <= open[fd].sequence <= sequence)
    && (forall fd, fd' | fd in open && fd' in open && fd < fd' :: open[fd].sequence < open[fd'].sequence)
  }

  lemma StampedAfter(open: map<nat, Entry>, sequence: nat, fd: nat, e: Entry)
    requires Stamped(open, sequence) && (forall i | i in open :: i < fd) && e.sequence == sequence + 1
    ensures Stamped(open[fd := e], sequence + 1)
  {
  }

  /** Fills the next slot. */
  method SetNext(table: Table, fd: nat, h: Handle, kind: Kind, flags: bv32)
    requires table.Valid() && fd < table.entries.Length && h != 0 && table.sequence + 1 < TWO32
    requires Stamped(table.Map(), table.sequence) && forall i | i in table.Map() :: i < fd
    modifies table`sequence, table.entries
    ensures table.Valid() && table.sequence == old(table.sequence) + 1
    ensures Stamped(table.Map(), table.sequence)
    ensures table.Map() == old(table.Map())[fd := Entry(h, kind, flags, table.sequence)]
  {
    hide Stamped;
    hide Open;
    table.SetEntry(fd, h, kind, flags);
    StampedAfter(old(table.Map()), old(table.sequence), fd, Entry(h, kind, flags, table.sequence));
  }

  method InitStd(table: Table, fd: nat, std: Std, kernel: Kernel)
    requires table.Valid() && fd < 3 && table.sequence <= fd && Stamped(table.Map(), table.sequence)
    requires kernel.kind(0) == Invalid && forall i | i in table.Map() :: i < fd
    modifies table`sequence, table.entries
    ensures table.Valid() && table.sequence <= fd + 1 && Stamped(table.Map(), table.sequence)
    ensures HeldAt(table.Map(), fd) == StdHeld(std, kernel)
    ensures kernel.kind(std.handle) != Invalid ==>
              Has(table.Map(), fd, std.handle, kernel.kind(std.handle), kernel.mode(std.handle))
    ensures kernel.kind(std.handle) == Invalid && std.console != 0 ==>
              Has(table.Map(), fd, std.console, Console, std.mode)
    ensures kernel.kind(std.handle) == Invalid && std.console == 0 ==> fd !in table.Map()
    ensures forall i | i in table.Map() :: i <= fd
    ensures forall i: nat | i < fd :: HeldAt(table.Map(), i) == old(HeldAt(table.Map(), i))
  {
    hide Stamped;
    hide Open;
    var kind := kernel.kind(std.handle);
    if kind != Invalid {
      SetNext(table, fd, std.handle, kind, kernel.mode(std.handle));
    } else if std.console != 0 {
      SetNext(table, fd, std.console, Console, std.mode);
    }
  }

  /** The table starts with room for every descriptor of the block, and no more than twice that. */
  method SizeFor(count: nat) returns (size: nat)
    ensures size >= 4 && size >= count && (size == 4 || size < 2 * count)
  {
    size := 4;
    while size < count
      invariant size >= 4 && (size == 4 || size < 2 * count)
      decreases count - size
    {
      size := size * 2;
    }
  }

  /** The start of a process: the standard handles, then what the block passes on. */
  method Adopt(block: seq<Byte>, std: seq<Std>, kernel: Kernel) returns (table: Table)
    requires WellFormed(block) && |std| == 3 && kernel.kind(0) == Invalid
    ensures fresh(table) && fresh(table.entries) && table.Valid()
    ensures forall fd: nat | fd < 3 :: HeldAt(table.Map(), fd) == StdHeld(std[fd], kernel)
    ensures forall fd: nat | fd >= 3 :: HeldAt(table.Map(), fd) == Heir(block, kernel, fd)
    ensures Stamped(table.Map(), table.sequence)
  {
    var count := CountOf(block);
    CountBound(block);
    hide HandleAt;
    hide CountOf;
    hide WellFormed;
    hide Stamped;
    hide Open;
    hide StdHeld;
    table := new Table();
    var size := SizeFor(count);
    table.Resize(size);
    for fd := 0 to 3
      invariant fresh(table) && fresh(table.entries) && table.Valid() && table.entries.Length == size
      invariant table.sequence <= fd && Stamped(table.Map(), table.sequence)
      invariant forall i | i in table.Map() :: i < fd
      invariant forall i: nat | i < fd :: HeldAt(table.Map(), i) == StdHeld(std[i], kernel)
    {
      InitStd(table, fd, std[fd], kernel);
    }
    AdoptRest(table, block, kernel);
  }

  method AdoptRest(table: Table, block: seq<Byte>, kernel: Kernel)
    requires table.Valid() && WellFormed(block) && CountOf(block) < TWO32 && table.entries.Length >= CountOf(block)
    requires kernel.kind(0) == Invalid && table.sequence <= 3 && Stamped(table.Map(), table.sequence)
    requires forall i | i in table.Map() :: i < 3
    modifies table`sequence, table.entries
    ensures table.Valid() && Stamped(table.Map(), table.sequence)
    ensures forall fd: nat | fd < 3 :: HeldAt(table.Map(), fd) == old(HeldAt(table.Map(), fd))
    ensures forall fd: nat | fd >= 3 :: HeldAt(table.Map(), fd) == Heir(block, kernel, fd)
  {
    var count := CountOf(block);
    hide HandleAt;
    hide FlagAt;
    hide CountOf;
    hide WellFormed;
    hide Stamped;
    hide Open;
    var i := 3;
    while i < count
      invariant 3 <= i && (i <= count || i == 3) && table.Valid() && table.entries == old(table.entries)
      invariant table.sequence <= i && Stamped(table.Map(), table.sequence)
      invariant forall fd | fd in table.Map() :: fd < i
      invariant forall fd: nat | fd < 3 :: HeldAt(table.Map(), fd) == old(HeldAt(table.Map(), fd))
      invariant forall fd: nat | 3 <= fd < i :: HeldAt(table.Map(), fd) == Heir(block, kernel, fd)
    {
      AdoptOne(table, block, kernel, i);
      i := i + 1;
    }
  }

  method AdoptOne(table: Table, block: seq<Byte>, kernel: Kernel, i: nat)
    requires table.Valid() && WellFormed(block) && i < CountOf(block) < TWO32 && i < table.entries.Length
    requires kernel.kind(0) == Invalid && table.sequence <= i && Stamped(table.Map(), table.sequence)
    requires forall fd | fd in table.Map() :: fd < i
    modifies table`sequence, table.entries
    ensures table.Valid() && table.sequence <= i + 1 && Stamped(table.Map(), table.sequence)
    ensures forall fd | fd in table.Map() :: fd <= i
    ensures forall fd: nat | fd < i :: HeldAt(table.Map(), fd) == old(HeldAt(table.Map(), fd))
    ensures HeldAt(table.Map(), i) == Heir(block, kernel, i)
  {
    hide HandleAt;
    hide FlagAt;
    hide CountOf;
    hide WellFormed;
    hide Stamped;
    hide Open;
    var flag, handle := FlagAt(block, i), HandleAt(block, i);
    if flag % 2 != 0 && handle != INVALID_HANDLE {
      var kind := kernel.kind(handle);
      if kind != Invalid {
        SetNext(table, i, handle, kind, kernel.mode(handle));
      }
    }
  }

  lemma {:induction false} LittleBound(s: seq<Byte>)
    ensures FromLittle(s) < Range(|s|)
  {
    if s != [] {
      LittleBound(s[1..]);
    }
  }

  lemma CountBound(block: seq<Byte>)
    requires block == [] || |block| >= 4
    ensures CountOf(block) < TWO32
  {
    if block != [] {
      LittleBound(block[..4]);
      Ranges();
    }
  }

  /** What takes the place of a standard handle the child cannot use: a console handle, 0 for none, and its mode. */
  datatype Fallback = Fallback(console: Handle, mode: bv32)

  function ParentHandle(info: seq<Entry>, fd: nat): Handle {
    if fd < |info| then info[fd].handle else 0
  }

  /** The child finds in the block what the parent held, if the kernel still knows it. */
  lemma HeirOfBlock(info: seq<Entry>, n: nat, kernel: Kernel, fd: nat)
    requires Handles64(info) && n > 0 && LastOpen(info, n - 1) && n <= LARGEST
    requires kernel.kind(0) == Invalid && kernel.kind(INVALID_HANDLE) == Invalid
    ensures WellFormed(Block(info[..n]))
    ensures Heir(Block(info[..n]), kernel, fd) == Described(kernel, ParentHandle(info, fd))
  {
    var entries := info[..n];
    BlockReadsBack(entries, 0);
    if fd < n {
      BlockReadsBack(entries, fd);
    }
    hide Block;
    hide HandleAt;
    hide FlagAt;
  }

  /**
   * From parent to child: at 0 to 2 the child has its parent's handles, or its console where the kernel
   * does not know them; at every descriptor from 3 on it has the handle its parent had, unless the kernel
   * does not know it, and none where the parent had none.
   */
  method PassOn(info: seq<Entry>, fallback: seq<Fallback>, kernel: Kernel) returns (table: Table)
    requires info != [] && Handles64(info) && (forall k: nat | LastOpen(info, k) :: k < LARGEST)
    requires |fallback| == 3 && kernel.kind(0) == Invalid && kernel.kind(INVALID_HANDLE) == Invalid
    ensures fresh(table) && table.Valid() && Stamped(table.Map(), table.sequence)
    ensures forall fd: nat :: var h := ParentHandle(info, fd);
              kernel.kind(h) != Invalid ==> Has(table.Map(), fd, h, kernel.kind(h), kernel.mode(h))
    ensures forall fd: nat | fd < 3 && kernel.kind(ParentHandle(info, fd)) == Invalid ::
              if fallback[fd].console != 0 then Has(table.Map(), fd, fallback[fd].console, Console, fallback[fd].mode)
              else fd !in table.Map()
    ensures forall fd: nat | fd >= 3 && kernel.kind(ParentHandle(info, fd)) == Invalid :: fd !in table.Map()
  {
    var block, size, n := WriteBlock(info);
    ghost var entries := info[..n];
    BlockReadsBack(entries, 0);
    var std := seq(3, i requires 0 <= i < 3 =>
      Std(if i < n then info[i].handle else 0, fallback[i].console, fallback[i].mode));
    table := Adopt(block[..], std, kernel);
    hide Heir;
    hide StdHeld;
    hide Described;
    hide HeldAt;
    ghost var open := table.Map();
    forall fd: nat
      ensures var h := ParentHandle(info, fd);
              kernel.kind(h) != Invalid ==> Has(open, fd, h, kernel.kind(h), kernel.mode(h))
      ensures kernel.kind(ParentHandle(info, fd)) == Invalid ==>
                if fd < 3 && fallback[fd].console != 0 then Has(open, fd, fallback[fd].console, Console, fallback[fd].mode)
                else fd !in open
    {
      if fd < 3 {
        assert std[fd].handle == ParentHandle(info, fd);
        StdIs(open, fd, std[fd], kernel);
      } else {
        HeirOfBlock(info, n, kernel, fd);
        DescribedIs(open, fd, ParentHandle(info, fd), kernel);
      }
    }
  }

  lemma StdIs(open: map<nat, Entry>, fd: nat, std: Std, kernel: Kernel)
    requires HeldAt(open, fd) == StdHeld(std, kernel)
    ensures var h := std.handle;
            if kernel.kind(h) != Invalid then Has(open, fd, h, kernel.kind(h), kernel.mode(h))
            else if std.console != 0 then Has(open, fd, std.console, Console, std.mode)
            else fd !in open
  {
  }

  lemma DescribedIs(open: map<nat, Entry>, fd: nat, h: Handle, kernel: Kernel)
    requires HeldAt(open, fd) == Described(kernel, h)
    ensures if kernel.kind(h) != Invalid then Has(open, fd, h, kernel.kind(h), kernel.mode(h)) else fd !in open
  {
  }
}
