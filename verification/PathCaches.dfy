/** The cache of descriptor paths, keyed by descriptor and sequence number, over whole runs of a process. */
module PathCaches {
  import opened Basics
  import opened FdTables

  const SLOTS: nat := 128

  type Path = string

  datatype Slot = Slot(fd: int, sequence: nat, path: Option<Path>)

  /** What the kernel has open for the process: every handle with its path, if it gives one. */
  type Handles = map<Handle, Option<Path>>

  /** The path a cache has for a descriptor and its sequence number. */
  function Hit(slots: seq<Slot>, fd: int, sequence: nat): Option<Path>
    requires |slots| == SLOTS
  {
    var slot := slots[sequence % SLOTS];
    if slot.sequence == sequence && slot.fd == fd then slot.path else None
  }

  /** The slots a process starts with. */
  function NoSlots(): (slots: seq<Slot>)
    ensures |slots| == SLOTS && forall i | 0 <= i < SLOTS :: slots[i].path.None?
  {
    seq(SLOTS, i => Slot(if i == 0 then -1 else 0, 0, None))
  }

  class Cache {
    const slots: array<Slot>

    predicate Valid() {
      slots.Length == SLOTS
    }

    constructor ()
      ensures Valid() && fresh(slots) && slots[..] == NoSlots()
    {
      slots := new Slot[SLOTS](i => Slot(if i == 0 then -1 else 0, 0, None));
    }

    method Check(fd: int, sequence: nat) returns (r: Option<Path>)
      requires Valid()
      ensures r == Hit(slots[..], fd, sequence)
    {
      var index := sequence % SLOTS;
      if slots[index].sequence == sequence && slots[index].fd == fd {
        return slots[index].path;
      }
      return None;
    }

    method Update(fd: int, sequence: nat, path: Path)
      requires Valid()
      modifies slots
      ensures slots[..] == old(slots[..])[sequence % SLOTS := Slot(fd, sequence, Some(path))]
      ensures Hit(slots[..], fd, sequence) == Some(path)
    {
      slots[sequence % SLOTS] := Slot(fd, sequence, Some(path));
    }
  }

  /** Counting in 32 bits. */
  lemma NextStamp(made: nat)
    ensures (made % TWO32 + 1) % TWO32 == Stamp(made + 1) == (made + 1) % TWO32
  {
  }

  // ----- The state of a process -----

  /** The open descriptors, what the kernel has open, the insertions made so far, and the slots of the cache. */
  datatype Sys = Sys(open: map<nat, Entry>, kernel: Handles, made: nat, slots: seq<Slot>)

  function Start(): Sys {
    Sys(map[], map[], 0, NoSlots())
  }

  /** Every descriptor has a handle of its own that the kernel has open. */
  ghost predicate Consistent(s: Sys) {
    && |s.slots| == SLOTS
    && (forall fd | fd in s.open :: s.open[fd].handle in s.kernel && s.open[fd].handle != 0)
    && (forall fd, fd' | fd in s.open && fd' in s.open && fd != fd' :: s.open[fd].handle != s.open[fd'].handle)
  }

  function Inserted(s: Sys, fd: nat, e: Entry, path: Option<Path>): Sys {
    s.(open := s.open[fd := e], kernel := s.kernel[e.handle := path], made := s.made + 1)
  }

  function Removed(s: Sys, fd: nat): Sys
    requires fd in s.open
  {
    s.(open := s.open - {fd}, kernel := s.kernel - {s.open[fd].handle})
  }

  /** The path the kernel knows for a descriptor. */
  function TruePath(s: Sys, fd: int): Option<Path>
    requires Consistent(s)
  {
    if Present(s.open, fd) && s.open[fd].kind != Invalid then s.kernel[s.open[fd].handle] else None
  }

  /** A lookup: what the cache has under the sequence number, or else the kernel's path, which is cached. */
  function LookedUp(s: Sys, fd: int): (Sys, Option<Path>)
    requires Consistent(s)
  {
    if !Present(s.open, fd) || s.open[fd].kind == Invalid then (s, None)
    else
      var e := s.open[fd];
      var cached := Hit(s.slots, fd, e.sequence);
      if cached.Some? then (s, cached)
      else if s.kernel[e.handle].None? then (s, None)
      else (s.(slots := s.slots[e.sequence % SLOTS := Slot(fd, e.sequence, s.kernel[e.handle])]), s.kernel[e.handle])
  }

  // ----- The steps of a process -----

  datatype Action =
    | OpenFile(h: Handle, path: Option<Path>, kind: Kind, flags: bv32)
    | CloseFile(fd: int, closes: bool)
    | DupTo(oldfd: int, newfd: int, flags: bv32, target: Option<Handle>, closes: bool)
    | DupAbove(oldfd: int, from: nat, flags: bv32, target: Option<Handle>)
    | Lookup(fd: int)

  /** The kernel hands out handles that are not in use, though they may have been before. */
  predicate Fresh(kernel: Handles, h: Handle) {
    h != 0 && h !in kernel
  }

  predicate Admissible(kernel: Handles, a: Action) {
    match a
    case OpenFile(h, _, _, _) => Fresh(kernel, h)
    case DupTo(_, newfd, _, target, _) => newfd >= -1 && (target.Some? ==> Fresh(kernel, target.value))
    case DupAbove(_, _, _, target) => target.Some? ==> Fresh(kernel, target.value)
    case CloseFile(_, _) | Lookup(_) => true
  }

  /** A duplicate of `source` that the kernel made, put at `fd`. */
  function Copied(s: Sys, source: Entry, fd: nat, target: Handle, flags: bv32): Sys
    requires source.handle in s.kernel
  {
    Inserted(s, fd, Entry(target, source.kind, flags, Stamp(s.made + 1)), s.kernel[source.handle])
  }

  ghost predicate NextOpen(s: Sys, h: Handle, path: Option<Path>, kind: Kind, flags: bv32, r: int, s': Sys) {
    && r >= 0 && LowestFree(s.open, 0, r)
    && s' == Inserted(s, r, Entry(h, kind, flags, Stamp(s.made + 1)), path)
  }

  ghost predicate NextClose(s: Sys, fd: int, closes: bool, r: int, s': Sys) {
    if fd == AT_FDCWD then r == 0 && s' == s
    else if Present(s.open, fd) && closes then r == 0 && s' == Removed(s, fd)
    else r == -1 && s' == s
  }

  ghost predicate NextDupTo(s: Sys, oldfd: int, newfd: int, flags: bv32, target: Option<Handle>, closes: bool, r: int, s': Sys)
    requires Consistent(s)
  {
    if !Present(s.open, oldfd) || (flags != 0 && flags != CLOEXEC) then r == -1 && s' == s
    else if newfd == oldfd then r == newfd && s' == s
    else NextDup(s, oldfd, newfd, flags, target, closes, r, s')
  }

  ghost predicate NextDup(s: Sys, oldfd: nat, newfd: int, flags: bv32, target: Option<Handle>, closes: bool, r: int, s': Sys)
    requires Consistent(s) && oldfd in s.open && newfd != oldfd
  {
    var source := s.open[oldfd];
    if target.None? then r == -1 && s' == s
    else if newfd == -1 then
      r >= 0 && LowestFree(s.open, 0, r) && s' == Copied(s, source, r, target.value, source.flags)
    else if Present(s.open, newfd) && !closes then
      r == -1 && s' == s.(kernel := s.kernel[target.value := s.kernel[source.handle]])
    else
      && r == newfd && newfd >= 0
      && var cleared := if newfd in s.open then Removed(s, newfd) else s;
         s' == Copied(cleared, source, newfd, target.value, Both(source.flags, flags))
  }

  ghost predicate NextAbove(s: Sys, oldfd: int, from: nat, flags: bv32, target: Option<Handle>, r: int, s': Sys)
    requires Consistent(s)
  {
    if !Present(s.open, oldfd) || target.None? then r == -1 && s' == s
    else
      && r >= from && LowestFree(s.open, from, r)
      && s' == Copied(s, s.open[oldfd], r, target.value, Both(s.open[oldfd].flags, flags))
  }

  ghost predicate Next(s: Sys, a: Action, r: int, answer: Option<Path>, s': Sys)
    requires Consistent(s)
  {
    match a
    case OpenFile(h, path, kind, flags) => answer == None && NextOpen(s, h, path, kind, flags, r, s')
    case CloseFile(fd, closes) => answer == None && NextClose(s, fd, closes, r, s')
    case DupTo(oldfd, newfd, flags, target, closes) =>
      answer == None && NextDupTo(s, oldfd, newfd, flags, target, closes, r, s')
    case DupAbove(oldfd, from, flags, target) => answer == None && NextAbove(s, oldfd, from, flags, target, r, s')
    case Lookup(fd) => r == 0 && (s', answer) == LookedUp(s, fd)
  }

  /** The state a duplication with result `r` leads to. */
  ghost function AfterDup(s: Sys, oldfd: nat, newfd: int, flags: bv32, target: Option<Handle>, r: int): Sys
    requires Consistent(s) && oldfd in s.open && r != oldfd
  {
    var source := s.open[oldfd];
    if target.None? then s
    else if r < 0 then s.(kernel := s.kernel[target.value := s.kernel[source.handle]])
    else
      var cleared := if r in s.open then Removed(s, r) else s;
      Copied(cleared, source, r, target.value, if newfd == -1 then source.flags else Both(source.flags, flags))
  }

  lemma DupIsAfterDup(s: Sys, oldfd: nat, newfd: int, flags: bv32, target: Option<Handle>, closes: bool, r: int, s': Sys)
    requires Consistent(s) && oldfd in s.open && newfd != oldfd && NextDup(s, oldfd, newfd, flags, target, closes, r, s')
    ensures r != oldfd && s' == AfterDup(s, oldfd, newfd, flags, target, r)
  {
    hide Both;
  }

  // ----- What makes the cache right -----

  /** Which insertion, counting from 1, was given a sequence number, among the first 2^32. */
  function Rank(sequence: nat): nat {
    if sequence == 0 then TWO32 else sequence
  }

  /** A slot is no newer than the last insertion, and right if it can still be hit. */
  ghost predicate Right(s: Sys, slot: Slot) {
    slot.path.Some? ==>
      && Rank(slot.sequence) <= s.made
      && (Present(s.open, slot.fd) && s.open[slot.fd].sequence == slot.sequence && s.open[slot.fd].handle in s.kernel ==>
            slot.path == s.kernel[s.open[slot.fd].handle])
  }

  ghost predicate Sound(s: Sys) {
    && s.made <= TWO32 && Consistent(s)
    && (forall fd | fd in s.open :: Rank(s.open[fd].sequence) <= s.made)
    && forall i | 0 <= i < |s.slots| :: Right(s, s.slots[i])
  }

  lemma StartIsSound()
    ensures Sound(Start())
  {
  }

  /** A new entry is stamped later than every slot, so no slot can be taken for it. */
  lemma SoundAfterInsert(s: Sys, fd: nat, e: Entry, path: Option<Path>)
    requires Sound(s) && s.made < TWO32
    requires e.handle != 0 && e.handle !in s.kernel && e.sequence == (s.made + 1) % TWO32
    ensures Sound(Inserted(s, fd, e, path))
  {
    var s' := Inserted(s, fd, e, path);
    assert Rank(e.sequence) == s.made + 1;
    forall i | 0 <= i < |s'.slots| ensures Right(s', s'.slots[i]) {
      assert Right(s, s.slots[i]);
    }
  }

  lemma SoundAfterRemove(s: Sys, fd: nat)
    requires Sound(s) && fd in s.open
    ensures Sound(Removed(s, fd))
  {
    var s' := Removed(s, fd);
    forall i | 0 <= i < |s'.slots| ensures Right(s', s'.slots[i]) {
      assert Right(s, s.slots[i]);
    }
  }

  lemma SoundAfterLeak(s: Sys, h: Handle, path: Option<Path>)
    requires Sound(s) && h !in s.kernel
    ensures Sound(s.(kernel := s.kernel[h := path]))
  {
    var s' := s.(kernel := s.kernel[h := path]);
    forall i | 0 <= i < |s'.slots| ensures Right(s', s'.slots[i]) {
      assert Right(s, s.slots[i]);
    }
  }

  lemma SoundAfterDup(s: Sys, oldfd: nat, newfd: int, flags: bv32, target: Option<Handle>, r: int)
    requires Sound(s) && oldfd in s.open && r != oldfd && (target.Some? ==> Fresh(s.kernel, target.value))
    requires AfterDup(s, oldfd, newfd, flags, target, r).made <= TWO32
    ensures Sound(AfterDup(s, oldfd, newfd, flags, target, r))
  {
    hide Both;
    if target.Some? {
      var source := s.open[oldfd];
      var path := s.kernel[source.handle];
      if r < 0 {
        SoundAfterLeak(s, target.value, path);
      } else {
        var cleared := if r in s.open then Removed(s, r) else s;
        if r in s.open {
          SoundAfterRemove(s, r);
        }
        var f := if newfd == -1 then source.flags else Both(source.flags, flags);
        SoundAfterInsert(cleared, r, Entry(target.value, source.kind, f, Stamp(s.made + 1)), path);
      }
    }
  }

  /** In a sound state a lookup answers with the kernel's path, and keeps the state sound. */
  lemma LookupIsTrue(s: Sys, fd: int)
    requires Sound(s)
    ensures LookedUp(s, fd).1 == TruePath(s, fd) && Sound(LookedUp(s, fd).0)
  {
    if Present(s.open, fd) && s.open[fd].kind != Invalid {
      var e := s.open[fd];
      assert Right(s, s.slots[e.sequence % SLOTS]);
      var s' := LookedUp(s, fd).0;
      forall i | 0 <= i < |s'.slots| ensures Right(s', s'.slots[i]) {
        assert Right(s, s.slots[i]);
      }
    }
  }

  /** Every step keeps the cache right up to 2^32 insertions, and every lookup on the way is answered rightly. */
  lemma SoundAfterNext(s: Sys, a: Action, r: int, answer: Option<Path>, s': Sys)
    requires Sound(s) && Admissible(s.kernel, a) && Next(s, a, r, answer, s') && s'.made <= TWO32
    ensures Sound(s') && (a.Lookup? ==> answer == TruePath(s, a.fd))
  {
    hide Both;
    hide Right;
    hide LookedUp;
    hide Sound;
    hide Removed;
    assert Consistent(s) && s.made <= TWO32 by { Steady(s); }
    match a
    case OpenFile(h, path, kind, flags) =>
      SoundAfterInsert(s, r, Entry(h, kind, flags, Stamp(s.made + 1)), path);
    case CloseFile(fd, closes) =>
      if s' != s {
        SoundAfterRemove(s, fd);
      }
    case DupTo(oldfd, newfd, flags, target, closes) =>
      if Present(s.open, oldfd) && (flags == 0 || flags == CLOEXEC) && newfd != oldfd {
        DupIsAfterDup(s, oldfd, newfd, flags, target, closes, r, s');
        SoundAfterDup(s, oldfd, newfd, flags, target, r);
      }
    case DupAbove(oldfd, from, flags, target) =>
      if Present(s.open, oldfd) && target.Some? {
        var source := s.open[oldfd];
        SoundAfterInsert(s, r, Entry(target.value, source.kind, Both(source.flags, flags), Stamp(s.made + 1)), s.kernel[source.handle]);
      }
    case Lookup(fd) =>
      LookupIsTrue(s, fd);
  }

  lemma Steady(s: Sys)
    requires Sound(s)
    ensures Consistent(s) && s.made <= TWO32
  {
  }

  // ----- Runs -----

  datatype Event = Event(action: Action, r: int, answer: Option<Path>, before: Sys, after: Sys)

  /** A step the kernel and the process can make. */
  ghost predicate Happens(e: Event) {
    && Consistent(e.before) && Admissible(e.before.kernel, e.action)
    && Next(e.before, e.action, e.r, e.answer, e.after)
  }

  /** The events are the actions, one after the other, from one state to the other. */
  ghost predicate Run(first: Sys, actions: seq<Action>, events: seq<Event>, last: Sys) {
    && |events| == |actions|
    && (forall i | 0 <= i < |events| :: events[i].action == actions[i] && Happens(events[i]))
    && (forall i | 0 < i < |events| :: events[i].before == events[i - 1].after)
    && if events == [] then first == last
       else first == events[0].before && last == events[|events| - 1].after
  }

  lemma RunSnoc(first: Sys, actions: seq<Action>, events: seq<Event>, last: Sys, e: Event)
    requires Run(first, actions, events, last) && Happens(e) && e.before == last
    ensures Run(first, actions + [e.action], events + [e], e.after)
  {
    hide Happens;
  }

  predicate Inserts(e: Event) {
    && e.after.made == e.before.made + 1
    && e.r >= 0 && e.r in e.after.open && e.after.open[e.r].sequence == Stamp(e.after.made)
  }

  /** A step either inserts one entry, stamped with the next number, or stamps nothing. */
  lemma GrowsByOne(e: Event)
    requires Happens(e)
    ensures e.after.made == e.before.made || Inserts(e)
  {
    hide Both;
    hide Hit;
  }

  /**
   * Over every run from a sound state, with handle numbers reused at will: as long as no more than 2^32
   * insertions have been made, every lookup is answered with the path of the handle that is at the
   * descriptor then.
   */
  lemma {:induction false} LookupsTrue(first: Sys, actions: seq<Action>, events: seq<Event>, last: Sys, i: nat)
    requires Run(first, actions, events, last) && Sound(first) && i < |events| && events[i].after.made <= TWO32
    ensures Sound(events[i].before) && Sound(events[i].after)
    ensures events[i].action.Lookup? ==> events[i].answer == TruePath(events[i].before, events[i].action.fd)
  {
    hide Sound;
    hide Next;
    var e := events[i];
    assert Happens(e);
    GrowsByOne(e);
    if i > 0 {
      assert e.before == events[i - 1].after;
      LookupsTrue(first, actions, events, last, i - 1);
    }
    SoundAfterNext(e.before, e.action, e.r, e.answer, e.after);
  }

  lemma RankOfStamp(n: nat)
    requires 1 <= n <= TWO32
    ensures Rank(Stamp(n)) == n
  {
  }

  /** The insertions only grow in number. */
  lemma {:induction false} MadeGrows(first: Sys, actions: seq<Action>, events: seq<Event>, last: Sys, i: nat, j: nat)
    requires Run(first, actions, events, last) && i < j < |events|
    ensures events[i].after.made <= events[j].before.made
    decreases j
  {
    hide Happens;
    assert events[j].before == events[j - 1].after;
    if i < j - 1 {
      MadeGrows(first, actions, events, last, i, j - 1);
      GrowsByOne(events[j - 1]);
    }
  }

  /** Over any run of at most 2^32 insertions a later entry has a later sequence number. */
  lemma StampsIncrease(first: Sys, actions: seq<Action>, events: seq<Event>, last: Sys, i: nat, j: nat)
    requires Run(first, actions, events, last) && i < j < |events|
    requires Inserts(events[i]) && Inserts(events[j]) && events[j].after.made <= TWO32
    ensures Rank(events[i].after.open[events[i].r].sequence) < Rank(events[j].after.open[events[j].r].sequence)
  {
    hide Stamp;
    hide Rank;
    hide Run;
    MadeGrows(first, actions, events, last, i, j);
    RankOfStamp(events[i].after.made);
    RankOfStamp(events[j].after.made);
  }

  // ----- One insertion too many -----

  const FIRST: Path := "first"
  const SECOND: Path := "second"

  /** Opening a file when nothing is open gives it descriptor 0. */
  lemma OpensAlone(s: Sys, h: Handle, path: Path)
    requires s.open == map[] && s.kernel == map[] && |s.slots| == SLOTS && h != 0
    ensures Happens(Event(OpenFile(h, Some(path), File, 0), 0, None, s, Alone(s, h, path)))
    ensures Removed(Alone(s, h, path), 0) == s.(made := s.made + 1)
  {
  }

  function Alone(s: Sys, h: Handle, path: Path): Sys {
    Inserted(s, 0, Entry(h, File, 0, Stamp(s.made + 1)), Some(path))
  }

  lemma ClosesAlone(s: Sys, h: Handle, path: Path)
    requires s.open == map[] && s.kernel == map[] && |s.slots| == SLOTS && h != 0
    ensures var live := Alone(s, h, path);
            Happens(Event(CloseFile(0, true), 0, None, live, s.(made := s.made + 1)))
  {
    OpensAlone(s, h, path);
  }

  /** The cache once the first file was looked up. */
  function FirstSlots(): (slots: seq<Slot>)
    ensures |slots| == SLOTS
  {
    NoSlots()[1 := Slot(0, 1, Some(FIRST))]
  }

  /** A file is opened, looked up and closed, then opened and closed `n` times more. */
  lemma {:induction false} Churned(n: nat) returns (actions: seq<Action>, events: seq<Event>)
    ensures Run(Start(), actions, events, Sys(map[], map[], n + 1, FirstSlots()))
  {
    hide Happens;
    hide FirstSlots;
    var base := if n == 0 then Start() else Sys(map[], map[], n, FirstSlots());
    var live := Alone(base, 1, FIRST);
    if n == 0 {
      actions, events := [], [];
    } else {
      actions, events := Churned(n - 1);
    }
    OpensAlone(base, 1, FIRST);
    var e := Event(OpenFile(1, Some(FIRST), File, 0), 0, None, base, live);
    RunSnoc(Start(), actions, events, base, e);
    actions, events := actions + [e.action], events + [e];
    var looked := live.(slots := FirstSlots());
    if n == 0 {
      FirstLookup();
      var e1 := Event(Lookup(0), 0, Some(FIRST), live, looked);
      RunSnoc(Start(), actions, events, live, e1);
      actions, events := actions + [e1.action], events + [e1];
    }
    var rest := base.(slots := FirstSlots());
    ClosesAlone(rest, 1, FIRST);
    var e2 := Event(CloseFile(0, true), 0, None, looked, rest.(made := n + 1));
    RunSnoc(Start(), actions, events, looked, e2);
    actions, events := actions + [e2.action], events + [e2];
  }

  lemma FirstLookup()
    ensures var live := Alone(Start(), 1, FIRST);
            Happens(Event(Lookup(0), 0, Some(FIRST), live, live.(slots := FirstSlots())))
  {
    var live := Alone(Start(), 1, FIRST);
    assert live.open[0].sequence == 1;
  }

  /**
   * One insertion more is one too many: a run of 2^32 + 1 insertions at whose end a lookup answers with
   * the path of a handle that was closed long before.
   */
  lemma OneTooMany() returns (actions: seq<Action>, events: seq<Event>, last: Sys)
    ensures Run(Start(), actions, events, last) && last.made == TWO32 + 1 && events != []
    ensures var e := events[|events| - 1];
            && e.action == Lookup(0) && e.after == last && Consistent(e.before)
            && e.answer == Some(FIRST) && TruePath(e.before, 0) == Some(SECOND)
  {
    actions, events := Churned(TWO32 - 1);
    hide Run;
    var base := Sys(map[], map[], TWO32, FirstSlots());
    var live := Alone(base, 2, SECOND);
    OpensAlone(base, 2, SECOND);
    var e := Event(OpenFile(2, Some(SECOND), File, 0), 0, None, base, live);
    RunSnoc(Start(), actions, events, base, e);
    actions, events := actions + [e.action], events + [e];
    assert live.open[0].sequence == 1;
    var e1 := Event(Lookup(0), 0, Some(FIRST), live, live);
    RunSnoc(Start(), actions, events, live, e1);
    actions, events, last := actions + [e1.action], events + [e1], live;
  }

  /** Over all runs of a new process, every lookup made with at most `n` insertions is answered rightly. */
  ghost predicate TrueUpTo(n: nat) {
    forall actions: seq<Action>, events: seq<Event>, last: Sys, i: nat |
      Run(Start(), actions, events, last) && i < |events| && events[i].action.Lookup? && events[i].after.made <= n ::
      Consistent(events[i].before) && events[i].answer == TruePath(events[i].before, events[i].action.fd)
  }

  /** The exact bound: lookups are right up to `n` insertions if and only if `n` is at most 2^32. */
  lemma ExactBound(n: nat)
    ensures TrueUpTo(n) <==> n <= TWO32
  {
    hide Run;
    hide TruePath;
    hide Sound;
    hide Start;
    if n <= TWO32 {
      StartIsSound();
      forall actions: seq<Action>, events: seq<Event>, last: Sys, i: nat |
        Run(Start(), actions, events, last) && i < |events| && events[i].action.Lookup? && events[i].after.made <= n
        ensures Consistent(events[i].before) && events[i].answer == TruePath(events[i].before, events[i].action.fd)
      {
        LookupsTrue(Start(), actions, events, last, i);
        Steady(events[i].before);
      }
    } else {
      var actions, events, last := OneTooMany();
      var i: nat := |events| - 1;
      assert events[i].action.Lookup? && events[i].after.made <= n;
    }
  }

  // ----- The table and the cache make such runs -----

  /** The path of a descriptor: the cached one, or else what the kernel gives, which is then cached. */
  method PathOf(table: Table, cache: Cache, kernel: Handles, ghost made: nat, fd: int) returns (answer: Option<Path>)
    requires table.Valid() && cache.Valid() && Consistent(Sys(table.Map(), kernel, made, cache.slots[..]))
    modifies cache.slots
    ensures (Sys(table.Map(), kernel, made, cache.slots[..]), answer)
         == old(LookedUp(Sys(table.Map(), kernel, made, cache.slots[..]), fd))
  {
    var info := table.Info(fd);
    if info.None? || info.value.kind == Invalid {
      return None;
    }
    answer := cache.Check(fd, info.value.sequence);
    if answer.Some? {
      return;
    }
    answer := kernel[info.value.handle];
    if answer.Some? {
      cache.Update(fd, info.value.sequence, answer.value);
    }
  }

  lemma ConsistentAfterInsert(s: Sys, fd: nat, e: Entry, path: Option<Path>)
    requires Consistent(s) && Fresh(s.kernel, e.handle)
    ensures Consistent(Inserted(s, fd, e, path))
  {
  }

  lemma ConsistentAfterDup(s: Sys, oldfd: nat, newfd: int, flags: bv32, target: Option<Handle>, r: int)
    requires Consistent(s) && oldfd in s.open && r != oldfd && (target.Some? ==> Fresh(s.kernel, target.value))
    ensures Consistent(AfterDup(s, oldfd, newfd, flags, target, r))
  {
    hide Both;
  }

  lemma DupLeads(s: Sys, oldfd: nat, newfd: int, flags: bv32, target: Option<Handle>, closes: bool, r: int,
                 open': map<nat, Entry>, sequence': nat)
    requires Consistent(s) && oldfd in s.open && newfd >= -1 && newfd != oldfd
    requires Duplicated(s.open, s.made % TWO32, oldfd, newfd, flags, target, closes, r, open', sequence')
    ensures r >= 0 && newfd >= 0 ==> r == newfd
    ensures r >= 0 && newfd == -1 ==> r !in s.open
    ensures r != oldfd && NextDup(s, oldfd, newfd, flags, target, closes, r, AfterDup(s, oldfd, newfd, flags, target, r))
    ensures var after := AfterDup(s, oldfd, newfd, flags, target, r);
            after.open == open' && after.made % TWO32 == sequence'
  {
    hide Both;
    if r >= 0 {
      assert (s.made % TWO32 + 1) % TWO32 == (s.made + 1) % TWO32;
      var fd: nat := r;
      assert (s.open - {fd})[fd := open'[fd]] == s.open[fd := open'[fd]];
    }
  }

  /** The state after a duplication, part by part. */
  lemma DupState(s: Sys, oldfd: nat, newfd: int, flags: bv32, target: Option<Handle>, r: int)
    requires Consistent(s) && oldfd in s.open && newfd >= -1 && r != oldfd
    requires r >= 0 && newfd >= 0 ==> r == newfd
    requires r >= 0 && newfd == -1 ==> r !in s.open
    ensures var after := AfterDup(s, oldfd, newfd, flags, target, r);
            if target.None? then after == s
            else
              && after.made == (if r >= 0 then s.made + 1 else s.made) && after.slots == s.slots
              && var k := if r >= 0 && Present(s.open, newfd) then s.kernel - {s.open[newfd].handle} else s.kernel;
                 after.kernel == k[target.value := s.kernel[s.open[oldfd].handle]]
  {
    hide Both;
  }

  class Process {
    const table: Table
    const cache: Cache
    var kernel: Handles
    var made: nat

    ghost predicate Valid()
      reads this, table, table.entries, cache.slots
    {
      table.Valid() && cache.Valid() && table.sequence == made % TWO32 && Consistent(State())
    }

    ghost function State(): Sys
      reads this, table, table.entries, cache.slots
    {
      Sys(table.Map(), kernel, made, cache.slots[..])
    }

    constructor ()
      ensures Valid() && State() == Start() && Sound(State())
      ensures fresh(table) && fresh(table.entries) && fresh(cache.slots)
    {
      table := new Table();
      cache := new Cache();
      kernel, made := map[], 0;
      new;
      StartIsSound();
    }

    method DoOpen(h: Handle, path: Option<Path>, kind: Kind, flags: bv32) returns (r: int)
      requires Valid() && Fresh(kernel, h)
      modifies this, table, table.entries
      ensures Valid() && (table.entries == old(table.entries) || fresh(table.entries))
      ensures NextOpen(old(State()), h, path, kind, flags, r, State())
    {
      hide Open;
      NextStamp(made);
      hide Stamp;
      ghost var s := State();
      r := table.Register(h, kind, flags);
      ghost var e := Entry(h, kind, flags, table.sequence);
      ConsistentAfterInsert(s, r, e, path);
      hide Consistent;
      kernel, made := kernel[h := path], made + 1;
      assert State() == Inserted(s, r, e, path);
    }

    method DoClose(fd: int, closes: bool) returns (r: int)
      requires Valid()
      modifies this, table.entries
      ensures Valid() && NextClose(old(State()), fd, closes, r, State())
    {
      hide Open;
      var there := table.Info(fd);
      r := table.Close(fd, closes);
      if fd != AT_FDCWD && r == 0 {
        kernel := kernel - {there.value.handle};
      }
    }

    method DoLookup(fd: int) returns (answer: Option<Path>)
      requires Valid()
      modifies cache.slots
      ensures Valid() && (State(), answer) == LookedUp(old(State()), fd)
    {
      answer := PathOf(table, cache, kernel, made, fd);
    }

    method DoDup(oldfd: int, newfd: int, flags: bv32, target: Option<Handle>, closes: bool) returns (r: int)
      requires Valid() && Admissible(kernel, DupTo(oldfd, newfd, flags, target, closes))
      modifies this, table, table.entries
      ensures Valid() && (table.entries == old(table.entries) || fresh(table.entries))
      ensures NextDupTo(old(State()), oldfd, newfd, flags, target, closes, r, State())
    {
      hide Both;
      hide Duplicated;
      hide NextDup;
      hide AfterDup;
      hide Open;
      ghost var s := State();
      var source, there := table.Info(oldfd), table.Info(newfd);
      r := table.Dup(oldfd, newfd, flags, target, closes);
      if source.Some? && (flags == 0 || flags == CLOEXEC) && newfd != oldfd {
        DupLeads(s, oldfd, newfd, flags, target, closes, r, table.Map(), table.sequence);
        ConsistentAfterDup(s, oldfd, newfd, flags, target, r);
        DupState(s, oldfd, newfd, flags, target, r);
        if target.Some? {
          var path := kernel[source.value.handle];
          if r >= 0 && there.Some? {
            kernel := kernel - {there.value.handle};
          }
          kernel := kernel[target.value := path];
          made := if r >= 0 then made + 1 else made;
        }
        assert State() == AfterDup(s, oldfd, newfd, flags, target, r);
      }
    }

    method DoDupAbove(oldfd: int, from: nat, flags: bv32, target: Option<Handle>) returns (r: int)
      requires Valid() && Admissible(kernel, DupAbove(oldfd, from, flags, target))
      modifies this, table, table.entries
      ensures Valid() && (table.entries == old(table.entries) || fresh(table.entries))
      ensures NextAbove(old(State()), oldfd, from, flags, target, r, State())
    {
      hide Both;
      hide Open;
      NextStamp(made);
      hide Stamp;
      ghost var s := State();
      var source := table.Info(oldfd);
      if source.None? {
        return -1;
      }
      r := table.DupFrom(oldfd, from, flags, target);
      if target.Some? {
        var path := kernel[source.value.handle];
        ghost var e := Entry(target.value, source.value.kind, Both(source.value.flags, flags), table.sequence);
        ConsistentAfterInsert(s, r, e, path);
        kernel, made := kernel[target.value := path], made + 1;
        assert State() == Inserted(s, r, e, path);
      }
    }

    method Act(a: Action) returns (r: int, answer: Option<Path>)
      requires Valid() && Admissible(kernel, a)
      modifies this, table, table.entries, cache.slots
      ensures Valid() && (table.entries == old(table.entries) || fresh(table.entries))
      ensures Next(old(State()), a, r, answer, State())
    {
      hide NextOpen;
      hide NextClose;
      hide NextDupTo;
      hide NextAbove;
      hide LookedUp;
      r, answer := 0, None;
      match a
      case OpenFile(h, path, kind, flags) => r := DoOpen(h, path, kind, flags);
      case CloseFile(fd, closes) => r := DoClose(fd, closes);
      case DupTo(oldfd, newfd, flags, target, closes) => r := DoDup(oldfd, newfd, flags, target, closes);
      case DupAbove(oldfd, from, flags, target) => r := DoDupAbove(oldfd, from, flags, target);
      case Lookup(fd) => answer := DoLookup(fd);
    }

    /**
     * Any run of any length, as long as the kernel hands out unused handles: the table and the cache make
     * exactly the steps of the state machine. From a sound state, every lookup made before the number of
     * insertions exceeds 2^32 is answered with the path of the handle at the descriptor.
     */
    method Play(actions: seq<Action>) returns (played: nat, ghost events: seq<Event>)
      requires Valid()
      modifies this, table, table.entries, cache.slots
      ensures Valid() && played == |events| <= |actions|
      ensures Run(old(State()), actions[..played], events, State())
      ensures Sound(old(State())) ==>
                forall i | 0 <= i < played && events[i].action.Lookup? && events[i].after.made <= TWO32 ::
                  Consistent(events[i].before) && events[i].answer == TruePath(events[i].before, events[i].action.fd)
      ensures played < |actions| ==> !Admissible(kernel, actions[played])
    {
      hide Next;
      hide Admissible;
      hide Sound;
      hide Run;
      played, events := 0, [];
      NothingYet(State());
      while played < |actions| && Admissible(kernel, actions[played])
        invariant Valid() && (table.entries == old(table.entries) || fresh(table.entries))
        invariant played == |events| <= |actions| && Run(old(State()), actions[..played], events, State())
      {
        ghost var before := State();
        var r, answer := Act(actions[played]);
        ghost var e := Event(actions[played], r, answer, before, State());
        RunSnoc(old(State()), actions[..played], events, before, e);
        assert actions[..played] + [actions[played]] == actions[..played + 1];
        events := events + [e];
        played := played + 1;
      }
      AllTrue(old(State()), actions[..played], events, State());
    }
  }

  lemma NothingYet(s: Sys)
    ensures Run(s, [], [], s)
  {
  }

  lemma AllTrue(first: Sys, actions: seq<Action>, events: seq<Event>, last: Sys)
    requires Run(first, actions, events, last)
    ensures Sound(first) ==>
              forall i | 0 <= i < |events| && events[i].action.Lookup? && events[i].after.made <= TWO32 ::
                Consistent(events[i].before) && events[i].answer == TruePath(events[i].before, events[i].action.fd)
  {
    hide Run;
    hide Sound;
    hide TruePath;
    if Sound(first) {
      forall i | 0 <= i < |events| && events[i].action.Lookup? && events[i].after.made <= TWO32
        ensures Consistent(events[i].before) && events[i].answer == TruePath(events[i].before, events[i].action.fd)
      {
        LookupsTrue(first, actions, events, last, i);
        Steady(events[i].before);
      }
    }
  }
}
