/** The mutex as a state machine: any number of threads, one atomic step of one thread at a time. */
module MutexSteps {

  /** Where a thread is in a call of lock or unlock. */
  datatype Pc =
    | Idle       // in no call
    | Checking   // lock: about to compare the owner with itself
    | Waiting    // lock: about to wait for the kernel mutex
    | Acquired   // lock: about to set the owner
    | Owned      // lock: about to count
    | Releasing  // unlock: about to release the kernel mutex
    | Released   // unlock: about to count down
    | Clearing   // unlock: about to clear the owner

  /**
   * Thread `t`, counted from 1, is at `pcs[t - 1]`. The kernel mutex has a holder, 0 for none, and a
   * recursion depth; `owner` and `count` are the fields beside it.
   */
  datatype Mutex = Mutex(recursive: bool, pcs: seq<Pc>, holder: nat, depth: nat, owner: nat, count: int)

  predicate IsThread(m: Mutex, t: nat) {
    1 <= t <= |m.pcs|
  }

  function At(m: Mutex, t: nat): Pc
    requires IsThread(m, t)
  {
    m.pcs[t - 1]
  }

  function Goto(m: Mutex, t: nat, pc: Pc): Mutex
    requires IsThread(m, t)
  {
    m.(pcs := m.pcs[t - 1 := pc])
  }

  /** What a thread does next: it starts a call, takes the next step of its call, or gives a wait up. */
  datatype Choice = StartLock | StartUnlock | Proceed | GiveUp

  predicate Enabled(m: Mutex, t: nat, c: Choice) {
    && IsThread(m, t)
    && match c
       case StartLock | StartUnlock => At(m, t) == Idle
       case Proceed => At(m, t) != Idle && (At(m, t) == Waiting ==> m.holder == 0 || m.holder == t)
       case GiveUp => At(m, t) == Waiting
  }

  function Step(m: Mutex, t: nat, c: Choice): Mutex
    requires Enabled(m, t, c)
  {
    match c
    case StartLock => Goto(m, t, if m.recursive then Waiting else Checking)
    case StartUnlock => Goto(m, t, Releasing)
    case GiveUp => Goto(m, t, Idle)
    case Proceed =>
      match At(m, t)
      case Checking => Goto(m, t, if m.owner == t then Idle else Waiting)
      case Waiting => Goto(m, t, Acquired).(holder := t, depth := m.depth + 1)
      case Acquired => Goto(m, t, Owned).(owner := t)
      case Owned => Goto(m, t, Idle).(count := m.count + 1)
      case Releasing =>
        if m.holder != t || m.depth == 0 then Goto(m, t, Idle)
        else Goto(m, t, Released).(depth := m.depth - 1, holder := if m.depth == 1 then 0 else t)
      case Released => Goto(m, t, if m.count == 1 then Clearing else Idle).(count := m.count - 1)
      case Clearing => Goto(m, t, Idle).(owner := 0)
      case Idle => m
  }

  function Start(recursive: bool, threads: nat): Mutex {
    Mutex(recursive, seq(threads, _ => Idle), 0, 0, 0, 0)
  }

  // ----- Counting threads -----

  function Count(pcs: seq<Pc>, pc: Pc): nat {
    if pcs == [] then 0 else (if pcs[0] == pc then 1 else 0) + Count(pcs[1..], pc)
  }

  function One(b: bool): int {
    if b then 1 else 0
  }

  lemma {:induction false} CountAfter(pcs: seq<Pc>, i: nat, x: Pc, pc: Pc)
    requires i < |pcs|
    ensures Count(pcs[i := x], pc) == Count(pcs, pc) - One(pcs[i] == pc) + One(x == pc)
  {
    if i > 0 {
      CountAfter(pcs[1..], i - 1, x, pc);
      assert pcs[i := x][1..] == pcs[1..][i - 1 := x];
    } else {
      assert pcs[i := x][1..] == pcs[1..];
    }
  }

  lemma {:induction false} CountIs(pcs: seq<Pc>, pc: Pc)
    ensures (Count(pcs, pc) > 0) <==> exists i :: 0 <= i < |pcs| && pcs[i] == pc
  {
    if pcs != [] {
      CountIs(pcs[1..], pc);
      if i :| 0 <= i < |pcs| && pcs[i] == pc && pcs[0] != pc {
        assert pcs[1..][i - 1] == pc;
      }
      if i :| 0 <= i < |pcs[1..]| && pcs[1..][i] == pc {
        assert pcs[i + 1] == pc;
      }
    }
  }

  /** Threads between acquiring the kernel mutex and counting. */
  function Entering(m: Mutex): nat {
    Count(m.pcs, Acquired) + Count(m.pcs, Owned)
  }

  // ----- The invariant -----

  ghost predicate Inv(m: Mutex) {
    && (m.holder == 0 <==> m.depth == 0) && m.holder <= |m.pcs|
    && m.count == m.depth + Count(m.pcs, Released) - Entering(m)
    && (forall t: nat | IsThread(m, t) && (At(m, t) == Acquired || At(m, t) == Owned) :: m.holder == t)
    && (Entering(m) == if m.holder != 0 && (At(m, m.holder) == Acquired || At(m, m.holder) == Owned) then 1 else 0)
    && (m.owner != 0 ==> m.count > 0 || Count(m.pcs, Owned) > 0 || Count(m.pcs, Clearing) > 0)
  }

  lemma StartInv(recursive: bool, threads: nat)
    ensures Inv(Start(recursive, threads))
  {
    var m := Start(recursive, threads);
    CountIs(m.pcs, Acquired);
    CountIs(m.pcs, Owned);
    CountIs(m.pcs, Released);
  }

  /** How the counts change when one thread moves. */
  lemma Moves(m: Mutex, t: nat, pc: Pc)
    requires IsThread(m, t)
    ensures var m' := Goto(m, t, pc);
            && Count(m'.pcs, Acquired) == Count(m.pcs, Acquired) - One(At(m, t) == Acquired) + One(pc == Acquired)
            && Count(m'.pcs, Owned) == Count(m.pcs, Owned) - One(At(m, t) == Owned) + One(pc == Owned)
            && Count(m'.pcs, Released) == Count(m.pcs, Released) - One(At(m, t) == Released) + One(pc == Released)
            && Count(m'.pcs, Clearing) == Count(m.pcs, Clearing) - One(At(m, t) == Clearing) + One(pc == Clearing)
  {
    CountAfter(m.pcs, t - 1, pc, Acquired);
    CountAfter(m.pcs, t - 1, pc, Owned);
    CountAfter(m.pcs, t - 1, pc, Released);
    CountAfter(m.pcs, t - 1, pc, Clearing);
  }

  lemma StartKeeps(m: Mutex, t: nat, c: Choice)
    requires Inv(m) && Enabled(m, t, c)
    requires c != Proceed || At(m, t) == Checking
    ensures Inv(Step(m, t, c))
  {
    hide Count;
    var m' := Step(m, t, c);
    Moves(m, t, At(m', t));
    assert forall u: nat | IsThread(m, u) && u != t :: At(m', u) == At(m, u);
  }

  lemma LockKeeps(m: Mutex, t: nat, c: Choice)
    requires Inv(m) && Enabled(m, t, c)
    requires c == Proceed && (At(m, t) == Waiting || At(m, t) == Acquired || At(m, t) == Owned)
    ensures Inv(Step(m, t, c))
  {
    hide Count;
    var m' := Step(m, t, c);
    Moves(m, t, At(m', t));
    assert forall u: nat | IsThread(m, u) && u != t :: At(m', u) == At(m, u);
  }

  lemma UnlockKeeps(m: Mutex, t: nat, c: Choice)
    requires Inv(m) && Enabled(m, t, c)
    requires c == Proceed && (At(m, t) == Releasing || At(m, t) == Released || At(m, t) == Clearing)
    ensures Inv(Step(m, t, c))
  {
    hide Count;
    var m' := Step(m, t, c);
    Moves(m, t, At(m', t));
    assert forall u: nat | IsThread(m, u) && u != t :: At(m', u) == At(m, u);
  }

  /** Every step of every thread keeps the invariant. */
  lemma StepKeeps(m: Mutex, t: nat, c: Choice)
    requires Inv(m) && Enabled(m, t, c)
    ensures Inv(Step(m, t, c))
  {
    hide Inv;
    hide Step;
    if c != Proceed || At(m, t) == Checking {
      StartKeeps(m, t, c);
    } else if At(m, t) == Waiting || At(m, t) == Acquired || At(m, t) == Owned {
      LockKeeps(m, t, c);
    } else {
      UnlockKeeps(m, t, c);
    }
  }

  // ----- One thread on its own -----

  /** The thread takes `n` more steps of its call. */
  ghost predicate Reaches(m: Mutex, t: nat, n: nat, m': Mutex)
    decreases n
  {
    if n == 0 then m' == m else Enabled(m, t, Proceed) && Reaches(Step(m, t, Proceed), t, n - 1, m')
  }

  /** A thread that locks a free mutex it does not own holds and owns it once, and has counted it. */
  lemma LockTakes(m: Mutex, t: nat)
    requires IsThread(m, t) && At(m, t) == Idle && m.holder == 0 && m.depth == 0 && m.owner != t
    ensures Reaches(Step(m, t, StartLock), t, if m.recursive then 3 else 4,
                    m.(holder := t, depth := 1, owner := t, count := m.count + 1))
  {
    var m1 := if m.recursive then Step(m, t, StartLock) else Step(Step(m, t, StartLock), t, Proceed);
    assert m1 == Goto(m, t, Waiting);
    var m2 := Step(m1, t, Proceed);
    assert m2 == Goto(m, t, Acquired).(holder := t, depth := 1);
    var m3 := Step(m2, t, Proceed);
    assert m3 == Goto(m, t, Owned).(holder := t, depth := 1, owner := t);
    var m4 := Step(m3, t, Proceed);
    assert m.pcs[t - 1 := Idle] == m.pcs;
    assert m4 == m.(holder := t, depth := 1, owner := t, count := m.count + 1);
    assert Reaches(m3, t, 1, m4) && Reaches(m2, t, 2, m4) && Reaches(m1, t, 3, m4);
  }

  /** A thread that holds a mutex once and unlocks it leaves it free and, the last count gone, without an owner. */
  lemma UnlockFrees(m: Mutex, t: nat)
    requires IsThread(m, t) && At(m, t) == Idle && m.holder == t && m.depth == 1
    ensures var free, last := m.(holder := 0, depth := 0, count := m.count - 1), m.count == 1;
            Reaches(Step(m, t, StartUnlock), t, if last then 3 else 2, if last then free.(owner := 0) else free)
  {
    var m1 := Step(m, t, StartUnlock);
    var m2 := Step(m1, t, Proceed);
    var m3 := Step(m2, t, Proceed);
    assert m2 == Goto(m, t, Released).(holder := 0, depth := 0);
    assert m.pcs[t - 1 := Idle] == m.pcs;
    if m.count == 1 {
      var m4 := Step(m3, t, Proceed);
      assert m4 == m.(holder := 0, depth := 0, count := m.count - 1, owner := 0);
      assert Reaches(m4, t, 0, m4) && Reaches(m3, t, 1, m4) && Reaches(m2, t, 2, m4);
    } else {
      assert Reaches(m2, t, 1, m3);
    }
  }

  /** A thread that asks again for a non-recursive mutex it owns is refused, and nothing changes. */
  lemma LockRefuses(m: Mutex, t: nat)
    requires IsThread(m, t) && At(m, t) == Idle && m.owner == t && !m.recursive
    ensures Reaches(Step(m, t, StartLock), t, 1, m)
  {
    assert m.pcs[t - 1 := Idle] == m.pcs;
    var m1 := Step(m, t, StartLock);
    assert Step(m1, t, Proceed) == m;
    assert Reaches(m, t, 0, m);
  }

  // ----- Whole runs -----

  datatype Move = Move(t: nat, c: Choice)

  /** The moves, one after the other, lead from one state to the other. */
  predicate Run(first: Mutex, moves: seq<Move>, last: Mutex)
    decreases |moves|
  {
    if moves == [] then first == last
    else
      && Enabled(first, moves[0].t, moves[0].c)
      && Run(Step(first, moves[0].t, moves[0].c), moves[1..], last)
  }

  lemma {:induction false} RunKeeps(first: Mutex, moves: seq<Move>, last: Mutex)
    requires Inv(first) && Run(first, moves, last)
    ensures Inv(last)
    decreases |moves|
  {
    hide Inv;
    hide Step;
    if moves != [] {
      StepKeeps(first, moves[0].t, moves[0].c);
      RunKeeps(Step(first, moves[0].t, moves[0].c), moves[1..], last);
    }
  }

  predicate Quiet(m: Mutex) {
    forall i | 0 <= i < |m.pcs| :: m.pcs[i] == Idle
  }

  /**
   * For any number of threads and any interleaving: the count is the kernel's depth, plus the threads
   * that have released and not yet counted down, less those that have acquired and not yet counted up.
   * It never goes below zero, and counting down finds it above zero. When no call is in progress it is
   * the depth, and if the mutex is free besides, it has no owner.
   */
  lemma EveryRun(recursive: bool, threads: nat, moves: seq<Move>, m: Mutex)
    requires Run(Start(recursive, threads), moves, m)
    ensures m.count == m.depth + Count(m.pcs, Released) - Entering(m) && m.count >= 0
    ensures forall t: nat | IsThread(m, t) && At(m, t) == Released :: m.count >= 1
    ensures Quiet(m) ==> m.count == m.depth && (m.holder == 0 ==> m.count == 0 && m.owner == 0)
  {
    StartInv(recursive, threads);
    RunKeeps(Start(recursive, threads), moves, m);
    CountIs(m.pcs, Released);
    CountIs(m.pcs, Owned);
    CountIs(m.pcs, Clearing);
    hide Count;
  }

  // ----- When the owner is right -----

  /** No thread is between releasing the kernel mutex and the end of its unlock. */
  predicate Settled(m: Mutex) {
    forall i | 0 <= i < |m.pcs| :: m.pcs[i] != Released && m.pcs[i] != Clearing
  }

  /** The mutex is only acquired when no unlock is unfinished. */
  predicate Orderly(first: Mutex, moves: seq<Move>)
    decreases |moves|
  {
    moves == [] ||
    (&& Enabled(first, moves[0].t, moves[0].c)
     && (moves[0].c == Proceed && At(first, moves[0].t) == Waiting ==> Settled(first))
     && Orderly(Step(first, moves[0].t, moves[0].c), moves[1..]))
  }

  ghost predicate OwnerInv(m: Mutex) {
    && (m.holder == 0 <==> m.depth == 0) && m.holder <= |m.pcs|
    && (forall t: nat | IsThread(m, t) && (At(m, t) == Acquired || At(m, t) == Owned) :: m.holder == t)
    && (forall t: nat | IsThread(m, t) && At(m, t) == Released :: m.owner == t && (m.holder == 0 || m.holder == t))
    && (forall t: nat | IsThread(m, t) && At(m, t) == Clearing :: m.owner == t && m.holder == 0)
    && (m.holder == 0 && Settled(m) ==> m.owner == 0)
    && (m.holder != 0 && At(m, m.holder) != Acquired ==> m.owner == m.holder)
    && (m.holder != 0 && At(m, m.holder) == Acquired ==> m.owner == 0 || m.owner == m.holder)
    && (!m.recursive ==> m.depth <= 1 && forall t: nat | IsThread(m, t) && At(m, t) == Waiting :: m.holder != t)
  }

  lemma {:induction false} CountOne(pcs: seq<Pc>, i: nat, pc: Pc)
    requires i < |pcs| && pcs[i] == pc && forall j | 0 <= j < |pcs| && j != i :: pcs[j] != pc
    ensures Count(pcs, pc) == 1
  {
    if i == 0 {
      CountIs(pcs[1..], pc);
    } else {
      CountOne(pcs[1..], i - 1, pc);
    }
  }

  /** Counting down reaches zero exactly when the kernel mutex has become free. */
  lemma LastOut(m: Mutex, t: nat)
    requires Inv(m) && OwnerInv(m) && IsThread(m, t) && At(m, t) == Released
    ensures m.count == m.depth + 1
  {
    forall j | 0 <= j < |m.pcs| && j != t - 1 ensures m.pcs[j] != Released {
      assert At(m, j + 1) == m.pcs[j];
    }
    CountOne(m.pcs, t - 1, Released);
    hide Count;
  }

  lemma StartKeepsOwner(m: Mutex, t: nat, c: Choice)
    requires OwnerInv(m) && Enabled(m, t, c)
    requires c != Proceed
    ensures OwnerInv(Step(m, t, c))
  {
    var m' := Step(m, t, c);
    assert forall u: nat | IsThread(m, u) && u != t :: At(m', u) == At(m, u);
    if Settled(m') {
      SettledAfter(m, m', t);
    }
  }

  lemma LockKeepsOwner(m: Mutex, t: nat, c: Choice)
    requires OwnerInv(m) && Enabled(m, t, c)
    requires c == Proceed && (At(m, t) == Checking || At(m, t) == Waiting || At(m, t) == Acquired || At(m, t) == Owned)
    requires At(m, t) == Waiting ==> Settled(m)
    ensures OwnerInv(Step(m, t, c))
  {
    var m' := Step(m, t, c);
    assert forall u: nat | IsThread(m, u) && u != t :: At(m', u) == At(m, u);
    if Settled(m') {
      SettledAfter(m, m', t);
    }
  }

  lemma UnlockKeepsOwner(m: Mutex, t: nat, c: Choice)
    requires OwnerInv(m) && Enabled(m, t, c)
    requires c == Proceed && (At(m, t) == Releasing || At(m, t) == Released || At(m, t) == Clearing)
    requires At(m, t) == Released ==> m.count == m.depth + 1
    ensures OwnerInv(Step(m, t, c))
  {
    var m' := Step(m, t, c);
    assert forall u: nat | IsThread(m, u) && u != t :: At(m', u) == At(m, u);
    assert Settled(m') ==> m'.pcs[t - 1] != Released && m'.pcs[t - 1] != Clearing;
    if At(m, t) == Releasing && Settled(m') {
      SettledAfter(m, m', t);
    }
  }

  lemma StepKeepsOwner(m: Mutex, t: nat, c: Choice)
    requires Inv(m) && OwnerInv(m) && Enabled(m, t, c)
    requires c == Proceed && At(m, t) == Waiting ==> Settled(m)
    ensures OwnerInv(Step(m, t, c))
  {
    hide OwnerInv;
    hide Inv;
    if c != Proceed {
      StartKeepsOwner(m, t, c);
    } else if At(m, t) == Releasing || At(m, t) == Released || At(m, t) == Clearing {
      if At(m, t) == Released {
        LastOut(m, t);
      }
      UnlockKeepsOwner(m, t, c);
    } else {
      LockKeepsOwner(m, t, c);
    }
  }

  lemma SettledAfter(m: Mutex, m': Mutex, t: nat)
    requires IsThread(m, t) && |m'.pcs| == |m.pcs|
    requires forall u: nat | IsThread(m, u) && u != t :: At(m', u) == At(m, u)
    requires At(m, t) != Released && At(m, t) != Clearing && Settled(m')
    ensures Settled(m)
  {
    forall i | 0 <= i < |m.pcs| ensures m.pcs[i] != Released && m.pcs[i] != Clearing {
      assert At(m, i + 1) == m.pcs[i] && At(m', i + 1) == m'.pcs[i];
    }
  }

  lemma {:induction false} OrderlyKeeps(first: Mutex, moves: seq<Move>, last: Mutex)
    requires Inv(first) && OwnerInv(first) && Run(first, moves, last) && Orderly(first, moves)
    ensures OwnerInv(last)
    decreases |moves|
  {
    hide Inv;
    hide OwnerInv;
    hide Step;
    if moves != [] {
      StepKeeps(first, moves[0].t, moves[0].c);
      StepKeepsOwner(first, moves[0].t, moves[0].c);
      OrderlyKeeps(Step(first, moves[0].t, moves[0].c), moves[1..], last);
    }
  }

  /**
   * In an orderly run the deadlock check is right both ways, and a mutex that is not recursive is
   * never acquired twice by its holder.
   */
  lemma OrderlyRun(recursive: bool, threads: nat, moves: seq<Move>, m: Mutex)
    requires Run(Start(recursive, threads), moves, m) && Orderly(Start(recursive, threads), moves)
    ensures ChecksRight(m)
    ensures !recursive ==> m.depth <= 1
  {
    var first := Start(recursive, threads);
    StartInv(recursive, threads);
    OrderlyKeeps(first, moves, m);
    KeepsType(first, moves, m);
    OwnerDecides(m);
  }

  /** Every thread about to make the deadlock check is answered rightly: it is refused if and only if it holds the mutex. */
  ghost predicate ChecksRight(m: Mutex) {
    forall t: nat | IsThread(m, t) && At(m, t) == Checking :: m.owner == t <==> m.holder == t
  }

  lemma OwnerDecides(m: Mutex)
    requires OwnerInv(m)
    ensures ChecksRight(m)
  {
    assert forall i | 0 <= i < |m.pcs| :: m.pcs[i] == At(m, i + 1);
  }

  lemma {:induction false} KeepsType(first: Mutex, moves: seq<Move>, last: Mutex)
    requires Run(first, moves, last)
    ensures last.recursive == first.recursive && |last.pcs| == |first.pcs|
    decreases |moves|
  {
    if moves != [] {
      KeepsType(Step(first, moves[0].t, moves[0].c), moves[1..], last);
    }
  }

  // ----- Runs in which it is wrong -----

  lemma {:induction false} Extend(first: Mutex, moves: seq<Move>, m: Mutex, t: nat, c: Choice)
    requires Run(first, moves, m) && Enabled(m, t, c)
    ensures Run(first, moves + [Move(t, c)], Step(m, t, c))
    decreases |moves|
  {
    hide Step;
    var more := moves + [Move(t, c)];
    if moves == [] {
      assert more[1..] == [];
    } else {
      assert more[0] == moves[0] && more[1..] == moves[1..] + [Move(t, c)];
      Extend(Step(first, moves[0].t, moves[0].c), moves[1..], m, t, c);
    }
  }

  /** A thread locks a free mutex without being disturbed. */
  lemma Locks(first: Mutex, moves: seq<Move>, m: Mutex, t: nat) returns (more: seq<Move>)
    requires Run(first, moves, m) && !m.recursive && IsThread(m, t) && At(m, t) == Idle
    requires m.owner != t && (m.holder == 0 || m.holder == t)
    ensures Run(first, more, m.(holder := t, depth := m.depth + 1, owner := t, count := m.count + 1))
  {
    hide Run;
    Extend(first, moves, m, t, StartLock);
    var m1, s1 := Step(m, t, StartLock), moves + [Move(t, StartLock)];
    Extend(first, s1, m1, t, Proceed);
    var m2, s2 := Step(m1, t, Proceed), s1 + [Move(t, Proceed)];
    Extend(first, s2, m2, t, Proceed);
    var m3, s3 := Step(m2, t, Proceed), s2 + [Move(t, Proceed)];
    Extend(first, s3, m3, t, Proceed);
    var m4, s4 := Step(m3, t, Proceed), s3 + [Move(t, Proceed)];
    Extend(first, s4, m4, t, Proceed);
    more := s4 + [Move(t, Proceed)];
    assert Step(m4, t, Proceed).pcs == m.pcs;
  }

  /** A holder begins to unlock: it has released the kernel mutex and not yet counted down. */
  lemma Releases(first: Mutex, moves: seq<Move>, m: Mutex, t: nat) returns (more: seq<Move>)
    requires Run(first, moves, m) && IsThread(m, t) && At(m, t) == Idle && m.holder == t && m.depth == 1
    ensures Run(first, more, m.(pcs := m.pcs[t - 1 := Released], holder := 0, depth := 0))
  {
    hide Run;
    Extend(first, moves, m, t, StartUnlock);
    var m1, s1 := Step(m, t, StartUnlock), moves + [Move(t, StartUnlock)];
    Extend(first, s1, m1, t, Proceed);
    more := s1 + [Move(t, Proceed)];
    assert Step(m1, t, Proceed).pcs == m.pcs[t - 1 := Released];
  }

  lemma Proceeds(first: Mutex, moves: seq<Move>, m: Mutex, t: nat) returns (more: seq<Move>)
    requires Run(first, moves, m) && Enabled(m, t, Proceed)
    ensures Run(first, more, Step(m, t, Proceed))
  {
    Extend(first, moves, m, t, Proceed);
    more := moves + [Move(t, Proceed)];
  }

  /**
   * An unlock that clears the owner late makes the check miss: the second thread holds the mutex, which
   * is not recursive, locks it again and gets it.
   */
  lemma CheckMisses() returns (moves: seq<Move>, m: Mutex)
    ensures Run(Start(false, 2), moves, m) && !m.recursive && m.holder == 2 && m.depth == 2
  {
    hide Run;
    var first := Start(false, 2);
    assert Run(first, [], first) by { NoMoves(first); }
    moves := Locks(first, [], first, 1);
    var m1 := first.(holder := 1, depth := 1, owner := 1, count := 1);
    moves := Releases(first, moves, m1, 1);
    var m2 := m1.(pcs := m1.pcs[0 := Released], holder := 0, depth := 0);
    moves := Proceeds(first, moves, m2, 1);
    var m3 := Step(m2, 1, Proceed);
    assert m3.pcs[0] == Clearing && m3.pcs[1] == Idle;
    moves := Locks(first, moves, m3, 2);
    var m4 := m3.(holder := 2, depth := 1, owner := 2, count := 1);
    moves := Proceeds(first, moves, m4, 1);
    var m5 := Step(m4, 1, Proceed);
    assert m5.owner == 0 && m5.pcs[1] == Idle;
    moves := Locks(first, moves, m5, 2);
    m := m5.(holder := 2, depth := 2, owner := 2, count := 2);
  }

  lemma NoMoves(m: Mutex)
    ensures Run(m, [], m) && Orderly(m, [])
  {
  }

  /**
   * An unlock that counts down late makes the check err the other way: the second thread has locked and
   * unlocked, the mutex is free, and its next lock is refused as a deadlock.
   */
  lemma CheckErrs() returns (moves: seq<Move>, m: Mutex)
    ensures Run(Start(false, 2), moves, m) && m.holder == 0
    ensures IsThread(m, 2) && At(m, 2) == Checking && m.owner == 2
  {
    hide Run;
    var first := Start(false, 2);
    assert Run(first, [], first) by { NoMoves(first); }
    moves := Locks(first, [], first, 1);
    var m1 := first.(holder := 1, depth := 1, owner := 1, count := 1);
    moves := Releases(first, moves, m1, 1);
    var m2 := m1.(pcs := m1.pcs[0 := Released], holder := 0, depth := 0);
    assert m2.pcs[1] == Idle;
    moves := Locks(first, moves, m2, 2);
    var m3 := m2.(holder := 2, depth := 1, owner := 2, count := 2);
    moves := Releases(first, moves, m3, 2);
    var m4 := m3.(pcs := m3.pcs[1 := Released], holder := 0, depth := 0);
    moves := Proceeds(first, moves, m4, 2);
    var m5 := Step(m4, 2, Proceed);
    assert m5.pcs[1] == Idle;
    Extend(first, moves, m5, 2, StartLock);
    moves := moves + [Move(2, StartLock)];
    m := Step(m5, 2, StartLock);
  }

  // ----- The exact condition -----

  /** Prolongs a run that stays orderly. */
  lemma {:induction false} Continue(first: Mutex, moves: seq<Move>, m: Mutex, t: nat, c: Choice)
    requires Run(first, moves, m) && Orderly(first, moves) && Enabled(m, t, c)
    requires c == Proceed && At(m, t) == Waiting ==> Settled(m)
    ensures var more := moves + [Move(t, c)];
            Run(first, more, Step(m, t, c)) && Orderly(first, more)
    decreases |moves|
  {
    hide Step;
    var more := moves + [Move(t, c)];
    if moves == [] {
      assert more[1..] == [];
    } else {
      assert more[0] == moves[0] && more[1..] == moves[1..] + [Move(t, c)];
      Continue(Step(first, moves[0].t, moves[0].c), moves[1..], m, t, c);
    }
  }

  /** A thread that has just acquired finishes its lock: it sets the owner and counts. */
  lemma Enters(first: Mutex, moves: seq<Move>, m: Mutex, v: nat) returns (more: seq<Move>)
    requires Run(first, moves, m) && Orderly(first, moves) && IsThread(m, v) && At(m, v) == Acquired
    ensures Run(first, more, Goto(m, v, Idle).(owner := v, count := m.count + 1)) && Orderly(first, more)
  {
    hide Run;
    hide Orderly;
    Continue(first, moves, m, v, Proceed);
    var m1, s1 := Step(m, v, Proceed), moves + [Move(v, Proceed)];
    Continue(first, s1, m1, v, Proceed);
    more := s1 + [Move(v, Proceed)];
    assert Step(m1, v, Proceed).pcs == m.pcs[v - 1 := Idle];
  }

  /** After an owner cleared late the new holder is let through its own check. */
  lemma ClearedLate(m: Mutex, v: nat, u: nat) returns (more: seq<Move>, last: Mutex)
    requires !m.recursive && IsThread(m, v) && IsThread(m, u) && u != v && m.holder == v
    requires At(m, v) == Acquired && At(m, u) == Clearing
    ensures Run(m, more, last) && Orderly(m, more) && !ChecksRight(last)
  {
    hide Run;
    hide Orderly;
    assert Run(m, [], m) && Orderly(m, []) by { NoMoves(m); }
    more := Enters(m, [], m, v);
    var m1 := Goto(m, v, Idle).(owner := v, count := m.count + 1);
    assert At(m1, u) == Clearing && At(m1, v) == Idle;
    Continue(m, more, m1, u, Proceed);
    var m2, s2 := Step(m1, u, Proceed), more + [Move(u, Proceed)];
    assert At(m2, v) == Idle && m2.owner == 0 && m2.holder == v;
    Continue(m, s2, m2, v, StartLock);
    more, last := s2 + [Move(v, StartLock)], Step(m2, v, StartLock);
    assert At(last, v) == Checking;
  }

  /** A count left over from an unfinished unlock keeps the owner of a mutex that is free. */
  lemma CountedLate(m: Mutex, v: nat) returns (more: seq<Move>, last: Mutex)
    requires !m.recursive && IsThread(m, v) && m.holder == v && m.depth == 1 && m.count >= 1
    requires At(m, v) == Acquired
    ensures Run(m, more, last) && Orderly(m, more) && !ChecksRight(last)
  {
    hide Run;
    hide Orderly;
    assert Run(m, [], m) && Orderly(m, []) by { NoMoves(m); }
    more := Enters(m, [], m, v);
    var m1 := Goto(m, v, Idle).(owner := v, count := m.count + 1);
    Continue(m, more, m1, v, StartUnlock);
    var m2, s2 := Step(m1, v, StartUnlock), more + [Move(v, StartUnlock)];
    Continue(m, s2, m2, v, Proceed);
    var m3, s3 := Step(m2, v, Proceed), s2 + [Move(v, Proceed)];
    Continue(m, s3, m3, v, Proceed);
    var m4, s4 := Step(m3, v, Proceed), s3 + [Move(v, Proceed)];
    assert At(m4, v) == Idle && m4.owner == v && m4.holder == 0;
    Continue(m, s4, m4, v, StartLock);
    more, last := s4 + [Move(v, StartLock)], Step(m4, v, StartLock);
    assert At(last, v) == Checking;
  }

  /**
   * From any reachable state: acquiring a free mutex that is not recursive while an unlock is unfinished
   * can be continued, with no further acquisition, to a check that is answered wrongly.
   */
  lemma UnsettledBreaks(m: Mutex, v: nat) returns (more: seq<Move>, last: Mutex)
    requires Inv(m) && !m.recursive && m.holder == 0 && !Settled(m)
    requires IsThread(m, v) && At(m, v) == Waiting
    ensures var m' := Step(m, v, Proceed);
            Run(m', more, last) && Orderly(m', more) && !ChecksRight(last)
  {
    var i :| 0 <= i < |m.pcs| && (m.pcs[i] == Released || m.pcs[i] == Clearing);
    var m' := Step(m, v, Proceed);
    assert At(m, i + 1) == m.pcs[i];
    if m.pcs[i] == Clearing {
      more, last := ClearedLate(m', v, i + 1);
    } else {
      CountIs(m.pcs, Released);
      hide Count;
      more, last := CountedLate(m', v);
    }
  }

  /** Whatever happens next in an orderly way, every deadlock check is answered rightly. */
  ghost predicate StaysRight(m: Mutex) {
    forall more: seq<Move>, last: Mutex | Run(m, more, last) && Orderly(m, more) :: ChecksRight(last)
  }

  /**
   * The exact condition: after an orderly run, an acquisition of a free mutex that is not recursive keeps
   * every later check right if and only if no unlock is unfinished at that moment.
   */
  lemma AcquireSafely(threads: nat, moves: seq<Move>, m: Mutex, v: nat)
    requires Run(Start(false, threads), moves, m) && Orderly(Start(false, threads), moves)
    requires IsThread(m, v) && At(m, v) == Waiting && m.holder == 0
    ensures StaysRight(Step(m, v, Proceed)) <==> Settled(m)
  {
    var first, m' := Start(false, threads), Step(m, v, Proceed);
    StartInv(false, threads);
    RunKeeps(first, moves, m);
    OrderlyKeeps(first, moves, m);
    KeepsType(first, moves, m);
    hide Run;
    hide Orderly;
    hide Inv;
    hide OwnerInv;
    if Settled(m) {
      StepKeeps(m, v, Proceed);
      StepKeepsOwner(m, v, Proceed);
      forall more: seq<Move>, last: Mutex | Run(m', more, last) && Orderly(m', more) ensures ChecksRight(last) {
        OrderlyKeeps(m', more, last);
        OwnerDecides(last);
      }
    } else {
      var more, last := UnsettledBreaks(m, v);
      assert Run(m', more, last) && Orderly(m', more) && !ChecksRight(last);
    }
  }
}
