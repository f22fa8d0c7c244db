/** What getopt does to the order of the operands, against a scan that passes over them and moves nothing. */
module OperandOrder {
  import opened Basics
  import opened Getopt

  // ----- The reference: passing over operands -----

  /** One call that passes over operands instead of moving them; also says which it passed over. */
  function SkipNext(c: Setup, s: State): (State, Answer, seq<string>)
    requires Inv(c, s)
  {
    if s.optind == |s.argv| then (s.(index := 0), Answer(-1, None), [])
    else if s.index > 0 || IsOption(s.argv[s.optind]) then
      var (s', a) := Take(c, s);
      (s', a, [])
    else
      var s0 := s.(long := false);
      if c.stopAtFirst then (s0, Answer(-1, None), [])
      else if c.assignToOne then
        (s0.(optind := s.optind + 1, optarg := Some(s.argv[s.optind])), Answer(1, None), [])
      else
        var f := FirstOption(s.argv, s.optind);
        if f == |s.argv| then (s0, Answer(-1, None), [])
        else
          var (s', a) := Take(c, s0.(optind := f));
          (s', a, s.argv[s.optind..f])
  }

  /** Nothing has been moved behind the exchange mark. */
  predicate Unmoved(s: State) {
    s.exchange == |s.argv|
  }

  lemma SkipKeeps(c: Setup, s: State)
    requires Inv(c, s) && Unmoved(s)
    ensures var (s', a, early) := SkipNext(c, s);
            && s'.argv == s.argv && s'.exchange == s.exchange
            && (Goes(a) ==> Inv(c, s') && (s'.optind > s.optind || (s'.optind == s.optind && s'.index > s.index)))
  {
    hide Take;
    TakeExchange(c, s);
    if s.optind < |s.argv| {
      if s.index > 0 || IsOption(s.argv[s.optind]) {
        TakeKeeps(c, s);
      } else if !c.stopAtFirst && !c.assignToOne {
        var f := FirstOption(s.argv, s.optind);
        if f < |s.argv| {
          var s0 := s.(long := false, optind := f);
          TakeKeeps(c, s0);
          TakeExchange(c, s0);
        }
      }
    }
  }

  lemma TakeExchange(c: Setup, s: State)
    requires Inv(c, s)
    ensures s.optind < |s.argv| && IsOption(s.argv[s.optind]) ==> Take(c, s).0.exchange == s.exchange
  {
    hide Declared;
    hide IndexOf;
    hide FindLong;
  }

  /** The last state, the answers, and the operands passed over, of calling until -1. */
  function SkipRun(c: Setup, s: State): (State, seq<int>, seq<string>)
    requires Inv(c, s) && Unmoved(s)
    decreases |s.argv| - s.optind, if s.index == 0 then 1 else 0,
              if s.index == 0 then 0 else |s.argv[s.optind]| - s.index
  {
    SkipKeeps(c, s);
    var (s', a, early) := SkipNext(c, s);
    if !Goes(a) then (s', [], early)
    else
      var (last, answers, more) := SkipRun(c, s');
      (last, [a.r] + answers, early + more)
  }

  // ----- Moving refines passing over -----

  /** The arguments not yet looked at, and those moved behind the exchange mark. */
  function Pending(s: State): seq<string>
    requires s.optind <= s.exchange <= |s.argv|
  {
    s.argv[s.optind..s.exchange]
  }

  function Moved(s: State): seq<string>
    requires 0 <= s.exchange <= |s.argv|
  {
    s.argv[s.exchange..]
  }

  /** `k` has the same arguments before it as `r`, without the ones that were moved. */
  ghost predicate Same(r: State, k: State) {
    && r.optind <= r.exchange <= |r.argv| && k.optind <= |k.argv| && Unmoved(k)
    && Pending(r) == k.argv[k.optind..]
    && r.index == k.index && r.optarg == k.optarg && r.optopt == k.optopt
  }

  /** The two states have moved on by as much, and agree in all else. */
  ghost predicate InStep(r: State, r': State, k: State, k': State) {
    && r'.argv == r.argv && r'.exchange == r.exchange && k'.argv == k.argv && k'.exchange == k.exchange
    && r'.optind >= r.optind && k'.optind - k.optind == r'.optind - r.optind && r'.optind <= r.exchange
    && r'.index == k'.index && r'.optarg == k'.optarg && r'.optopt == k'.optopt
  }

  /** What is read at optind is the same, and so is what follows it. */
  lemma SameArgument(r: State, k: State)
    requires Same(r, k) && r.optind < r.exchange
    ensures k.optind < |k.argv| && r.argv[r.optind] == k.argv[k.optind] && Following(r) == Following(k)
    ensures Following(r).Some? ==> r.optind + 2 <= r.exchange
  {
    assert Pending(r)[0] == k.argv[k.optind..][0];
    if r.optind + 1 < r.exchange {
      assert Pending(r)[1] == k.argv[k.optind..][1];
    }
  }

  lemma ShortInStep(c: Setup, r: State, k: State)
    requires Same(r, k) && r.optind < r.exchange && 0 < r.index < |r.argv[r.optind]|
    ensures k.optind < |k.argv| && k.index < |k.argv[k.optind]|
    ensures Short(c, r).1 == Short(c, k).1 && InStep(r, Short(c, r).0, k, Short(c, k).0)
  {
    SameArgument(r, k);
    hide Declared;
    hide Following;
    hide Pending;
  }

  lemma LongInStep(c: Setup, r: State, k: State)
    requires Same(r, k) && r.optind < r.exchange && r.index <= |r.argv[r.optind]|
    ensures k.optind < |k.argv| && k.index <= |k.argv[k.optind]|
    ensures Long(c, r).1 == Long(c, k).1 && InStep(r, Long(c, r).0, k, Long(c, k).0)
  {
    SameArgument(r, k);
    hide IndexOf;
    hide FindLong;
    hide Following;
    hide Pending;
  }

  lemma TakeInStep(c: Setup, r: State, k: State)
    requires Inv(c, r) && Inv(c, k) && Same(r, k) && r.optind < |r.argv| && IsOption(r.argv[r.optind])
    ensures k.optind < |k.argv| && IsOption(k.argv[k.optind])
    ensures Take(c, r).1 == Take(c, k).1 && InStep(r, Take(c, r).0, k, Take(c, k).0)
  {
    hide Short;
    hide Long;
    assert r.optind < r.exchange;
    SameArgument(r, k);
    var arg := r.argv[r.optind];
    if r.index > 0 {
      ShortInStep(c, r, k);
    } else if arg[1] != '-' {
      ShortInStep(c, r.(index := 1, long := false), k.(index := 1, long := false));
    } else if arg != "--" {
      LongInStep(c, r.(index := 2, long := true), k.(index := 2, long := true));
    }
  }

  lemma InStepIsSame(r: State, r': State, k: State, k': State)
    requires Same(r, k) && InStep(r, r', k, k')
    ensures Same(r', k') && Moved(r') == Moved(r)
    ensures k.argv[k.optind..k'.optind] == r'.argv[r.optind..r'.optind]
  {
    var n := r'.optind - r.optind;
    assert Pending(r') == Pending(r)[n..] == k.argv[k.optind..][n..] == k.argv[k'.optind..];
    assert r'.argv[r.optind..r'.optind] == Pending(r)[..n] == k.argv[k.optind..][..n] == k.argv[k.optind..k'.optind];
  }

  /** The next option is as far away in both. */
  lemma SameFirst(c: Setup, r: State, k: State)
    requires Inv(c, r) && Same(r, k)
    ensures var f, g := FirstOption(r.argv, r.optind), FirstOption(k.argv, k.optind);
            && (f == |r.argv| <==> g == |k.argv|)
            && (f < |r.argv| ==> f < r.exchange && g - k.optind == f - r.optind)
  {
    var f, g := FirstOption(r.argv, r.optind), FirstOption(k.argv, k.optind);
    hide FirstOption;
    assert forall x | 0 <= x < |Pending(r)| :: Pending(r)[x] == r.argv[r.optind + x] == k.argv[k.optind + x];
    if f < |r.argv| {
      assert r.argv[f] == Pending(r)[f - r.optind];
    }
    if g < |k.argv| {
      assert k.argv[g] == Pending(r)[g - k.optind];
    }
  }

  /** Moving a block of operands behind everything, or passing over it. */
  lemma MoveIsSkip(r: State, k: State, f: nat)
    requires Same(r, k) && r.optind <= f <= r.exchange
    ensures var r' := r.(argv := MoveToEnd(r.argv, r.optind, f), exchange := r.exchange - (f - r.optind));
            && Same(r', k.(optind := k.optind + (f - r.optind)))
            && Moved(r') == Moved(r) + r.argv[r.optind..f]
    ensures r.argv[r.optind..f] == k.argv[k.optind..k.optind + (f - r.optind)]
  {
    var i, j, e, n := r.optind, k.optind, r.exchange, f - r.optind;
    MoveSlices(r.argv, i, f, e);
    hide MoveToEnd;
    Sliced(r.argv, i, e, k.argv, j, n);
  }

  lemma Sliced(a: seq<string>, i: nat, e: nat, b: seq<string>, j: nat, n: nat)
    requires i + n <= e <= |a| && j <= |b| && a[i..e] == b[j..]
    ensures j + n <= |b| && a[i + n..e] == b[j + n..] && a[i..i + n] == b[j..j + n]
  {
    assert |a[i..e]| == |b[j..]|;
    assert a[i + n..e] == a[i..e][n..] == b[j..][n..] == b[j + n..];
    assert a[i..i + n] == a[i..e][..n] == b[j..][..n] == b[j..j + n];
  }

  lemma MoveSlices(argv: seq<string>, i: nat, f: nat, e: nat)
    requires i <= f <= e <= |argv|
    ensures var argv', e' := MoveToEnd(argv, i, f), e - (f - i);
            argv'[i..e'] == argv[f..e] && argv'[e'..] == argv[e..] + argv[i..f]
  {
    var argv', e' := MoveToEnd(argv, i, f), e - (f - i);
    assert forall x | i <= x < e' :: argv'[x] == argv[x + (f - i)];
  }

  /** One call: the same answer, and what is passed over by one is moved by the other. */
  ghost predicate Refines(r: State, r': State, k: State, k': State, early: seq<string>)
    requires Same(r, k)
  {
    && Same(r', k') && k'.argv == k.argv && Moved(r') == Moved(r) + early
    && r.optind <= r'.optind && k.optind <= k'.optind
    && k.argv[k.optind..k'.optind] == early + r'.argv[r.optind..r'.optind]
  }

  lemma TakeRefines(c: Setup, r: State, k: State)
    requires Inv(c, r) && Inv(c, k) && Same(r, k) && r.optind < |r.argv| && IsOption(r.argv[r.optind])
    ensures k.optind < |k.argv| && IsOption(k.argv[k.optind])
    ensures Take(c, r).1 == Take(c, k).1 && Refines(r, Take(c, r).0, k, Take(c, k).0, [])
  {
    hide Take;
    TakeInStep(c, r, k);
    InStepIsSame(r, Take(c, r).0, k, Take(c, k).0);
  }

  lemma SkipRefines(c: Setup, r: State, k: State, f: nat)
    requires Inv(c, r) && Inv(c, k) && Same(r, k) && r.index == 0 && !c.assignToOne
    requires r.optind <= f == FirstOption(r.argv, r.optind) < |r.argv| && !r.long
    ensures var r1 := r.(argv := MoveToEnd(r.argv, r.optind, f), exchange := r.exchange - (f - r.optind));
            var k1 := k.(optind := k.optind + (f - r.optind));
            && r1.optind < |r1.argv| && IsOption(r1.argv[r1.optind]) && k1.optind < |k1.argv| && IsOption(k1.argv[k1.optind])
            && Take(c, r1).1 == Take(c, k1).1
            && Refines(r, Take(c, r1).0, k, Take(c, k1).0, r.argv[r.optind..f])
            && k1.optind == FirstOption(k.argv, k.optind) && r.argv[r.optind..f] == k.argv[k.optind..k1.optind]
  {
    hide Take;
    SameFirst(c, r, k);
    MoveKeepsInv(c, r, f);
    MoveIsSkip(r, k, f);
    hide FirstOption;
    hide MoveToEnd;
    hide Pending;
    hide Moved;
    var r1 := r.(argv := MoveToEnd(r.argv, r.optind, f), exchange := r.exchange - (f - r.optind));
    var k1 := k.(optind := k.optind + (f - r.optind));
    TakeRefines(c, r1, k1);
    RefinesBehind(r, r1, Take(c, r1).0, k, k1, Take(c, k1).0, r.argv[r.optind..f]);
  }

  lemma RefinesBehind(r: State, r1: State, r': State, k: State, k1: State, k': State, block: seq<string>)
    requires Same(r, k) && Same(r1, k1) && Refines(r1, r', k1, k', []) && r1.optind == r.optind
    requires k1.argv == k.argv && k.optind <= k1.optind && k.argv[k.optind..k1.optind] == block
    requires Moved(r1) == Moved(r) + block
    ensures Refines(r, r', k, k', block)
  {
    hide Pending;
    hide Moved;
    var taken := r'.argv[r.optind..r'.optind];
    assert k.argv[k.optind..k'.optind] == k.argv[k.optind..k1.optind] + k.argv[k1.optind..k'.optind];
    assert [] + taken == taken;
    assert Moved(r1) + [] == Moved(r1);
  }

  /** The call on an operand: stop, hand it over, or look for the next option. */
  lemma OperandRefines(c: Setup, r: State, k: State)
    requires Inv(c, r) && Inv(c, k) && Same(r, k) && r.optind < r.exchange && r.index == 0 && !IsOption(r.argv[r.optind])
    ensures var (k', b, early) := SkipNext(c, k);
            Next(c, r).1 == b && Refines(r, Next(c, r).0, k, k', early)
  {
    hide Take;
    hide MoveToEnd;
    SameArgument(r, k);
    if c.stopAtFirst {
      SameFirst(c, r, k);
      hide FirstOption;
    } else if c.assignToOne {
      SameFirst(c, r, k);
      hide FirstOption;
      InStepIsSame(r, Next(c, r).0, k, SkipNext(c, k).0);
    } else {
      OperandSkipped(c, r, k);
    }
  }

  lemma OperandSkipped(c: Setup, r: State, k: State)
    requires Inv(c, r) && Inv(c, k) && Same(r, k) && r.optind < r.exchange && r.index == 0 && !IsOption(r.argv[r.optind])
    requires !c.stopAtFirst && !c.assignToOne
    ensures var (k', b, early) := SkipNext(c, k);
            Next(c, r).1 == b && Refines(r, Next(c, r).0, k, k', early)
  {
    hide Take;
    hide MoveToEnd;
    SameArgument(r, k);
    SameFirst(c, r, k);
    var f := FirstOption(r.argv, r.optind);
    if f < |r.argv| {
      var r0, k0 := r.(long := false), k.(long := false);
      SkipRefines(c, r0, k0, f);
      hide FirstOption;
    }
  }

  lemma NextRefines(c: Setup, r: State, k: State)
    requires Inv(c, r) && Inv(c, k) && Same(r, k)
    ensures var (k', b, early) := SkipNext(c, k);
            Next(c, r).1 == b && Refines(r, Next(c, r).0, k, k', early)
  {
    hide Take;
    hide MoveToEnd;
    if r.optind == r.exchange {
      assert forall i | r.optind <= i < |r.argv| :: !IsOption(r.argv[i]);
    } else {
      SameArgument(r, k);
      hide FirstOption;
      if r.index > 0 || IsOption(r.argv[r.optind]) {
        TakeRefines(c, r, k);
      } else {
        OperandRefines(c, r, k);
      }
    }
  }

  /**
   * Moving operands behind everything gives the answers that passing over them gives; what was moved is
   * what was passed over, in the same order.
   */
  lemma {:induction false} RunIsSkipRun(c: Setup, r: State, k: State)
    requires Inv(c, r) && Inv(c, k) && Same(r, k)
    ensures var (last, answers) := Run(c, r);
            var (kept, answers', early) := SkipRun(c, k);
            && answers == answers' && Same(last, kept) && Moved(last) == Moved(r) + early
    decreases |r.argv| - r.optind, if r.index == 0 then 1 else 0,
              if r.index == 0 then 0 else |r.argv[r.optind]| - r.index
  {
    hide Next;
    hide SkipNext;
    NextRefines(c, r, k);
    NextKeeps(c, r);
    SkipKeeps(c, k);
    MidArgument(c, r);
    var (r', a) := Next(c, r);
    var (k', b, early) := SkipNext(c, k);
    if Goes(a) {
      RunIsSkipRun(c, r', k');
      var more := SkipRun(c, k').2;
      assert Moved(r) + early + more == Moved(r) + (early + more);
    }
  }

  /** `all` is a merge of `a` and `b`, each in its own order. */
  ghost predicate Merges(all: seq<string>, a: seq<string>, b: seq<string>) {
    if all == [] then a == [] && b == []
    else
      || (a != [] && a[0] == all[0] && Merges(all[1..], a[1..], b))
      || (b != [] && b[0] == all[0] && Merges(all[1..], a, b[1..]))
  }

  lemma {:induction false} MergesMore(a: seq<string>, b: seq<string>, all: seq<string>, a': seq<string>, b': seq<string>)
    requires Merges(all, a', b')
    ensures Merges(a + b + all, a + a', b + b')
  {
    if a != [] {
      MergesMore(a[1..], b, all, a', b');
      assert (a + b + all)[1..] == a[1..] + b + all && (a + a')[1..] == a[1..] + a';
    } else if b != [] {
      MergesMore(a, b[1..], all, a', b');
      assert (a + b + all)[1..] == a + b[1..] + all && (b + b')[1..] == b[1..] + b';
      assert a + a' == a';
    } else {
      assert a + b + all == all && a + a' == a' && b + b' == b';
    }
  }

  /** What a call that answers does to the measure of a run. */
  lemma Progress(c: Setup, s: State)
    requires Inv(c, s)
    ensures var (s', a) := Next(c, s);
            && |s'.argv| == |s.argv| && (s.index > 0 ==> s'.argv == s.argv)
            && (Goes(a) ==> Inv(c, s') && Advances(s, s'))
  {
    hide Next;
    NextKeeps(c, s);
    MidArgument(c, s);
  }

  /** One step of a run put before the merge of the rest. */
  lemma MergeStep(argv: seq<string>, i: nat, j: nat, k: nat, early: seq<string>, more: seq<string>,
                  mid: seq<string>, last: seq<string>, x: nat, y: nat, z: nat)
    requires i <= j <= k <= |argv| && x <= y <= z <= |last| && y <= |mid| && last[..y] == mid[..y]
    requires argv[i..j] == early + mid[x..y] && Merges(argv[j..k], more, last[y..z])
    ensures Merges(argv[i..k], early + more, last[x..z])
  {
    hide Merges;
    JoinTaken(mid, last, x, y, z);
    MergesMore(early, mid[x..y], argv[j..k], more, last[y..z]);
    assert argv[i..k] == argv[i..j] + argv[j..k];
  }

  lemma MergeLast(early: seq<string>, taken: seq<string>)
    ensures Merges(early + taken, early, taken)
  {
    assert Merges([], [], []);
    MergesMore(early, taken, [], [], []);
    assert early + taken + [] == early + taken && early + [] == early && taken + [] == taken;
  }

  /** The arguments up to where a run ends are the operands passed over merged with those consumed. */
  lemma {:induction false} RunMerges(c: Setup, r: State, k: State)
    requires Inv(c, r) && Inv(c, k) && Same(r, k)
    ensures var last := Run(c, r).0;
            var (kept, _, early) := SkipRun(c, k);
            && r.optind <= last.optind <= |last.argv| && k.optind <= kept.optind <= |k.argv| && kept.argv == k.argv
            && Merges(k.argv[k.optind..kept.optind], early, last.argv[r.optind..last.optind])
    decreases |r.argv| - r.optind, if r.index == 0 then 1 else 0,
              if r.index == 0 then 0 else |r.argv[r.optind]| - r.index
  {
    hide Next;
    hide SkipNext;
    hide Merges;
    hide Pending;
    hide Moved;
    NextRefines(c, r, k);
    Progress(c, r);
    SkipKeeps(c, k);
    var (r', a) := Next(c, r);
    var (k', b, early) := SkipNext(c, k);
    if Goes(a) {
      RunMerges(c, r', k');
      RunKeepsFront(c, r');
      var last := Run(c, r').0;
      var (kept, _, more) := SkipRun(c, k');
      MergeStep(k.argv, k.optind, k'.optind, kept.optind, early, more, r'.argv, last.argv, r.optind, r'.optind, last.optind);
    } else {
      MergeLast(early, r'.argv[r.optind..r'.optind]);
    }
  }

  lemma {:induction false} RunKeepsFront(c: Setup, s: State)
    requires Inv(c, s)
    ensures var last := Run(c, s).0;
            |last.argv| == |s.argv| && s.optind <= |s.argv| && last.argv[..s.optind] == s.argv[..s.optind]
    decreases |s.argv| - s.optind, if s.index == 0 then 1 else 0,
              if s.index == 0 then 0 else |s.argv[s.optind]| - s.index
  {
    hide Next;
    NextKeeps(c, s);
    MidArgument(c, s);
    var (s', a) := Next(c, s);
    if Goes(a) {
      RunKeepsFront(c, s');
      var last := Run(c, s').0;
      assert last.argv[..s.optind] == last.argv[..s'.optind][..s.optind] == s'.argv[..s'.optind][..s.optind] == s'.argv[..s.optind];
    }
  }

  lemma JoinTaken(a: seq<string>, b: seq<string>, i: nat, j: nat, k: nat)
    requires i <= j <= k <= |b| && j <= |a| && b[..j] == a[..j]
    ensures b[i..k] == a[i..j] + b[j..k]
  {
    assert b[i..j] == b[..j][i..] == a[..j][i..] == a[i..j];
  }

  // ----- What the caller finds -----

  /** What is left of the arguments for the caller. */
  function Left(s: State): seq<string>
    requires s.optind <= |s.argv|
  {
    s.argv[s.optind..]
  }

  /**
   * For every setup and every argument list: what a run leaves is the arguments from where the scan ended,
   * and behind them the operands passed over on the way. Originally these stood before the others, merged
   * with the arguments the run consumed.
   */
  lemma OperandsRotate(c: Setup, s: State)
    requires Inv(c, s) && Unmoved(s)
    ensures var (last, answers) := Run(c, s);
            var (kept, answers', early) := SkipRun(c, s);
            && s.optind <= last.optind <= |last.argv| && s.optind <= kept.optind <= |s.argv|
            && answers == answers' && Left(last) == s.argv[kept.optind..] + early
            && Merges(s.argv[s.optind..kept.optind], early, last.argv[s.optind..last.optind])
  {
    hide Run;
    hide SkipRun;
    hide Merges;
    assert Same(s, s) && Moved(s) == [];
    RunIsSkipRun(c, s, s);
    RunMerges(c, s, s);
    hide Inv;
    LeftInOrder(Run(c, s).0, SkipRun(c, s).0, s.argv);
    var early := SkipRun(c, s).2;
    assert [] + early == early;
  }

  lemma LeftInOrder(last: State, kept: State, argv: seq<string>)
    requires Same(last, kept) && kept.argv == argv
    ensures Left(last) == argv[kept.optind..] + Moved(last)
  {
    assert Left(last) == Pending(last) + Moved(last);
  }

  function Copies(w: seq<string>, n: nat): seq<string> {
    if n == 0 then [] else w + Copies(w, n - 1)
  }

  lemma {:induction false} CopiesAdd(w: seq<string>, m: nat, n: nat)
    ensures Copies(w, m) + Copies(w, n) == Copies(w, m + n)
  {
    if m > 0 {
      CopiesAdd(w, m - 1, n);
      assert w + Copies(w, m - 1) + Copies(w, n) == w + (Copies(w, m - 1) + Copies(w, n));
    } else {
      assert [] + Copies(w, n) == Copies(w, n);
    }
  }

  /** Two lists that commute are repetitions of one. */
  lemma {:induction false} Commuting(a: seq<string>, b: seq<string>) returns (w: seq<string>, m: nat, n: nat)
    requires a + b == b + a
    ensures a == Copies(w, m) && b == Copies(w, n)
    decreases |a| + |b|
  {
    if a == [] {
      w, m, n := b, 0, 1;
      assert Copies(b, 1) == b + Copies(b, 0) == b;
    } else if b == [] {
      w, m, n := a, 1, 0;
      assert Copies(a, 1) == a + Copies(a, 0) == a;
    } else if |a| <= |b| {
      var rest := b[|a|..];
      Shortened(a, b);
      w, m, n := Commuting(a, rest);
      CopiesAdd(w, m, n);
      n := m + n;
    } else {
      var rest := a[|b|..];
      Shortened(b, a);
      w, m, n := Commuting(rest, b);
      CopiesAdd(w, n, m);
      m := n + m;
    }
  }

  lemma Shortened(a: seq<string>, b: seq<string>)
    requires a + b == b + a && |a| <= |b|
    ensures var rest := b[|a|..];
            b == a + rest && a + rest == rest + a
  {
    var rest := b[|a|..];
    assert b[..|a|] == (b + a)[..|a|] == (a + b)[..|a|] == a;
    assert b == a + rest;
    assert (a + b)[|a|..] == a + rest;
    assert (b + a)[|a|..] == rest + a;
  }

  /** Both lists are repetitions of one, one of them perhaps empty. */
  ghost predicate OneList(a: seq<string>, b: seq<string>) {
    exists w: seq<string>, m: nat, n: nat :: a == Copies(w, m) && b == Copies(w, n)
  }

  /**
   * The exact condition for the operands to keep their order: the operands passed over before the last
   * option and the arguments behind it are repetitions of one list. If the two have no argument in common,
   * that is: one of them is empty.
   */
  lemma OrderKept(c: Setup, s: State)
    requires Inv(c, s) && Unmoved(s)
    ensures var last := Run(c, s).0;
            var (kept, _, early) := SkipRun(c, s);
            && last.optind <= |last.argv| && kept.optind <= |s.argv|
            && var late := s.argv[kept.optind..];
               && (Left(last) == early + late <==> OneList(early, late))
               && ((forall x | x in early :: x !in late) ==> (OneList(early, late) <==> early == [] || late == []))
  {
    OperandsRotate(c, s);
    var (kept, _, early) := SkipRun(c, s);
    hide Run;
    hide SkipRun;
    Repetitions(early, s.argv[kept.optind..]);
  }

  lemma Repetitions(a: seq<string>, b: seq<string>)
    ensures b + a == a + b <==> OneList(a, b)
    ensures (forall x | x in a :: x !in b) ==> (OneList(a, b) <==> a == [] || b == [])
  {
    if a + b == b + a {
      var w, m, n := Commuting(a, b);
      assert OneList(a, b);
    }
    if OneList(a, b) {
      var w: seq<string>, m: nat, n: nat :| a == Copies(w, m) && b == Copies(w, n);
      CopiesAdd(w, m, n);
      CopiesAdd(w, n, m);
    }
    if a == [] {
      assert a + b == b == b + a;
    } else if b == [] {
      assert a + b == a == b + a;
    } else {
      assert (a + b)[0] == a[0] && (b + a)[0] == b[0];
      assert a[0] in a && b[0] in b;
    }
  }

  /** `cp -r src -v dst` ends with its operands the other way round. */
  lemma CopyExample()
    ensures var c := SetupOf("rv", None, false);
            var s := State(["cp", "-r", "src", "-v", "dst"], 1, 0, 5, false, None, 0);
            && Inv(c, s) && Unmoved(s)
            && var last := Run(c, s).0;
               last.optind == 3 && last.argv == ["cp", "-r", "-v", "dst", "src"] && Run(c, s).1 == ['r' as int, 'v' as int]
  {
    var c := SetupOf("rv", None, false);
    var s := State(["cp", "-r", "src", "-v", "dst"], 1, 0, 5, false, None, 0);
    var s1 := s.(optind := 2);
    var s2 := s1.(argv := ["cp", "-r", "-v", "dst", "src"], exchange := 4, optind := 3);
    assert Next(c, s) == (s1, Answer('r' as int, None)) by {
      Flag(c, s, 'r');
    }
    assert Next(c, s1) == (s2, Answer('v' as int, None)) by {
      assert s.argv[2] == "src" && s.argv[3] == "-v";
      assert FirstOption(s.argv, 2) == 3;
      assert MoveToEnd(s.argv, 2, 3) == s2.argv;
      Flag(c, s2.(optind := 2), 'v');
    }
    assert Next(c, s2) == (s2, Answer(-1, None)) by {
      assert FirstOption(s2.argv, 3) == FirstOption(s2.argv, 4) == FirstOption(s2.argv, 5) == 5;
    }
    hide Next;
  }

  /** Taking one of the two flags. */
  lemma Flag(c: Setup, s: State, letter: char)
    requires c == SetupOf("rv", None, false) && s.optind < |s.argv| && s.index == 0 && !s.long && s.optarg == None
    requires s.argv[s.optind] == ['-', letter] && (letter == 'r' || letter == 'v')
    ensures Take(c, s) == (s.(optind := s.optind + 1), Answer(letter as int, None))
  {
    var spec := "rv";
    assert Spec(c) == spec;
    assert IndexOf(spec, 'r', 0) == 0 && IndexOf(spec, 'v', 0) == IndexOf(spec, 'v', 1) == 1;
  }
}
