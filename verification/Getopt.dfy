/**
 * getopt as a state machine over calls: one call moves the block of non-options in front of the next
 * option to the end of argv, then takes one option from the argument at optind.
 */
module Getopt {
  import opened Basics

  datatype Arity = NoArgument | RequiredArgument | OptionalArgument

  /** One entry of the long option table; `stored` is whether it writes its value through a pointer. */
  datatype LongOption = LongOption(name: string, arity: Arity, stored: bool, val: int)

  /** What the first call fixes for the whole run. */
  datatype Setup = Setup(optstring: string, longopts: Option<seq<LongOption>>,
                         stopAtFirst: bool, assignToOne: bool, skipFirst: bool, errorReturn: int)

  function SetupOf(optstring: string, longopts: Option<seq<LongOption>>, posix: bool): Setup {
    var first := if optstring == [] then '\0' else optstring[0];
    Setup(optstring, longopts, first == '+' || posix, first == '-', first == '+' || first == '-' || first == ':',
          (if first == ':' then ':' else '?') as int)
  }

  datatype State = State(argv: seq<string>, optind: nat, index: nat, exchange: int, long: bool,
                         optarg: Option<string>, optopt: int)

  /** The value returned and, for a long option, which table entry matched. */
  datatype Answer = Answer(r: int, matched: Option<nat>)

  predicate IsOption(arg: string) {
    |arg| >= 2 && arg[0] == '-'
  }

  /** The first option at or after `i`, or the length of argv. */
  function FirstOption(argv: seq<string>, i: nat): (f: nat)
    requires i <= |argv|
    ensures i <= f <= |argv| && (f < |argv| ==> IsOption(argv[f]))
    ensures forall k | i <= k < f :: !IsOption(argv[k])
    decreases |argv| - i
  {
    if i == |argv| || IsOption(argv[i]) then i else FirstOption(argv, i + 1)
  }

  /** Moves the arguments from `i` up to `f` to the end. */
  function MoveToEnd(argv: seq<string>, i: nat, f: nat): (r: seq<string>)
    requires i <= f <= |argv|
    ensures |r| == |argv|
  {
    argv[..i] + argv[f..] + argv[i..f]
  }

  // ----- One option -----

  function IndexOf(s: string, c: char, i: nat): (k: nat)
    requires i <= |s|
    ensures i <= k <= |s| && (k < |s| ==> s[k] == c) && c !in s[i..k]
    decreases |s| - i
  {
    if i == |s| || s[i] == c then i else IndexOf(s, c, i + 1)
  }

  /** How the option string declares `c`: the colons after its first occurrence. */
  function Declared(spec: string, c: char): Option<Arity> {
    var k := IndexOf(spec, c, 0);
    if k == |spec| then None
    else if spec[k + 1..] != [] && spec[k + 1] == ':' then
      if |spec| > k + 2 && spec[k + 2] == ':' then Some(OptionalArgument) else Some(RequiredArgument)
    else Some(NoArgument)
  }

  function Spec(c: Setup): string {
    if c.skipFirst && c.optstring != [] then c.optstring[1..] else c.optstring
  }

  /** The argument after the one at optind, unless it was moved there or does not exist. */
  function Following(s: State): Option<string>
    requires s.optind < |s.argv|
  {
    if s.optind + 1 < |s.argv| && s.optind + 1 < s.exchange then Some(s.argv[s.optind + 1]) else None
  }

  /** The int an option letter is returned as: a char is signed. */
  function Returned(option: char): int {
    var b := option as int % 256;
    if b < 128 then b else b - 256
  }

  /** Takes the short option at `index` of the argument at optind. */
  function Short(c: Setup, s: State): (State, Answer)
    requires s.optind < |s.argv| && s.index < |s.argv[s.optind]|
  {
    var arg := s.argv[s.optind];
    var option, rest := arg[s.index], arg[s.index + 1..];
    var stepped := if rest == [] then s.(optind := s.optind + 1, index := 0) else s.(index := s.index + 1);
    var taken := Answer(Returned(option), None);
    match Declared(Spec(c), option)
    case None =>
      (stepped.(optarg := None, optopt := Returned(option)), Answer(c.errorReturn, None))
    case Some(NoArgument) =>
      (stepped.(optarg := None), taken)
    case Some(arity) =>
      if rest != [] then (s.(optind := s.optind + 1, index := 0, optarg := Some(rest)), taken)
      else if Following(s).Some? then (s.(optind := s.optind + 2, index := 0, optarg := Following(s)), taken)
      else (stepped.(optarg := None), if arity == RequiredArgument then Answer(c.errorReturn, None) else taken)
  }

  function FindLong(table: seq<LongOption>, name: string, j: nat): (k: nat)
    requires j <= |table|
    ensures j <= k <= |table| && (k < |table| ==> table[k].name == name)
    ensures forall i | j <= i < k :: table[i].name != name
    decreases |table| - j
  {
    if j == |table| || table[j].name == name then j else FindLong(table, name, j + 1)
  }

  /** Takes the long option that starts at `index` of the argument at optind. */
  function Long(c: Setup, s: State): (State, Answer)
    requires s.optind < |s.argv| && s.index <= |s.argv[s.optind]|
  {
    var text := s.argv[s.optind][s.index..];
    var next := s.(optind := s.optind + 1, index := 0);
    if c.longopts.None? then (next, Answer(c.errorReturn, None))
    else
      var e := IndexOf(text, '=', 0);
      var table, value := c.longopts.value, if e < |text| then Some(text[e + 1..]) else None;
      var j := FindLong(table, text[..e], 0);
      if j == |table| then (s, Answer(-1, None))
      else
        var entry, failed := table[j], Answer(c.errorReturn, Some(j));
        var taken := Answer(if entry.stored then 0 else entry.val, Some(j));
        var follow := Following(s);
        var usable := follow.Some? && !(follow.value != [] && follow.value[0] == '-');
        match entry.arity
        case NoArgument =>
          if value.Some? then (next, failed) else (next.(optarg := None), taken)
        case RequiredArgument =>
          if value.Some? then (next.(optarg := value), taken)
          else if usable then (next.(optind := s.optind + 2, optarg := follow), taken)
          else (next, failed)
        case OptionalArgument =>
          if value.Some? then (next.(optarg := value), taken)
          else if usable then (next.(optind := s.optind + 2, optarg := follow), taken)
          else (next.(optarg := None), taken)
  }

  /** Takes an option from the argument at optind, which is one. */
  function Take(c: Setup, s: State): (State, Answer)
    requires s.optind < |s.argv| && s.index < |s.argv[s.optind]|
    requires s.index == 0 ==> IsOption(s.argv[s.optind])
  {
    var arg := s.argv[s.optind];
    if s.index == 0 && arg == "--" then (s.(optind := s.optind + 1, long := false), Answer(-1, None))
    else
      var s1 := if s.index > 0 then s
                else if arg[1] == '-' then s.(index := 2, long := true)
                else s.(index := 1, long := false);
      if s1.long then Long(c, s1)
      else if c.optstring == [] then (s1, Answer(-1, None))
      else Short(c, s1)
  }

  /** One call. */
  function Next(c: Setup, s: State): (State, Answer)
    requires s.optind < |s.argv| ==> s.index < |s.argv[s.optind]| || s.index == 0
  {
    if s.optind >= |s.argv| then (if s.optind == |s.argv| then s.(index := 0) else s, Answer(-1, None))
    else if s.index > 0 || IsOption(s.argv[s.optind]) then Take(c, s)
    else
      var s0 := s.(long := false);
      if c.stopAtFirst then (s0, Answer(-1, None))
      else if c.assignToOne then
        (s0.(optind := s.optind + 1, optarg := Some(s.argv[s.optind])), Answer(1, None))
      else
        var f := FirstOption(s.argv, s.optind);
        if f == |s.argv| then (s0, Answer(-1, None))
        else Take(c, s0.(argv := MoveToEnd(s.argv, s.optind, f), exchange := s.exchange - (f - s.optind)))
  }

  // ----- What every call keeps -----

  ghost predicate Inv(c: Setup, s: State) {
    && s.optind <= s.exchange <= |s.argv|
    && (forall k | s.exchange <= k < |s.argv| :: !IsOption(s.argv[k]))
    && (c.assignToOne ==> s.exchange == |s.argv|)
    && (s.index > 0 ==>
          s.optind < |s.argv| && !s.long && s.index < |s.argv[s.optind]| && IsOption(s.argv[s.optind]))
  }

  /** The options of argv in order. */
  ghost function Options(argv: seq<string>): seq<string> {
    if argv == [] then []
    else (if IsOption(argv[0]) then [argv[0]] else []) + Options(argv[1..])
  }

  lemma {:induction false} OptionsAppend(a: seq<string>, b: seq<string>)
    ensures Options(a + b) == Options(a) + Options(b)
  {
    if a == [] {
      assert a + b == b;
    } else {
      assert (a + b)[1..] == a[1..] + b;
      OptionsAppend(a[1..], b);
    }
  }

  lemma {:induction false} OptionsOfNone(a: seq<string>)
    requires forall k | 0 <= k < |a| :: !IsOption(a[k])
    ensures Options(a) == []
  {
    if a != [] {
      OptionsOfNone(a[1..]);
    }
  }

  /** argv is the same arguments, the options in the same order, and nothing before `from` has moved. */
  ghost predicate Rearranged(a: seq<string>, b: seq<string>, from: nat) {
    && |a| == |b| && multiset(a) == multiset(b) && Options(a) == Options(b)
    && from <= |a| && a[..from] == b[..from]
  }

  lemma MoveRearranges(argv: seq<string>, i: nat, f: nat)
    requires i <= f <= |argv| && forall k | i <= k < f :: !IsOption(argv[k])
    ensures Rearranged(argv, MoveToEnd(argv, i, f), i)
  {
    var a, b, c := argv[..i], argv[i..f], argv[f..];
    assert argv == a + b + c;
    OptionsAppend(a + b, c);
    OptionsAppend(a, b);
    OptionsAppend(a + c, b);
    OptionsAppend(a, c);
    OptionsOfNone(b);
    hide Options;
    hide IsOption;
    Swapped(a, b, c);
    var none: seq<string> := [];
    assert Options(b) == none && Options(a) + none == Options(a);
    assert (Options(a) + Options(c)) + none == Options(a) + Options(c);
  }

  lemma Swapped(a: seq<string>, b: seq<string>, c: seq<string>)
    ensures multiset(a + b + c) == multiset(a + c + b)
  {
    assert multiset(a + b + c) == multiset(a) + multiset(b) + multiset(c);
    assert multiset(a + c + b) == multiset(a) + multiset(c) + multiset(b);
  }

  /** Moving non-options keeps the moved ones together at the end and brings the option to the front. */
  lemma MoveKeepsInv(c: Setup, s: State, f: nat)
    requires Inv(c, s) && s.index == 0 && s.optind < |s.argv| && !c.assignToOne
    requires f == FirstOption(s.argv, s.optind) < |s.argv|
    ensures var s' := s.(argv := MoveToEnd(s.argv, s.optind, f), exchange := s.exchange - (f - s.optind));
            Inv(c, s') && IsOption(s'.argv[s.optind])
  {
    var i, argv' := s.optind, MoveToEnd(s.argv, s.optind, f);
    var exchange' := s.exchange - (f - i);
    assert f < s.exchange;
    forall k | exchange' <= k < |argv'| ensures !IsOption(argv'[k]) {
      if k < |argv'| - (f - i) {
        assert argv'[k] == s.argv[k + (f - i)];
      } else {
        assert argv'[k] == s.argv[k - (|argv'| - f)];
      }
    }
    assert argv'[i] == s.argv[f];
  }

  /** The answer was not the end of the run. */
  predicate Goes(a: Answer) {
    a.r != -1
  }

  /** (optind, index) has grown. */
  ghost predicate Advances(s: State, s': State) {
    s'.optind > s.optind || (s'.optind == s.optind && s'.index > s.index)
  }

  lemma ShortKeeps(c: Setup, s: State)
    requires Inv(c, s) && s.index > 0
    ensures var (s', a) := Short(c, s);
            s'.argv == s.argv && Inv(c, s') && Advances(s, s')
  {
    hide Declared;
    assert s.optind < s.exchange;
  }

  lemma LongKeeps(c: Setup, s: State)
    requires Inv(c, s.(index := 0)) && s.optind < |s.argv| && IsOption(s.argv[s.optind]) && s.index == 2
    ensures var (s', a) := Long(c, s);
            s'.argv == s.argv && (Goes(a) ==> Inv(c, s') && s'.optind > s.optind)
  {
    hide IndexOf;
    hide FindLong;
    assert s.optind < s.exchange;
  }

  lemma TakeKeeps(c: Setup, s: State)
    requires Inv(c, s) && s.optind < |s.argv| && IsOption(s.argv[s.optind])
    ensures var (s', a) := Take(c, s);
            s'.argv == s.argv && (Goes(a) ==> Inv(c, s') && Advances(s, s'))
  {
    hide Short;
    hide Long;
    var arg := s.argv[s.optind];
    if s.index > 0 {
      ShortKeeps(c, s);
    } else if arg[1] != '-' {
      ShortKeeps(c, s.(index := 1, long := false));
    } else if arg != "--" {
      LongKeeps(c, s.(index := 2, long := true));
    }
  }

  /**
   * Every call that returns something other than -1 keeps optind <= exchange <= argc with only
   * non-options from exchange on, rearranges argv without touching what was consumed or reordering the
   * options, and advances.
   */
  lemma NextKeeps(c: Setup, s: State)
    requires Inv(c, s)
    ensures var (s', a) := Next(c, s);
            && Rearranged(s.argv, s'.argv, s.optind)
            && (Goes(a) ==> Inv(c, s') && Advances(s, s'))
  {
    hide Take;
    hide MoveToEnd;
    if s.optind < |s.argv| {
      if s.index > 0 || IsOption(s.argv[s.optind]) {
        TakeKeeps(c, s);
      } else if !c.stopAtFirst && !c.assignToOne {
        var f := FirstOption(s.argv, s.optind);
        if f < |s.argv| {
          var s0 := s.(long := false);
          MoveRearranges(s.argv, s.optind, f);
          MoveKeepsInv(c, s0, f);
          TakeKeeps(c, s0.(argv := MoveToEnd(s.argv, s.optind, f), exchange := s.exchange - (f - s.optind)));
        }
      }
    }
  }

  /** Nothing but non-options is left from optind on. */
  ghost predicate Exhausted(s: State) {
    forall k | s.optind <= k < |s.argv| :: !IsOption(s.argv[k])
  }

  /** The argument is a long option, and the table is there and has no entry of its name. */
  ghost predicate UnknownLong(c: Setup, arg: string) {
    && |arg| > 2 && arg[0] == '-' && arg[1] == '-' && c.longopts.Some?
    && forall j | 0 <= j < |c.longopts.value| :: c.longopts.value[j].name != NameIn(arg)
  }

  /** The name a long option spells: what is between the dashes and the first equals sign. */
  function NameIn(arg: string): string
    requires |arg| >= 2
  {
    arg[2..][..IndexOf(arg[2..], '=', 0)]
  }

  predicate HasValue(arg: string)
    requires |arg| >= 2
  {
    '=' in arg[2..]
  }

  /** The argument is a long option declared with the value -1, which it has the arguments to return. */
  ghost predicate ReturnsMinusOne(c: Setup, arg: string, following: Option<string>) {
    && |arg| > 2 && arg[0] == '-' && arg[1] == '-' && c.longopts.Some?
    && exists j ::
         && 0 <= j < |c.longopts.value| && c.longopts.value[j].name == NameIn(arg)
         && (forall i | 0 <= i < j :: c.longopts.value[i].name != NameIn(arg))
         && GivesMinusOne(c.longopts.value[j], arg, following)
  }

  predicate GivesMinusOne(entry: LongOption, arg: string, following: Option<string>)
    requires |arg| >= 2
  {
    && entry.val == -1 && !entry.stored
    && match entry.arity
       case NoArgument => !HasValue(arg)
       case RequiredArgument => HasValue(arg) || Usable(following)
       case OptionalArgument => true
  }

  /** The entry the scan of the table stops at decides. */
  lemma FirstDecides(c: Setup, arg: string, following: Option<string>)
    requires |arg| > 2 && arg[0] == '-' && arg[1] == '-' && c.longopts.Some?
    ensures var table := c.longopts.value;
            var j := FindLong(table, NameIn(arg), 0);
            && (UnknownLong(c, arg) <==> j == |table|)
            && (ReturnsMinusOne(c, arg, following) <==> j < |table| && GivesMinusOne(table[j], arg, following))
  {
    hide NameIn;
    hide GivesMinusOne;
    var table := c.longopts.value;
    var j := FindLong(table, NameIn(arg), 0);
    hide FindLong;
  }

  lemma ValueAfterEquals(arg: string)
    requires |arg| >= 2
    ensures HasValue(arg) <==> IndexOf(arg[2..], '=', 0) < |arg[2..]|
  {
    var text := arg[2..];
    var e := IndexOf(text, '=', 0);
    if e == |text| {
      assert text[0..e] == text;
    }
  }

  predicate Usable(following: Option<string>) {
    following.Some? && !(following.value != [] && following.value[0] == '-')
  }

  /** Reading the option argument at `f` ends the run. */
  ghost predicate EndsAt(c: Setup, s: State, f: nat)
    requires f < |s.argv|
  {
    var arg := s.argv[f];
    || arg == "--"
    || UnknownLong(c, arg)
    || ReturnsMinusOne(c, arg, Following(s.(optind := f)))
    || (|arg| >= 2 && arg[1] != '-' && (c.optstring == [] || ShortEnds(c, arg, 1, Following(s.(optind := f)))))
  }

  /** The option at `index` is declared, has the value it requires, and reads as -1. */
  predicate ShortEnds(c: Setup, arg: string, index: nat, following: Option<string>)
    requires index < |arg|
  {
    && Returned(arg[index]) == -1
    && match Declared(Spec(c), arg[index])
       case None => false
       case Some(RequiredArgument) => index + 1 < |arg| || following.Some?
       case Some(_) => true
  }

  /** Whether a short option is answered with -1. */
  lemma ShortIsEnd(c: Setup, s: State)
    requires s.optind < |s.argv| && s.index < |s.argv[s.optind]| && c.errorReturn >= 0
    ensures !Goes(Short(c, s).1) <==> ShortEnds(c, s.argv[s.optind], s.index, Following(s))
  {
    hide Declared;
    hide Returned;
  }

  /** What a caller can see before the call: whether it will answer -1. */
  ghost predicate WillEnd(c: Setup, s: State)
    requires s.optind <= |s.argv|
  {
    if s.index > 0 then
      && s.optind < |s.argv| && s.index < |s.argv[s.optind]|
      && (c.optstring == [] || ShortEnds(c, s.argv[s.optind], s.index, Following(s)))
    else if s.optind < |s.argv| && !IsOption(s.argv[s.optind]) && (c.stopAtFirst || c.assignToOne) then c.stopAtFirst
    else
      var f := FirstOption(s.argv, s.optind);
      f == |s.argv| || EndsAt(c, s, f)
  }

  /** Whether a long option is answered with -1. */
  lemma LongEnds(c: Setup, s: State)
    requires s.optind < |s.argv| && s.index == 2 && c.errorReturn >= 0
    requires var arg := s.argv[s.optind]; |arg| > 2 && arg[0] == '-' && arg[1] == '-'
    ensures var arg := s.argv[s.optind];
            !Goes(Long(c, s).1) <==> UnknownLong(c, arg) || ReturnsMinusOne(c, arg, Following(s))
  {
    var arg := s.argv[s.optind];
    ValueAfterEquals(arg);
    if c.longopts.Some? {
      FirstDecides(c, arg, Following(s));
    }
    hide FindLong;
    hide IndexOf;
    hide UnknownLong;
    hide ReturnsMinusOne;
    hide HasValue;
  }

  /** Whether taking an option is answered with -1. */
  lemma TakeEnds(c: Setup, s: State)
    requires Inv(c, s) && s.optind < |s.argv| && IsOption(s.argv[s.optind]) && c.errorReturn >= 0
    ensures !Goes(Take(c, s).1) <==>
              if s.index > 0 then c.optstring == [] || ShortEnds(c, s.argv[s.optind], s.index, Following(s))
              else EndsAt(c, s, s.optind)
  {
    hide Long;
    hide Short;
    hide ShortEnds;
    hide UnknownLong;
    hide ReturnsMinusOne;
    var arg := s.argv[s.optind];
    assert s.(optind := s.optind) == s;
    if s.index > 0 {
      ShortIsEnd(c, s);
    } else if arg[1] != '-' {
      ShortIsEnd(c, s.(index := 1, long := false));
    }
    if s.index == 0 {
      assert arg[..2] == "--" <==> arg[1] == '-';
      OnlyLong(c, arg, Following(s));
      if arg[1] == '-' && arg != "--" {
        assert |arg| > 2;
        LongEnds(c, s.(index := 2, long := true));
      }
    }
  }

  lemma OnlyLong(c: Setup, arg: string, following: Option<string>)
    ensures UnknownLong(c, arg) || ReturnsMinusOne(c, arg, following) ==> |arg| > 2 && arg[..2] == "--"
  {
  }

  /** Moving the operands before an option does not change what reading it does. */
  lemma EndsAfterMove(c: Setup, s: State, f: nat)
    requires Inv(c, s) && s.optind <= f < |s.argv| && IsOption(s.argv[f])
    ensures var s' := s.(argv := MoveToEnd(s.argv, s.optind, f), exchange := s.exchange - (f - s.optind));
            EndsAt(c, s', s.optind) <==> EndsAt(c, s, f)
  {
    hide UnknownLong;
    hide ReturnsMinusOne;
    hide ShortEnds;
    var i, argv' := s.optind, MoveToEnd(s.argv, s.optind, f);
    assert f < s.exchange;
    assert argv'[i] == s.argv[f];
    assert f + 1 < |s.argv| ==> argv'[i + 1] == s.argv[f + 1];
  }

  /** A call answers -1 exactly when the condition that can be checked before it holds. */
  lemma NextEnds(c: Setup, s: State)
    requires Inv(c, s) && c.errorReturn >= 0
    ensures !Goes(Next(c, s).1) <==> WillEnd(c, s)
  {
    hide Take;
    hide MoveToEnd;
    hide EndsAt;
    if s.optind < |s.argv| {
      if s.index > 0 || IsOption(s.argv[s.optind]) {
        TakeEnds(c, s);
      } else if !c.stopAtFirst && !c.assignToOne {
        var f := FirstOption(s.argv, s.optind);
        if f < |s.argv| {
          var s0 := s.(long := false);
          MoveKeepsInv(c, s0, f);
          EndsAfterMove(c, s0, f);
          TakeEnds(c, s0.(argv := MoveToEnd(s.argv, s.optind, f), exchange := s.exchange - (f - s.optind)));
          SameEnds(c, s, s0, f);
        }
      }
    }
  }

  lemma SameEnds(c: Setup, s: State, t: State, f: nat)
    requires s.argv == t.argv && s.exchange == t.exchange && f < |s.argv|
    ensures EndsAt(c, s, f) == EndsAt(c, t, f)
  {
    hide UnknownLong;
    hide ReturnsMinusOne;
  }

  // ----- Whole runs -----

  /** The state and answers of calling until the first -1. */
  function Run(c: Setup, s: State): (r: (State, seq<int>))
    requires Inv(c, s)
    decreases |s.argv| - s.optind, if s.index == 0 then 1 else 0,
              if s.index == 0 then 0 else |s.argv[s.optind]| - s.index
  {
    NextKeeps(c, s);
    MidArgument(c, s);
    var (s', a) := Next(c, s);
    if !Goes(a) then (s', [])
    else
      var (last, answers) := Run(c, s');
      (last, [a.r] + answers)
  }

  /** In the middle of an argument argv does not move. */
  lemma MidArgument(c: Setup, s: State)
    requires Inv(c, s)
    ensures s.index > 0 ==> Next(c, s).0.argv == s.argv
  {
    if s.index > 0 {
      TakeKeeps(c, s);
    }
  }

  lemma RearrangedTwice(a: seq<string>, b: seq<string>, c: seq<string>, i: nat, j: nat)
    requires Rearranged(a, b, i) && Rearranged(b, c, j) && i <= j
    ensures Rearranged(a, c, i)
  {
    assert b[..i] == b[..j][..i] == c[..j][..i] == c[..i];
  }

  /** The option string declares an option that reads as -1. */
  ghost predicate DeclaresMinusOne(c: Setup) {
    exists option :: option in Spec(c) && Returned(option) == -1
  }

  lemma EndIsDeclared(c: Setup, arg: string, index: nat, following: Option<string>)
    requires index < |arg| && ShortEnds(c, arg, index, following)
    ensures DeclaresMinusOne(c)
  {
    var k := IndexOf(Spec(c), arg[index], 0);
    assert Spec(c)[k] == arg[index];
  }

  /** What the call that ends a run leaves behind. */
  ghost predicate Leaves(c: Setup, p: State, last: State) {
    || (last.optind == p.optind && last.argv == p.argv && Exhausted(last))
    || (p.optind < |last.argv| && last.optind == p.optind + 1 && last.argv[p.optind] == "--")
    || (c.stopAtFirst && last.optind == p.optind < |p.argv| && last.argv == p.argv && !IsOption(p.argv[p.optind]))
    || (last.optind == p.optind < |last.argv| && UnknownLong(c, last.argv[last.optind]))
    || c.optstring == []
    || DeclaresMinusOne(c)
    || (c.longopts.Some? && exists j :: 0 <= j < |c.longopts.value| && c.longopts.value[j].val == -1)
  }

  lemma LongLeaves(c: Setup, s: State)
    requires s.optind < |s.argv| && s.index == 2 && c.errorReturn >= 0
    requires var arg := s.argv[s.optind]; |arg| > 2 && arg[0] == '-' && arg[1] == '-'
    requires !Goes(Long(c, s).1)
    ensures var last := Long(c, s).0;
            || (last.optind == s.optind && last.argv == s.argv && UnknownLong(c, s.argv[s.optind]))
            || (c.longopts.Some? && exists j :: 0 <= j < |c.longopts.value| && c.longopts.value[j].val == -1)
  {
    LongEnds(c, s);
    hide FindLong;
    hide IndexOf;
  }

  lemma TakeLeaves(c: Setup, s: State)
    requires Inv(c, s) && s.optind < |s.argv| && IsOption(s.argv[s.optind])
    requires c.errorReturn >= 0 && !Goes(Take(c, s).1)
    ensures Leaves(c, s, Take(c, s).0)
  {
    hide Long;
    hide Short;
    hide ShortEnds;
    hide DeclaresMinusOne;
    hide UnknownLong;
    var arg := s.argv[s.optind];
    if s.index > 0 || arg[1] != '-' {
      var s1 := if s.index > 0 then s else s.(index := 1, long := false);
      ShortIsEnd(c, s1);
      if c.optstring != [] {
        EndIsDeclared(c, arg, s1.index, Following(s1));
      }
    } else if arg != "--" {
      LongLeaves(c, s.(index := 2, long := true));
    }
  }

  lemma NextLeaves(c: Setup, s: State)
    requires Inv(c, s) && c.errorReturn >= 0 && !Goes(Next(c, s).1)
    ensures Leaves(c, s, Next(c, s).0)
  {
    hide Take;
    hide MoveToEnd;
    hide UnknownLong;
    if s.optind < |s.argv| {
      if s.index > 0 || IsOption(s.argv[s.optind]) {
        TakeLeaves(c, s);
      } else if !c.stopAtFirst && !c.assignToOne {
        var f := FirstOption(s.argv, s.optind);
        if f < |s.argv| {
          var s0 := s.(long := false);
          MoveKeepsInv(c, s0, f);
          var s1 := s0.(argv := MoveToEnd(s.argv, s.optind, f), exchange := s.exchange - (f - s.optind));
          TakeLeaves(c, s1);
          assert !Exhausted(s1);
        }
      }
    }
  }

  /**
   * Calling until the first -1 always ends, at the first state `p` that meets the condition for it. What
   * is left is the same arguments with the options in their order and the consumed part untouched; unless
   * the setup itself ends the run, it ends at `--`, at an unknown long option, or with only non-options
   * from optind on.
   */
  lemma {:induction false} RunEnds(c: Setup, s: State) returns (p: State)
    requires Inv(c, s) && c.errorReturn >= 0
    ensures Inv(c, p) && WillEnd(c, p) && s.optind <= p.optind
    ensures var last := Run(c, s).0;
            && last == Next(c, p).0 && Leaves(c, p, last)
            && Rearranged(s.argv, last.argv, s.optind) && s.optind <= last.optind
    decreases |s.argv| - s.optind, if s.index == 0 then 1 else 0,
              if s.index == 0 then 0 else |s.argv[s.optind]| - s.index
  {
    hide Next;
    hide WillEnd;
    hide Leaves;
    hide Options;
    NextKeeps(c, s);
    NextEnds(c, s);
    MidArgument(c, s);
    var (s', a) := Next(c, s);
    if Goes(a) {
      p := RunEnds(c, s');
      RearrangedTwice(s.argv, s'.argv, Run(c, s').0.argv, s.optind, s'.optind);
    } else {
      p := s;
      NextLeaves(c, s);
      NextOnwards(c, s);
    }
  }

  lemma TakeOnwards(c: Setup, s: State)
    requires Inv(c, s) && s.optind < |s.argv| && IsOption(s.argv[s.optind])
    ensures s.optind <= Take(c, s).0.optind
  {
    hide Declared;
    hide IndexOf;
    hide FindLong;
  }

  lemma NextOnwards(c: Setup, s: State)
    requires Inv(c, s)
    ensures s.optind <= Next(c, s).0.optind
  {
    hide Take;
    hide MoveToEnd;
    if s.optind < |s.argv| {
      if s.index > 0 || IsOption(s.argv[s.optind]) {
        TakeOnwards(c, s);
      } else if !c.stopAtFirst && !c.assignToOne {
        var f := FirstOption(s.argv, s.optind);
        if f < |s.argv| {
          var s0 := s.(long := false);
          MoveKeepsInv(c, s0, f);
          TakeOnwards(c, s0.(argv := MoveToEnd(s.argv, s.optind, f), exchange := s.exchange - (f - s.optind)));
        }
      }
    }
  }

  // ----- The routine itself -----

  /** A declared option of the byte 255 is taken and answered with -1: the run ends with the rest unread. */
  lemma OptionReadsAsEnd(c: Setup, s: State)
    requires Inv(c, s) && s.index == 0 && s.optind < |s.argv| && s.argv[s.optind] == ['-', '\U{FF}']
    requires c.optstring != [] && Declared(Spec(c), '\U{FF}') == Some(NoArgument)
    ensures Run(c, s) == (s.(optind := s.optind + 1, long := false, optarg := None), [])
  {
    hide Next;
    NextIsByte255(c, s);
  }

  lemma NextIsByte255(c: Setup, s: State)
    requires Inv(c, s) && s.index == 0 && s.optind < |s.argv| && s.argv[s.optind] == ['-', '\U{FF}']
    requires c.optstring != [] && Declared(Spec(c), '\U{FF}') == Some(NoArgument)
    ensures Next(c, s) == (s.(optind := s.optind + 1, long := false, optarg := None), Answer(-1, None))
  {
    hide Declared;
    hide Inv;
    hide Long;
  }

  /** What the reset and the initialisation at the start of a call make of the state. */
  function Begun(s: State, initialized: bool): State {
    var s0 := if s.optind == 0 then s.(optind := 1, index := 0, long := false) else s;
    if s.optind == 0 || !initialized then s0.(exchange := |s.argv|) else s0
  }

  /** The first call of a new or reset parser starts from a state that satisfies the invariant. */
  lemma FirstCall(c: Setup, s: State, initialized: bool)
    requires s.optind == 0 || (!initialized && s.index == 0)
    ensures var s' := Begun(s, initialized);
            s'.exchange == |s'.argv| && s'.index == 0 && (s'.optind <= |s'.argv| ==> Inv(c, s'))
  {
  }

  lemma PastTheEnd(c: Setup, s: State)
    requires s.optind > |s.argv|
    ensures Next(c, s) == (s, Answer(-1, None))
  {
  }

  lemma MoveOneMore(argv: seq<string>, i: nat, k: nat)
    requires i <= k < |argv|
    ensures MoveToEnd(MoveToEnd(argv, i, k), i, i + 1) == MoveToEnd(argv, i, k + 1)
    ensures MoveToEnd(argv, i, k)[i] == argv[k]
  {
    var moved := MoveToEnd(argv, i, k);
    assert moved[..i] == argv[..i];
    assert moved[i..i + 1] == [argv[k]];
    assert moved[i + 1..] == argv[k + 1..] + argv[i..k];
    assert argv[i..k] + [argv[k]] == argv[i..k + 1];
  }

  lemma MovedOne(was: seq<string>, now: seq<string>, i: nat)
    requires i < |was| == |now| && now[|now| - 1] == was[i]
    requires forall k | 0 <= k < i :: now[k] == was[k]
    requires forall k | i <= k < |was| - 1 :: now[k] == was[k + 1]
    ensures now == MoveToEnd(was, i, i + 1)
  {
  }

  class Parser {
    var optarg: Option<string>
    var optind: nat
    var optopt: int
    var index: nat
    var exchange: int
    var errorReturn: int
    var short: bool
    var long: bool
    var stopAtFirst: bool
    var assignToOne: bool
    var skipFirst: bool
    var initialized: bool

    constructor ()
      ensures Coherent() && optind == 1 && !initialized && index == 0
    {
      optarg, optind, optopt := None, 1, '?' as int;
      index, exchange, errorReturn := 0, 0, 0;
      short, long, stopAtFirst, assignToOne, skipFirst, initialized := false, false, false, false, false, false;
    }

    ghost predicate Coherent()
      reads this
    {
      && (index > 0 ==> short == !long)
      && (!initialized ==> !stopAtFirst && !assignToOne && !skipFirst)
    }

    ghost function Abs(argv: array<string>): State
      reads this, argv
    {
      State(argv[..], optind, index, exchange, long, optarg, optopt)
    }

    ghost function SetupNow(optstring: string, longopts: Option<seq<LongOption>>): Setup
      reads this
    {
      Setup(optstring, longopts, stopAtFirst, assignToOne, skipFirst, errorReturn)
    }

    /** The reset on optind 0 and the first-call initialisation. */
    method Begin(argv: array<string>, optstring: string, ghost longopts: Option<seq<LongOption>>, posix: bool)
      requires Coherent()
      modifies this
      ensures Coherent() && initialized
      ensures Abs(argv) == Begun(old(Abs(argv)), old(initialized))
      ensures if old(optind == 0 || !initialized)
              then SetupNow(optstring, longopts) == SetupOf(optstring, longopts, posix)
              else SetupNow(optstring, longopts) == old(SetupNow(optstring, longopts))
    {
      if optind == 0 {
        index, optind := 0, 1;
        short, long, stopAtFirst, assignToOne, skipFirst, initialized := false, false, false, false, false, false;
      }
      if !initialized {
        Initialize(argv, optstring, longopts, posix);
      }
    }

    method Initialize(argv: array<string>, optstring: string, ghost longopts: Option<seq<LongOption>>, posix: bool)
      requires Coherent() && !initialized
      modifies this`stopAtFirst, this`assignToOne, this`skipFirst, this`errorReturn, this`exchange, this`initialized
      ensures initialized && exchange == argv.Length
      ensures SetupNow(optstring, longopts) == SetupOf(optstring, longopts, posix)
    {
      var first := if optstring == [] then '\0' else optstring[0];
      if first == '+' || posix {
        stopAtFirst := true;
      }
      if first == '-' {
        assignToOne := true;
      }
      if first == '+' || first == '-' || first == ':' {
        skipFirst := true;
      }
      errorReturn := if first == ':' then ':' as int else '?' as int;
      exchange := argv.Length;
      initialized := true;
    }

    /** Whether an option follows position `i`. */
    static method OptionAfter(argv: array<string>, i: nat) returns (found: bool)
      requires i < argv.Length
      ensures found <==> FirstOption(argv[..], i + 1) < argv.Length
    {
      var j := i + 1;
      while j < argv.Length
        invariant i < j <= argv.Length && FirstOption(argv[..], i + 1) == FirstOption(argv[..], j)
      {
        if |argv[j]| >= 2 && argv[j][0] == '-' {
          return true;
        }
        j := j + 1;
      }
      return false;
    }

    /** Shifts everything after `i` down by one and puts the argument at the end. */
    static method MoveOne(argv: array<string>, i: nat)
      requires i < argv.Length
      modifies argv
      ensures argv[..] == MoveToEnd(old(argv[..]), i, i + 1)
    {
      var argument, j := argv[i], i + 1;
      while j < argv.Length
        invariant i < j <= argv.Length
        invariant forall k | 0 <= k < i :: argv[k] == old(argv[k])
        invariant forall k | i <= k < j - 1 :: argv[k] == old(argv[k + 1])
        invariant forall k | j - 1 < k < argv.Length :: argv[k] == old(argv[k])
      {
        argv[j - 1] := argv[j];
        j := j + 1;
      }
      argv[argv.Length - 1] := argument;
      MovedOne(old(argv[..]), argv[..], i);
    }

    method TakeLong(argv: array<string>, optstring: string, longopts: Option<seq<LongOption>>)
      returns (r: int, matched: Option<nat>)
      requires optind < argv.Length && index <= |argv[optind]|
      modifies this`index, this`optind, this`optarg
      ensures (Abs(argv), Answer(r, matched)) == Long(old(SetupNow(optstring, longopts)), old(Abs(argv)))
    {
      if longopts.None? {
        index, optind := 0, optind + 1;
        return errorReturn, None;
      }
      var text, table := argv[optind][index..], longopts.value;
      var e := IndexOf(text, '=', 0);
      var j := 0;
      while j < |table|
        invariant 0 <= j <= |table| && FindLong(table, text[..e], 0) == FindLong(table, text[..e], j)
      {
        if table[j].name == text[..e] {
          index, optind := 0, optind + 1;
          match table[j].arity {
            case NoArgument =>
              if e < |text| {
                return errorReturn, Some(j);
              }
              optarg := None;
            case RequiredArgument =>
              if e < |text| {
                optarg := Some(text[e + 1..]);
              } else {
                if optind >= argv.Length || optind >= exchange || (argv[optind] != [] && argv[optind][0] == '-') {
                  return errorReturn, Some(j);
                }
                optarg := Some(argv[optind]);
                optind := optind + 1;
              }
            case OptionalArgument =>
              if e < |text| {
                optarg := Some(text[e + 1..]);
              } else {
                if optind < argv.Length && optind < exchange && !(argv[optind] != [] && argv[optind][0] == '-') {
                  optarg := Some(argv[optind]);
                  optind := optind + 1;
                } else {
                  optarg := None;
                }
              }
          }
          return if table[j].stored then 0 else table[j].val, Some(j);
        }
        j := j + 1;
      }
      return -1, None;
    }

    /** Finds an option letter in the option string and counts the colons after it. */
    static method Lookup(start: string, option: char) returns (arity: Option<Arity>)
      ensures arity == Declared(start, option)
    {
      var found := IndexOf(start, option, 0);
      if found == |start| {
        return None;
      }
      if found + 1 < |start| && start[found + 1] == ':' {
        if found + 2 < |start| && start[found + 2] == ':' {
          return Some(OptionalArgument);
        }
        return Some(RequiredArgument);
      }
      return Some(NoArgument);
    }

    method TakeShort(argv: array<string>, optstring: string, ghost longopts: Option<seq<LongOption>>) returns (r: int)
      requires optind < argv.Length && index < |argv[optind]|
      modifies this`index, this`optind, this`optarg, this`optopt
      ensures (Abs(argv), Answer(r, None)) == Short(old(SetupNow(optstring, longopts)), old(Abs(argv)))
    {
      hide Declared;
      hide Returned;
      var argument := argv[optind];
      var option := argument[index];
      var arity := Lookup(if skipFirst && optstring != [] then optstring[1..] else optstring, option);
      index := index + 1;
      var rest := argument[index..];
      if index == |argument| {
        optind, index := optind + 1, 0;
      }
      if arity.None? {
        optarg, optopt := None, Returned(option);
        return errorReturn;
      }
      if arity.value == NoArgument {
        optarg := None;
        return Returned(option);
      }
      var missing := TakeValue(argv, rest, arity.value);
      return if missing then errorReturn else Returned(option);
    }

    /** The value of an option: the rest of its argument, or the next argument if that may be taken. */
    method TakeValue(argv: array<string>, rest: string, arity: Arity) returns (missing: bool)
      requires optind <= argv.Length
      modifies this`index, this`optind, this`optarg
      ensures index == 0
      ensures if old(index) != 0 then !missing && optarg == Some(rest) && optind == old(optind) + 1
              else if old(optind) < argv.Length && old(optind) < exchange then
                !missing && optarg == Some(argv[old(optind)]) && optind == old(optind) + 1
              else missing == (arity == RequiredArgument) && optarg == None && optind == old(optind)
    {
      missing := false;
      if index != 0 {
        optarg, optind, index := Some(rest), optind + 1, 0;
      } else if optind < argv.Length && optind < exchange {
        optarg, optind := Some(argv[optind]), optind + 1;
      } else {
        optarg := None;
        missing := arity == RequiredArgument;
      }
    }

    /** Takes an option from the argument at optind. */
    method TakeHere(argv: array<string>, optstring: string, longopts: Option<seq<LongOption>>)
      returns (r: int, matched: Option<nat>)
      requires Coherent() && optind < argv.Length
      requires index < |argv[optind]| && (index == 0 ==> IsOption(argv[optind]))
      modifies this
      ensures Coherent() && SetupNow(optstring, longopts) == old(SetupNow(optstring, longopts))
      ensures (Abs(argv), Answer(r, matched)) == Take(old(SetupNow(optstring, longopts)), old(Abs(argv)))
      ensures initialized == old(initialized)
    {
      hide Short;
      hide Long;
      matched := None;
      if index == 0 {
        long, short := false, false;
        if argv[optind][1] == '-' {
          if |argv[optind]| == 2 {
            optind := optind + 1;
            return -1, None;
          }
          index, long := 2, true;
        } else {
          index, short := 1, true;
        }
      }
      if long {
        r, matched := TakeLong(argv, optstring, longopts);
        return;
      }
      if optstring == [] {
        return -1, None;
      }
      r := TakeShort(argv, optstring, longopts);
    }

    /**
     * Brings the next option to optind by moving the non-options before it to the end, one at a time.
     * `at` is where the scan stopped: optind when there is an option to take, argc when there is none.
     */
    method SkipNonOptions(argv: array<string>) returns (at: nat)
      requires optind < argv.Length && index == 0 && !IsOption(argv[optind])
      modifies this`exchange, argv
      ensures var f := FirstOption(old(argv[..]), optind);
              if f == argv.Length then at == argv.Length && argv[..] == old(argv[..]) && exchange == old(exchange)
              else && at == optind && argv[..] == MoveToEnd(old(argv[..]), optind, f)
                   && exchange == old(exchange) - (f - optind) && IsOption(argv[at])
    {
      hide MoveToEnd;
      hide FirstOption;
      ghost var was, f := argv[..], FirstOption(argv[..], optind);
      ghost var moved := optind;
      at := optind;
      Scanning(was, optind, f, moved, at);
      while at < argv.Length && !IsOption(argv[at])
        invariant optind <= at <= argv.Length && optind <= moved <= f
        invariant if f == argv.Length then moved == optind else at == optind
        invariant argv[..] == MoveToEnd(was, optind, moved) && exchange == old(exchange) - (moved - optind)
        decreases argv.Length - at, f - moved
      {
        Scanning(was, optind, f, moved, at);
        var more := OptionAfter(argv, at);
        if more {
          MoveOne(argv, at);
          MoveOneMore(was, optind, moved);
          moved := moved + 1;
          exchange := exchange - 1;
        } else {
          at := at + 1;
        }
      }
      Scanning(was, optind, f, moved, if at < argv.Length then at else optind);
    }

    /** The setup a call works with: its own on a first call, the remembered one otherwise. */
    ghost function SetupFor(optstring: string, longopts: Option<seq<LongOption>>, posix: bool): Setup
      reads this
    {
      if optind == 0 || !initialized then SetupOf(optstring, longopts, posix) else SetupNow(optstring, longopts)
    }

    /** The position inside an argument still lies inside it. */
    ghost predicate InPlace(argv: array<string>)
      reads this, argv
    {
      0 < optind < argv.Length ==> index == 0 || index < |argv[optind]|
    }

    /** One call of the routine. */
    method Call(argv: array<string>, optstring: Option<string>, longopts: Option<seq<LongOption>>, posix: bool)
      returns (r: int, matched: Option<nat>)
      requires Coherent() && InPlace(argv)
      modifies this, argv
      ensures Coherent()
      ensures optstring.None? ==> r == -1 && unchanged(this) && unchanged(argv)
      ensures optstring.Some? ==>
                && initialized && SetupNow(optstring.value, longopts) == old(SetupFor(optstring.value, longopts, posix))
                && (Abs(argv), Answer(r, matched))
                   == Next(old(SetupFor(optstring.value, longopts, posix)), Begun(old(Abs(argv)), old(initialized)))
    {
      matched := None;
      if optstring.None? {
        return -1, None;
      }
      Begin(argv, optstring.value, longopts, posix);
      r, matched := CallBegun(argv, optstring.value, longopts);
    }

    method CallBegun(argv: array<string>, optstring: string, longopts: Option<seq<LongOption>>)
      returns (r: int, matched: Option<nat>)
      requires Coherent() && initialized && (optind < argv.Length ==> index == 0 || index < |argv[optind]|)
      modifies this, argv
      ensures Coherent() && initialized && SetupNow(optstring, longopts) == old(SetupNow(optstring, longopts))
      ensures (Abs(argv), Answer(r, matched)) == Next(old(SetupNow(optstring, longopts)), old(Abs(argv)))
    {
      hide Take;
      hide MoveToEnd;
      hide FirstOption;
      matched := None;
      if optind == argv.Length {
        index := 0;
        return -1, None;
      }
      if optind > argv.Length {
        return -1, None;
      }
      if index == 0 && !IsOption(argv[optind]) {
        long, short := false, false;
        if stopAtFirst {
          return -1, None;
        }
        if assignToOne {
          optarg := Some(argv[optind]);
          optind := optind + 1;
          return 1, None;
        }
        var at := SkipNonOptions(argv);
        if at == argv.Length {
          return -1, None;
        }
      }
      r, matched := TakeHere(argv, optstring, longopts);
    }

    /**
     * A caller's whole loop, from a parser that is new or has been reset: the run of the setup that the
     * option string and the environment give, over the argv as it was.
     */
    method ParseAll(argv: array<string>, optstring: string, longopts: Option<seq<LongOption>>, posix: bool)
      returns (answers: seq<int>)
      requires Coherent() && (optind == 0 || (!initialized && index == 0))
      modifies this, argv
      ensures Coherent() && initialized
      ensures var c, s := SetupOf(optstring, longopts, posix), Begun(old(Abs(argv)), old(initialized));
              if s.optind > |s.argv| then answers == [] && Abs(argv) == s
              else Inv(c, s) && (Abs(argv), answers) == Run(c, s)
    {
      hide Next;
      hide Run;
      Begin(argv, optstring, longopts, posix);
      FirstCall(SetupOf(optstring, longopts, posix), old(Abs(argv)), old(initialized));
      if optind > argv.Length {
        var r, _ := CallBegun(argv, optstring, longopts);
        PastTheEnd(SetupOf(optstring, longopts, posix), Begun(old(Abs(argv)), old(initialized)));
        return [];
      }
      answers := CallAll(argv, optstring, longopts);
    }

    /** Calling in a loop until -1 ends, with the answers and the argv of the run. */
    method CallAll(argv: array<string>, optstring: string, longopts: Option<seq<LongOption>>) returns (answers: seq<int>)
      requires Coherent() && initialized && Inv(SetupNow(optstring, longopts), Abs(argv))
      modifies this, argv
      ensures Coherent() && initialized && SetupNow(optstring, longopts) == old(SetupNow(optstring, longopts))
      ensures (Abs(argv), answers) == Run(old(SetupNow(optstring, longopts)), old(Abs(argv)))
      decreases argv.Length - optind, if index == 0 then 1 else 0,
                if index == 0 then 0 else |argv[optind]| - index
    {
      hide Next;
      ghost var c, s := SetupNow(optstring, longopts), Abs(argv);
      NextKeeps(c, s);
      MidArgument(c, s);
      var r, _ := CallBegun(argv, optstring, longopts);
      answers := [];
      if r != -1 {
        answers := CallAll(argv, optstring, longopts);
        answers := [r] + answers;
      }
    }
  }

  /** While non-options are being moved, an option still follows; when there is none, nothing moves. */
  lemma Scanning(argv: seq<string>, i: nat, f: nat, moved: nat, at: nat)
    requires i <= at < |argv| && f == FirstOption(argv, i) && i <= moved <= f
    requires if f == |argv| then moved == i else at == i
    ensures var argv' := MoveToEnd(argv, i, moved);
            if f == |argv| then argv' == argv && !IsOption(argv[at]) && FirstOption(argv, at + 1) == |argv|
            else if moved < f then !IsOption(argv'[at]) && FirstOption(argv', at + 1) < |argv|
            else IsOption(argv'[at])
    ensures MoveToEnd(argv, i, i) == argv
  {
    var argv' := MoveToEnd(argv, i, moved);
    assert argv[..i] + argv[i..] + argv[i..i] == argv;
    if f < |argv| {
      assert argv'[i] == argv[moved];
      if moved < f {
        assert argv'[i + (f - moved)] == argv[f];
      }
    }
  }
}
