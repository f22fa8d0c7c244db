/** What one call of getopt answers and leaves in optarg, said of the arguments as they are written. */
module OptionValues {
  import opened Basics
  import opened Getopt

  // ----- Long options -----

  /** Entry `j` is the first of the table that has the name. */
  ghost predicate FirstOf(table: seq<LongOption>, name: string, j: nat) {
    j < |table| && table[j].name == name && forall i | 0 <= i < j :: table[i].name != name
  }

  /** The call starts at an argument. */
  ghost predicate StartsAt(s: State, argument: string) {
    s.index == 0 && s.optind < |s.argv| && s.argv[s.optind] == argument
  }

  /** The next argument can be the value of a long option. */
  ghost predicate NextIsValue(s: State) {
    s.optind + 1 < |s.argv| && s.optind + 1 < s.exchange && (s.argv[s.optind + 1] == "" || s.argv[s.optind + 1][0] != '-')
  }

  /** What an entry answers: 0 when it stores its value itself. */
  ghost function Answered(table: seq<LongOption>, j: nat): Answer
    requires j < |table|
  {
    Answer(if table[j].stored then 0 else table[j].val, Some(j))
  }

  lemma {:induction false} FindsFirst(table: seq<LongOption>, name: string, j: nat, k: nat)
    requires FirstOf(table, name, j) && k <= j
    ensures FindLong(table, name, k) == j
    decreases j - k
  {
    if k < j {
      FindsFirst(table, name, j, k + 1);
    }
  }

  lemma {:induction false} FindsEquals(name: string, rest: string, k: nat)
    requires '=' !in name && k <= |name| && (rest == "" || rest[0] == '=')
    ensures IndexOf(name + rest, '=', k) == |name|
    decreases |name| - k
  {
    if k < |name| {
      assert (name + rest)[k] == name[k];
      FindsEquals(name, rest, k + 1);
    }
  }

  /** How the argument is taken apart: the name in front of the equals sign. */
  lemma LongText(s: State, name: string, rest: string)
    requires StartsAt(s, "--" + name + rest) && '=' !in name && (rest == "" || rest[0] == '=')
    requires name + rest != ""
    ensures IsOption(s.argv[s.optind]) && s.argv[s.optind] != "--" && s.argv[s.optind][1] == '-'
    ensures var text := s.argv[s.optind][2..];
            text == name + rest && IndexOf(text, '=', 0) == |name| && text[..|name|] == name
            && (rest != "" ==> text[|name| + 1..] == rest[1..])
  {
    var arg := s.argv[s.optind];
    assert arg[2..] == name + rest;
    FindsEquals(name, rest, 0);
  }

  /** `--name=value`: the value is what is behind the equals sign. */
  lemma LongAttached(c: Setup, s: State, name: string, value: string, j: nat)
    requires StartsAt(s, "--" + name + ("=" + value)) && '=' !in name
    requires c.longopts.Some? && FirstOf(c.longopts.value, name, j) && c.longopts.value[j].arity != NoArgument
    ensures Next(c, s) == (s.(optind := s.optind + 1, long := true, optarg := Some(value)), Answered(c.longopts.value, j))
  {
    LongText(s, name, "=" + value);
    FindsFirst(c.longopts.value, name, j, 0);
    hide IndexOf;
    hide FindLong;
    assert ("=" + value)[1..] == value;
  }

  /** `--name=value` where no value is allowed: refused, and optarg stays. */
  lemma LongRefused(c: Setup, s: State, name: string, value: string, j: nat)
    requires StartsAt(s, "--" + name + ("=" + value)) && '=' !in name
    requires c.longopts.Some? && FirstOf(c.longopts.value, name, j) && c.longopts.value[j].arity == NoArgument
    ensures Next(c, s) == (s.(optind := s.optind + 1, long := true), Answer(c.errorReturn, Some(j)))
  {
    LongText(s, name, "=" + value);
    FindsFirst(c.longopts.value, name, j, 0);
    hide IndexOf;
    hide FindLong;
  }

  /** `--name value`: the next argument is the value, unless it looks like an option or was moved there. */
  lemma LongNext(c: Setup, s: State, name: string, j: nat)
    requires StartsAt(s, "--" + name) && '=' !in name && name != "" && NextIsValue(s)
    requires c.longopts.Some? && FirstOf(c.longopts.value, name, j) && c.longopts.value[j].arity != NoArgument
    ensures Next(c, s) == (s.(optind := s.optind + 2, long := true, optarg := Some(s.argv[s.optind + 1])),
                           Answered(c.longopts.value, j))
  {
    assert "--" + name + "" == "--" + name;
    LongText(s, name, "");
    FindsFirst(c.longopts.value, name, j, 0);
    hide IndexOf;
    hide FindLong;
  }

  /** `--name` alone: no value where none is allowed or none is there, and a missing required one is refused. */
  lemma LongAlone(c: Setup, s: State, name: string, j: nat)
    requires StartsAt(s, "--" + name) && '=' !in name && name != ""
    requires c.longopts.Some? && FirstOf(c.longopts.value, name, j)
    requires c.longopts.value[j].arity == NoArgument || !NextIsValue(s)
    ensures if c.longopts.value[j].arity == RequiredArgument
            then Next(c, s) == (s.(optind := s.optind + 1, long := true), Answer(c.errorReturn, Some(j)))
            else Next(c, s) == (s.(optind := s.optind + 1, long := true, optarg := None), Answered(c.longopts.value, j))
  {
    assert "--" + name + "" == "--" + name;
    LongText(s, name, "");
    FindsFirst(c.longopts.value, name, j, 0);
    hide IndexOf;
    hide FindLong;
  }

  // ----- Short options -----

  /** The option string declares `o` at `k` with so many colons behind it, two at most. */
  ghost predicate Declares(spec: string, o: char, k: nat, colons: nat) {
    && k < |spec| && spec[k] == o && o !in spec[..k] && colons <= 2
    && (colons == 0 <==> k + 1 == |spec| || spec[k + 1] != ':')
    && (colons == 2 <==> k + 2 < |spec| && spec[k + 1] == ':' && spec[k + 2] == ':')
  }

  /** Where the call finds its option letter, and what is behind it in the argument. */
  ghost predicate ShortAt(c: Setup, s: State, o: char, rest: string) {
    && c.optstring != [] && s.optind < |s.argv|
    && var arg, k := s.argv[s.optind], Max(s.index, 1);
       && k < |arg| && arg[k] == o && arg[k + 1..] == rest
       && (if s.index == 0 then arg[0] == '-' && o != '-' else !s.long)
  }

  /** An option letter as an int: a char is signed. */
  ghost predicate IsLetter(r: int, o: char) {
    -128 <= r <= 127 && r % 256 == o as int % 256
  }

  lemma {:induction false} FindsLetter(spec: string, o: char, k: nat, i: nat)
    requires k <= |spec| && o !in spec[..k] && (k < |spec| ==> spec[k] == o) && i <= k
    ensures IndexOf(spec, o, i) == k
    decreases k - i
  {
    if i < k {
      assert spec[..k][i] == spec[i];
      FindsLetter(spec, o, k, i + 1);
    }
  }

  lemma ArityOf(spec: string, o: char, k: nat, colons: nat)
    requires Declares(spec, o, k, colons)
    ensures Declared(spec, o)
         == Some(if colons == 0 then NoArgument else if colons == 1 then RequiredArgument else OptionalArgument)
  {
    FindsLetter(spec, o, k, 0);
  }

  lemma ReturnedIs(o: char)
    ensures IsLetter(Returned(o), o)
  {
  }

  /** `-oVALUE`: the rest of the argument is the value. */
  lemma ShortAttached(c: Setup, s: State, o: char, k: nat, colons: nat, value: string)
    requires ShortAt(c, s, o, value) && value != "" && Declares(Spec(c), o, k, colons) && colons > 0
    ensures var (s', a) := Next(c, s);
            && s' == s.(optind := s.optind + 1, index := 0, long := false, optarg := Some(value))
            && IsLetter(a.r, o) && a.matched == None
  {
    ArityOf(Spec(c), o, k, colons);
    ReturnedIs(o);
    hide Declared;
    hide Returned;
  }

  /** `-o VALUE`: the next argument is the value, whatever it looks like, unless it was moved there. */
  lemma ShortNext(c: Setup, s: State, o: char, k: nat, colons: nat)
    requires ShortAt(c, s, o, "") && Declares(Spec(c), o, k, colons) && colons > 0
    requires s.optind + 1 < |s.argv| && s.optind + 1 < s.exchange
    ensures var (s', a) := Next(c, s);
            && s' == s.(optind := s.optind + 2, index := 0, long := false, optarg := Some(s.argv[s.optind + 1]))
            && IsLetter(a.r, o) && a.matched == None
  {
    ArityOf(Spec(c), o, k, colons);
    ReturnedIs(o);
    hide Declared;
    hide Returned;
  }

  /** Where a call stands behind a letter that has taken no value. */
  ghost function Behind(s: State, rest: string): State {
    if rest == "" then s.(optind := s.optind + 1, index := 0, long := false)
    else s.(index := Max(s.index, 1) + 1, long := false)
  }

  /** `-o` without a value: the letter is answered, and the call goes on in the same argument. */
  lemma ShortAlone(c: Setup, s: State, o: char, k: nat, rest: string)
    requires ShortAt(c, s, o, rest) && Declares(Spec(c), o, k, 0)
    ensures var (s', a) := Next(c, s);
            s' == Behind(s, rest).(optarg := None) && IsLetter(a.r, o) && a.matched == None
  {
    ArityOf(Spec(c), o, k, 0);
    ReturnedIs(o);
    hide Declared;
    hide Returned;
  }

  /** `-o` at the end of the arguments: a required value is missing, an optional one is not there. */
  lemma ShortMissing(c: Setup, s: State, o: char, k: nat, colons: nat)
    requires ShortAt(c, s, o, "") && Declares(Spec(c), o, k, colons) && colons > 0
    requires s.optind + 1 >= |s.argv| || s.optind + 1 >= s.exchange
    ensures var (s', a) := Next(c, s);
            && s' == Behind(s, "").(optarg := None) && a.matched == None
            && (if colons == 1 then a.r == c.errorReturn else IsLetter(a.r, o))
  {
    ArityOf(Spec(c), o, k, colons);
    ReturnedIs(o);
    hide Declared;
    hide Returned;
  }

  /** A letter that is not declared: the error answer, and the letter in optopt. */
  lemma ShortUnknown(c: Setup, s: State, o: char, rest: string)
    requires ShortAt(c, s, o, rest) && o !in Spec(c)
    ensures var (s', a) := Next(c, s);
            && s' == Behind(s, rest).(optarg := None, optopt := s'.optopt) && IsLetter(s'.optopt, o)
            && a == Answer(c.errorReturn, None)
  {
    var spec := Spec(c);
    assert spec[..|spec|] == spec;
    FindsLetter(spec, o, |spec|, 0);
    ReturnedIs(o);
    hide Returned;
  }

  // ----- What the option string asks for -----

  /** The first character of the option string chooses how operands and missing values are answered. */
  lemma Modes(optstring: string, longopts: Option<seq<LongOption>>, posix: bool)
    ensures var c := SetupOf(optstring, longopts, posix);
            && c.optstring == optstring && c.longopts == longopts
            && (c.errorReturn == ':' as int || c.errorReturn == '?' as int)
            && (c.errorReturn == ':' as int <==> optstring != "" && optstring[0] == ':')
            && Spec(c) == if optstring != "" && optstring[0] in "+-:" then optstring[1..] else optstring
  {
  }

  /** An operand in front ends the run, is handed over, or is passed by, as the option string asks. */
  lemma Operand(optstring: string, longopts: Option<seq<LongOption>>, posix: bool, s: State)
    requires s.index == 0 && s.optind < |s.argv| && !IsOption(s.argv[s.optind])
    ensures var c, s0 := SetupOf(optstring, longopts, posix), s.(long := false);
            && (posix || (optstring != "" && optstring[0] == '+') ==> Next(c, s) == (s0, Answer(-1, None)))
            && (!posix && optstring != "" && optstring[0] == '-' ==>
                  Next(c, s) == (s0.(optind := s.optind + 1, optarg := Some(s.argv[s.optind])), Answer(1, None)))
            && (!posix && (optstring == "" || optstring[0] !in "+-") ==>
                  forall f: nat | s.optind < f < |s.argv| && IsOption(s.argv[f])
                                  && (forall i | s.optind <= i < f :: !IsOption(s.argv[i])) ::
                    Next(c, s) == Next(c, Moved(s0, f)))
  {
    hide MoveToEnd;
    hide Take;
    var c := SetupOf(optstring, longopts, posix);
    if !posix && (optstring == "" || optstring[0] !in "+-") {
      forall f: nat | s.optind < f < |s.argv| && IsOption(s.argv[f])
                      && (forall i | s.optind <= i < f :: !IsOption(s.argv[i]))
        ensures Next(c, s) == Next(c, Moved(s.(long := false), f))
      {
        PassedBy(c, s, f);
      }
    }
  }

  /** The state with the operands up to `f` behind all other arguments. */
  ghost function Moved(s: State, f: nat): State
    requires s.optind <= f <= |s.argv|
  {
    s.(argv := s.argv[..s.optind] + s.argv[f..] + s.argv[s.optind..f], exchange := s.exchange - (f - s.optind))
  }

  lemma PassedBy(c: Setup, s: State, f: nat)
    requires s.index == 0 && !c.stopAtFirst && !c.assignToOne
    requires s.optind < f < |s.argv| && IsOption(s.argv[f]) && forall i | s.optind <= i < f :: !IsOption(s.argv[i])
    ensures Next(c, s) == Next(c, Moved(s.(long := false), f))
  {
    hide Take;
    FirstIs(s.argv, s.optind, f);
    hide FirstOption;
    var s1 := Moved(s.(long := false), f);
    assert s1.argv[s1.optind] == s.argv[f];
  }

  lemma {:induction false} FirstIs(argv: seq<string>, i: nat, f: nat)
    requires i <= f < |argv| && IsOption(argv[f]) && forall k | i <= k < f :: !IsOption(argv[k])
    ensures FirstOption(argv, i) == f
    decreases f - i
  {
    if i < f {
      FirstIs(argv, i + 1, f);
    }
  }

  /** A call with optind 0 starts over at the first argument, and the first call takes all arguments as unmoved. */
  lemma StartsOver(s: State, initialized: bool)
    ensures var s' := Begun(s, initialized);
            && s'.argv == s.argv && s'.optarg == s.optarg && s'.optopt == s.optopt
            && (s.optind == 0 ==> s'.optind == 1 && s'.index == 0 && !s'.long && s'.exchange == |s.argv|)
            && (s.optind > 0 ==> s'.optind == s.optind && s'.index == s.index && s'.long == s.long)
            && (s.optind > 0 ==> s'.exchange == if initialized then s.exchange else |s.argv|)
  {
  }

  /** `--` ends the run right behind it. */
  lemma Terminator(c: Setup, s: State)
    requires StartsAt(s, "--")
    ensures Next(c, s) == (s.(optind := s.optind + 1, long := false), Answer(-1, None))
  {
  }
}
