/**
 * Building a Windows command line from an argument vector, and the splitting rules of the C runtime
 * that reads it back. A C string is a sequence whose end stands for the terminating NUL.
 */
module CommandLine {
  import opened Basics

  predicate IsBlank(c: char) {
    c == ' ' || c == '\t'
  }

  function Slashes(n: nat): (s: string)
    ensures |s| == n && forall i | 0 <= i < n :: s[i] == '\\'
  {
    Repeat('\\', n)
  }

  /** How many backslashes `s` starts with. */
  function Leading(s: string): (n: nat)
    ensures n <= |s| && (n < |s| ==> s[n] != '\\')
  {
    if s == [] || s[0] != '\\' then 0 else 1 + Leading(s[1..])
  }

  lemma {:induction false} LeadingIs(s: string)
    ensures s[..Leading(s)] == Slashes(Leading(s))
  {
    if s != [] && s[0] == '\\' {
      LeadingIs(s[1..]);
      assert s[..Leading(s)] == [s[0]] + s[1..][..Leading(s) - 1];
    }
  }

  predicate NeedsQuotes(arg: string) {
    exists i | 0 <= i < |arg| :: IsBlank(arg[i]) || arg[i] == '"'
  }

  /** `n` backslashes and the character that ends them, inside quotes. */
  function Piece(n: nat, c: char): string {
    if c == '"' then Slashes(2 * n + 1) + [c] else Slashes(n) + [c]
  }

  /** The argument between its quotes: backslashes double before a quote and at the end. */
  function Body(s: string): string
    decreases |s|
  {
    var n := Leading(s);
    if n == |s| then Slashes(2 * n) else Piece(n, s[n]) + Body(s[n + 1..])
  }

  /** How one argument appears on the command line. An empty argument leaves no trace. */
  function Escape(arg: string): string {
    if NeedsQuotes(arg) then "\"" + Body(arg) + "\"" else arg
  }

  /** An argument without blanks, tabs and quotes goes as it is; any other goes between quotes. */
  lemma EscapeForm(arg: string)
    ensures ' ' !in arg && '\t' !in arg && '"' !in arg <==> Escape(arg) == arg
    ensures ' ' in arg || '\t' in arg || '"' in arg ==>
              |Escape(arg)| >= 2 && Escape(arg)[0] == '"' && Escape(arg)[|Escape(arg)| - 1] == '"'
  {
    hide Body;
    if ' ' in arg {
      var i :| 0 <= i < |arg| && arg[i] == ' ';
      assert IsBlank(arg[i]);
    }
    if '\t' in arg {
      var i :| 0 <= i < |arg| && arg[i] == '\t';
      assert IsBlank(arg[i]);
    }
    if '"' in arg {
      var i :| 0 <= i < |arg| && arg[i] == '"';
      assert IsBlank(arg[i]) || arg[i] == '"';
    }
    BodyIsLonger(arg);
  }

  lemma {:induction false} BodyIsLonger(s: string)
    ensures |Body(s)| >= |s|
    decreases |s|
  {
    hide Leading;
    var n := Leading(s);
    if n < |s| {
      BodyIsLonger(s[n + 1..]);
    }
  }

  function Joined(args: seq<string>): string {
    if args == [] then []
    else if |args| == 1 then Escape(args[0])
    else Escape(args[0]) + " " + Joined(args[1..])
  }

  // ----- The splitting rules of the C runtime -----

  function Prepend(prefix: string, r: (string, string)): (string, string) {
    (prefix + r.0, r.1)
  }

  /** Reads one argument: 2n backslashes and a quote make n and toggle quoting, 2n+1 make n and a literal quote. */
  function ScanArg(p: string, quoted: bool): (r: (string, string))
    ensures |r.1| <= |p|
    ensures p != [] && (quoted || !IsBlank(p[0])) ==> |r.1| < |p|
    decreases |p|
  {
    var n := Leading(p);
    if n == |p| then (Slashes(n), [])
    else if p[n] == '"' then
      if n % 2 == 1 then Prepend(Slashes(n / 2) + "\"", ScanArg(p[n + 1..], quoted))
      else if quoted && n + 1 < |p| && p[n + 1] == '"' then
        Prepend(Slashes(n / 2) + "\"", ScanArg(p[n + 2..], quoted))
      else Prepend(Slashes(n / 2), ScanArg(p[n + 1..], !quoted))
    else if !quoted && IsBlank(p[n]) then (Slashes(n), p[n..])
    else Prepend(Slashes(n) + [p[n]], ScanArg(p[n + 1..], quoted))
  }

  function SkipBlanks(p: string): (r: string)
    ensures |r| <= |p| && (r != [] ==> !IsBlank(r[0]))
  {
    if p != [] && IsBlank(p[0]) then SkipBlanks(p[1..]) else p
  }

  function SplitRest(p: string): seq<string>
    decreases |p|
  {
    var q := SkipBlanks(p);
    if q == [] then [] else [ScanArg(q, false).0] + SplitRest(ScanArg(q, false).1)
  }

  /** The program name: quotes toggle and vanish, backslashes mean nothing. */
  function ScanProgram(p: string, quoted: bool): (r: (string, string)) {
    if p == [] then ([], [])
    else if p[0] == '"' then ScanProgram(p[1..], !quoted)
    else if !quoted && IsBlank(p[0]) then ([], p[1..])
    else Prepend([p[0]], ScanProgram(p[1..], quoted))
  }

  function Split(line: string): seq<string> {
    var (program, rest) := ScanProgram(line, false);
    [program] + SplitRest(rest)
  }

  // ----- Round trip -----

  lemma LeadingOf(n: nat, x: string)
    requires x == [] || x[0] != '\\'
    ensures Leading(Slashes(n) + x) == n
  {
    if n > 0 {
      assert (Slashes(n) + x)[1..] == Slashes(n - 1) + x;
      LeadingOf(n - 1, x);
    } else {
      assert Slashes(0) + x == x;
    }
  }

  ghost predicate Ends(tail: string) {
    tail == [] || IsBlank(tail[0])
  }

  lemma StepChar(n: nat, c: char, rest: string, quoted: bool)
    requires c != '\\' && c != '"' && (quoted || !IsBlank(c))
    ensures ScanArg(Slashes(n) + [c] + rest, quoted) == Prepend(Slashes(n) + [c], ScanArg(rest, quoted))
  {
    var line := Slashes(n) + [c] + rest;
    assert line == Slashes(n) + ([c] + rest);
    LeadingOf(n, [c] + rest);
    assert line[n + 1..] == rest;
  }

  lemma StepLiteralQuote(n: nat, rest: string, quoted: bool)
    ensures ScanArg(Slashes(2 * n + 1) + "\"" + rest, quoted) == Prepend(Slashes(n) + "\"", ScanArg(rest, quoted))
  {
    hide Leading;
    hide Slashes;
    var m := 2 * n + 1;
    var line := Slashes(m) + "\"" + rest;
    assert line == Slashes(m) + ("\"" + rest);
    LeadingOf(m, "\"" + rest);
    assert line[m] == '"' && line[m + 1..] == rest;
    assert m % 2 == 1 && m / 2 == n;
  }

  lemma StepCloseQuote(n: nat, tail: string)
    requires Ends(tail)
    ensures ScanArg(Slashes(2 * n) + "\"" + tail, true) == (Slashes(n), tail)
  {
    hide Leading;
    hide Slashes;
    var m := 2 * n;
    var line := Slashes(m) + "\"" + tail;
    assert line == Slashes(m) + ("\"" + tail);
    LeadingOf(m, "\"" + tail);
    assert line[m] == '"' && line[m + 1..] == tail && (tail != [] ==> line[m + 1] == tail[0]);
    assert m % 2 == 0 && m / 2 == n;
    assert ScanArg(tail, false) == ([], tail) by {
      StepEnd(0, tail);
      assert Slashes(0) == [] && [] + tail == tail;
    }
    assert Slashes(n) + [] == Slashes(n);
  }

  lemma StepEnd(n: nat, tail: string)
    requires Ends(tail)
    ensures ScanArg(Slashes(n) + tail, false) == (Slashes(n), tail)
  {
    LeadingOf(n, tail);
    assert (Slashes(n) + tail)[n..] == tail;
  }

  /** An argument without blanks or quotes is read back as it is. */
  lemma {:induction false} ScanPlain(a: string, tail: string)
    requires !NeedsQuotes(a) && Ends(tail)
    ensures ScanArg(a + tail, false) == (a, tail)
    decreases |a|
  {
    hide ScanArg;
    hide Leading;
    var n := Leading(a);
    LeadingIs(a);
    if n == |a| {
      assert a == a[..n] == Slashes(n);
      StepEnd(n, tail);
    } else {
      var rest := a[n + 1..];
      assert a == Slashes(n) + [a[n]] + rest;
      assert a + tail == Slashes(n) + [a[n]] + (rest + tail);
      StepChar(n, a[n], rest + tail, false);
      assert forall i | 0 <= i < |rest| :: rest[i] == a[n + 1 + i];
      ScanPlain(rest, tail);
    }
  }

  lemma StepPiece(n: nat, c: char, rest: string)
    requires c != '\\'
    ensures ScanArg(Piece(n, c) + rest, true) == Prepend(Slashes(n) + [c], ScanArg(rest, true))
  {
    hide ScanArg;
    if c == '"' {
      StepLiteralQuote(n, rest, true);
    } else {
      StepChar(n, c, rest, true);
    }
  }

  /** The quoted form is read back as the argument, from inside its quotes. */
  lemma {:induction false} ScanBody(a: string, tail: string)
    requires Ends(tail)
    ensures ScanArg(Body(a) + "\"" + tail, true) == (a, tail)
    decreases |a|
  {
    hide ScanArg;
    hide Leading;
    hide Slashes;
    hide Piece;
    var n := Leading(a);
    LeadingIs(a);
    if n == |a| {
      ScanAllSlashes(a, tail);
    } else {
      var rest := a[n + 1..];
      var more := Body(rest) + "\"" + tail;
      assert Body(a) + "\"" + tail == Piece(n, a[n]) + more;
      StepPiece(n, a[n], more);
      ScanBody(rest, tail);
      assert a == a[..n] + [a[n]] + rest;
    }
  }

  lemma ScanAllSlashes(a: string, tail: string)
    requires Leading(a) == |a| && Ends(tail)
    ensures ScanArg(Body(a) + "\"" + tail, true) == (a, tail)
  {
    hide ScanArg;
    hide Leading;
    LeadingIs(a);
    assert a == a[..|a|] == Slashes(|a|);
    BodyOnce(a, |a|);
    hide Body;
    StepCloseQuote(|a|, tail);
  }

  lemma StepOpenQuote(rest: string)
    ensures ScanArg("\"" + rest, false) == ScanArg(rest, true)
  {
    var line, r := "\"" + rest, ScanArg(rest, true);
    assert Leading(line) == 0;
    assert line[1..] == rest;
    assert Slashes(0) + r.0 == r.0;
  }

  lemma ScanEscaped(a: string, tail: string)
    requires a != [] && Ends(tail)
    ensures ScanArg(Escape(a) + tail, false) == (a, tail)
    ensures Escape(a) != [] && !IsBlank(Escape(a)[0])
  {
    hide ScanArg;
    hide Body;
    if NeedsQuotes(a) {
      assert Escape(a) + tail == "\"" + (Body(a) + "\"" + tail);
      StepOpenQuote(Body(a) + "\"" + tail);
      ScanBody(a, tail);
    } else {
      ScanPlain(a, tail);
    }
  }

  function NonEmpty(args: seq<string>): (r: seq<string>)
    ensures |r| <= |args|
    ensures (forall i | 0 <= i < |args| :: args[i] != []) <==> r == args
  {
    if args == [] then []
    else if args[0] == [] then NonEmpty(args[1..])
    else
      assert forall i | 0 < i < |args| :: args[i] == args[1..][i - 1];
      assert [args[0]] + args[1..] == args;
      [args[0]] + NonEmpty(args[1..])
  }

  /** Everything after the program name is read back, minus the empty arguments. */
  lemma {:induction false} RestSplits(args: seq<string>)
    ensures SplitRest(Joined(args)) == NonEmpty(args)
  {
    hide ScanArg;
    if args != [] {
      var tail := if |args| == 1 then [] else " " + Joined(args[1..]);
      var line := Joined(args);
      assert line == Escape(args[0]) + tail;
      RestSplits(args[1..]);
      SkipsBlank(Joined(args[1..]));
      if args[0] == [] {
        assert line == tail;
      } else {
        ScanEscaped(args[0], tail);
        assert SkipBlanks(line) == line;
      }
    }
  }

  lemma SkipsBlank(p: string)
    ensures SplitRest(" " + p) == SplitRest(p)
  {
    assert (" " + p)[1..] == p;
  }

  // ----- The program name -----

  /** Backslashes at the end of an argument. */
  function AtEnd(s: string): nat
    decreases |s|
  {
    var n := Leading(s);
    if n == |s| then n else AtEnd(s[n + 1..])
  }

  lemma {:induction false} AtEndIsLast(s: string)
    ensures AtEnd(s) == 0 <==> s == [] || s[|s| - 1] != '\\'
    decreases |s|
  {
    var n := Leading(s);
    LeadingIs(s);
    if n < |s| {
      AtEndIsLast(s[n + 1..]);
    } else if n > 0 {
      assert s[..n][n - 1] == '\\';
    }
  }

  lemma {:induction false} BodyWithoutQuotes(s: string)
    requires '"' !in s
    ensures Body(s) == s + Slashes(AtEnd(s))
    decreases |s|
  {
    hide Leading;
    var n := Leading(s);
    LeadingIs(s);
    if n == |s| {
      assert s == s[..n];
      assert Slashes(2 * n) == Slashes(n) + Slashes(n);
    } else {
      BodyWithoutQuotes(s[n + 1..]);
      assert s == s[..n] + [s[n]] + s[n + 1..];
    }
  }

  lemma {:induction false} ProgramSkips(x: string, tail: string, quoted: bool)
    requires '"' !in x && (quoted || !NeedsQuotes(x))
    ensures ScanProgram(x + tail, quoted) == Prepend(x, ScanProgram(tail, quoted))
  {
    if x == [] {
      assert x + tail == tail;
      assert x + ScanProgram(tail, quoted).0 == ScanProgram(tail, quoted).0;
    } else {
      assert (x + tail)[1..] == x[1..] + tail;
      assert forall i | 0 <= i < |x[1..]| :: x[1..][i] == x[i + 1];
      ProgramSkips(x[1..], tail, quoted);
      var more := ScanProgram(tail, quoted).0;
      assert [x[0]] + (x[1..] + more) == x + more;
    }
  }

  lemma {:induction false} ProgramLosesQuotes(p: string, quoted: bool)
    ensures '"' !in ScanProgram(p, quoted).0
  {
    if p != [] {
      ProgramLosesQuotes(p[1..], quoted);
      ProgramLosesQuotes(p[1..], !quoted);
    }
  }

  /** A name without quotes comes back with its last backslashes repeated if it had to be quoted. */
  lemma ProgramScans(p: string, tail: string)
    requires '"' !in p && (tail == [] || tail[0] == ' ')
    ensures ScanProgram(Escape(p) + tail, false)
         == (p + (if NeedsQuotes(p) then Slashes(AtEnd(p)) else []), if tail == [] then [] else tail[1..])
  {
    hide ScanProgram;
    ProgramEnds(tail);
    if NeedsQuotes(p) {
      hide Body;
      BodyWithoutQuotes(p);
      assert Escape(p) + tail == "\"" + (Body(p) + ("\"" + tail));
      ProgramToggles(Body(p) + ("\"" + tail), false);
      ProgramSkips(Body(p), "\"" + tail, true);
      ProgramToggles(tail, true);
      assert Body(p) + [] == Body(p);
    } else {
      ProgramSkips(p, tail, false);
      assert p + [] == p;
    }
  }

  lemma ProgramToggles(p: string, quoted: bool)
    ensures ScanProgram("\"" + p, quoted) == ScanProgram(p, !quoted)
  {
    assert ("\"" + p)[1..] == p;
  }

  lemma ProgramEnds(tail: string)
    requires tail == [] || tail[0] == ' '
    ensures ScanProgram(tail, false) == ([], if tail == [] then [] else tail[1..])
  {
  }

  /** Names the program-name rules give back unchanged. */
  predicate FaithfulName(p: string) {
    '"' !in p && (NeedsQuotes(p) ==> p != [] && p[|p| - 1] != '\\')
  }

  /**
   * Splitting the command line gives the argument vector back exactly when no argument after the first
   * is empty and the program name has no quote and does not end a quoted name in a backslash.
   */
  lemma SplitsBack(argv: seq<string>)
    requires argv != []
    ensures Split(Joined(argv)) == argv <==>
              FaithfulName(argv[0]) && forall i | 0 < i < |argv| :: argv[i] != []
  {
    hide ScanProgram;
    hide SplitRest;
    hide Escape;
    var name, rest := argv[0], argv[1..];
    assert argv == [name] + rest;
    assert forall i | 0 <= i < |rest| :: rest[i] == argv[i + 1];
    SplitsInto(name, rest);
    SplitParts(Joined(argv), name, rest);
    if '"' !in name {
      AtEndIsLast(name);
    }
  }

  lemma SplitsInto(name: string, rest: seq<string>)
    ensures var r := ScanProgram(Joined([name] + rest), false);
            && '"' !in r.0
            && ('"' !in name ==>
                  && r.0 == name + (if NeedsQuotes(name) then Slashes(AtEnd(name)) else [])
                  && SplitRest(r.1) == NonEmpty(rest))
  {
    hide ScanProgram;
    hide SplitRest;
    hide Escape;
    var line := Joined([name] + rest);
    var tail := if rest == [] then [] else " " + Joined(rest);
    assert ([name] + rest)[1..] == rest;
    assert line == Escape(name) + tail;
    ProgramLosesQuotes(line, false);
    if '"' !in name {
      ProgramScans(name, tail);
      RestSplits(rest);
      assert tail != [] ==> tail[1..] == Joined(rest);
    }
  }

  lemma SplitParts(line: string, name: string, rest: seq<string>)
    ensures Split(line) == [name] + rest <==>
              ScanProgram(line, false).0 == name && SplitRest(ScanProgram(line, false).1) == rest
  {
    var r := ScanProgram(line, false);
    assert Split(line) == [r.0] + SplitRest(r.1);
    assert Split(line)[0] == r.0 && Split(line)[1..] == SplitRest(r.1);
    assert ([name] + rest)[0] == name && ([name] + rest)[1..] == rest;
  }

  // ----- The two passes that build an argument -----

  /** The quoted form of the rest of an argument, from the backslashes at `i` up to `j`. */
  lemma BodyFrom(arg: string, i: nat, j: nat)
    requires i <= |arg| && j == i + Leading(arg[i..])
    ensures j == |arg| ==> Body(arg[i..]) == Slashes(2 * (j - i)) && AtEnd(arg[i..]) == j - i
    ensures j < |arg| && arg[j] == '"' ==> Body(arg[i..]) == Slashes(2 * (j - i) + 1) + ['"'] + Body(arg[j + 1..])
    ensures j < |arg| && arg[j] != '"' ==> Body(arg[i..]) == Slashes(j - i) + ([arg[j]] + Body(arg[j + 1..]))
    ensures j < |arg| ==> AtEnd(arg[i..]) == AtEnd(arg[j + 1..])
  {
    hide Leading;
    hide Body;
    hide AtEnd;
    BodyOnce(arg[i..], j - i);
    AtEndOnce(arg[i..], j - i);
    if j < |arg| {
      RestOf(arg, i, j);
      if arg[j] != '"' {
        assert Slashes(j - i) + [arg[j]] + Body(arg[j + 1..]) == Slashes(j - i) + ([arg[j]] + Body(arg[j + 1..]));
      }
    }
  }

  lemma RestOf(arg: string, i: nat, j: nat)
    requires i <= j < |arg|
    ensures arg[i..][j - i] == arg[j] && arg[i..][j - i + 1..] == arg[j + 1..]
  {
  }

  lemma BodyOnce(s: string, n: nat)
    requires n == Leading(s)
    ensures Body(s) == if n == |s| then Slashes(2 * n) else Piece(n, s[n]) + Body(s[n + 1..])
  {
    hide Body;
    if n == |s| {
      BodyEnds(s, n);
    } else {
      BodyGoesOn(s, n, s[n + 1..]);
    }
  }

  lemma BodyEnds(s: string, n: nat)
    requires n == Leading(s) == |s|
    ensures Body(s) == Slashes(2 * n)
  {
    hide Leading;
    hide Slashes;
  }

  lemma BodyGoesOn(s: string, n: nat, rest: string)
    requires n == Leading(s) < |s| && rest == s[n + 1..]
    ensures Body(s) == Piece(n, s[n]) + Body(rest)
  {
    hide Leading;
    hide Piece;
  }

  lemma AtEndOnce(s: string, n: nat)
    requires n == Leading(s)
    ensures AtEnd(s) == if n == |s| then n else AtEnd(s[n + 1..])
  {
    hide Leading;
  }

  lemma LeadingFrom(arg: string, i: nat, j: nat)
    requires i <= j <= |arg| && arg[i..j] == Slashes(j - i) && (j < |arg| ==> arg[j] != '\\')
    ensures Leading(arg[i..]) == j - i
  {
    assert arg[i..] == Slashes(j - i) + arg[j..];
    LeadingOf(j - i, arg[j..]);
  }

  /** Backslashes do not decide whether an argument needs quotes. */
  lemma SlashesNeedNoQuotes(arg: string, i: nat, j: nat)
    requires i <= j <= |arg| && arg[i..j] == Slashes(j - i)
    ensures NeedsQuotes(arg[..j]) <==> NeedsQuotes(arg[..i])
  {
    assert forall k | i <= k < j :: arg[k] == arg[i..j][k - i] == '\\';
    if NeedsQuotes(arg[..j]) {
      var k :| 0 <= k < j && (IsBlank(arg[..j][k]) || arg[..j][k] == '"');
      assert arg[..i][k] == arg[k];
    }
    if NeedsQuotes(arg[..i]) {
      var k :| 0 <= k < i && (IsBlank(arg[..i][k]) || arg[..i][k] == '"');
      assert arg[..j][k] == arg[k];
    }
  }

  lemma NeedsQuotesNext(arg: string, i: nat)
    requires i < |arg|
    ensures NeedsQuotes(arg[..i + 1]) <==> NeedsQuotes(arg[..i]) || IsBlank(arg[i]) || arg[i] == '"'
  {
    assert arg[..i + 1] == arg[..i] + [arg[i]];
    if NeedsQuotes(arg[..i]) {
      var k :| 0 <= k < i && (IsBlank(arg[..i][k]) || arg[..i][k] == '"');
      assert arg[..i + 1][k] == arg[k];
    }
    assert arg[..i + 1][i] == arg[i];
  }

  /** What the first pass finds out about an argument. */
  datatype Counts = Counts(size: nat, blanks: bool, quotes: nat, beforeQuote: nat, atEnd: nat)

  /** Passes over the backslashes at `i`. */
  method CountSlashes(arg: string, i: nat) returns (j: nat)
    requires i < |arg| && arg[i] == '\\'
    ensures j == i + Leading(arg[i..]) <= |arg| && j > i
    ensures arg[i..j] == Slashes(j - i) && (j < |arg| ==> arg[j] != '\\')
  {
    j := i + 1;
    while j < |arg| && arg[j] == '\\'
      invariant i < j <= |arg|
      invariant arg[i..j] == Slashes(j - i)
    {
      assert arg[i..j + 1] == Slashes(j - i) + ['\\'] == Slashes(j + 1 - i);
      j := j + 1;
    }
    LeadingFrom(arg, i, j);
  }

  /** The counts describe the argument up to `i`: together they are what its quoted form takes. */
  ghost predicate Counted(arg: string, i: nat, c: Counts) {
    && i <= |arg| && c.size == i
    && c.size + c.quotes + c.beforeQuote + c.atEnd + |Body(arg[i..])| == |Body(arg)|
    && c.atEnd + AtEnd(arg[i..]) == AtEnd(arg) && (i < |arg| ==> c.atEnd == 0)
    && (NeedsQuotes(arg[..i]) <==> c.blanks || c.quotes > 0)
  }

  method MeasureSlashes(arg: string, i: nat, c: Counts) returns (j: nat, c': Counts)
    requires i < |arg| && arg[i] == '\\' && Counted(arg, i, c)
    ensures i < j <= |arg| && Counted(arg, j, c')
  {
    hide Body;
    hide AtEnd;
    hide NeedsQuotes;
    hide Leading;
    j := CountSlashes(arg, i);
    BodyFrom(arg, i, j);
    SlashesNeedNoQuotes(arg, i, j);
    c' := c.(size := c.size + (j - i));
    if j < |arg| && arg[j] == '"' {
      NeedsQuotesNext(arg, j);
      c' := c'.(beforeQuote := c.beforeQuote + (j - i), quotes := c.quotes + 1, size := c'.size + 1);
      j := j + 1;
      return;
    }
    if j == |arg| {
      c' := c'.(atEnd := j - i);
      BodyFrom(arg, j, j);
      return;
    }
    LeadingFrom(arg, j, j);
    BodyFrom(arg, j, j);
  }

  method MeasurePlain(arg: string, i: nat, c: Counts) returns (c': Counts)
    requires i < |arg| && arg[i] != '\\' && Counted(arg, i, c)
    ensures Counted(arg, i + 1, c')
  {
    hide Body;
    hide AtEnd;
    hide NeedsQuotes;
    hide Leading;
    LeadingFrom(arg, i, i);
    BodyFrom(arg, i, i);
    NeedsQuotesNext(arg, i);
    AtEndOfNothing(arg);
    c' := c;
    if IsBlank(arg[i]) {
      c' := c'.(blanks := true);
    }
    if arg[i] == '"' {
      c' := c'.(quotes := c'.quotes + 1);
    }
    c' := c'.(size := c'.size + 1);
  }

  lemma AtEndOfNothing(arg: string)
    ensures arg[|arg|..] == []
    ensures Body([]) == [] && AtEnd([]) == 0 && !NeedsQuotes([])
  {
  }

  lemma CountedStart(arg: string, i: nat)
    ensures i == 0 ==> Counted(arg, i, Counts(i, false, i, i, i))
  {
    hide Body;
    hide AtEnd;
    hide NeedsQuotes;
    AtEndOfNothing(arg);
    if i == 0 {
      assert arg[i..] == arg;
      assert arg[..i] == [];
    }
  }

  lemma CountedEnd(arg: string, c: Counts)
    requires Counted(arg, |arg|, c)
    ensures c.size == |arg| && c.size + c.quotes + c.beforeQuote + c.atEnd == |Body(arg)| && c.atEnd == AtEnd(arg)
    ensures NeedsQuotes(arg) <==> c.blanks || c.quotes > 0
  {
    hide Body;
    hide AtEnd;
    hide NeedsQuotes;
    AtEndOfNothing(arg);
    assert arg[..|arg|] == arg;
  }

  /** The first pass: sizes the quoted form without building it. */
  method Measure(arg: string) returns (c: Counts)
    ensures c.size == |arg| && c.size + c.quotes + c.beforeQuote + c.atEnd == |Body(arg)| && c.atEnd == AtEnd(arg)
    ensures NeedsQuotes(arg) <==> c.blanks || c.quotes > 0
  {
    hide Counted;
    hide Body;
    hide AtEnd;
    hide NeedsQuotes;
    var i: nat := 0;
    c := Counts(i, false, i, i, i);
    CountedStart(arg, i);
    while i < |arg|
      invariant Counted(arg, i, c)
      invariant i <= |arg|
      decreases |arg| - i
    {
      if arg[i] == '\\' {
        i, c := MeasureSlashes(arg, i, c);
      } else {
        c := MeasurePlain(arg, i, c);
        i := i + 1;
      }
    }
    CountedEnd(arg, c);
  }

  /** Stores characters one after another at `k`. */
  method Append(out: array<char>, k: nat, text: string) returns (next: nat)
    requires k + |text| <= out.Length
    modifies out
    ensures next == k + |text| && out[..next] == old(out[..k]) + text
  {
    next := k;
    while next < k + |text|
      invariant k <= next <= k + |text| && out[..next] == old(out[..k]) + text[..next - k]
    {
      out[next] := text[next - k];
      next := next + 1;
    }
    assert text[..|text|] == text;
  }

  /** `written` is the quoted form up to `i`; `owed` backslashes at the end still have to be repeated. */
  ghost predicate Partial(arg: string, i: nat, written: string, owed: nat) {
    && i <= |arg|
    && written + Slashes(owed) + Body(arg[i..]) == Body(arg)
    && owed + AtEnd(arg[i..]) == AtEnd(arg) && (i < |arg| ==> owed == 0)
  }

  lemma Regrouped(a: string, b: string, c: string, d: string)
    ensures (a + b) + c + d == a + (b + c + d)
  {
  }

  /** The piece of the quoted form for what stands at `i`: a run of backslashes, or one character. */
  method NextPiece(arg: string, i: nat) returns (i': nat, piece: string, ghost owed: nat)
    requires i < |arg|
    ensures i < i' <= |arg| && Body(arg[i..]) == piece + Slashes(owed) + Body(arg[i'..])
    ensures owed + AtEnd(arg[i'..]) == AtEnd(arg[i..]) && (i' < |arg| ==> owed == 0)
  {
    hide Body;
    hide AtEnd;
    hide Leading;
    var j := i;
    if arg[i] == '\\' {
      j := CountSlashes(arg, i);
    }
    LeadingFrom(arg, i, j);
    BodyFrom(arg, i, j);
    piece := Slashes(j - i);
    owed := 0;
    i' := j;
    if j == |arg| {
      owed := j - i;
      assert Slashes(2 * owed) == piece + Slashes(owed) + [];
      AtEndOfNothing(arg);
    } else if arg[j] == '"' {
      piece := Slashes(2 * (j - i) + 1) + ['"'];
      i' := j + 1;
    } else if j == i {
      piece := [arg[i]];
      i' := i + 1;
      assert Slashes(0) + (piece + Body(arg[i'..])) == piece + Body(arg[i'..]);
    } else {
      LeadingFrom(arg, j, j);
      BodyFrom(arg, j, j);
      assert Slashes(0) + ([arg[j]] + Body(arg[j + 1..])) == [arg[j]] + Body(arg[j + 1..]);
    }
    NothingOwed(piece, Body(arg[i'..]));
  }

  lemma NothingOwed(piece: string, rest: string)
    ensures piece + Slashes(0) + rest == piece + rest
  {
  }

  /** Copies what stands at `i` into the quoted form. */
  method CopyPiece(arg: string, i: nat, out: array<char>, k: nat, ghost written: string)
    returns (i': nat, k': nat, ghost written': string, ghost owed: nat)
    requires i < |arg| && Partial(arg, i, written, 0)
    requires out.Length == |Body(arg)| + 3 && k == |written| + 1 <= out.Length && out[..k] == "\"" + written
    modifies out
    ensures i < i' <= |arg| && Partial(arg, i', written', owed)
    ensures k' == |written'| + 1 && k' <= out.Length && out[..k'] == "\"" + written'
  {
    hide Body;
    hide AtEnd;
    assert written + Slashes(0) + Body(arg[i..]) == written + Body(arg[i..]);
    hide Slashes;
    var piece;
    i', piece, owed := NextPiece(arg, i);
    written' := written + piece;
    Regrouped(written, piece, Slashes(owed), Body(arg[i'..]));
    k' := Append(out, k, piece);
  }

  /**
   * One argument made ready for the command line: left alone, or written into a buffer of exactly the
   * size the first pass found.
   */
  method Convert(arg: string) returns (modified: bool, out: array<char>, size: nat)
    ensures size == |Escape(arg)| && (modified <==> NeedsQuotes(arg)) && fresh(out)
    ensures modified ==> out.Length == size + 1 && out[..size] == Escape(arg) && out[size] == '\0'
  {
    hide Partial;
    hide Body;
    hide AtEnd;
    hide NeedsQuotes;
    var c := Measure(arg);
    size := c.size;
    modified := c.blanks || c.quotes > 0;
    if !modified {
      out := new char[0];
      return;
    }
    size := c.size + c.quotes + c.beforeQuote + c.atEnd + 2;
    out := new char[size + 1];
    var i: nat := 0;
    var k := Append(out, 0, "\"");
    ghost var written: string, owed := [], 0;
    PartialStart(arg, written, owed);
    while i < |arg|
      invariant i <= |arg| && Partial(arg, i, written, owed) && (i < |arg| ==> owed == 0)
      invariant k == |written| + 1 <= out.Length && out[..k] == "\"" + written
      decreases |arg| - i
    {
      i, k, written, owed := CopyPiece(arg, i, out, k, written);
      PartialOwes(arg, i, written, owed);
    }
    PartialEnd(arg, i, written, owed);
    k := Finish(out, k, c.atEnd);
    assert "\"" + written + Slashes(owed) == "\"" + (written + Slashes(owed));
  }

  /** The backslashes owed, the closing quote and the terminator. */
  method Finish(out: array<char>, k: nat, owed: nat) returns (size: nat)
    requires k + owed + 2 <= out.Length
    modifies out
    ensures size == k + owed + 1 && out[..size] == old(out[..k]) + Slashes(owed) + "\"" && out[size] == '\0'
  {
    ghost var was := out[..k];
    var next := Append(out, k, Slashes(owed));
    size := Append(out, next, "\"");
    next := Append(out, size, ['\0']);
    TextThenNul(out[..next], was + Slashes(owed) + "\"", size);
  }

  lemma TextThenNul(s: string, text: string, size: nat)
    requires |text| == size && s == text + ['\0']
    ensures s[..size] == text && s[size] == '\0'
  {
  }

  lemma PartialStart(arg: string, written: string, owed: nat)
    requires written == [] && owed == 0
    ensures Partial(arg, 0, written, owed)
  {
    hide Body;
    hide AtEnd;
    assert arg[0..] == arg;
  }

  lemma PartialOwes(arg: string, i: nat, written: string, owed: nat)
    requires Partial(arg, i, written, owed)
    ensures i < |arg| ==> owed == 0
  {
  }

  lemma PartialEnd(arg: string, i: nat, written: string, owed: nat)
    requires Partial(arg, i, written, owed) && i == |arg|
    ensures owed == AtEnd(arg) && written + Slashes(owed) == Body(arg)
  {
    hide Body;
    hide AtEnd;
    AtEndOfNothing(arg);
    assert written + Slashes(owed) + [] == written + Slashes(owed);
  }

  /** Room for every argument and the separator after it. */
  function TotalSize(args: seq<string>): nat {
    if args == [] then 0 else TotalSize(args[..|args| - 1]) + |Escape(args[|args| - 1])| + 1
  }

  /** The arguments with a separator after each. */
  function Separated(args: seq<string>): (s: string)
    ensures |s| == TotalSize(args)
  {
    if args == [] then [] else Separated(args[..|args| - 1]) + Escape(args[|args| - 1]) + " "
  }

  lemma {:induction false} SeparatedFirst(args: seq<string>)
    requires args != []
    ensures Separated(args) == Escape(args[0]) + " " + Separated(args[1..])
  {
    hide Escape;
    if |args| > 1 {
      SeparatedFirst(args[..|args| - 1]);
      assert args[1..][..|args| - 2] == args[..|args| - 1][1..];
    }
  }

  lemma {:induction false} SeparatedIsJoined(args: seq<string>)
    requires args != []
    ensures Separated(args) == Joined(args) + " "
  {
    hide Escape;
    SeparatedFirst(args);
    if |args| > 1 {
      SeparatedIsJoined(args[1..]);
    }
  }

  /** The whole command line: every argument is followed by a blank, and the last blank becomes the NUL. */
  method BuildLine(argv: seq<string>) returns (line: array<char>)
    ensures fresh(line)
    ensures argv == [] ==> line.Length == 0
    ensures argv != [] ==> line.Length == |Joined(argv)| + 1 && line[..] == Joined(argv) + "\0"
  {
    hide Escape;
    var texts: seq<string>, size := [], 0;
    var i := 0;
    assert argv[..0] == [];
    while i < |argv|
      invariant 0 <= i == |texts| <= |argv|
      invariant forall j | 0 <= j < i :: texts[j] == Escape(argv[j])
      invariant size == TotalSize(argv[..i])
    {
      assert argv[..i + 1][..i] == argv[..i];
      var text := Rendered(argv[i]);
      texts, size, i := texts + [text], size + |text| + 1, i + 1;
    }
    assert argv[..i] == argv;
    line := new char[size];
    if argv == [] {
      return;
    }
    FillLine(line, argv, texts);
    SeparatedIsJoined(argv);
    line[size - 1] := '\0';
  }

  /** Copies the arguments one after the other, each with a blank after it. */
  method FillLine(line: array<char>, argv: seq<string>, texts: seq<string>)
    requires |texts| == |argv| && (forall j | 0 <= j < |argv| :: texts[j] == Escape(argv[j]))
    requires line.Length == TotalSize(argv)
    modifies line
    ensures line[..] == Separated(argv)
  {
    hide Escape;
    var used: nat := 0;
    var i := 0;
    assert argv[..0] == [];
    while i < |argv|
      invariant 0 <= i <= |argv| && used == TotalSize(argv[..i]) <= line.Length
      invariant line[..used] == Separated(argv[..i])
    {
      assert argv[..i + 1][..i] == argv[..i];
      TotalGrows(argv, i + 1);
      used := Append(line, used, texts[i]);
      used := Append(line, used, " ");
      i := i + 1;
    }
    assert argv[..i] == argv;
  }

  lemma {:induction false} TotalGrows(args: seq<string>, i: nat)
    requires i <= |args|
    ensures TotalSize(args[..i]) <= TotalSize(args)
    decreases |args| - i
  {
    hide Escape;
    if i == |args| {
      assert args[..i] == args;
    } else {
      assert args[..i + 1][..i] == args[..i];
      TotalGrows(args, i + 1);
    }
  }

  method Rendered(arg: string) returns (text: string)
    ensures text == Escape(arg)
  {
    var modified, out, size := Convert(arg);
    text := if modified then out[..size] else arg;
  }
}
