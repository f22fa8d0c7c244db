/**
 * Coalescing an NT path: resolving `.` and `..` over a stack of components that is never copied, only
 * indexed. A path is a sequence of wide characters whose end stands for the terminating NUL.
 */
module NtPaths {

  /** The scan starts after `\Device\`, so the device name is one component with its leading part. */
  const PREFIX: nat := 8
  const INITIAL_COMPONENTS: nat := 16

  /** The components of `p` when the one being scanned began at `start` and the scan stands at `i`. */
  function Cut(p: string, start: nat, i: nat): (r: seq<string>)
    requires start <= i <= |p|
    ensures r != [] && p[start..i] <= r[0]
    decreases |p| - i
  {
    if i == |p| then [p[start..i]]
    else if p[i] == '\\' then [p[start..i]] + Cut(p, i + 1, i + 1)
    else Cut(p, start, i + 1)
  }

  /** Interior empty components count as components. */
  function Components(p: string): (r: seq<string>)
    requires |p| >= PREFIX
    ensures r != [] && p[..PREFIX] <= r[0]
  {
    Cut(p, 0, PREFIX)
  }

  function Push(stack: seq<string>, c: string): seq<string> {
    if c == ".." then (if |stack| <= 1 then stack else stack[..|stack| - 1])
    else if c == "." then stack
    else stack + [c]
  }

  function Fold(stack: seq<string>, components: seq<string>): seq<string>
    decreases components
  {
    if components == [] then stack else Fold(Push(stack, components[0]), components[1..])
  }

  function Resolve(p: string): seq<string>
    requires |p| >= PREFIX
  {
    Fold([], Components(p))
  }

  function Join(stack: seq<string>): string {
    if stack == [] then []
    else if |stack| == 1 then stack[0]
    else stack[0] + "\\" + Join(stack[1..])
  }

  /** A bare volume keeps a trailing separator so that it opens as a directory. */
  function Render(stack: seq<string>): string {
    Join(stack) + if |stack| == 1 then "\\" else ""
  }

  function Coalesced(p: string): string
    requires |p| >= PREFIX
  {
    Render(Resolve(p))
  }

  // ----- Laws of the fold -----

  ghost predicate Plain(c: string) {
    c != "." && c != ".."
  }

  ghost predicate Settled(stack: seq<string>) {
    forall i | 0 <= i < |stack| :: Plain(stack[i])
  }

  /** The device is never popped and no dot component survives. */
  lemma {:induction false} FoldSettles(stack: seq<string>, components: seq<string>)
    requires stack != [] && Settled(stack)
    ensures var r := Fold(stack, components);
            r != [] && r[0] == stack[0] && Settled(r)
    decreases components
  {
    if components != [] {
      FoldSettles(Push(stack, components[0]), components[1..]);
    }
  }

  lemma ResolveKeepsDevice(p: string)
    requires |p| >= PREFIX
    ensures var r := Resolve(p);
            r != [] && r[0] == Components(p)[0] && Settled(r)
  {
    var c := Components(p);
    assert |c[0]| >= PREFIX;
    FoldSettles([c[0]], c[1..]);
    assert [] + [c[0]] == [c[0]];
  }

  lemma {:induction false} FoldSnoc(stack: seq<string>, components: seq<string>, c: string)
    ensures Fold(stack, components + [c]) == Push(Fold(stack, components), c)
    decreases components
  {
    if components == [] {
      assert components + [c] == [c];
    } else {
      assert (components + [c])[1..] == components[1..] + [c];
      FoldSnoc(Push(stack, components[0]), components[1..], c);
    }
  }

  lemma CutOnce(p: string, start: nat, i: nat)
    requires start <= i <= |p|
    ensures Cut(p, start, i) == if i == |p| then [p[start..i]]
                                else if p[i] == '\\' then [p[start..i]] + Cut(p, i + 1, i + 1)
                                else Cut(p, start, i + 1)
  {
  }

  lemma {:induction false} CutAppend(p: string, start: nat, i: nat, c: string)
    requires start <= i <= |p| && '\\' !in c
    ensures Cut(p + "\\" + c, start, i) == Cut(p, start, i) + [c]
    decreases |p| - i
  {
    hide Cut;
    var q := p + "\\" + c;
    CutOnce(q, start, i);
    CutOnce(p, start, i);
    if i == |p| {
      CutRest(q, i + 1, i + 1);
      assert q[i + 1..] == c && q[start..i] == p[start..i];
    } else {
      assert q[i] == p[i] && q[start..i] == p[start..i];
      if p[i] == '\\' {
        CutAppend(p, i + 1, i + 1, c);
        assert [p[start..i]] + (Cut(p, i + 1, i + 1) + [c]) == [p[start..i]] + Cut(p, i + 1, i + 1) + [c];
      } else {
        CutAppend(p, start, i + 1, c);
      }
    }
  }

  lemma {:induction false} CutRest(p: string, start: nat, i: nat)
    requires start <= i <= |p| && '\\' !in p[i..]
    ensures Cut(p, start, i) == [p[start..]]
    decreases |p| - i
  {
    if i < |p| {
      assert p[i..][0] == p[i] && p[i..][1..] == p[i + 1..];
      CutRest(p, start, i + 1);
    } else {
      assert p[start..i] == p[start..];
    }
  }

  /** Appending one component to a path is one step of the fold. */
  lemma ResolveAppend(p: string, c: string)
    requires |p| >= PREFIX && '\\' !in c
    ensures Resolve(p + "\\" + c) == Push(Resolve(p), c)
  {
    CutAppend(p, 0, PREFIX, c);
    FoldSnoc([], Components(p), c);
  }

  /** Descending and climbing back changes nothing, at any depth. */
  lemma ClimbUndoesDescend(p: string, c: string)
    requires |p| >= PREFIX && '\\' !in c && Plain(c)
    ensures Coalesced(p + "\\" + c + "\\..") == Coalesced(p)
  {
    ResolveAppend(p, c);
    var q := p + "\\" + c;
    assert p + "\\" + c + "\\.." == q + "\\" + "..";
    ResolveAppend(q, "..");
    ResolveKeepsDevice(p);
  }

  // ----- Coalescing again -----

  /** A component as `Cut` makes it: no separator in the part that is scanned. */
  ghost predicate Whole(stack: seq<string>) {
    forall i | 0 < i < |stack| :: '\\' !in stack[i]
  }

  ghost predicate DeviceFirst(stack: seq<string>) {
    stack != [] && |stack[0]| >= PREFIX && '\\' !in stack[0][PREFIX..]
  }

  lemma {:induction false} CutIsWhole(p: string, start: nat, i: nat)
    requires start <= i <= |p| && '\\' !in p[start..i]
    ensures forall k | 0 <= k < |Cut(p, start, i)| :: '\\' !in Cut(p, start, i)[k]
    decreases |p| - i
  {
    if i < |p| {
      if p[i] == '\\' {
        CutIsWhole(p, i + 1, i + 1);
      } else {
        assert p[start..i + 1] == p[start..i] + [p[i]];
        CutIsWhole(p, start, i + 1);
      }
    }
  }

  lemma {:induction false} FirstCut(p: string, i: nat)
    requires PREFIX <= i <= |p| && '\\' !in p[PREFIX..i]
    ensures var r := Cut(p, 0, i);
            DeviceFirst(r) && Whole(r)
    decreases |p| - i
  {
    var r := Cut(p, 0, i);
    if i == |p| {
      assert p[0..i][PREFIX..] == p[PREFIX..i];
    } else if p[i] == '\\' {
      CutIsWhole(p, i + 1, i + 1);
      assert p[0..i][PREFIX..] == p[PREFIX..i];
    } else {
      assert p[PREFIX..i + 1] == p[PREFIX..i] + [p[i]];
      FirstCut(p, i + 1);
    }
  }

  lemma {:induction false} FoldKeepsWhole(stack: seq<string>, components: seq<string>)
    requires stack != [] && Whole(stack) && forall i | 0 <= i < |components| :: '\\' !in components[i]
    ensures Whole(Fold(stack, components))
    decreases components
  {
    if components != [] {
      FoldKeepsWhole(Push(stack, components[0]), components[1..]);
    }
  }

  lemma ResolveIsWhole(p: string)
    requires |p| >= PREFIX
    ensures DeviceFirst(Resolve(p)) && Whole(Resolve(p))
  {
    FirstCut(p, PREFIX);
    var c := Components(p);
    ResolveKeepsDevice(p);
    assert [] + [c[0]] == [c[0]];
    assert forall i | 0 <= i < |c[1..]| :: c[1..][i] == c[i + 1];
    FoldKeepsWhole([c[0]], c[1..]);
  }

  /** Cutting the rendering of a stack gives the stack back. */
  lemma {:induction false} CutOfJoin(stack: seq<string>)
    requires DeviceFirst(stack) && Whole(stack)
    ensures |Join(stack)| >= PREFIX && Components(Join(stack)) == stack
  {
    if |stack| == 1 {
      CutRest(stack[0], 0, PREFIX);
      assert stack[0][0..] == stack[0];
    } else {
      var init, last := stack[..|stack| - 1], stack[|stack| - 1];
      CutOfJoin(init);
      JoinSnoc(init, last);
      CutAppend(Join(init), 0, PREFIX, last);
      assert init + [last] == stack;
    }
  }

  lemma {:induction false} JoinSnoc(stack: seq<string>, c: string)
    requires stack != []
    ensures Join(stack + [c]) == Join(stack) + "\\" + c
  {
    if |stack| > 1 {
      assert (stack + [c])[1..] == stack[1..] + [c];
      JoinSnoc(stack[1..], c);
    } else {
      assert (stack + [c])[1..] == [c];
    }
  }

  lemma {:induction false} FoldOfSettled(stack: seq<string>, components: seq<string>)
    requires Settled(components)
    ensures Fold(stack, components) == stack + components
    decreases components
  {
    if components != [] {
      assert Settled(components[1..]);
      FoldOfSettled(stack + [components[0]], components[1..]);
    }
  }

  /** Coalescing a coalesced path changes nothing. */
  lemma CoalesceTwice(p: string)
    requires |p| >= PREFIX
    ensures |Coalesced(p)| >= PREFIX && Coalesced(Coalesced(p)) == Coalesced(p)
  {
    var stack := Resolve(p);
    ResolveKeepsDevice(p);
    ResolveIsWhole(p);
    CutOfJoin(stack);
    if |stack| == 1 {
      var again := stack + [""];
      JoinSnoc(stack, "");
      assert Join(again) == Join(stack) + "\\" + "" == Coalesced(p);
      CutOfJoin(again);
      FoldOfSettled([], again);
      assert [] + again == again;
    } else {
      assert Coalesced(p) == Join(stack);
      FoldOfSettled([], stack);
      assert [] + stack == stack;
    }
  }

  // ----- Sizes -----

  /** Characters of the components with one separator each. */
  function Span(components: seq<string>): nat {
    if components == [] then 0 else |components[0]| + 1 + Span(components[1..])
  }

  lemma {:induction false} SpanSnoc(stack: seq<string>, c: string)
    ensures Span(stack + [c]) == Span(stack) + |c| + 1
  {
    if stack == [] {
      assert stack + [c] == [c];
    } else {
      assert (stack + [c])[1..] == stack[1..] + [c];
      SpanSnoc(stack[1..], c);
    }
  }

  lemma {:induction false} SpanOfJoin(stack: seq<string>)
    requires stack != []
    ensures |Join(stack)| + 1 == Span(stack)
  {
    if |stack| > 1 {
      SpanOfJoin(stack[1..]);
    }
  }

  lemma {:induction false} SpanOfCut(p: string, start: nat, i: nat)
    requires start <= i <= |p|
    ensures Span(Cut(p, start, i)) == |p| - start + 1
    decreases |p| - i
  {
    if i < |p| {
      if p[i] == '\\' {
        SpanOfCut(p, i + 1, i + 1);
        assert ([p[start..i]] + Cut(p, i + 1, i + 1))[1..] == Cut(p, i + 1, i + 1);
      } else {
        SpanOfCut(p, start, i + 1);
      }
    }
  }

  lemma SpanOfPush(stack: seq<string>, c: string)
    ensures Span(Push(stack, c)) <= Span(stack) + |c| + 1
  {
    SpanSnoc(stack, c);
    if |stack| > 1 {
      var init, last := stack[..|stack| - 1], stack[|stack| - 1];
      assert init + [last] == stack;
      SpanSnoc(init, last);
    }
  }

  lemma {:induction false} SpanOfFold(stack: seq<string>, components: seq<string>)
    ensures Span(Fold(stack, components)) <= Span(stack) + Span(components)
    decreases components
  {
    if components != [] {
      SpanOfPush(stack, components[0]);
      SpanOfFold(Push(stack, components[0]), components[1..]);
    }
  }

  /** The result is never longer than the path, but for the separator a bare volume gains. */
  lemma CoalescedFits(p: string)
    requires |p| >= PREFIX
    ensures |Coalesced(p)| <= |p| + 1
    ensures '\\' in p[PREFIX..] ==> |Coalesced(p)| <= |p|
  {
    ResolveKeepsDevice(p);
    SpanOfCut(p, 0, PREFIX);
    SpanOfFold([], Components(p));
    SpanOfJoin(Resolve(p));
    if '\\' in p[PREFIX..] {
      var k :| 0 <= k < |p[PREFIX..]| && p[PREFIX..][k] == '\\';
      CutSeparates(p, 0, PREFIX, PREFIX + k);
    }
  }

  lemma {:induction false} CutSeparates(p: string, start: nat, i: nat, k: nat)
    requires start <= i <= k < |p| && p[k] == '\\'
    ensures |Cut(p, start, i)[0]| < |p| - start
    decreases |p| - i
  {
    if p[i] != '\\' {
      CutSeparates(p, start, i + 1, k);
    }
  }

  /** Characters reserved for an absolute path: the path, its NUL, and the longest device name. */
  lemma AbsoluteFits(device: string, path: string)
    requires PREFIX <= |device| <= 26 && |path| >= 2
    ensures |Coalesced(device + path[2..])| + 1 <= |path| + 1 + 27
  {
    CoalescedFits(device + path[2..]);
  }

  /** Characters reserved for a relative path: both parts, a separator and a NUL. */
  lemma RelativeFits(root: string, path: string)
    requires |root| >= PREFIX
    ensures var joined := root + (if root[|root| - 1] == '\\' then "" else "\\") + path;
            |Coalesced(joined)| + 1 <= |path| + 1 + |root| + 1
  {
    var joined := root + (if root[|root| - 1] == '\\' then "" else "\\") + path;
    CoalescedFits(joined);
    if root[|root| - 1] != '\\' {
      assert joined[PREFIX..][|root| - PREFIX] == '\\';
    }
  }

  /** Characters reserved for a network share: the text after the two separators and `\Device\Mup\`. */
  lemma ShareFits(path: string)
    requires |path| >= 2
    ensures |Coalesced("\\Device\\Mup\\" + path[2..])| + 1 <= |path| + 12 - 1
  {
    var joined := "\\Device\\Mup\\" + path[2..];
    assert joined[PREFIX..][3] == '\\';
    CoalescedFits(joined);
  }

  // ----- The zero-copy stack -----

  /** A component as an offset and a length into the path. */
  datatype Part = Part(start: nat, length: nat)

  ghost predicate Inside(p: string, parts: seq<Part>) {
    forall i | 0 <= i < |parts| :: parts[i].start + parts[i].length <= |p|
  }

  ghost function Text(p: string, part: Part): string
    requires part.start + part.length <= |p|
  {
    p[part.start..part.start + part.length]
  }

  ghost function Texts(p: string, parts: seq<Part>): (r: seq<string>)
    requires Inside(p, parts)
    ensures |r| == |parts| && forall i | 0 <= i < |r| :: r[i] == Text(p, parts[i])
  {
    seq(|parts|, i requires 0 <= i < |parts| => Text(p, parts[i]))
  }

  method CopyInto(out: array<char>, at: nat, text: string) returns (next: nat)
    requires at + |text| <= out.Length
    modifies out
    ensures next == at + |text| && out[..next] == old(out[..at]) + text
  {
    forall i | 0 <= i < |text| {
      out[at + i] := text[i];
    }
    next := at + |text|;
  }

  class Coalescer {
    /** The component array's size, kept from one call to the next. */
    var capacity: nat

    constructor ()
      ensures capacity == INITIAL_COMPONENTS
    {
      capacity := INITIAL_COMPONENTS;
    }

    /** Pushes one component, allocating or doubling the array when needed. */
    method AddComponent(components: array?<Part>, index: nat, part: Part)
      returns (components': array<Part>, index': nat)
      requires capacity > 0 && if components == null then index == 0 else index <= capacity == components.Length
      modifies this, components
      ensures capacity > 0 && index' == index + 1 <= capacity == components'.Length
      ensures components' == components || fresh(components')
      ensures components'[..index'] == old(if components == null then [] else components[..index]) + [part]
    {
      if components == null {
        components' := new Part[capacity](_ => Part(0, 0));
      } else {
        components' := components;
      }
      if index == capacity {
        var temp := new Part[capacity * 2](_ => Part(0, 0));
        forall i | 0 <= i < index {
          temp[i] := components'[i];
        }
        components' := temp;
        capacity := capacity * 2;
      }
      components'[index] := part;
      index' := index + 1;
    }

    ghost predicate Holds(stack: array?<Part>, index: nat, p: string)
      reads this, stack
    {
      && capacity > 0
      && (if stack == null then index == 0 else 0 < index <= capacity == stack.Length)
      && Inside(p, PartsOf(stack, index))
    }

    /** Handles one whole component: a step of the fold on the parts. */
    method TakeComponent(p: string, stack: array?<Part>, index: nat, start: nat, i: nat)
      returns (stack': array<Part>, index': nat)
      requires Holds(stack, index, p) && start <= i <= |p|
      requires stack == null ==> i - start >= PREFIX
      modifies this, stack
      ensures (stack' == stack || fresh(stack')) && Holds(stack', index', p)
      ensures Texts(p, PartsOf(stack', index')) == Push(old(Texts(p, PartsOf(stack, index))), p[start..i])
    {
      if i - start == 2 && p[start..i] == ".." {
        stack', index' := stack, index - 1;
        if index' < 1 {
          index' := 1;
        }
      } else if i - start == 1 && p[start..i] == "." {
        stack', index' := stack, index;
      } else {
        ghost var parts := PartsOf(stack, index);
        stack', index' := AddComponent(stack, index, Part(start, i - start));
        assert PartsOf(stack', index') == parts + [Part(start, i - start)];
      }
    }

    /** Scans the path once, leaving on the stack what the fold over its components leaves. */
    method Scan(p: string) returns (components: array<Part>, index: nat)
      requires |p| >= PREFIX && capacity > 0
      modifies this
      ensures fresh(components) && capacity > 0 && 0 < index <= components.Length
      ensures Inside(p, components[..index]) && Texts(p, components[..index]) == Resolve(p)
    {
      hide Push;
      index := 0;
      var start: nat, i: nat := 0, PREFIX;
      var stack: array?<Part> := null;
      while true
        invariant start <= i <= |p| && Holds(stack, index, p)
        invariant stack != null ==> fresh(stack)
        invariant stack == null ==> start == 0 && i >= PREFIX
        invariant Fold(Texts(p, PartsOf(stack, index)), Cut(p, start, i)) == Resolve(p)
        decreases |p| - i
      {
        if i == |p| || p[i] == '\\' {
          CutHere(p, start, i, Texts(p, PartsOf(stack, index)));
          stack, index := TakeComponent(p, stack, index, start, i);
          if i == |p| {
            break;
          }
          start := i + 1;
        }
        i := i + 1;
      }
      components := stack;
    }

    /** Copies the components that are left, with separators between them. */
    static method CopyComponents(p: string, components: array<Part>, index: nat, out: array<char>) returns (length: nat)
      requires 0 < index <= components.Length && Inside(p, components[..index])
      requires out.Length >= |Join(Texts(p, components[..index]))|
      modifies out
      ensures var text := Join(Texts(p, old(components[..index])));
              length == |text| && out[..length] == text
    {
      hide Join;
      ghost var parts := components[..index];
      ghost var stack := Texts(p, parts);
      JoinedStart(stack);
      length := 0;
      for i := 0 to index
        invariant length == |JoinedUpTo(stack, i)| <= |Join(stack)|
        invariant out[..length] == JoinedUpTo(stack, i) && components[..index] == parts
      {
        JoinedNext(stack, i);
        var part := components[i];
        assert parts[i] == part && stack[i] == Text(p, part);
        length := CopyInto(out, length, p[part.start..part.start + part.length]);
        if i + 1 < index {
          length := CopyInto(out, length, "\\");
        }
      }
      JoinedNext(stack, index - 1);
    }

    /** Coalesces a path into a buffer of `required` characters, terminated by a NUL. */
    method Coalesce(p: string, required: nat) returns (out: array<char>, length: nat)
      requires |p| >= PREFIX && capacity > 0 && required >= |Coalesced(p)| + 1
      modifies this
      ensures capacity > 0 && fresh(out) && out.Length == required
      ensures length == |Coalesced(p)| && out[..length] == Coalesced(p) && out[length] == '\0'
    {
      hide Resolve;
      hide Join;
      var components, index := Scan(p);
      out := new char[required];
      length := CopyComponents(p, components, index, out);
      if index == 1 {
        length := CopyInto(out, length, "\\");
      }
      out[length] := '\0';
    }
  }

  ghost function PartsOf(stack: array?<Part>, index: nat): seq<Part>
    requires stack == null ==> index == 0
    requires stack != null ==> index <= stack.Length
    reads stack
  {
    if stack == null then [] else stack[..index]
  }

  /** What the copying loop has written after `i` components. */
  ghost function JoinedUpTo(stack: seq<string>, i: nat): string
    requires i <= |stack|
  {
    Join(stack[..i]) + if 0 < i < |stack| then "\\" else ""
  }

  lemma JoinedStart(stack: seq<string>)
    ensures JoinedUpTo(stack, 0) == []
  {
    assert stack[..0] == [];
  }

  lemma JoinedNext(stack: seq<string>, i: nat)
    requires i < |stack|
    ensures JoinedUpTo(stack, i + 1) == JoinedUpTo(stack, i) + stack[i] + (if i + 1 < |stack| then "\\" else "")
    ensures |JoinedUpTo(stack, i + 1)| <= |Join(stack)|
    ensures JoinedUpTo(stack, |stack|) == Join(stack)
  {
    assert stack[..i + 1] == stack[..i] + [stack[i]];
    assert stack[..|stack|] == stack;
    if i > 0 {
      JoinSnoc(stack[..i], stack[i]);
    }
    if i + 1 < |stack| {
      JoinPrefix(stack, i + 1);
    }
  }

  lemma {:induction false} JoinPrefix(stack: seq<string>, i: nat)
    requires 0 < i < |stack|
    ensures |Join(stack[..i])| + 1 <= |Join(stack)|
    decreases |stack| - i
  {
    assert stack[..i + 1] == stack[..i] + [stack[i]];
    JoinSnoc(stack[..i], stack[i]);
    if i + 1 < |stack| {
      JoinPrefix(stack, i + 1);
    } else {
      assert stack[..i + 1] == stack;
    }
  }

  /** Reaching the end of a component takes one step of the fold. */
  lemma CutHere(p: string, start: nat, i: nat, stack: seq<string>)
    requires start <= i <= |p| && (i == |p| || p[i] == '\\')
    ensures Fold(stack, Cut(p, start, i))
         == if i == |p| then Push(stack, p[start..i]) else Fold(Push(stack, p[start..i]), Cut(p, i + 1, i + 1))
  {
    if i < |p| {
      assert Cut(p, start, i)[1..] == Cut(p, i + 1, i + 1);
    } else {
      assert Cut(p, start, i)[1..] == [];
    }
  }
}
