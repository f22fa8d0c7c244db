/** What coalescing keeps of a path, said of the components as they are written. */
module PathLaws {
  import opened NtPaths

  // ----- Paths written out -----

  /** A device followed by components, each after a separator. */
  ghost function Spelled(device: string, cs: seq<string>): string {
    if cs == [] then device else Spelled(device, cs[..|cs| - 1]) + "\\" + cs[|cs| - 1]
  }

  ghost predicate IsDevice(device: string) {
    |device| >= PREFIX && '\\' !in device[PREFIX..]
  }

  ghost predicate NoSeparators(cs: seq<string>) {
    forall i | 0 <= i < |cs| :: '\\' !in cs[i]
  }

  lemma {:induction false} SpelledIsJoin(device: string, cs: seq<string>)
    ensures Join([device] + cs) == Spelled(device, cs)
  {
    if cs == [] {
      assert [device] + cs == [device];
    } else {
      var init, last := cs[..|cs| - 1], cs[|cs| - 1];
      SpelledIsJoin(device, init);
      JoinSnoc([device] + init, last);
      assert [device] + init + [last] == [device] + cs;
    }
  }

  lemma JoinCons(c: string, cs: seq<string>)
    requires cs != []
    ensures Join([c] + cs) == c + "\\" + Join(cs)
  {
    assert ([c] + cs)[1..] == cs;
  }

  lemma {:induction false} JoinOfCut(p: string, start: nat, i: nat)
    requires start <= i <= |p|
    ensures Join(Cut(p, start, i)) == p[start..]
    decreases |p| - i
  {
    hide Cut;
    CutOnce(p, start, i);
    if i == |p| {
      assert p[start..i] == p[start..];
    } else if p[i] == '\\' {
      JoinOfCut(p, i + 1, i + 1);
      JoinCons(p[start..i], Cut(p, i + 1, i + 1));
      assert p[start..i] + "\\" + p[i + 1..] == p[start..];
    } else {
      JoinOfCut(p, start, i + 1);
    }
  }

  /** Every path is a device and components. */
  lemma EveryPath(p: string) returns (device: string, cs: seq<string>)
    requires |p| >= PREFIX
    ensures IsDevice(device) && NoSeparators(cs) && p == Spelled(device, cs)
  {
    var all := Components(p);
    FirstCut(p, PREFIX);
    JoinOfCut(p, 0, PREFIX);
    device, cs := all[0], all[1..];
    assert [device] + cs == all && p[0..] == p;
    SpelledIsJoin(device, cs);
  }

  lemma ComponentsOf(device: string, cs: seq<string>)
    requires IsDevice(device) && NoSeparators(cs)
    ensures |Spelled(device, cs)| >= PREFIX && Components(Spelled(device, cs)) == [device] + cs
  {
    SpelledIsJoin(device, cs);
    CutOfJoin([device] + cs);
  }

  // ----- What is kept -----

  /** How deep below the device the first `k` components lead. */
  function Height(cs: seq<string>, k: nat): nat
    requires k <= |cs|
  {
    if k == 0 then 0
    else
      var h := Height(cs, k - 1);
      if cs[k - 1] == "." then h else if cs[k - 1] == ".." then Above(h) else h + 1
  }

  function Above(h: nat): nat {
    if h == 0 then 0 else h - 1
  }

  /** A component that is a name, and that no later climb goes back over. */
  ghost predicate Survives(cs: seq<string>, i: nat)
    requires i < |cs|
  {
    cs[i] != "." && cs[i] != ".." && forall j | i < j <= |cs| :: Height(cs, j) >= Height(cs, i + 1)
  }

  /** The components that survive, from `i` on and in order. */
  ghost function Survivors(cs: seq<string>, i: nat): seq<string>
    requires i <= |cs|
    decreases |cs| - i
  {
    if i == |cs| then [] else (if Survives(cs, i) then [cs[i]] else []) + Survivors(cs, i + 1)
  }

  /** The survivors that lie no deeper than `limit`. */
  ghost function Shallow(cs: seq<string>, i: nat, limit: nat): seq<string>
    requires i <= |cs|
    decreases |cs| - i
  {
    if i == |cs| then []
    else (if Survives(cs, i) && Height(cs, i + 1) <= limit then [cs[i]] else []) + Shallow(cs, i + 1, limit)
  }

  lemma {:induction false} AllShallow(cs: seq<string>, i: nat, limit: nat)
    requires i <= |cs| && limit >= Height(cs, |cs|)
    ensures Shallow(cs, i, limit) == Survivors(cs, i)
    decreases |cs| - i
  {
    hide Height;
    if i < |cs| {
      AllShallow(cs, i + 1, limit);
    }
  }

  lemma {:induction false} HeightOfFront(cs: seq<string>, c: string, k: nat)
    requires k <= |cs|
    ensures Height(cs + [c], k) == Height(cs, k)
  {
    if k > 0 {
      HeightOfFront(cs, c, k - 1);
      assert (cs + [c])[k - 1] == cs[k - 1];
    }
  }

  lemma HeightSnoc(cs: seq<string>, c: string)
    ensures var h := Height(cs, |cs|);
            Height(cs + [c], |cs| + 1) == if c == "." then h else if c == ".." then Above(h) else h + 1
  {
    HeightOfFront(cs, c, |cs|);
  }

  /** One more component can only end survivors that lie deeper than where it leads. */
  lemma SurvivesSnoc(cs: seq<string>, c: string, i: nat)
    requires i < |cs|
    ensures Survives(cs + [c], i) <==> Survives(cs, i) && Height(cs, i + 1) <= Height(cs + [c], |cs| + 1)
    ensures Height(cs + [c], i + 1) == Height(cs, i + 1) && (cs + [c])[i] == cs[i]
  {
    hide Height;
    var more := cs + [c];
    forall j | i < j <= |cs| ensures Height(more, j) == Height(cs, j) {
      HeightOfFront(cs, c, j);
    }
    assert |more| == |cs| + 1;
    if Survives(more, i) {
      assert Height(more, |cs| + 1) >= Height(more, i + 1);
      forall j | i < j <= |cs| ensures Height(cs, j) >= Height(cs, i + 1) {
        assert Height(more, j) >= Height(more, i + 1);
      }
    }
  }

  ghost function Least(a: nat, b: nat): nat {
    if a < b then a else b
  }

  lemma {:induction false} ShallowSnoc(cs: seq<string>, c: string, i: nat, limit: nat)
    requires i <= |cs|
    ensures var more := cs + [c];
            var h := Height(more, |more|);
            Shallow(more, i, limit)
            == Shallow(cs, i, Least(limit, h)) + (if c != "." && c != ".." && h <= limit then [c] else [])
    decreases |cs| - i
  {
    hide Height;
    hide Survives;
    var more := cs + [c];
    if i < |cs| {
      SurvivesSnoc(cs, c, i);
      ShallowSnoc(cs, c, i + 1, limit);
    } else {
      LastSurvives(more);
      assert Shallow(more, i + 1, limit) == [];
    }
  }

  lemma LastSurvives(cs: seq<string>)
    requires cs != []
    ensures Survives(cs, |cs| - 1) <==> cs[|cs| - 1] != "." && cs[|cs| - 1] != ".."
  {
  }

  /** The stack holds the survivors, and its first `limit` entries are those no deeper than that. */
  lemma {:induction false} FoldIsShallow(device: string, cs: seq<string>, limit: nat)
    requires limit <= Height(cs, |cs|)
    ensures var stack := Fold([device], cs);
            |stack| == Height(cs, |cs|) + 1 && stack[..limit + 1] == [device] + Shallow(cs, 0, limit)
    decreases cs
  {
    hide Height;
    hide Shallow;
    hide Fold;
    if cs == [] {
      NothingYet(device);
      assert [device][..1] == [device] + [];
    } else {
      var init, c := cs[..|cs| - 1], cs[|cs| - 1];
      assert cs == init + [c];
      var h, h' := Height(init, |init|), Height(cs, |cs|);
      HeightSnoc(init, c);
      FoldSnoc([device], init, c);
      ShallowSnoc(init, c, 0, limit);
      FoldIsShallow(device, init, Least(limit, h));
      var stack := Fold([device], init);
      if c != "." && c != ".." && limit == h' {
        FoldIsShallow(device, init, h);
        AllShallow(init, 0, h);
        AllShallow(init, 0, h');
        assert stack[..h + 1] == stack;
      }
      PushIs(stack, c);
    }
  }

  lemma NothingYet(device: string)
    ensures Fold([device], []) == [device] && Height([], 0) == 0 && Shallow([], 0, 0) == []
  {
  }

  lemma PushIs(stack: seq<string>, c: string)
    requires stack != []
    ensures c == "." ==> Push(stack, c) == stack
    ensures c == ".." ==> Push(stack, c) == if |stack| == 1 then stack else stack[..|stack| - 1]
    ensures c != "." && c != ".." ==> Push(stack, c) == stack + [c]
  {
  }

  // ----- The laws -----

  /**
   * Coalescing keeps, in order, exactly the components that are names and that no later climb goes back
   * over; a device with nothing left behind it ends in a separator.
   */
  lemma CoalescedIs(device: string, cs: seq<string>)
    requires IsDevice(device) && NoSeparators(cs)
    ensures |Spelled(device, cs)| >= PREFIX
    ensures var kept := Survivors(cs, 0);
            Coalesced(Spelled(device, cs)) == if kept == [] then device + "\\" else Spelled(device, kept)
  {
    ResolvedIs(device, cs);
    SpelledIsJoin(device, Survivors(cs, 0));
  }

  lemma ResolvedIs(device: string, cs: seq<string>)
    requires IsDevice(device) && NoSeparators(cs)
    ensures |Spelled(device, cs)| >= PREFIX && Resolve(Spelled(device, cs)) == [device] + Survivors(cs, 0)
  {
    hide Survivors;
    hide Height;
    ComponentsOf(device, cs);
    DeviceIsPushed(device, cs);
    var h := Height(cs, |cs|);
    FoldIsShallow(device, cs, h);
    AllShallow(cs, 0, h);
    var stack := Fold([device], cs);
    assert stack[..h + 1] == stack;
  }

  lemma DeviceIsPushed(device: string, cs: seq<string>)
    requires IsDevice(device)
    ensures Fold([], [device] + cs) == Fold([device], cs)
  {
    assert ([device] + cs)[1..] == cs && [] + [device] == [device];
  }

  /** A component `.` changes nothing, wherever it stands. */
  lemma DotChangesNothing(device: string, front: seq<string>, back: seq<string>)
    requires IsDevice(device) && NoSeparators(front) && NoSeparators(back)
    ensures |Spelled(device, front + back)| >= PREFIX && |Spelled(device, front + ["."] + back)| >= PREFIX
    ensures Coalesced(Spelled(device, front + ["."] + back)) == Coalesced(Spelled(device, front + back))
  {
    hide Fold;
    ComponentsOf(device, front + ["."] + back);
    ComponentsOf(device, front + back);
    DeviceIsPushed(device, front + ["."] + back);
    DeviceIsPushed(device, front + back);
    FoldJoins([device], front + ["."], back);
    FoldJoins([device], front, back);
    FoldSnoc([device], front, ".");
  }

  lemma {:induction false} SpelledMore(device: string, front: seq<string>, back: seq<string>)
    requires back != []
    ensures Spelled(device, front + back) == Spelled(device, front) + "\\" + Join(back)
    decreases back
  {
    var init, last := back[..|back| - 1], back[|back| - 1];
    var all := front + back;
    assert all[..|all| - 1] == front + init && all[|all| - 1] == last && init + [last] == back;
    if init == [] {
      assert front + init == front && back == [last];
    } else {
      SpelledMore(device, front, init);
      JoinSnoc(init, last);
    }
  }

  /** The same of a path as a string: `\.` in front of a separator or at the end changes nothing. */
  lemma DotInPath(p: string, rest: string)
    requires |p| >= PREFIX && (rest == "" || rest[0] == '\\')
    ensures Coalesced(p + "\\." + rest) == Coalesced(p + rest)
  {
    hide Coalesced;
    if rest == "" {
      DotAtEnd(p);
      assert p + rest == p && p + "\\." + rest == p + "\\.";
    } else {
      var q := rest[1..];
      DotBetween(p, q);
      assert rest == "\\" + q;
      assert p + "\\." + ("\\" + q) == p + "\\.\\" + q && p + ("\\" + q) == p + "\\" + q;
    }
  }

  lemma DotAtEnd(p: string)
    requires |p| >= PREFIX
    ensures Coalesced(p + "\\.") == Coalesced(p)
  {
    assert NoSeparators([]);
    hide *;
    var device, front := EveryPath(p);
    DotChangesNothing(device, front, []);
    assert front + [] == front && front + ["."] + [] == front + ["."];
    SpelledMore(device, front, ["."]);
    SingleJoin(".");
    assert p + "\\" + "." == p + "\\.";
  }

  lemma DotBetween(p: string, q: string)
    requires |p| >= PREFIX
    ensures Coalesced(p + "\\.\\" + q) == Coalesced(p + "\\" + q)
  {
    hide *;
    var device, front := EveryPath(p);
    var back := Parts(q);
    DotChangesNothing(device, front, back);
    SpelledMore(device, front, ["."]);
    SingleJoin(".");
    SpelledMore(device, front, back);
    SpelledMore(device, front + ["."], back);
    assert p + "\\" + "." + "\\" + q == p + "\\.\\" + q;
  }

  lemma Parts(q: string) returns (cs: seq<string>)
    ensures cs != [] && NoSeparators(cs) && Join(cs) == q
  {
    cs := Cut(q, 0, 0);
    CutIsWhole(q, 0, 0);
    JoinOfCut(q, 0, 0);
    assert q[0..] == q;
  }

  lemma SingleJoin(c: string)
    ensures Join([c]) == c
  {
  }

  /** A name and the climb right behind it change nothing, wherever they stand. */
  lemma DetourChangesNothing(device: string, front: seq<string>, name: string, back: seq<string>)
    requires IsDevice(device) && NoSeparators(front) && NoSeparators(back)
    requires '\\' !in name && name != "." && name != ".."
    ensures |Spelled(device, front + back)| >= PREFIX && |Spelled(device, front + [name, ".."] + back)| >= PREFIX
    ensures Coalesced(Spelled(device, front + [name, ".."] + back)) == Coalesced(Spelled(device, front + back))
  {
    hide Fold;
    var detour := front + [name, ".."];
    assert detour == front + [name] + [".."];
    ComponentsOf(device, detour + back);
    ComponentsOf(device, front + back);
    DeviceIsPushed(device, detour + back);
    DeviceIsPushed(device, front + back);
    FoldJoins([device], detour, back);
    FoldJoins([device], front, back);
    FoldSnoc([device], front + [name], "..");
    FoldSnoc([device], front, name);
    DeviceStays(device, front);
  }

  lemma {:induction false} DeviceStays(device: string, cs: seq<string>)
    ensures Fold([device], cs) != []
  {
    FoldIsShallow(device, cs, 0);
  }

  lemma {:induction false} FoldJoins(stack: seq<string>, a: seq<string>, b: seq<string>)
    ensures Fold(stack, a + b) == Fold(Fold(stack, a), b)
    decreases a
  {
    if a == [] {
      assert a + b == b;
    } else {
      assert (a + b)[1..] == a[1..] + b;
      FoldJoins(Push(stack, a[0]), a[1..], b);
    }
  }
}
