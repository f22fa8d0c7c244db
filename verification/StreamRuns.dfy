/** Whole runs of stream calls, each step explained by the unbuffered file. */
module StreamRuns {
  import opened Basics
  import opened Files
  import opened Descriptors
  import opened Streams

  datatype Call =
    | Reading(n: nat)
    | Writing(data: seq<Byte>)
    | Getting
    | Putting(ch: int)
    | Seeking(delta: int, whence: Whence)
    | Rebuffering(given: bool, unbuffered: bool, size: nat)
    | Flushing

  /** One step of a run: the call, what it answered, and the unbuffered file around it. */
  datatype Event = Event(call: Call, value: int, out: seq<Byte>, before: View, after: View, partial: bool)

  /** The step is one an unbuffered file could have made; only a partial read leaves it a choice. */
  ghost predicate Explained(e: Event, access: Access) {
    (e.call.Reading? || e.out == []) &&
    match e.call
    case Reading(n) =>
      if n == 0 then e.after == e.before && e.value == 0 && e.out == []
      else if e.before.flag == Clear && access == WriteOnly then
        e.after == e.before.(flag := Failed) && e.value == 0 && e.out == []
      else ReadAllowed(e.before, n, e.partial, false, e.after, e.out) && e.value == |e.out|
    case Writing(data) =>
      if data == [] then e.after == e.before && e.value == 0
      else if e.before.flag == Failed || access == ReadOnly then
        e.after == e.before.(flag := Failed) && e.value == 0
      else e.after == WriteRef(e.before, data) && e.value == |data|
    case Getting => GetcAllowed(e.before, access, false, e.after, e.value)
    case Putting(ch) =>
      if e.before.flag == Failed || access == ReadOnly then
        e.after == e.before.(flag := Failed) && e.value == EOF
      else e.after == WriteRef(e.before, [ch % 256]) && e.value == ch
    case Seeking(delta, whence) => (e.after, e.value) == SeekRef(e.before, delta, whence)
    case Rebuffering(given, unbuffered, size) =>
      e.after == e.before && e.value == if !given && !unbuffered && size == 0 then -1 else 0
    case Flushing => e.after == e.before && e.value == 0
  }

  // ----- The reference: a file without a buffer -----

  /** What a call does to an unbuffered file; no value where the character read is indeterminate. */
  datatype Outcome = Outcome(after: View, out: seq<Byte>, value: Option<int>)

  function Reference(v: View, access: Access, call: Call): Outcome {
    var failed := v.(flag := Failed);
    match call
    case Reading(n) =>
      if n == 0 then Outcome(v, [], Some(0))
      else if v.flag == Clear && access == WriteOnly then Outcome(failed, [], Some(0))
      else
        var (after, out) := ReadRef(v, n);
        Outcome(after, out, Some(|out|))
    case Writing(data) =>
      if data == [] then Outcome(v, [], Some(0))
      else if v.flag == Failed || access == ReadOnly then Outcome(failed, [], Some(0))
      else Outcome(WriteRef(v, data), [], Some(|data|))
    case Getting =>
      if v.flag == Clear && access == WriteOnly then Outcome(failed, [], None)
      else
        var (after, out) := ReadRef(v, 1);
        Outcome(after, [], if out != [] then Some(AsChar(out[0])) else if after.flag == AtEof then Some(EOF) else None)
    case Putting(ch) =>
      if v.flag == Failed || access == ReadOnly then Outcome(failed, [], Some(EOF))
      else Outcome(WriteRef(v, [ch % 256]), [], Some(ch))
    case Seeking(delta, whence) =>
      var (after, r) := SeekRef(v, delta, whence);
      Outcome(after, [], Some(r))
    case Rebuffering(given, unbuffered, size) =>
      Outcome(v, [], Some(if !given && !unbuffered && size == 0 then -1 else 0))
    case Flushing => Outcome(v, [], Some(0))
  }

  /** The step has exactly the view, bytes and value of the reference. */
  ghost predicate Matches(e: Event, access: Access) {
    var r := Reference(e.before, access, e.call);
    e.after == r.after && e.out == r.out && (r.value.Some? ==> e.value == r.value.value)
  }

  /** Apart from partial reads, what the unbuffered file explains is what the reference does. */
  lemma ExplainedMatches(e: Event, access: Access)
    requires !(e.call.Reading? && e.partial)
    ensures Explained(e, access) <==> Matches(e, access)
  {
    hide Overwrite;
    match e.call
    case Reading(n) =>
      if n > 0 {
        ReadAllowedIsReadRef(e.before, n, e.after, e.out);
      }
    case Getting =>
      GetcMatches(e.before, access, e.after, e.value);
    case _ =>
  }

  lemma GetcMatches(v: View, access: Access, v': View, c: int)
    ensures GetcAllowed(v, access, false, v', c) <==>
              var r := Reference(v, access, Getting);
              v' == r.after && (r.value.Some? ==> c == r.value.value)
  {
    hide Overwrite;
    if !(v.flag == Clear && access == WriteOnly) {
      var out := if v.pos < v'.pos <= |v.file| then v.file[v.pos..v'.pos] else [];
      ReadAllowedIsReadRef(v, 1, v', out);
      ReadAllowedIsReadRef(v, 1, v', ReadRef(v, 1).1);
    }
  }

  /** The view after a sequence of calls: the fold of the reference. */
  function After(v: View, access: Access, calls: seq<Call>): View {
    if calls == [] then v
    else Reference(After(v, access, calls[..|calls| - 1]), access, calls[|calls| - 1]).after
  }

  /** Whether the stream is buffered after a sequence of calls. */
  function BufferedAfter(buffered: bool, calls: seq<Call>): bool {
    if calls == [] then buffered
    else
      var before, last := BufferedAfter(buffered, calls[..|calls| - 1]), calls[|calls| - 1];
      if last.Rebuffering? then !last.unbuffered && (last.given || before) else before
  }

  /** No block read is made while the stream is unbuffered, where the kernel may stop it short. */
  predicate ReadsBuffered(buffered: bool, calls: seq<Call>) {
    forall i | 0 <= i < |calls| && calls[i].Reading? :: BufferedAfter(buffered, calls[..i])
  }

  /** The events of a run: each call in turn, each explained, partial only where the stream is unbuffered. */
  ghost predicate Events(events: seq<Event>, calls: seq<Call>, access: Access, buffered: bool) {
    && |events| == |calls|
    && (forall i | 0 <= i < |calls| :: events[i].call == calls[i] && Explained(events[i], access))
    && (forall i | 0 <= i < |calls| && events[i].partial :: !BufferedAfter(buffered, calls[..i]))
  }

  /** The steps follow one another from `first` to `last`. */
  ghost predicate Chained(events: seq<Event>, first: View, last: View) {
    if events == [] then first == last
    else
      && events[0].before == first && events[|events| - 1].after == last
      && forall i | 0 < i < |events| :: events[i - 1].after == events[i].before
  }

  /** The views, bytes and values of a run are the fold of the reference over its calls. */
  ghost predicate Folds(events: seq<Event>, calls: seq<Call>, access: Access, first: View, last: View) {
    && |events| == |calls| && last == After(first, access, calls)
    && forall i | 0 <= i < |calls| ::
         && events[i].call == calls[i] && events[i].before == After(first, access, calls[..i])
         && Matches(events[i], access)
  }

  lemma MatchesAfter(e: Event, access: Access)
    requires Matches(e, access)
    ensures e.after == Reference(e.before, access, e.call).after
  {
  }

  /** All but the last step of a run is a run. */
  lemma EventsFront(events: seq<Event>, calls: seq<Call>, access: Access, buffered: bool, n: nat)
    requires Events(events, calls, access, buffered) && ReadsBuffered(buffered, calls) && |calls| == n + 1
    ensures Events(events[..n], calls[..n], access, buffered) && ReadsBuffered(buffered, calls[..n])
    ensures !(events[n].call.Reading? && events[n].partial) && Explained(events[n], access) && events[n].call == calls[n]
  {
    hide Explained;
    hide BufferedAfter;
    forall i | 0 <= i < n ensures calls[..n][..i] == calls[..i] {
      TakeTake(calls, n, i);
    }
  }

  lemma ChainedFront(events: seq<Event>, first: View, last: View, n: nat)
    requires Chained(events, first, last) && |events| == n + 1
    ensures Chained(events[..n], first, events[n].before) && events[n].after == last
  {
  }

  lemma FoldsSnoc(events: seq<Event>, calls: seq<Call>, access: Access, first: View, n: nat)
    requires |events| == |calls| == n + 1 && Folds(events[..n], calls[..n], access, first, events[n].before)
    requires Matches(events[n], access) && events[n].call == calls[n]
    ensures Folds(events, calls, access, first, events[n].after)
  {
    MatchesAfter(events[n], access);
    hide Matches;
    hide Reference;
    AfterSnoc(first, access, calls, n);
    hide After;
    forall i | 0 <= i < |calls|
      ensures events[i].call == calls[i] && events[i].before == After(first, access, calls[..i]) && Matches(events[i], access)
    {
      if i < n {
        TakeTake(calls, n, i);
        assert events[..n][i] == events[i];
      }
    }
  }

  lemma AfterSnoc(v: View, access: Access, calls: seq<Call>, n: nat)
    requires |calls| == n + 1
    ensures After(v, access, calls) == Reference(After(v, access, calls[..n]), access, calls[n]).after
  {
  }

  lemma TakeTake(calls: seq<Call>, n: nat, i: nat)
    requires i <= n <= |calls|
    ensures calls[..n][..i] == calls[..i]
  {
  }

  /** A run whose block reads are all buffered is exactly the run of the reference. */
  lemma {:induction false} RunIsFold(events: seq<Event>, calls: seq<Call>, access: Access, buffered: bool, first: View, last: View)
    requires Events(events, calls, access, buffered) && Chained(events, first, last) && ReadsBuffered(buffered, calls)
    ensures Folds(events, calls, access, first, last)
    decreases |calls|
  {
    if calls != [] {
      var n := |calls| - 1;
      EventsFront(events, calls, access, buffered, n);
      ChainedFront(events, first, last, n);
      hide Events;
      hide Chained;
      hide ReadsBuffered;
      hide Folds;
      hide Explained;
      hide Matches;
      RunIsFold(events[..n], calls[..n], access, buffered, first, events[n].before);
      ExplainedMatches(events[n], access);
      FoldsSnoc(events, calls, access, first, n);
    }
  }

  // ----- Streams make such runs -----

  /** The guard of the next step: the exact condition under which its method agrees with the file. */
  predicate Agreeable(s: Stream, call: Call)
    reads s
  {
    match call
    case Reading(_) => true
    case Writing(data) => !s.Overruns(|data|)
    case Getting => !(s.FastGet() && s.flag == Failed)
    case Putting(_) => !s.Overruns(1) && !(s.FastPut() && s.flag == Failed)
    case Seeking(delta, whence) => s.SeekAgrees(delta, whence)
    case Rebuffering(given, unbuffered, size) => given && !unbuffered ==> size > 0
    case Flushing => true
  }

  ghost predicate Sound(s: Stream)
    reads s, s.d, s.buffer
  {
    s.Valid() && !s.d.faulty
  }

  method Step(s: Stream, call: Call) returns (ghost e: Event)
    requires Sound(s) && Agreeable(s, call)
    modifies s, s.d, s.buffer
    ensures Sound(s) && (s.buffer == old(s.buffer) || fresh(s.buffer))
    ensures e.call == call && e.before == old(s.Seen()) && e.after == s.Seen()
    ensures e.partial == !old(s.Buffered())
    ensures s.Buffered() == BufferedAfter(old(s.Buffered()), [call])
    ensures Explained(e, s.access)
  {
    hide Overwrite;
    hide GetcAllowed;
    hide ReadAllowed;
    hide SeekRef;
    ghost var before, partial := s.Seen(), !s.Buffered();
    var value: int := 0;
    ghost var out: seq<Byte>, took: nat := [], 0;
    assert [call][..0] == [];
    match call {
      case Reading(n) =>
        if n > 0 {
          var target := new Byte[n];
          value, out := s.Fread(target, 1, n);
        }
      case Writing(data) =>
        if data != [] {
          value, took := s.Fwrite(data, 1, |data|);
          assert data[..|data|] == data;
        }
      case Getting =>
        value := s.Fgetc();
      case Putting(ch) =>
        value, took := s.Fputc(ch);
        assert [ch % 256][..1] == [ch % 256];
      case Seeking(delta, whence) =>
        value := s.Fseek(delta, whence);
      case Rebuffering(given, unbuffered, size) =>
        value := Rebuffer(s, given, unbuffered, size);
      case Flushing =>
        value := s.Fflush();
    }
    e := Event(call, value, out, before, s.Seen(), partial);
  }

  /** setvbuf with a buffer of the caller's own, or with none. */
  method Rebuffer(s: Stream, given: bool, unbuffered: bool, size: nat) returns (r: int)
    requires Sound(s) && (given && !unbuffered ==> size > 0)
    modifies s, s.d
    ensures Sound(s) && (s.buffer == old(s.buffer) || fresh(s.buffer)) && s.Seen() == old(s.Seen())
    ensures s.Buffered() == (!unbuffered && (given || old(s.Buffered())))
    ensures r == if !given && !unbuffered && size == 0 then -1 else 0
  {
    hide Overwrite;
    var own: array?<Byte> := null;
    if given {
      own := new Byte[size];
    }
    r := s.Setvbuf(own, unbuffered, size);
  }

  /**
   * Plays calls until one is not agreeable. Every step is one the unbuffered file explains, and as long
   * as block reads are buffered the whole run is the fold of the reference.
   */
  method Play(s: Stream, calls: seq<Call>) returns (done: nat, ghost events: seq<Event>)
    requires Sound(s)
    modifies s, s.d, s.buffer
    ensures Sound(s) && done == |events| <= |calls|
    ensures Events(events, calls[..done], s.access, old(s.Buffered())) && Chained(events, old(s.Seen()), s.Seen())
    ensures ReadsBuffered(old(s.Buffered()), calls[..done]) ==>
              Folds(events, calls[..done], s.access, old(s.Seen()), s.Seen())
    ensures s.Buffered() == BufferedAfter(old(s.Buffered()), calls[..done])
    ensures done < |calls| ==> !Agreeable(s, calls[done])
  {
    hide Overwrite;
    hide Explained;
    hide Folds;
    done, events := 0, [];
    while done < |calls| && Agreeable(s, calls[done])
      invariant Sound(s) && (s.buffer == old(s.buffer) || fresh(s.buffer))
      invariant done == |events| <= |calls|
      invariant Events(events, calls[..done], s.access, old(s.Buffered()))
      invariant Chained(events, old(s.Seen()), s.Seen())
      invariant s.Buffered() == BufferedAfter(old(s.Buffered()), calls[..done])
    {
      ghost var e := Step(s, calls[done]);
      EventsSnoc(events, calls, done, s.access, old(s.Buffered()), e);
      done, events := done + 1, events + [e];
    }
    if ReadsBuffered(old(s.Buffered()), calls[..done]) {
      RunIsFold(events, calls[..done], s.access, old(s.Buffered()), old(s.Seen()), s.Seen());
    }
  }

  lemma EventsSnoc(events: seq<Event>, calls: seq<Call>, done: nat, access: Access, buffered: bool, e: Event)
    requires done < |calls| && Events(events, calls[..done], access, buffered)
    requires e.call == calls[done] && Explained(e, access) && e.partial == !BufferedAfter(buffered, calls[..done])
    ensures Events(events + [e], calls[..done + 1], access, buffered)
    ensures BufferedAfter(buffered, calls[..done + 1]) == BufferedAfter(BufferedAfter(buffered, calls[..done]), [calls[done]])
  {
    hide Explained;
    BufferedSnoc(buffered, calls, done);
    hide BufferedAfter;
    var more, longer := calls[..done + 1], events + [e];
    forall i | 0 <= i < |more|
      ensures longer[i].call == more[i] && Explained(longer[i], access)
      ensures longer[i].partial ==> !BufferedAfter(buffered, more[..i])
    {
      TakeTake(calls, done + 1, i);
      if i < done {
        TakeTake(calls, done, i);
        assert longer[i] == events[i] && more[i] == calls[..done][i];
      }
    }
  }

  lemma BufferedSnoc(buffered: bool, calls: seq<Call>, done: nat)
    requires done < |calls|
    ensures BufferedAfter(buffered, calls[..done + 1]) == BufferedAfter(BufferedAfter(buffered, calls[..done]), [calls[done]])
  {
    assert calls[..done + 1][..done] == calls[..done] && [calls[done]][..0] == [];
  }

  /** Flushing at the end of a run makes the descriptor's file the file of the reference. */
  method PlayAndFlush(s: Stream, calls: seq<Call>) returns (done: nat, ghost events: seq<Event>, r: int)
    requires Sound(s)
    modifies s, s.d, s.buffer
    ensures Sound(s) && r == 0 && done == |events| <= |calls|
    ensures Events(events, calls[..done], s.access, old(s.Buffered())) && Chained(events, old(s.Seen()), s.Seen())
    ensures s.d.file == s.Seen().file && s.pos == s.Seen().pos
    ensures ReadsBuffered(old(s.Buffered()), calls[..done]) ==>
              && Folds(events, calls[..done], s.access, old(s.Seen()), s.Seen())
              && s.d.file == After(old(s.Seen()), s.access, calls[..done]).file
  {
    hide Overwrite;
    hide Explained;
    hide Events;
    hide Chained;
    done, events := Play(s, calls);
    r := s.Fflush();
  }

  function Concat(chunks: seq<seq<Byte>>): seq<Byte> {
    if chunks == [] then [] else Concat(chunks[..|chunks| - 1]) + chunks[|chunks| - 1]
  }

  /**
   * Any number of writes and single characters of any sizes, ended by a flush: the file gains exactly
   * their concatenation, in order, at the position the stream had.
   */
  method WriteAll(s: Stream, chunks: seq<seq<Byte>>) returns (r: int)
    requires Sound(s) && s.WholeWindow() && s.flag != Failed && s.access != ReadOnly
    modifies s, s.d, s.buffer
    ensures Sound(s) && r == 0 && s.pos == old(s.pos) + |Concat(chunks)|
    ensures s.d.file == Overwrite(old(s.Seen()).file, old(s.pos), Concat(chunks))
  {
    hide Overwrite;
    hide Concat;
    WriteChunks(s, chunks);
    r := s.Fflush();
  }

  method WriteChunks(s: Stream, chunks: seq<seq<Byte>>)
    requires Sound(s) && s.WholeWindow() && s.flag != Failed && s.access != ReadOnly
    modifies s, s.d, s.buffer
    ensures Sound(s) && s.flag == old(s.flag) && (s.buffer == old(s.buffer) || fresh(s.buffer))
    ensures s.Seen() == WriteRef(old(s.Seen()), Concat(chunks))
  {
    hide Concat;
    ghost var before := s.Seen();
    WritesNothing(before);
    assert chunks[..0] == [];
    hide WriteRef;
    for i := 0 to |chunks|
      invariant Sound(s) && s.WholeWindow() && s.flag == old(s.flag)
      invariant s.buffer == old(s.buffer) || fresh(s.buffer)
      invariant s.Seen() == WriteRef(before, Concat(chunks[..i]))
    {
      WriteChunk(s, chunks[i]);
      WritesNext(before, chunks, i);
    }
    assert chunks[..|chunks|] == chunks;
  }

  lemma WritesNothing(v: View)
    ensures WriteRef(v, Concat([])) == v
  {
  }

  lemma WritesNext(v: View, chunks: seq<seq<Byte>>, i: nat)
    requires i < |chunks|
    ensures WriteRef(WriteRef(v, Concat(chunks[..i])), chunks[i]) == WriteRef(v, Concat(chunks[..i + 1]))
  {
    hide Overwrite;
    assert chunks[..i + 1][..i] == chunks[..i];
    OverwriteJoin(v.file, v.pos, Concat(chunks[..i]), chunks[i]);
  }

  /** A character that is written and sought back to is read again, as the char with the same low byte. */
  method PutThenGet(s: Stream, ch: int) returns (c: int)
    requires Sound(s) && s.WholeWindow() && s.flag == Clear && s.access == ReadWrite
    modifies s, s.d, s.buffer
    ensures Sound(s) && s.pos == old(s.pos) + 1 && s.flag == Clear
    ensures -128 <= c <= 127 && c % 256 == ch % 256
  {
    hide Overwrite;
    hide GetcAllowed;
    var at := s.pos;
    var _, _ := s.Fputc(ch);
    assert [ch % 256][..1] == [ch % 256];
    ghost var mid := s.Seen();
    OverwriteAt(old(s.Seen()).file, at, [ch % 256], at);
    SeekLands(mid, at, FromStart);
    var _ := s.Fseek(at, FromStart);
    ghost var there := s.Seen();
    c := s.Fgetc();
    GetcSucceeds(there, s.access, s.Seen(), c);
  }

  method WriteChunk(s: Stream, chunk: seq<Byte>)
    requires Sound(s) && s.WholeWindow() && s.flag != Failed && s.access != ReadOnly
    modifies s, s.d, s.buffer
    ensures Sound(s) && s.WholeWindow() && s.flag == old(s.flag)
    ensures s.buffer == old(s.buffer) || fresh(s.buffer)
    ensures s.Seen() == WriteRef(old(s.Seen()), chunk)
  {
    hide Overwrite;
    assert chunk[..|chunk|] == chunk;
    if |chunk| == 1 {
      var _, _ := s.Fputc(chunk[0]);
      assert [chunk[0] % 256][..1] == chunk;
    } else if chunk != [] {
      var _, _ := s.Fwrite(chunk, 1, |chunk|);
    }
  }
}
