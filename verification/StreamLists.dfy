/** The list of open streams: linked both ways, with the newest stream as its head. */
module StreamLists {
  import opened Descriptors
  import opened Files
  import opened Streams

  /** A stream and its place in the list. */
  class Node {
    const id: nat
    const stream: Stream
    var prev: Node?
    var next: Node?

    constructor (id: nat, stream: Stream)
      ensures this.id == id && this.stream == stream
    {
      this.id, this.stream := id, stream;
      prev, next := null, null;
    }
  }

  /** Element `i`, or null outside the sequence. */
  ghost function Nth(nodes: seq<Node>, i: int): Node? {
    if 0 <= i < |nodes| then nodes[i] else null
  }

  ghost predicate Linked(nodes: seq<Node>, i: nat)
    requires i < |nodes|
    reads nodes[i]
  {
    nodes[i].prev == Nth(nodes, i - 1) && nodes[i].next == Nth(nodes, i + 1)
  }

  /** The elements that are left when element `i` is taken out. */
  lemma NthLeft(was: seq<Node>, i: nat, j: int)
    requires i < |was|
    ensures Nth(was[..i] + was[i + 1..], j) == Nth(was, if j < i then j else j + 1)
  {
  }

  /** Linked as if element `i` were not there. */
  ghost predicate Skips(nodes: seq<Node>, i: nat, j: nat)
    requires j < |nodes|
    reads nodes[j]
  {
    && nodes[j].prev == Nth(nodes, if j == i + 1 then i - 1 else j - 1)
    && nodes[j].next == Nth(nodes, if j == i - 1 then i + 1 else j + 1)
  }

  lemma LinkedLeft(was: seq<Node>, i: nat, j: nat)
    requires i < |was| && j < |was| - 1 && Skips(was, i, Past(i, j))
    ensures Linked(was[..i] + was[i + 1..], j)
  {
    NthLeft(was, i, j - 1);
    NthLeft(was, i, j + 1);
    LeftAt(was, i, j);
    hide Nth;
  }

  ghost predicate Distinct(nodes: seq<Node>) {
    forall i, j | 0 <= i < j < |nodes| :: nodes[i] != nodes[j]
  }

  lemma DistinctLeft(was: seq<Node>, i: nat)
    requires Distinct(was) && i < |was|
    ensures Distinct(was[..i] + was[i + 1..]) && was[i] !in was[..i] + was[i + 1..]
  {
    var now := was[..i] + was[i + 1..];
    forall j, k | 0 <= j < k < |now| ensures now[j] != now[k] {
      LeftAt(was, i, j);
      LeftAt(was, i, k);
    }
  }

  /** Where element `j` was before element `i` was taken out. */
  function Past(i: nat, j: nat): nat {
    if j < i then j else j + 1
  }

  lemma LeftAt<T>(s: seq<T>, i: nat, j: nat)
    requires i < |s| && j < |s| - 1
    ensures (s[..i] + s[i + 1..])[j] == s[Past(i, j)]
  {
  }

  class StreamList {
    var head: Node?
    /** The live streams in the order of their creation. */
    ghost var nodes: seq<Node>

    ghost predicate Valid()
      reads this, nodes
    {
      && Distinct(nodes)
      && (forall i | 0 <= i < |nodes| :: Linked(nodes, i))
      && head == Nth(nodes, |nodes| - 1)
    }

    constructor ()
      ensures Valid() && nodes == []
    {
      head, nodes := null, [];
    }

    method Insert(stream: Node)
      requires Valid() && stream !in nodes
      modifies this, stream, nodes
      ensures Valid() && nodes == old(nodes) + [stream]
    {
      ghost var was := nodes;
      stream.prev := head;
      stream.next := null;
      if head != null {
        head.next := stream;
      }
      head := stream;
      nodes := was + [stream];
      forall i | 0 <= i < |nodes| ensures Linked(nodes, i) {
        if i < |was| {
          assert old(Linked(was, i));
        }
      }
    }

    method Delete(stream: Node) returns (ghost i: nat)
      requires Valid() && stream in nodes
      modifies this, nodes
      ensures Valid() && stream !in nodes
      ensures i < |old(nodes)| && old(nodes)[i] == stream && nodes == old(nodes)[..i] + old(nodes)[i + 1..]
    {
      hide Nth;
      i :| 0 <= i < |nodes| && nodes[i] == stream;
      ghost var was := nodes;
      Unlink(stream, i);
      nodes := was[..i] + was[i + 1..];
      forall j | 0 <= j < |nodes| ensures Linked(nodes, j) {
        LinkedLeft(was, i, j);
      }
      NthLeft(was, i, |nodes| - 1);
      DistinctLeft(was, i);
    }

    /** Joins the neighbours of a stream that leaves. */
    method Unlink(stream: Node, ghost i: nat)
      requires Valid() && i < |nodes| && nodes[i] == stream
      modifies this`head, nodes
      ensures nodes == old(nodes) && head == Nth(nodes, if i == |nodes| - 1 then i - 1 else |nodes| - 1)
      ensures forall j | 0 <= j < |nodes| && j != i :: Skips(nodes, i, j)
    {
      assert Linked(nodes, i);
      ghost var before, after := stream.prev, stream.next;
      if stream.prev != null && stream.next != null {
        stream.prev.next := stream.next;
        stream.next.prev := stream.prev;
      } else if stream.prev != null && stream.next == null {
        stream.prev.next := null;
        head := stream.prev;
      } else if stream.prev == null && stream.next != null {
        stream.next.prev := null;
      } else {
        head := null;
      }
      forall j | 0 <= j < |nodes| && j != i ensures Skips(nodes, i, j) {
        assert old(Linked(nodes, j));
        assert nodes[j] == before <==> j == i - 1;
        assert nodes[j] == after <==> j == i + 1;
      }
    }

    /**
     * Flushes every stream once, newest first. Afterwards the file on disk of every stream is the file it
     * stands for, except where the write failed; the status is bad exactly when one did.
     */
    method FlushAll() returns (status: int, order: seq<Node>, ghost results: seq<int>)
      requires Valid() && Apart(nodes)
      modifies StreamsOf(nodes), FilesOf(nodes)
      ensures order == Backwards(nodes) && |results| == |nodes| && Apart(nodes)
      ensures Half(nodes, 0, old(AllTaken(nodes)), results)
      ensures status == if -1 in results then -1 else 0
    {
      hide Backwards;
      hide Half;
      hide Apart;
      hide Distinct;
      hide AllTaken;
      var start := head;
      status, order, results := 0, [], seq(|nodes|, _ => 0);
      ghost var k: nat, before := |nodes|, AllTaken(nodes);
      BackwardsOfNone(nodes[k..]);
      NothingFlushed(nodes, before, results);
      while start != null
        invariant k <= |nodes| && start == Nth(nodes, k - 1) && order == Backwards(nodes[k..])
        invariant Apart(nodes) && |results| == |nodes| && Half(nodes, k, before, results)
        invariant status == if -1 in results then -1 else 0
        decreases k
      {
        k := k - 1;
        assert Linked(nodes, k);
        InFrame(nodes, k);
        var here;
        here, results := FlushOne(start, nodes, k, before, results);
        status := if here == -1 then -1 else status;
        BackwardsOfMore(nodes, k);
        order := order + [start];
        start := start.prev;
      }
      assert nodes[0..] == nodes;
    }
  }

  /** Every stream is sound in itself, and no two share anything a flush changes. */
  ghost predicate Apart(nodes: seq<Node>)
    reads nodes, StreamsOf(nodes), FilesOf(nodes), BuffersOf(nodes)
  {
    && (forall i | 0 <= i < |nodes| :: nodes[i].stream.Valid())
    && (forall i, j | 0 <= i < j < |nodes| ::
          nodes[i].stream != nodes[j].stream && nodes[i].stream.d != nodes[j].stream.d)
  }

  ghost function StreamsOf(nodes: seq<Node>): set<Stream> {
    set i | 0 <= i < |nodes| :: nodes[i].stream
  }

  ghost function FilesOf(nodes: seq<Node>): set<Descriptor> {
    set i | 0 <= i < |nodes| :: nodes[i].stream.d
  }

  ghost function BuffersOf(nodes: seq<Node>): set<array<Byte>>
    reads StreamsOf(nodes)
  {
    set i | 0 <= i < |nodes| :: nodes[i].stream.buffer
  }

  lemma InFrame(nodes: seq<Node>, k: nat)
    requires k < |nodes|
    ensures nodes[k].stream in StreamsOf(nodes) && nodes[k].stream.d in FilesOf(nodes)
  {
  }

  /** What a flush starts from: the file the stream stands for, the file on disk, and whether they may differ. */
  datatype Snapshot = Snapshot(view: View, disk: seq<Byte>, dirty: bool)

  ghost function Taken(s: Stream): Snapshot
    requires s.Valid()
    reads s, s.d, s.buffer
  {
    Snapshot(s.Seen(), s.d.file, s.Dirty())
  }

  /** What one flush with result `r` has made of a stream. */
  ghost predicate Flushed(s: Stream, before: Snapshot, r: int)
    requires s.Valid()
    reads s, s.d, s.buffer
  {
    && (r == 0 || (r == -1 && s.d.faulty && before.dirty))
    && (r == 0 ==> s.Seen() == before.view && s.d.file == before.view.file)
    && (r == -1 ==> s.Seen() == before.view.(flag := Failed) && s.d.file == before.disk)
  }

  /** The state of every stream of a list. */
  ghost function AllTaken(nodes: seq<Node>): seq<Snapshot>
    requires Apart(nodes)
    reads nodes, StreamsOf(nodes), FilesOf(nodes), BuffersOf(nodes)
  {
    seq(|nodes|, i requires 0 <= i < |nodes| && nodes[i].stream.Valid()
                   reads StreamsOf(nodes), FilesOf(nodes), BuffersOf(nodes) => Taken(nodes[i].stream))
  }

  /** The streams from `k` on have been flushed with the given results, the others are as they were. */
  ghost predicate Half(nodes: seq<Node>, k: nat, before: seq<Snapshot>, results: seq<int>)
    reads nodes, StreamsOf(nodes), FilesOf(nodes), BuffersOf(nodes)
  {
    && |before| == |results| == |nodes|
    && (forall i | 0 <= i < |nodes| :: nodes[i].stream.Valid())
    && (forall i | 0 <= i < k && i < |nodes| :: Taken(nodes[i].stream) == before[i] && results[i] == 0)
    && (forall i | k <= i < |nodes| :: Flushed(nodes[i].stream, before[i], results[i]))
  }

  lemma NothingFlushed(nodes: seq<Node>, before: seq<Snapshot>, results: seq<int>)
    requires Apart(nodes) && before == AllTaken(nodes) && results == seq(|nodes|, _ => 0)
    ensures Half(nodes, |nodes|, before, results)
  {
  }

  lemma FirstBad(results: seq<int>, k: nat, r: int)
    requires k < |results| && results[k] == 0
    ensures -1 in results[k := r] <==> r == -1 || -1 in results
  {
    var now := results[k := r];
    if -1 in results {
      var i :| 0 <= i < |results| && results[i] == -1;
      assert now[i] == -1;
    }
    assert now[k] == r;
  }

  /** Flushes one stream of the list; the others are not touched. */
  method FlushOne(node: Node, ghost nodes: seq<Node>, ghost k: nat, ghost before: seq<Snapshot>, ghost results: seq<int>)
    returns (r: int, ghost results': seq<int>)
    requires Apart(nodes) && k < |nodes| && nodes[k] == node && Half(nodes, k + 1, before, results)
    modifies node.stream, node.stream.d
    ensures Apart(nodes) && |results'| == |nodes| && Half(nodes, k, before, results')
    ensures -1 in results' <==> r == -1 || -1 in results
  {
    r := FlushApart(node.stream, nodes, k);
    FirstBad(results, k, r);
    results' := results[k := r];
    hide Stream.Valid;
    hide Flushed;
    hide Taken;
  }

  method FlushApart(stream: Stream, ghost nodes: seq<Node>, ghost k: nat) returns (r: int)
    requires Apart(nodes) && k < |nodes| && nodes[k].stream == stream
    modifies stream, stream.d
    ensures Apart(nodes) && Flushed(stream, old(Taken(stream)), r)
    ensures forall i | 0 <= i < |nodes| && i != k :: unchanged(nodes[i].stream) && unchanged(nodes[i].stream.d)
    ensures stream.buffer == old(stream.buffer)
  {
    hide Overwrite;
    r := stream.Fflush();
  }

  ghost function Backwards(s: seq<Node>): seq<Node> {
    seq(|s|, i requires 0 <= i < |s| => s[|s| - 1 - i])
  }

  lemma BackwardsOfNone(s: seq<Node>)
    requires s == []
    ensures Backwards(s) == []
  {
  }

  lemma BackwardsOfMore(s: seq<Node>, k: nat)
    requires k < |s|
    ensures Backwards(s[k..]) == Backwards(s[k + 1..]) + [s[k]]
  {
  }

  // ----- Runs -----

  datatype Op = Create | Remove(id: nat)

  function Created(ops: seq<Op>): nat {
    if ops == [] then 0 else Created(ops[..|ops| - 1]) + if ops[|ops| - 1].Create? then 1 else 0
  }

  function Without(s: seq<nat>, x: nat): seq<nat> {
    if s == [] then [] else if s[0] == x then s[1..] else [s[0]] + Without(s[1..], x)
  }

  /** The numbers of the live streams after a run, in the order of their creation. */
  function Live(ops: seq<Op>): seq<nat> {
    if ops == [] then []
    else
      var before, last := ops[..|ops| - 1], ops[|ops| - 1];
      match last
      case Create => Live(before) + [Created(before)]
      case Remove(id) => Without(Live(before), id)
  }

  /** Only live streams are removed. */
  predicate Proper(ops: seq<Op>) {
    ops == [] ||
    (Proper(ops[..|ops| - 1]) && (ops[|ops| - 1].Remove? ==> ops[|ops| - 1].id in Live(ops[..|ops| - 1])))
  }

  lemma {:induction false} WithoutIs(s: seq<nat>, x: nat, i: nat)
    requires i < |s| && s[i] == x && forall j | 0 <= j < i :: s[j] != x
    ensures Without(s, x) == s[..i] + s[i + 1..]
  {
    if i > 0 {
      WithoutIs(s[1..], x, i - 1);
      assert s[..i] == [s[0]] + s[1..][..i - 1];
      assert s[1..][i..] == s[i + 1..];
    }
  }

  /** The streams have the given numbers, in that order. */
  ghost predicate Have(nodes: seq<Node>, live: seq<nat>) {
    |nodes| == |live| && forall i | 0 <= i < |live| :: nodes[i].id == live[i]
  }

  /** The numbers increase and have been given out. */
  ghost predicate Numbered(nodes: seq<Node>, made: nat) {
    && (forall i | 0 <= i < |nodes| :: nodes[i].id < made)
    && (forall i, j | 0 <= i < j < |nodes| :: nodes[i].id < nodes[j].id)
  }

  lemma RemovedNumbers(was: seq<Node>, live: seq<nat>, made: nat, i: nat)
    requires Have(was, live) && Numbered(was, made) && i < |was|
    ensures var now := was[..i] + was[i + 1..];
            Have(now, Without(live, was[i].id)) && Numbered(now, made)
  {
    WithoutIs(live, was[i].id, i);
    StillHave(was, live, i);
    StillNumbered(was, made, i);
  }

  lemma StillHave(was: seq<Node>, live: seq<nat>, i: nat)
    requires Have(was, live) && i < |was|
    ensures Have(was[..i] + was[i + 1..], live[..i] + live[i + 1..])
  {
    var now, left := was[..i] + was[i + 1..], live[..i] + live[i + 1..];
    forall j | 0 <= j < |now| ensures now[j].id == left[j] {
      LeftAt(was, i, j);
      LeftAt(live, i, j);
    }
  }

  lemma StillNumbered(was: seq<Node>, made: nat, i: nat)
    requires Numbered(was, made) && i < |was|
    ensures Numbered(was[..i] + was[i + 1..], made)
  {
    var now := was[..i] + was[i + 1..];
    forall j | 0 <= j < |now| ensures now[j].id < made {
      LeftAt(was, i, j);
    }
    forall j, k | 0 <= j < k < |now| ensures now[j].id < now[k].id {
      LeftAt(was, i, j);
      LeftAt(was, i, k);
    }
  }

  /** Stream number `id` of a run is `streams[id]`. */
  ghost predicate Supplied(nodes: seq<Node>, streams: seq<Stream>) {
    forall i | 0 <= i < |nodes| :: nodes[i].id < |streams| && nodes[i].stream == streams[nodes[i].id]
  }

  method CreateStream(list: StreamList, id: nat, streams: seq<Stream>, ghost live: seq<nat>)
    requires list.Valid() && Have(list.nodes, live) && Numbered(list.nodes, id)
    requires Supplied(list.nodes, streams) && id < |streams|
    modifies list, list.nodes
    ensures list.Valid() && Have(list.nodes, live + [id]) && Numbered(list.nodes, id + 1)
    ensures Supplied(list.nodes, streams)
    ensures forall i | 0 <= i < |list.nodes| :: list.nodes[i] in old(list.nodes) || fresh(list.nodes[i])
  {
    var node := new Node(id, streams[id]);
    list.Insert(node);
  }

  /** Closes the stream that has a number. */
  method RemoveStream(list: StreamList, id: nat, ghost streams: seq<Stream>, ghost made: nat, ghost live: seq<nat>)
    requires list.Valid() && Have(list.nodes, live) && Numbered(list.nodes, made) && id in live
    requires Supplied(list.nodes, streams)
    modifies list, list.nodes
    ensures list.Valid() && Have(list.nodes, Without(live, id)) && Numbered(list.nodes, made)
    ensures Supplied(list.nodes, streams)
    ensures forall i | 0 <= i < |list.nodes| :: list.nodes[i] in old(list.nodes)
  {
    var stream := Find(list, id, live);
    hide Have;
    hide Numbered;
    ghost var i := list.Delete(stream);
    RemovedNumbers(old(list.nodes), live, made, i);
  }

  /** A caller's reference to the stream with a number. */
  method Find(list: StreamList, id: nat, ghost live: seq<nat>) returns (stream: Node)
    requires list.Valid() && Have(list.nodes, live) && id in live
    ensures stream in list.nodes && stream.id == id
  {
    ghost var i :| 0 <= i < |live| && live[i] == id;
    var here := list.head;
    ghost var k := |list.nodes| - 1;
    while here == null || here.id != id
      invariant i <= k < |list.nodes| && here == Nth(list.nodes, k)
      decreases k
    {
      assert Linked(list.nodes, k);
      here := here.prev;
      k := k - 1;
    }
    stream := here;
  }

  /**
   * Any run of creations and removals leaves exactly the live streams, in the order of their creation,
   * linked both ways.
   */
  method Play(ops: seq<Op>, streams: seq<Stream>) returns (list: StreamList, made: nat)
    requires Proper(ops) && Created(ops) <= |streams|
    ensures fresh(list) && forall i | 0 <= i < |list.nodes| :: fresh(list.nodes[i])
    ensures list.Valid() && Have(list.nodes, Live(ops)) && Numbered(list.nodes, made) && made == Created(ops)
    ensures Supplied(list.nodes, streams)
  {
    if ops == [] {
      list := new StreamList();
      return list, 0;
    }
    hide Have;
    hide Numbered;
    hide Supplied;
    var before, last := ops[..|ops| - 1], ops[|ops| - 1];
    list, made := Play(before, streams);
    if last.Create? {
      CreateStream(list, made, streams, Live(before));
      made := made + 1;
    } else {
      RemoveStream(list, last.id, streams, made, Live(before));
    }
  }

  /** Streams that share nothing are apart in the list any run of them leaves, so that all can be flushed. */
  lemma SuppliedApart(nodes: seq<Node>, streams: seq<Stream>, made: nat)
    requires Supplied(nodes, streams) && Numbered(nodes, made)
    requires forall i | 0 <= i < |streams| :: streams[i].Valid()
    requires forall i, j | 0 <= i < j < |streams| :: streams[i] != streams[j] && streams[i].d != streams[j].d
    ensures Apart(nodes)
  {
    forall i, j | 0 <= i < j < |nodes|
      ensures nodes[i].stream != nodes[j].stream && nodes[i].stream.d != nodes[j].stream.d
    {
      assert nodes[i].id < nodes[j].id;
    }
  }
}
