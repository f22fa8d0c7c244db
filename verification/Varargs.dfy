/** The lazy argument cache behind positional conversions: arguments are fetched once, in order, and kept. */
module Varargs {
  import opened Basics

  const DEFAULT_SIZE: nat := 64

  function RoundUp(x: nat, y: nat): nat
    requires y > 0
  {
    ((x + (y - 1)) / y) * y
  }

  class Cache<T(0)> {
    /** The caller's argument list; reading past its end is the caller's error. */
    const list: seq<T>
    /** How many arguments have been fetched from the list. */
    var fetched: nat
    var current: nat
    var readCount: nat
    const args: array<T>
    var extra: array?<T>
    var capacity: nat

    constructor (arguments: seq<T>)
      ensures Valid() && fresh(args) && extra == null && list == arguments
      ensures current == 0 && readCount == 0
    {
      list := arguments;
      fetched, current, readCount, capacity := 0, 0, 0, 0;
      args := new T[DEFAULT_SIZE];
      extra := null;
    }

    /** Everything fetched is cached, in order, first in the fixed array and then in the grown one. */
    ghost predicate Valid()
      reads this, args, extra
    {
      && args.Length == DEFAULT_SIZE
      && fetched == readCount <= |list| && current <= readCount
      && (extra == null ==> capacity == 0)
      && (extra != null ==> extra.Length == capacity && extra != args)
      && (readCount > DEFAULT_SIZE ==> extra != null && readCount - DEFAULT_SIZE <= capacity)
      && (forall i | 0 <= i < readCount && i < DEFAULT_SIZE :: args[i] == list[i])
      && (forall i | 0 <= i < readCount - DEFAULT_SIZE :: extra[i] == list[DEFAULT_SIZE + i])
    }

    /** Fetches the next argument of the list. */
    method Fetch() returns (x: T)
      requires fetched < |list|
      modifies this`fetched
      ensures fetched == old(fetched) + 1 && x == list[old(fetched)]
    {
      x := list[fetched];
      fetched := fetched + 1;
    }

    /** Fetches arguments into the fixed array until `limit` are there. */
    method FillFixed(limit: nat)
      requires Valid() && limit <= DEFAULT_SIZE && limit <= |list|
      modifies this`fetched, this`readCount, args
      ensures Valid() && readCount == Max(old(readCount), limit)
    {
      while readCount < limit
        invariant Valid() && readCount <= Max(old(readCount), limit) && old(readCount) <= readCount
        decreases limit - readCount
      {
        var x := Fetch();
        args[readCount] := x;
        readCount := readCount + 1;
      }
    }

    /** Replaces the grown array by a larger one with the same arguments. */
    method Regrow(size: nat)
      requires Valid() && size >= capacity
      modifies this`extra, this`capacity
      ensures Valid() && extra != null && fresh(extra) && capacity == size
    {
      var bigger := new T[size];
      if extra != null {
        forall i | 0 <= i < capacity {
          bigger[i] := extra[i];
        }
      }
      extra, capacity := bigger, size;
    }

    method FillExtra(limit: nat)
      requires Valid() && DEFAULT_SIZE <= readCount && limit <= |list|
      requires extra != null && limit <= DEFAULT_SIZE + capacity
      modifies this`fetched, this`readCount, extra
      ensures Valid() && readCount == Max(old(readCount), limit)
    {
      while readCount < limit
        invariant Valid() && readCount <= Max(old(readCount), limit) && old(readCount) <= readCount
        decreases limit - readCount
      {
        var x := Fetch();
        extra[readCount - DEFAULT_SIZE] := x;
        readCount := readCount + 1;
      }
    }

    /** The next argument in sequence: index 0. */
    method GetNext() returns (x: T)
      requires Valid() && current < |list|
      modifies this, args, extra
      ensures Valid() && x == list[old(current)] && current == old(current) + 1
      ensures readCount == Max(old(readCount), old(current) + 1)
      ensures extra == old(extra) || fresh(extra)
    {
      if current < DEFAULT_SIZE {
        FillFixed(current + 1);
        x := args[current];
      } else {
        if readCount == current {
          if extra == null || readCount - DEFAULT_SIZE == capacity {
            Regrow(Max(4, capacity * 2));
          }
          FillExtra(current + 1);
        }
        x := extra[current - DEFAULT_SIZE];
      }
      current := current + 1;
    }

    /** Argument `index`, counted from one; the sequence of index-0 requests is not disturbed. */
    method GetAt(index: nat) returns (x: T)
      requires Valid() && 0 < index <= |list|
      modifies this, args, extra
      ensures Valid() && x == list[index - 1] && current == old(current)
      ensures readCount == Max(old(readCount), index)
      ensures extra == old(extra) || fresh(extra)
    {
      if index <= DEFAULT_SIZE {
        FillFixed(index);
        return args[index - 1];
      }
      FillFixed(DEFAULT_SIZE);
      if extra == null || index - DEFAULT_SIZE > capacity {
        Regrow(Max(4, RoundUp(index - DEFAULT_SIZE, 4)));
      }
      FillExtra(index);
      x := extra[index - DEFAULT_SIZE - 1];
    }

    /** What direct indexing of the list gives for a request. */
    ghost function Answer(index: nat): T
      requires Valid() && (if index == 0 then current < |list| else index <= |list|)
      reads this, args, extra
    {
      list[if index == 0 then current else index - 1]
    }

    method Get(index: nat) returns (x: T)
      requires Valid() && (if index == 0 then current < |list| else index <= |list|)
      modifies this, args, extra
      ensures Valid() && x == old(Answer(index))
      ensures current == old(current) + (if index == 0 then 1 else 0)
      ensures readCount == Max(old(readCount), if index == 0 then old(current) + 1 else index)
      ensures extra == old(extra) || fresh(extra)
    {
      if index == 0 {
        x := GetNext();
      } else {
        x := GetAt(index);
      }
    }
  }

  /** What a run of requests must answer, counting the index-0 requests. */
  function Answers<T>(list: seq<T>, requests: seq<nat>, current: nat): seq<T>
    requires Serviceable(list, requests, current)
  {
    if requests == [] then []
    else if requests[0] == 0 then [list[current]] + Answers(list, requests[1..], current + 1)
    else [list[requests[0] - 1]] + Answers(list, requests[1..], current)
  }

  /** No request reaches past the argument list. */
  predicate Serviceable<T>(list: seq<T>, requests: seq<nat>, current: nat) {
    requests == [] ||
      if requests[0] == 0 then current < |list| && Serviceable(list, requests[1..], current + 1)
      else requests[0] <= |list| && Serviceable(list, requests[1..], current)
  }

  /** Any interleaving of sequential and positional requests is answered as by direct indexing. */
  method Serve<T(0)>(cache: Cache<T>, requests: seq<nat>) returns (answers: seq<T>)
    requires cache.Valid() && Serviceable(cache.list, requests, cache.current)
    modifies cache, cache.args, cache.extra
    ensures cache.Valid() && answers == old(Answers(cache.list, requests, cache.current))
    decreases requests
  {
    answers := [];
    if requests != [] {
      var x := cache.Get(requests[0]);
      var more := Serve(cache, requests[1..]);
      answers := [x] + more;
    }
  }
}
