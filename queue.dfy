/** The FIFO adapter queue over a deque member c (queue.hpp). */
module Queues {
  import opened Deques

  class Queue<T> {
    /** The built-in container. */
    const c: Deque<T>

    ghost predicate Valid()
      reads c
    {
      c.Valid()
    }

    /** queue() = default: c is built by deque(), that is deque(0, T{}). */
    constructor (bufSiz: nat, elemSize: nat, defaultValue: T)
      requires elemSize > 0
      ensures Valid() && fresh(c)
      ensures c.Contents == []
    {
      c := new Deque(0, defaultValue, bufSiz, elemSize, defaultValue);
    }

    function Empty(): (e: bool)
      reads c
      requires Valid()
      ensures e <==> |c.Contents| == 0
    {
      c.Empty()
    }

    function Size(): (n: int)
      reads c
      requires Valid()
      ensures n == |c.Contents|
    {
      c.Size()
    }

    /** front(): the element pushed earliest among those still held. */
    function Front(): (v: T)
      reads c
      requires Valid() && |c.Contents| > 0
      ensures v == c.Contents[0]
    {
      c.Front()
    }

    /** push(x): c.push_back(x). */
    method Push(x: T)
      requires Valid()
      modifies c
      ensures Valid()
      ensures c.Contents == old(c.Contents) + [x]
    {
      c.PushBack(x);
    }

    /** pop(): c.pop_front(). */
    method Pop()
      requires Valid() && |c.Contents| > 0
      modifies c
      ensures Valid()
      ensures c.Contents == old(c.Contents)[1..]
    {
      c.PopFront();
    }
  }

  /** FIFO order: pushing 0, 1, ..., n - 1 onto a new queue and then
      popping until it is empty sees the fronts 0, 1, ..., n - 1. */
  method FifoOrder(n: nat, bufSiz: nat) returns (fronts: seq<int>)
    ensures fronts == seq(n, i => i)
  {
    var q := new Queue<int>(bufSiz, 4, 0);
    var i := 0;
    while i < n
      invariant 0 <= i <= n && q.Valid() && fresh(q.c)
      invariant q.c.Contents == seq(i, k => k)
    {
      q.Push(i);
      i := i + 1;
    }
    fronts := [];
    while !q.Empty()
      invariant q.Valid() && fresh(q.c)
      invariant |fronts| + |q.c.Contents| == n
      invariant fronts == seq(|fronts|, k => k)
      invariant q.c.Contents == seq(n - |fronts|, k => k + |fronts|)
      decreases |q.c.Contents|
    {
      fronts := fronts + [q.Front()];
      q.Pop();
    }
  }
}
