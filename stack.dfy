/** The LIFO adapter stack over a deque member c (stack.hpp). */
module Stacks {
  import opened Deques

  class Stack<T> {
    /** The built-in container. */
    const c: Deque<T>

    ghost predicate Valid()
      reads c
    {
      c.Valid()
    }

    /** stack() = default: c is built by deque(), that is deque(0, T{}). */
    constructor (bufSiz: nat, elemSize: nat, defaultValue: T)
      requires elemSize > 0
      ensures Valid() && fresh(c)
      ensures c.Contents == []
    {
      c := new Deque(0, defaultValue, bufSiz, elemSize, defaultValue);
    }

    function Empty(): (e: bool)
      reads c
      requires Valid()
      ensures e <==> |c.Contents| == 0
    {
      c.Empty()
    }

    function Size(): (n: int)
      reads c
      requires Valid()
      ensures n == |c.Contents|
    {
      c.Size()
    }

    /** top(): c.back(), the element pushed last among those still held. */
    function Top(): (v: T)
      reads c
      requires Valid() && |c.Contents| > 0
      ensures v == c.Contents[|c.Contents| - 1]
    {
      c.Back()
    }

    /** push(x): c.push_back(x). */
    method Push(x: T)
      requires Valid()
      modifies c
      ensures Valid()
      ensures c.Contents == old(c.Contents) + [x]
    {
      c.PushBack(x);
    }

    /** pop(): c.pop_back(). */
    method Pop()
      requires Valid() && |c.Contents| > 0
      modifies c
      ensures Valid()
      ensures c.Contents == old(c.Contents[..|c.Contents| - 1])
    {
      c.PopBack();
    }
  }

  /** LIFO order: pushing 0, 1, ..., n - 1 onto a new stack and then
      popping until it is empty sees the tops n - 1, ..., 1, 0. */
  method LifoOrder(n: nat, bufSiz: nat) returns (tops: seq<int>)
    ensures tops == seq(n, i => n - 1 - i)
  {
    var st := new Stack<int>(bufSiz, 4, 0);
    var i := 0;
    while i < n
      invariant 0 <= i <= n && st.Valid() && fresh(st.c)
      invariant st.c.Contents == seq(i, k => k)
    {
      st.Push(i);
      i := i + 1;
    }
    tops := [];
    while !st.Empty()
      invariant st.Valid() && fresh(st.c)
      invariant |tops| + |st.c.Contents| == n
      invariant forall k :: 0 <= k < |tops| ==> tops[k] == n - 1 - k
      invariant forall k :: 0 <= k < |st.c.Contents| ==> st.c.Contents[k] == k
      decreases |st.c.Contents|
    {
      tops := tops + [st.Top()];
      st.Pop();
    }
  }
}
