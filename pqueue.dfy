/** The priority_queue adapter of pqueue.hpp: a vector kept a heap
    under comp by push_heap and pop_heap. */
module PriorityQueues {
  import opened AlgoHeap
  import opened Vectors

  class PriorityQueue<T(!new)> {
    /** The container c. */
    const c: Vector<T>
    const comp: (T, T) -> bool

    ghost predicate Valid()
      reads this, c, c.data
    {
      c.Valid() && StrictWeakOrder(comp) && IsHeap(c.data[..], c.finish, comp)
    }

    /** The elements held, as a multiset. */
    ghost function Contents(): multiset<T>
      reads this, c, c.data
      requires Valid()
    {
      multiset(c.Elements())
    }

    /** priority_queue(x): an empty vector and the comparator x. */
    constructor (x: (T, T) -> bool)
      requires StrictWeakOrder(x)
      ensures Valid() && Contents() == multiset{} && comp == x
      ensures fresh(c) && fresh(c.data)
    {
      c := new Vector.Default();
      comp := x;
    }

    /** priority_queue(first, last, x): c holds the range, then
        make_heap(c.begin(), c.end(), comp). */
    constructor FromRange(s: seq<T>, x: (T, T) -> bool)
      requires StrictWeakOrder(x)
      ensures Valid() && Contents() == multiset(s) && comp == x
      ensures fresh(c) && fresh(c.data)
    {
      var v := new Vector.Default();
      var i := 0;
      while i != |s|
        invariant i <= |s| && v.Valid() && v.Elements() == s[..i]
        invariant fresh(v) && fresh(v.data)
      {
        v.PushBack(s[i]);
        assert s[..i + 1] == s[..i] + [s[i]];
        i := i + 1;
      }
      assert s[..i] == s;
      c := v;
      comp := x;
      new;
      ghost var e := c.data[..];
      MakeHeapBy(c.data, c.finish, comp);
      PrefixMultiset(c.data[..], e, c.finish);
    }

    function Empty(): (r: bool)
      reads this, c, c.data
      requires Valid()
      ensures r <==> Contents() == multiset{}
    {
      c.Empty()
    }

    function Size(): (r: nat)
      reads this, c, c.data
      requires Valid()
      ensures r == |Contents()|
    {
      c.Size()
    }

    /** top() = c.front(): an element no other element is greater than
        under comp. */
    function Top(): (r: T)
      reads this, c, c.data
      requires Valid() && Size() > 0
      ensures r in Contents()
      ensures forall x :: x in Contents() ==> !comp(r, x)
    {
      RootIsMaxAll(c.data[..], c.finish, comp);
      assert c.Elements()[0] == c.Front();
      c.Front()
    }

    /** push(x): c.push_back(x), then push_heap over the whole of c. */
    method Push(x: T)
      requires Valid()
      modifies c, c.data
      ensures Valid() && Contents() == old(Contents()) + multiset{x}
      ensures Size() == old(Size()) + 1
    {
      ghost var e := c.Elements();
      c.PushBack(x);
      HeapOfPrefix(old(c.data[..]), c.data[..], c.finish - 1, comp);
      ghost var d := c.data[..];
      PushHeapBy(c.data, c.finish, comp);
      PrefixMultiset(c.data[..], d, c.finish);
      assert d[..c.finish] == e + [x];
    }

    /** pop(): pop_heap over the whole of c moves the top to the back, then
        c.pop_back() drops it. */
    method Pop()
      requires Valid() && Size() > 0
      modifies c, c.data
      ensures Valid() && Contents() == old(Contents()) - multiset{old(Top())}
      ensures Size() == old(Size()) - 1 && c.data == old(c.data)
    {
      ghost var d := c.data[..];
      ghost var n := c.finish;
      PopHeapBy(c.data, c.finish, comp);
      PrefixMultiset(c.data[..], d, n);
      assert c.data[..n] == c.data[..n - 1] + [c.data[n - 1]];
      c.PopBack();
      HeapOfPrefix(c.data[..], c.data[..], c.finish, comp);
    }
  }

  /** No element of tops is below a later one under comp. */
  ghost predicate NonIncreasing<T>(tops: seq<T>, comp: (T, T) -> bool)
  {
    forall i, j :: 0 <= i < j < |tops| ==> !comp(tops[i], tops[j])
  }

  /** No element of tops is below anything still in m. */
  ghost predicate AllAbove<T>(tops: seq<T>, m: multiset<T>, comp: (T, T) -> bool)
  {
    forall i, x :: 0 <= i < |tops| && x in m ==> !comp(tops[i], x)
  }

  /** One round of the drain loop: take top(), then pop(). */
  method DrainStep<T(!new)>(q: PriorityQueue<T>, tops: seq<T>) returns (tops2: seq<T>)
    requires q.Valid() && !q.Empty()
    requires NonIncreasing(tops, q.comp) && AllAbove(tops, q.Contents(), q.comp)
    modifies q.c, q.c.data
    ensures q.Valid() && q.c.data == old(q.c.data) && q.Size() < old(q.Size())
    ensures multiset(tops2) + q.Contents() == multiset(tops) + old(q.Contents())
    ensures NonIncreasing(tops2, q.comp) && AllAbove(tops2, q.Contents(), q.comp)
  {
    ghost var m := q.Contents();
    var t := q.Top();
    q.Pop();
    DrainExtends(tops, m, t, q.comp);
    tops2 := tops + [t];
  }

  /** Appending the top of m to tops and taking it out of m keeps tops
      non-increasing and above what is left, and loses no element. */
  lemma DrainExtends<T>(tops: seq<T>, m: multiset<T>, t: T, comp: (T, T) -> bool)
    requires NonIncreasing(tops, comp) && AllAbove(tops, m, comp)
    requires t in m && forall x :: x in m ==> !comp(t, x)
    ensures NonIncreasing(tops + [t], comp) && AllAbove(tops + [t], m - multiset{t}, comp)
    ensures multiset(tops + [t]) + (m - multiset{t}) == multiset(tops) + m
  {
    var r := tops + [t];
    forall i, j | 0 <= i < j < |r|
      ensures !comp(r[i], r[j])
    {
      if j == |tops| {
        assert r[i] == tops[i];
      }
    }
    forall i, x | 0 <= i < |r| && x in m - multiset{t}
      ensures !comp(r[i], x)
    {
      assert x in m;
    }
  }

  /** Popping until empty, as the priority_queue test driver does: the
      tops come out in non-increasing order under comp, and they are
      exactly the elements held. */
  method Drain<T(!new)>(q: PriorityQueue<T>) returns (tops: seq<T>)
    requires q.Valid()
    modifies q.c, q.c.data
    ensures q.Valid() && q.Empty()
    ensures multiset(tops) == old(q.Contents())
    ensures forall i, j :: 0 <= i < j < |tops| ==> !q.comp(tops[i], tops[j])
  {
    tops := [];
    while !q.Empty()
      invariant q.Valid() && q.c.data == old(q.c.data)
      invariant multiset(tops) + q.Contents() == old(q.Contents())
      invariant NonIncreasing(tops, q.comp) && AllAbove(tops, q.Contents(), q.comp)
      decreases q.Size()
    {
      tops := DrainStep(q, tops);
    }
  }
}
