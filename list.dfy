/** The circular doubly-linked list of list.hpp. Nodes live in a pool
    indexed by nat: slot 0 is the sentinel `node`, get_node hands out the
    next unused slot, and a node is named by its slot, so an iterator is a
    slot number. The ghost `order` lists the element nodes from begin()
    to the node before end(). */
module Lists {

  /** The node at element index j; the sentinel 0 at j == |order|, so
      that end() is index |order|. */
  ghost function At(order: seq<nat>, j: nat): nat
    requires j <= |order|
  {
    if j < |order| then order[j] else 0
  }

  /** The node before element index j; the sentinel 0 at j == 0. */
  ghost function Before(order: seq<nat>, j: nat): nat
    requires j <= |order|
  {
    if j == 0 then 0 else order[j - 1]
  }

  /** The element nodes are distinct allocated slots other than the
      sentinel. */
  ghost predicate Nodes(order: seq<nat>, n: nat)
  {
    (forall i :: 0 <= i < |order| ==> 0 < order[i] < n) &&
    (forall i, j :: 0 <= i < j < |order| ==> order[i] != order[j])
  }

  /** next and prev agree with order: walking next from the sentinel
      meets the elements in order and comes back, and each prev link
      points back along the same step. */
  ghost predicate Linked(next: seq<nat>, prev: seq<nat>, order: seq<nat>)
  {
    forall j :: 0 <= j <= |order| ==>
      Before(order, j) < |next| && At(order, j) < |prev| &&
      next[Before(order, j)] == At(order, j) &&
      prev[At(order, j)] == Before(order, j)
  }

  lemma AtBeforeDistinct(order: seq<nat>, n: nat)
    requires Nodes(order, n)
    ensures forall i, j :: 0 <= i < j <= |order| ==> Before(order, i) != Before(order, j)
    ensures forall i, j :: 0 <= i < j <= |order| ==> At(order, i) != At(order, j)
  {
  }

  /** insert(position, x) with position at element index k: the new slot
      t goes between Before(order, k) and position. */
  lemma {:induction false} LinkedInsert(next: seq<nat>, prev: seq<nat>, order: seq<nat>, k: nat)
    requires |next| == |prev| && Nodes(order, |next|) && Linked(next, prev, order)
    requires k <= |order|
    ensures var t, p, q := |next|, At(order, k), Before(order, k);
      Nodes(order[..k] + [t] + order[k..], |next| + 1) &&
      Linked((next + [p])[q := t], (prev + [q])[p := t], order[..k] + [t] + order[k..])
  {
    var t, p, q := |next|, At(order, k), Before(order, k);
    var o' := order[..k] + [t] + order[k..];
    var next', prev' := (next + [p])[q := t], (prev + [q])[p := t];
    AtBeforeDistinct(order, |next|);
    forall j | 0 <= j <= |o'|
      ensures Before(o', j) < |next'| && At(o', j) < |prev'|
      ensures next'[Before(o', j)] == At(o', j) && prev'[At(o', j)] == Before(o', j)
    {
      if j < k {
        assert Before(o', j) == Before(order, j) && At(o', j) == At(order, j);
        assert Before(order, j) != q && At(order, j) != p;
      } else if j == k {
        assert Before(o', j) == q && At(o', j) == t;
      } else if j == k + 1 {
        assert Before(o', j) == t && At(o', j) == p;
      } else {
        assert Before(o', j) == Before(order, j - 1) && At(o', j) == At(order, j - 1);
        assert Before(order, j - 1) != q && At(order, j - 1) != p;
      }
    }
  }

  /** erase of the element at index k links Before(order, k) to
      At(order, k + 1). */
  lemma {:induction false} LinkedErase(next: seq<nat>, prev: seq<nat>, order: seq<nat>, k: nat)
    requires |next| == |prev| && Nodes(order, |next|) && Linked(next, prev, order)
    requires k < |order|
    ensures var a, b := Before(order, k), At(order, k + 1);
      Nodes(order[..k] + order[k + 1..], |next|) &&
      Linked(next[a := b], prev[b := a], order[..k] + order[k + 1..])
  {
    var a, b := Before(order, k), At(order, k + 1);
    var o' := order[..k] + order[k + 1..];
    var next', prev' := next[a := b], prev[b := a];
    AtBeforeDistinct(order, |next|);
    forall j | 0 <= j <= |o'|
      ensures Before(o', j) < |next'| && At(o', j) < |prev'|
      ensures next'[Before(o', j)] == At(o', j) && prev'[At(o', j)] == Before(o', j)
    {
      if j < k {
        assert Before(o', j) == Before(order, j) && At(o', j) == At(order, j);
        assert Before(order, j) != a && At(order, j) != b;
      } else if j == k {
        assert Before(o', j) == a && At(o', j) == b;
      } else {
        assert Before(o', j) == Before(order, j + 1) && At(o', j) == At(order, j + 1);
        assert Before(order, j + 1) != a && At(order, j + 1) != b;
      }
    }
  }

  /** The values stored at the nodes of order. */
  ghost function Values<T>(order: seq<nat>, data: map<nat, T>): (r: seq<T>)
    requires forall i :: 0 <= i < |order| ==> order[i] in data
    ensures |r| == |order| && forall i :: 0 <= i < |r| ==> r[i] == data[order[i]]
  {
    seq(|order|, i requires 0 <= i < |order| => data[order[i]])
  }

  /** The values after a node t holding x is linked in at index k. */
  lemma ValuesInsert<T>(order: seq<nat>, data: map<nat, T>, k: nat, t: nat, x: T)
    requires k <= |order| && t !in order
    requires forall i :: 0 <= i < |order| ==> order[i] in data
    ensures var o' := order[..k] + [t] + order[k..];
      (forall i :: 0 <= i < |o'| ==> o'[i] in data[t := x]) &&
      Values(o', data[t := x]) == Values(order, data)[..k] + [x] + Values(order, data)[k..]
  {
    var o' := order[..k] + [t] + order[k..];
    var d' := data[t := x];
    assert forall i :: 0 <= i < |o'| ==> o'[i] in d';
    var e, e' := Values(order, data), Values(o', d');
    forall i | 0 <= i < |e'|
      ensures e'[i] == (e[..k] + [x] + e[k..])[i]
    {
      if i < k {
        assert o'[i] == order[i];
      } else if i > k {
        assert o'[i] == order[i - 1];
      }
    }
  }

  /** The values after the node at index k is unlinked and destroyed. */
  lemma ValuesErase<T>(order: seq<nat>, data: map<nat, T>, k: nat, n: nat)
    requires k < |order| && Nodes(order, n)
    requires forall i :: 0 <= i < |order| ==> order[i] in data
    ensures var o' := order[..k] + order[k + 1..];
      (forall i :: 0 <= i < |o'| ==> o'[i] in data - {order[k]}) &&
      Values(o', data - {order[k]}) == Values(order, data)[..k] + Values(order, data)[k + 1..]
  {
    var o' := order[..k] + order[k + 1..];
    var d' := data - {order[k]};
    forall i | 0 <= i < |o'|
      ensures o'[i] in d' && d'[o'[i]] == data[o'[i]]
    {
      if i < k {
        assert o'[i] == order[i] != order[k];
      } else {
        assert o'[i] == order[i + 1] != order[k];
      }
    }
    var e, e' := Values(order, data), Values(o', d');
    forall i | 0 <= i < |e'|
      ensures e'[i] == (e[..k] + e[k + 1..])[i]
    {
      if i < k {
        assert o'[i] == order[i];
      } else {
        assert o'[i] == order[i + 1];
      }
    }
  }

  /** The first index of p in s. */
  ghost function IndexOf(s: seq<nat>, p: nat): (r: nat)
    requires p in s
    ensures r < |s| && s[r] == p
  {
    if s[0] == p then 0 else 1 + IndexOf(s[1..], p)
  }

  /** s with its runs of equal neighbours collapsed to one element each,
      built from the left as unique() walks. */
  ghost function Dedup<T>(s: seq<T>): (r: seq<T>)
    ensures |s| > 0 ==> |r| > 0 && r[|r| - 1] == s[|s| - 1]
    ensures |r| <= |s|
  {
    if |s| <= 1 then s
    else if s[|s| - 1] == s[|s| - 2] then Dedup(s[..|s| - 1])
    else Dedup(s[..|s| - 1]) + [s[|s| - 1]]
  }

  /** Dedup leaves no two equal neighbours, keeps every element and adds
      none. */
  lemma {:induction false} DedupNoAdjacentEqual<T>(s: seq<T>)
    ensures forall i :: 0 <= i < |Dedup(s)| - 1 ==> Dedup(s)[i] != Dedup(s)[i + 1]
    ensures forall x :: x in s <==> x in Dedup(s)
  {
    if |s| > 1 {
      var s' := s[..|s| - 1];
      DedupNoAdjacentEqual(s');
      assert s == s' + [s[|s| - 1]];
      assert s[|s| - 2] == s'[|s'| - 1];
      var d := Dedup(s');
      if s[|s| - 1] != s[|s| - 2] {
        var r := d + [s[|s| - 1]];
        assert Dedup(s) == r;
        forall i | 0 <= i < |r| - 1
          ensures r[i] != r[i + 1]
        {
          if i < |d| - 1 {
            assert r[i] == d[i] && r[i + 1] == d[i + 1];
          } else {
            assert r[i] == d[|d| - 1] == s'[|s'| - 1];
            assert r[i + 1] == s[|s| - 1];
          }
        }
      }
    }
  }

  /** s without the elements equal to v, in their order. */
  ghost function Removed<T>(s: seq<T>, v: T): (r: seq<T>)
    ensures |r| <= |s|
  {
    if s == [] then []
    else if s[|s| - 1] == v then Removed(s[..|s| - 1], v)
    else Removed(s[..|s| - 1], v) + [s[|s| - 1]]
  }

  /** remove(v) deletes exactly the elements equal to v: none is left,
      and every other element keeps its count. */
  lemma {:induction false} RemovedCounts<T>(s: seq<T>, v: T)
    ensures v !in Removed(s, v)
    ensures forall x :: x != v ==> multiset(Removed(s, v))[x] == multiset(s)[x]
  {
    if s != [] {
      var s' := s[..|s| - 1];
      RemovedCounts(s', v);
      assert s == s' + [s[|s| - 1]];
    }
  }

  /** Filtering distributes over concatenation. */
  lemma {:induction false} RemovedConcat<T>(a: seq<T>, b: seq<T>, v: T)
    ensures Removed(a + b, v) == Removed(a, v) + Removed(b, v)
  {
    if b == [] {
      assert a + b == a;
    } else {
      var b' := b[..|b| - 1];
      RemovedConcat(a, b', v);
      assert (a + b)[..|a + b| - 1] == a + b';
    }
  }

  /** One step of remove's walk from the front: the head of what is left
      is dropped when it equals v and kept otherwise. */
  lemma RemovedAdvance<T>(kept: seq<T>, rest: seq<T>, v: T)
    requires rest != []
    ensures (if rest[0] == v then kept else kept + [rest[0]]) + Removed(rest[1..], v)
            == kept + Removed(rest, v)
  {
    assert rest == [rest[0]] + rest[1..];
    RemovedConcat([rest[0]], rest[1..], v);
    assert Removed([rest[0]], v) == if rest[0] == v then [] else [rest[0]] by {
      assert [rest[0]][..0] == [];
    }
  }

  /** At the end of the walk the whole sequence has been processed. */
  lemma WalkDone<T>(e: seq<T>, done: nat, el: seq<T>, prefix: seq<T>)
    requires done == |e| && el == prefix + e[done..]
    ensures el == prefix
  {
  }

  /** One step of unique's walk: the last kept element sits at the
      deduplicated length less one, the next element after it, and the
      next element is dropped when it repeats the last kept one. */
  lemma DedupStep<T>(e: seq<T>, done: nat, el: seq<T>)
    requires 1 <= done < |e| && el == Dedup(e[..done]) + e[done..]
    ensures var d := Dedup(e[..done]);
      el[|d| - 1] == e[done - 1] && el[|d|] == e[done] &&
      (e[done] == e[done - 1] ==> Dedup(e[..done + 1]) == d &&
                                  el[..|d|] + el[|d| + 1..] == d + e[done + 1..]) &&
      (e[done] != e[done - 1] ==> Dedup(e[..done + 1]) == d + [e[done]] &&
                                  el == Dedup(e[..done + 1]) + e[done + 1..])
  {
    var d := Dedup(e[..done]);
    assert e[..done + 1][..done] == e[..done];
    assert e[..done][done - 1] == e[done - 1];
    if e[done] == e[done - 1] {
      assert el[..|d|] == d && el[|d| + 1..] == e[done + 1..];
    } else {
      assert d + e[done..] == d + [e[done]] + e[done + 1..];
    }
  }

  lemma DedupExample()
    ensures Dedup([1, 3, 3, 3, 2, 2, 1]) == [1, 3, 2, 1]
  {
    assert [1, 3, 3, 3, 2, 2, 1][..6] == [1, 3, 3, 3, 2, 2];
    assert [1, 3, 3, 3, 2, 2][..5] == [1, 3, 3, 3, 2];
    assert [1, 3, 3, 3, 2][..4] == [1, 3, 3, 3];
    assert [1, 3, 3, 3][..3] == [1, 3, 3];
    assert [1, 3, 3][..2] == [1, 3];
    assert [1, 3][..1] == [1];
  }

  class List<T(==)> {
    /** next and prev links of every slot, and the data of live element
        slots. */
    var next: seq<nat>
    var prev: seq<nat>
    var data: map<nat, T>
    ghost var order: seq<nat>

    ghost predicate Valid()
      reads this
    {
      |next| == |prev| && 0 < |next| && Nodes(order, |next|) &&
      Linked(next, prev, order) &&
      (forall i :: 0 <= i < |order| ==> order[i] in data)
    }

    /** The values from begin() to end(). */
    ghost function Elements(): (r: seq<T>)
      reads this
      requires Valid()
      ensures |r| == |order|
    {
      Values(order, data)
    }

    /** An iterator into this list: the sentinel (end()) or an element. */
    ghost predicate Iter(p: nat)
      reads this
    {
      p == 0 || p in order
    }

    /** The element index of an iterator; end() is |order|. */
    ghost function Pos(p: nat): (r: nat)
      reads this
      requires Valid() && Iter(p)
      ensures r <= |order| && At(order, r) == p
      ensures forall j :: 0 <= j <= |order| && At(order, j) == p ==> j == r
    {
      AtBeforeDistinct(order, |next|);
      if p == 0 then |order| else IndexOf(order, p)
    }

    /** list(): empty_initialize links the sentinel to itself. */
    constructor ()
      ensures Valid() && Elements() == [] && next == [0] && prev == [0]
    {
      next, prev, data, order := [0], [0], map[], [];
    }

    function Begin(): (r: nat)
      reads this
      requires Valid()
      ensures Iter(r) && Pos(r) == 0
    {
      assert Before(order, 0) == 0;
      next[0]
    }

    function End(): (r: nat)
      reads this
      requires Valid()
      ensures Iter(r) && Pos(r) == |order|
    {
      0
    }

    function Empty(): (r: bool)
      reads this
      requires Valid()
      ensures r <==> Elements() == []
    {
      assert Before(order, 0) == 0;
      next[0] == 0
    }

    /** __list_iterator::operator++ follows next: one position on, from
        end() back round to begin(). */
    function Incr(it: nat): (r: nat)
      reads this
      requires Valid() && Iter(it)
      ensures Iter(r) && Pos(r) == if Pos(it) == |order| then 0 else Pos(it) + 1
    {
      ghost var m := Pos(it);
      assert m < |order| ==> Before(order, m + 1) == it;
      assert m == |order| ==> Before(order, 0) == it;
      next[it]
    }

    /** __list_iterator::operator-- follows prev: one position back, from
        begin() round to end(). */
    function Decr(it: nat): (r: nat)
      reads this
      requires Valid() && Iter(it)
      ensures Iter(r) && Pos(r) == if Pos(it) == 0 then |order| else Pos(it) - 1
    {
      ghost var m := Pos(it);
      assert prev[At(order, m)] == Before(order, m);
      assert m > 0 ==> Before(order, m) == At(order, m - 1);
      assert m == 0 ==> Before(order, m) == At(order, |order|);
      prev[it]
    }

    /** ++ and -- undo each other. */
    lemma {:induction false} IncrDecr(it: nat)
      requires Valid() && Iter(it)
      ensures Decr(Incr(it)) == it && Incr(Decr(it)) == it
    {
      var m := Pos(it);
      assert Pos(Decr(Incr(it))) == m;
      assert Pos(Incr(Decr(it))) == m;
    }

    /** operator*: the value at an element iterator. */
    function Deref(it: nat): (r: T)
      reads this
      requires Valid() && it in order
      ensures r == Elements()[Pos(it)]
    {
      data[it]
    }

    function Front(): (r: T)
      reads this
      requires Valid() && !Empty()
      ensures r == Elements()[0]
    {
      Deref(Begin())
    }

    function Back(): (r: T)
      reads this
      requires Valid() && !Empty()
      ensures r == Elements()[|Elements()| - 1]
    {
      Deref(Decr(End()))
    }

    /** size(): counts the steps from begin() to end(). */
    method Size() returns (n: nat)
      requires Valid()
      ensures n == |Elements()|
    {
      var cur := next[0];
      n := 0;
      while cur != 0
        invariant n <= |order| && cur == At(order, n)
        decreases |order| - n
      {
        assert Before(order, n + 1) == cur;
        cur := next[cur];
        n := n + 1;
      }
    }

    /** insert(position, x): a new node holding x, linked in just before
        position; returns it. */
    method Insert(position: nat, x: T) returns (r: nat)
      requires Valid() && Iter(position)
      modifies this
      ensures Valid() && r == old(|next|) && Iter(r)
      ensures order == old(order[..Pos(position)] + [r] + order[Pos(position)..])
      ensures Elements() == old(Elements()[..Pos(position)] + [x] + Elements()[Pos(position)..])
      ensures Pos(r) == old(Pos(position))
    {
      ghost var k := Pos(position);
      LinkedInsert(next, prev, order, k);
      ValuesInsert(order, data, k, |next|, x);
      r := |next|;
      var before := prev[position];
      next, prev := next + [position], prev + [before];
      next := next[before := r];
      prev := prev[position := r];
      data := data[r := x];
      order := order[..k] + [r] + order[k..];
      assert At(order, k) == r;
    }

    /** erase(position): unlinks position and returns the node after it. */
    method Erase(position: nat) returns (r: nat)
      requires Valid() && position in order
      modifies this
      ensures Valid() && r == old(Incr(position)) && Iter(r)
      ensures order == old(order[..Pos(position)] + order[Pos(position) + 1..])
      ensures Elements() == old(Elements()[..Pos(position)] + Elements()[Pos(position) + 1..])
      ensures Pos(r) == old(Pos(position))
      ensures position !in data && |next| == old(|next|)
    {
      ghost var k := Pos(position);
      LinkedErase(next, prev, order, k);
      ValuesErase(order, data, k, |next|);
      var nextNode, prevNode := next[position], prev[position];
      next := next[prevNode := nextNode];
      prev := prev[nextNode := prevNode];
      data := data - {position};
      order := order[..k] + order[k + 1..];
      r := nextNode;
      assert At(order, k) == r;
    }

    method PushFront(x: T)
      requires Valid()
      modifies this
      ensures Valid() && Elements() == [x] + old(Elements())
    {
      var _ := Insert(Begin(), x);
    }

    method PushBack(x: T)
      requires Valid()
      modifies this
      ensures Valid() && Elements() == old(Elements()) + [x]
    {
      var _ := Insert(End(), x);
    }

    method PopFront()
      requires Valid() && !Empty()
      modifies this
      ensures Valid() && Elements() == old(Elements()[1..])
    {
      var _ := Erase(Begin());
    }

    method PopBack()
      requires Valid() && !Empty()
      modifies this
      ensures Valid() && Elements() == old(Elements()[..|Elements()| - 1])
    {
      var _ := Erase(Decr(End()));
    }

    /** clear(): destroys every element node, then links the sentinel to
        itself. */
    method Clear()
      requires Valid()
      modifies this
      ensures Valid() && Elements() == []
      ensures forall p :: p in old(order) ==> p !in data
    {
      var cur := next[0];
      ghost var n: nat := 0;
      while cur != 0
        invariant n <= |order| && cur == At(order, n)
        invariant forall i :: 0 <= i < n ==> order[i] !in data
        invariant forall i :: n <= i < |order| ==> order[i] in data
        invariant Nodes(order, |next|) && Linked(next, prev, order)
        invariant |next| == |prev| && order == old(order)
        decreases |order| - n
      {
        assert Before(order, n + 1) == cur;
        var tmp := cur;
        cur := next[cur];
        data := data - {tmp};
        forall i | n + 1 <= i < |order|
          ensures order[i] in data
        {
          assert order[i] != order[n];
        }
        n := n + 1;
      }
      next := next[0 := 0];
      prev := prev[0 := 0];
      order := [];
    }

    /** One round of remove's loop: step past first, erasing it when it
        holds value. kept is what has been walked over and left, rest
        what follows from first on. */
    method RemoveStep(first: nat, value: T, ghost kept: seq<T>, ghost rest: seq<T>)
      returns (first2: nat, ghost kept2: seq<T>)
      requires Valid() && first in order
      requires Elements() == kept + rest && Pos(first) == |kept|
      modifies this
      ensures rest != [] && kept2 == if rest[0] == value then kept else kept + [rest[0]]
      ensures Valid() && Iter(first2)
      ensures Elements() == kept2 + rest[1..] && Pos(first2) == |kept2|
      ensures first2 == 0 <==> |rest| == 1
    {
      ghost var el := Elements();
      assert el[|kept|] == rest[0];
      var nx := Incr(first);
      if Deref(first) == value {
        var _ := Erase(first);
        assert el[..|kept|] == kept && el[|kept| + 1..] == rest[1..];
        kept2 := kept;
      } else {
        assert el == kept + [rest[0]] + rest[1..];
        kept2 := kept + [rest[0]];
      }
      first2 := nx;
      assert At(order, |order|) == 0;
    }

    /** remove(value): erases exactly the elements equal to value. */
    method Remove(value: T)
      requires Valid()
      modifies this
      ensures Valid() && Elements() == Removed(old(Elements()), value)
    {
      ghost var e := Elements();
      ghost var kept: seq<T>, rest := [], e;
      var first := Begin();
      var last := End();
      assert At(order, |order|) == 0;
      assert [] + e == e && [] + Removed(e, value) == Removed(e, value);
      while first != last
        invariant Valid() && Iter(first) && last == 0
        invariant Elements() == kept + rest && Pos(first) == |kept|
        invariant kept + Removed(rest, value) == Removed(e, value)
        invariant first == 0 <==> rest == []
        decreases |rest|
      {
        RemovedAdvance(kept, rest, value);
        first, kept := RemoveStep(first, value, kept, rest);
        rest := rest[1..];
      }
      assert kept + [] == kept;
    }

    /** One round of unique's loop: erase nx when it repeats first,
        otherwise move first on to it; then nx is the node after first. */
    method UniqueStep(first: nat, nx: nat, ghost e: seq<T>, ghost done: nat) returns (first2: nat, nx2: nat)
      requires Valid() && first in order && 1 <= done <= |e|
      requires Elements() == Dedup(e[..done]) + e[done..]
      requires Pos(first) == |Dedup(e[..done])| - 1
      requires Iter(nx) && nx != 0 && Pos(nx) == Pos(first) + 1
      modifies this
      ensures Valid() && first2 in order && done < |e|
      ensures Elements() == Dedup(e[..done + 1]) + e[done + 1..]
      ensures Pos(first2) == |Dedup(e[..done + 1])| - 1
      ensures Iter(nx2) && Pos(nx2) == if Pos(first2) == |order| then 0 else Pos(first2) + 1
    {
      ghost var k := Pos(first);
      assert At(order, |order|) == 0;
      DedupStep(e, done, Elements());
      if Deref(first) == Deref(nx) {
        ghost var o := order;
        var _ := Erase(nx);
        assert At(order, k) == o[k] == first;
        first2 := first;
      } else {
        first2 := nx;
      }
      nx2 := Incr(first2);
    }

    /** unique(): erases each element equal to the one kept before it. */
    method Unique()
      requires Valid()
      modifies this
      ensures Valid() && Elements() == Dedup(old(Elements()))
    {
      ghost var e := Elements();
      var first := Begin();
      var last := End();
      if first == last {
        return;
      }
      ghost var done: nat := 1;
      assert e[..1] == [e[0]];
      var nx := Incr(first);
      while nx != last
        invariant Valid() && first in order && last == 0 && 1 <= done <= |e|
        invariant Elements() == Dedup(e[..done]) + e[done..]
        invariant Pos(first) == |Dedup(e[..done])| - 1
        invariant Iter(nx) && Pos(nx) == if Pos(first) == |order| then 0 else Pos(first) + 1
        decreases |e| - done
      {
        first, nx := UniqueStep(first, nx, e, done);
        done := done + 1;
      }
      assert At(order, |order|) == 0;
      assert |e[done..]| == 0;
      assert e[..done] == e;
      WalkDone(e, done, Elements(), Dedup(e));
    }
  }
}
