/** The iterator utilities of iterator.hpp: distance and advance with their
    dispatch on the iterator category, the three insert iterators, and
    reverse_iterator.

    distance and advance are exercised on deque cursors, a random-access
    iterator whose logical position is DequeIter.Pos: the input and
    bidirectional loops step it one at a time with Next and Prev, the
    random-access versions use Diff and Add directly. The insert iterators
    write into a Lists.List. A reverse_iterator wraps a random-access
    position into a sequence s, 0 standing for s.begin() and |s| for
    s.end(). */
module Iterators {
  import opened DequeIter
  import opened Lists

  /** The iterator category tags. */
  datatype Category = Input | Forward | Bidirectional | RandomAccess

  // ---- distance -------------------------------------------------------

  /** hidden::__distance for input iterators: counts the ++ steps from
      first until it equals last. */
  method DistanceInput(first: Cursor, last: Cursor, b: nat) returns (n: int)
    requires InBuffer(first, b) && InBuffer(last, b) && Pos(first, b) <= Pos(last, b)
    ensures n == Pos(last, b) - Pos(first, b)
  {
    n := 0;
    var f := first;
    while f != last
      invariant InBuffer(f, b) && Pos(f, b) <= Pos(last, b)
      invariant n == Pos(f, b) - Pos(first, b)
      decreases Pos(last, b) - Pos(f, b)
    {
      PosInjective(f, last, b);
      f := Next(f, b);
      n := n + 1;
    }
  }

  /** distance(first, last): the dispatch gives last - first for random
      access and the counting loop otherwise, and both are the number of
      positions between them. */
  method Distance(first: Cursor, last: Cursor, b: nat, category: Category) returns (n: int)
    requires InBuffer(first, b) && InBuffer(last, b)
    requires category != RandomAccess ==> Pos(first, b) <= Pos(last, b)
    ensures n == Pos(last, b) - Pos(first, b)
  {
    if category == RandomAccess {
      n := Diff(last, first, b);
    } else {
      n := DistanceInput(first, last, b);
    }
  }

  // ---- advance --------------------------------------------------------

  /** hidden::__advance for input iterators: ++i, n times; a negative n
      is not allowed for these iterators. */
  method AdvanceInput(i: Cursor, n: int, b: nat) returns (r: Cursor)
    requires InBuffer(i, b) && n >= 0
    ensures r == Add(i, n, b)
  {
    r := i;
    var k := n;
    while k != 0
      invariant 0 <= k <= n && InBuffer(r, b) && Pos(r, b) == Pos(i, b) + (n - k)
    {
      r := Next(r, b);
      k := k - 1;
    }
    PosInjective(r, Add(i, n, b), b);
  }

  /** hidden::__advance for bidirectional iterators: ++i n times when
      n >= 0, otherwise --i, -n times. */
  method AdvanceBidirectional(i: Cursor, n: int, b: nat) returns (r: Cursor)
    requires InBuffer(i, b)
    ensures r == Add(i, n, b)
  {
    r := i;
    var k := n;
    if k >= 0 {
      while k != 0
        invariant 0 <= k <= n && InBuffer(r, b) && Pos(r, b) == Pos(i, b) + (n - k)
      {
        r := Next(r, b);
        k := k - 1;
      }
    } else {
      while k != 0
        invariant n <= k <= 0 && InBuffer(r, b) && Pos(r, b) == Pos(i, b) + (n - k)
      {
        r := Prev(r, b);
        k := k + 1;
      }
    }
    PosInjective(r, Add(i, n, b), b);
  }

  /** advance(i, n): whichever loop the category selects, i ends up n
      positions further, as i += n puts it for random access. */
  method Advance(i: Cursor, n: int, b: nat, category: Category) returns (r: Cursor)
    requires InBuffer(i, b)
    requires category in {Input, Forward} ==> n >= 0
    ensures r == Add(i, n, b)
    ensures Diff(r, i, b) == n
  {
    match category
    case Input => r := AdvanceInput(i, n, b);
    case Forward => r := AdvanceInput(i, n, b);
    case Bidirectional => r := AdvanceBidirectional(i, n, b);
    case RandomAccess => r := Add(i, n, b);
  }

  // ---- insert iterators -----------------------------------------------

  /** back_insert_iterator: assigning a value appends it to the
      container; * and ++ return the iterator itself. */
  class BackInsertIterator<T(==)> {
    const container: List<T>

    constructor (x: List<T>)
      ensures container == x
    {
      container := x;
    }

    /** operator=(value): container->push_back(value). */
    method Assign(value: T)
      requires container.Valid()
      modifies container
      ensures container.Valid() && container.Elements() == old(container.Elements()) + [value]
    {
      container.PushBack(value);
    }
  }

  /** front_insert_iterator: assigning a value prepends it to the
      container. */
  class FrontInsertIterator<T(==)> {
    const container: List<T>

    constructor (x: List<T>)
      ensures container == x
    {
      container := x;
    }

    /** operator=(value): container->push_front(value). */
    method Assign(value: T)
      requires container.Valid()
      modifies container
      ensures container.Valid() && container.Elements() == [value] + old(container.Elements())
    {
      container.PushFront(value);
    }
  }

  /** insert_iterator: assigning a value inserts it before iter and moves
      iter past it. */
  class InsertIterator<T(==)> {
    const container: List<T>
    var iter: nat

    ghost predicate Valid()
      reads this, container
    {
      container.Valid() && container.Iter(iter)
    }

    /** The position of iter in the container. */
    ghost function Index(): (k: nat)
      reads this, container
      requires Valid()
      ensures k <= |container.Elements()|
    {
      container.Pos(iter)
    }

    constructor (x: List<T>, i: nat)
      requires x.Valid() && x.Iter(i)
      ensures Valid() && container == x && iter == i
    {
      container := x;
      iter := i;
    }

    /** operator=(value): iter = container->insert(iter, value); ++iter. */
    method Assign(value: T)
      requires Valid()
      modifies this, container
      ensures Valid()
      ensures container.Elements() ==
        old(container.Elements()[..Index()] + [value] + container.Elements()[Index()..])
      ensures Index() == old(Index()) + 1
    {
      iter := container.Insert(iter, value);
      iter := container.Incr(iter);
    }
  }

  /** Inserting x just after a block spliced in between pre and post
      extends the block. */
  lemma SpliceStep<T>(pre: seq<T>, vs: seq<T>, i: nat, post: seq<T>)
    requires i < |vs|
    ensures var c := pre + vs[..i] + post;
      c[..|pre| + i] + [vs[i]] + c[|pre| + i..] == pre + vs[..i + 1] + post
  {
    var c := pre + vs[..i] + post;
    assert c[..|pre| + i] == pre + vs[..i];
    assert c[|pre| + i..] == post;
    assert vs[..i + 1] == vs[..i] + [vs[i]];
  }

  /** Assigning vs through an insert_iterator one after another, as
      copy(first, last, inserter(c, it)) does: vs lands before the
      iterator's element, in order, and the iterator ends up past it. */
  method CopyInto<T(==)>(it: InsertIterator<T>, vs: seq<T>)
    requires it.Valid()
    modifies it, it.container
    ensures it.Valid()
    ensures it.container.Elements() ==
      old(it.container.Elements()[..it.Index()]) + vs + old(it.container.Elements()[it.Index()..])
    ensures it.Index() == old(it.Index()) + |vs|
  {
    ghost var pre := it.container.Elements()[..it.Index()];
    ghost var post := it.container.Elements()[it.Index()..];
    var i := 0;
    assert pre + vs[..0] + post == it.container.Elements();
    while i != |vs|
      invariant i <= |vs| && it.Valid()
      invariant it.container.Elements() == pre + vs[..i] + post
      invariant it.Index() == |pre| + i
    {
      it.Assign(vs[i]);
      SpliceStep(pre, vs, i, post);
      i := i + 1;
    }
    assert vs[..i] == vs;
  }

  /** The elements of s in the opposite order. */
  ghost function Reversed<T>(s: seq<T>): (r: seq<T>)
    ensures |r| == |s|
  {
    if |s| == 0 then [] else [s[|s| - 1]] + Reversed(s[..|s| - 1])
  }

  /** Element k of the reversal is element |s| - 1 - k of s. */
  lemma {:induction false} ReversedAt<T>(s: seq<T>, k: nat)
    requires k < |s|
    ensures Reversed(s)[k] == s[|s| - 1 - k]
  {
    if k > 0 {
      ReversedAt(s[..|s| - 1], k - 1);
    }
  }

  /** A sequence that holds s back to front is Reversed(s). */
  lemma ReversedPointwise<T>(s: seq<T>, r: seq<T>)
    requires |r| == |s|
    requires forall k {:trigger r[k]} :: 0 <= k < |r| ==> r[k] == s[|s| - 1 - k]
    ensures r == Reversed(s)
  {
    forall k | 0 <= k < |r|
      ensures r[k] == Reversed(s)[k]
    {
      ReversedAt(s, k);
    }
  }

  /** Assigning vs through a front_insert_iterator one after another
      puts vs before the original elements in reverse order. */
  method CopyFront<T(==)>(it: FrontInsertIterator<T>, vs: seq<T>)
    requires it.container.Valid()
    modifies it.container
    ensures it.container.Valid()
    ensures it.container.Elements() == Reversed(vs) + old(it.container.Elements())
  {
    ghost var e := it.container.Elements();
    ghost var done: seq<T> := [];
    var i := 0;
    while i != |vs|
      invariant i <= |vs| && it.container.Valid()
      invariant it.container.Elements() == done + e
      invariant |done| == i
      invariant forall k {:trigger done[k]} :: 0 <= k < i ==> done[k] == vs[i - 1 - k]
    {
      it.Assign(vs[i]);
      done := [vs[i]] + done;
      i := i + 1;
    }
    ReversedPointwise(vs, done);
  }

  /** Assigning vs through a back_insert_iterator one after another
      appends vs in order. */
  method CopyBack<T(==)>(it: BackInsertIterator<T>, vs: seq<T>)
    requires it.container.Valid()
    modifies it.container
    ensures it.container.Valid()
    ensures it.container.Elements() == old(it.container.Elements()) + vs
  {
    ghost var e := it.container.Elements();
    var i := 0;
    while i != |vs|
      invariant i <= |vs| && it.container.Valid()
      invariant it.container.Elements() == e + vs[..i]
    {
      it.Assign(vs[i]);
      assert vs[..i + 1] == vs[..i] + [vs[i]];
      i := i + 1;
    }
    assert vs[..i] == vs;
  }

  // ---- reverse_iterator -----------------------------------------------

  /** reverse_iterator over a random-access position into a sequence s:
      current is the base iterator, and the element it designates is the
      one before current. */
  class ReverseIterator {
    var current: int

    /** reverse_iterator(x). */
    constructor (x: int)
      ensures current == x
    {
      current := x;
    }

    /** base(): the position just after the element that operator*
        reads. */
    function Base(): (r: int)
      reads this
      ensures r == current
    {
      current
    }

    /** operator*(): *--tmp with tmp a copy of current, which is element
        |s| - current of the reversed sequence. */
    function Deref<T>(s: seq<T>): (r: T)
      reads this
      requires 1 <= current <= |s|
      ensures r == Reversed(s)[|s| - current]
    {
      ReversedAt(s, |s| - current);
      s[current - 1]
    }

    /** operator[](n): *(*this + n). */
    function Index<T>(s: seq<T>, n: int): (r: T)
      reads this
      requires 1 <= current - n <= |s|
      ensures r == Reversed(s)[|s| - current + n]
    {
      ReversedAt(s, |s| - current + n);
      s[current - n - 1]
    }

    /** operator++(): --current, one step further along the reversal. */
    method Incr()
      modifies this
      ensures current == old(current) - 1
    {
      current := current - 1;
    }

    /** operator--(): ++current. */
    method Decr()
      modifies this
      ensures current == old(current) + 1
    {
      current := current + 1;
    }

    /** operator+(n): a reverse_iterator on current - n. */
    method Plus(n: int) returns (r: ReverseIterator)
      ensures fresh(r) && r.current == current - n
    {
      r := new ReverseIterator(current - n);
    }

    /** operator-(n): a reverse_iterator on current + n. */
    method Minus(n: int) returns (r: ReverseIterator)
      ensures fresh(r) && r.current == current + n
    {
      r := new ReverseIterator(current + n);
    }

    /** operator+=(n): current -= n. */
    method AddAssign(n: int)
      modifies this
      ensures current == old(current) - n
    {
      current := current - n;
    }

    /** operator-=(n): current += n. */
    method SubAssign(n: int)
      modifies this
      ensures current == old(current) + n
    {
      current := current + n;
    }
  }

  /** Walking a reverse_iterator from rbegin() (base end()) to rend()
      (base begin()) reads the sequence backwards. */
  method ReadReversed<T>(s: seq<T>) returns (r: seq<T>)
    ensures r == Reversed(s)
  {
    var it := new ReverseIterator(|s|);
    r := [];
    while it.Base() != 0
      invariant 0 <= it.current <= |s| && |r| == |s| - it.current
      invariant forall k :: 0 <= k < |r| ==> r[k] == Reversed(s)[k]
      decreases it.current
    {
      r := r + [it.Deref(s)];
      it.Incr();
    }
  }

  /** r[n] is what *r reads after r += n. */
  method IndexIsAdvancedDeref<T>(it: ReverseIterator, s: seq<T>, n: int) returns (x: T, y: T)
    requires 1 <= it.current - n <= |s|
    modifies it
    ensures x == y == Reversed(s)[|s| - old(it.current) + n]
  {
    x := it.Index(s, n);
    it.AddAssign(n);
    y := it.Deref(s);
  }
}
