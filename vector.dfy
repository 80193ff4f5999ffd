/** The contiguous vector of vector.hpp. The storage block is an array
    whose length is the capacity (end_of_storage - start); the elements
    in use are its first finish slots. Constructing a slot is writing it,
    destroying one is forgetting it, and allocation is a fresh array. */
module Vectors {
  import AlgoBase

  /** std::copy(first, last, result) within one array, front to back:
      a[first..last] lands at a[result..]. Safe when the target starts at
      or before the source, or lies wholly after it. */
  method CopyForward<T>(a: array<T>, first: nat, last: nat, result: nat)
    requires first <= last <= a.Length && result + (last - first) <= a.Length
    requires result <= first || last <= result
    modifies a
    ensures forall k :: 0 <= k < a.Length ==>
      a[k] == if result <= k < result + (last - first) then old(a[k - result + first]) else old(a[k])
  {
    var i := 0;
    while i != last - first
      invariant 0 <= i <= last - first
      invariant forall k :: 0 <= k < a.Length ==>
        a[k] == if result <= k < result + i then old(a[k - result + first]) else old(a[k])
    {
      a[result + i] := a[first + i];
      i := i + 1;
    }
  }

  /** std::copy_backward(first, last, dLast) within one array, back to
      front: a[first..last] lands so that it ends at dLast. Safe when the
      target ends at or after the source's end. */
  method CopyBackward<T>(a: array<T>, first: nat, last: nat, dLast: nat)
    requires first <= last <= dLast <= a.Length
    modifies a
    ensures forall k :: 0 <= k < a.Length ==>
      a[k] == if dLast - (last - first) <= k < dLast then old(a[k - (dLast - last)]) else old(a[k])
  {
    var i := last;
    while i != first
      invariant first <= i <= last
      invariant forall k :: 0 <= k < a.Length ==>
        a[k] == if dLast - (last - i) <= k < dLast then old(a[k - (dLast - last)]) else old(a[k])
    {
      i := i - 1;
      a[i + (dLast - last)] := a[i];
    }
  }

  /** uninitialized_copy(first, last, result) from one storage block into
      another: src[first..last] lands at dst[at..]; returns the end. */
  method CopyInto<T>(src: array<T>, first: nat, last: nat, dst: array<T>, at: nat) returns (end: nat)
    requires src != dst && first <= last <= src.Length && at + (last - first) <= dst.Length
    modifies dst
    ensures end == at + (last - first)
    ensures forall k :: 0 <= k < dst.Length ==>
      dst[k] == if at <= k < end then src[k - at + first] else old(dst[k])
  {
    var i := 0;
    while i != last - first
      invariant 0 <= i <= last - first
      invariant forall k :: 0 <= k < dst.Length ==>
        dst[k] == if at <= k < at + i then src[k - at + first] else old(dst[k])
    {
      dst[at + i] := src[first + i];
      i := i + 1;
    }
    end := at + i;
  }

  /** The slots of a after n copies of x have been inserted at position
      into its first finish slots. */
  ghost predicate GapOpened<T>(a: seq<T>, a0: seq<T>, position: nat, finish: nat, n: nat, x: T)
    requires |a| == |a0| && position <= finish && finish + n <= |a|
  {
    forall k {:trigger a[k]} :: 0 <= k < |a| ==>
      a[k] == if k < position then a0[k]
              else if k < position + n then x
              else if k < finish + n then a0[k - n]
              else a0[k]
  }

  /** insert(position, n, x) when more than n elements follow position:
      the last n elements move into the spare slots, the rest of the tail
      moves up by n from the back, and the gap is filled with x. */
  method OpenGapShift<T>(a: array<T>, position: nat, finish: nat, n: nat, x: T)
    requires position + n < finish && finish + n <= a.Length
    modifies a
    ensures GapOpened(a[..], old(a[..]), position, finish, n, x)
  {
    ghost var d0 := a[..];
    CopyForward(a, finish - n, finish, finish);
    ghost var d1 := a[..];
    assert forall k {:trigger d1[k]} :: 0 <= k < |d1| ==>
      d1[k] == if finish <= k < finish + (finish - (finish - n)) then d0[k - finish + (finish - n)] else d0[k];
    CopyBackward(a, position, finish - n, finish);
    ghost var d2 := a[..];
    assert forall k {:trigger d2[k]} :: 0 <= k < |d2| ==>
      d2[k] == if finish - ((finish - n) - position) <= k < finish then d1[k - (finish - (finish - n))] else d1[k];
    AlgoBase.Fill(a, position, position + n, x);
    ghost var d3 := a[..];
    assert forall k {:trigger d3[k]} :: 0 <= k < |d3| ==>
      d3[k] == if position <= k < position + n then x else d2[k];
    ShiftComposed(d0, d1, d2, d3, position, finish, n, x);
  }

  /** The three moves of OpenGapShift, one after another, open the gap. */
  lemma ShiftComposed<T>(d0: seq<T>, d1: seq<T>, d2: seq<T>, d3: seq<T>, position: nat, finish: nat, n: nat, x: T)
    requires position + n < finish && finish + n <= |d0|
    requires |d1| == |d2| == |d3| == |d0|
    requires forall k {:trigger d1[k]} :: 0 <= k < |d1| ==>
      d1[k] == if finish <= k < finish + (finish - (finish - n)) then d0[k - finish + (finish - n)] else d0[k]
    requires forall k {:trigger d2[k]} :: 0 <= k < |d2| ==>
      d2[k] == if finish - ((finish - n) - position) <= k < finish then d1[k - (finish - (finish - n))] else d1[k]
    requires forall k :: 0 <= k < |d3| ==>
      d3[k] == if position <= k < position + n then x else d2[k]
    ensures GapOpened(d3, d0, position, finish, n, x)
  {
    forall k | 0 <= k < |d3|
      ensures d3[k] == if k < position then d0[k]
                       else if k < position + n then x
                       else if k < finish + n then d0[k - n]
                       else d0[k]
    {
      if k < position {
        assert d3[k] == d2[k] == d1[k] == d0[k];
      } else if position + n <= k < finish {
        assert d3[k] == d2[k] == d1[k - n] == d0[k - n];
      } else if finish <= k {
        assert d3[k] == d2[k] == d1[k];
      }
    }
  }

  /** insert(position, n, x) when at most n elements follow position: the
      copies of x that land past the old end are written first, then the
      tail moves past them, then the rest of the gap is filled with x. */
  method OpenGapSpill<T>(a: array<T>, position: nat, finish: nat, n: nat, x: T)
    requires position <= finish <= position + n && finish + n <= a.Length
    modifies a
    ensures GapOpened(a[..], old(a[..]), position, finish, n, x)
  {
    var elemsAfter := finish - position;
    AlgoBase.Fill(a, finish, finish + (n - elemsAfter), x);
    CopyForward(a, position, finish, finish + (n - elemsAfter));
    AlgoBase.Fill(a, position, finish, x);
  }

  function InsertedN<T>(s: seq<T>, i: nat, n: nat, x: T): (r: seq<T>)
    requires i <= |s|
    ensures |r| == |s| + n
    ensures forall k :: 0 <= k < i ==> r[k] == s[k]
    ensures forall k :: i <= k < i + n ==> r[k] == x
    ensures forall k :: i + n <= k < |r| ==> r[k] == s[k - n]
  {
    s[..i] + seq(n, _ => x) + s[i..]
  }

  /** The elements after erasing [first, last). */
  function ErasedRange<T>(s: seq<T>, first: nat, last: nat): (r: seq<T>)
    requires first <= last <= |s|
    ensures |r| == |s| - (last - first)
    ensures forall k :: 0 <= k < first ==> r[k] == s[k]
    ensures forall k :: first <= k < |r| ==> r[k] == s[k + (last - first)]
  {
    s[..first] + s[last..]
  }

  /** Erasing what was just inserted gives the elements back. */
  lemma InsertedNThenErased<T>(s: seq<T>, i: nat, n: nat, x: T)
    requires i <= |s|
    ensures ErasedRange(InsertedN(s, i, n, x), i, i + n) == s
  {
    assert s[..i] + seq(n, _ => x) + s[i..] == s[..i] + (seq(n, _ => x) + s[i..]);
  }

  /** The in-capacity branch of insert(position, x) reads *(finish - 1) and
      calls copy_backward(position, finish - 2, finish - 1) on the grown
      range: both are defined only for an element at or after position. */
  predicate InsertInPlaceDefined(size: nat, position: nat)
  {
    position < size
  }

  /** Inserting at the end of an empty vector with room to spare reads the
      slot before start: push_back never does this, but insert(end(), x)
      on a vector with spare capacity does. */
  lemma InsertAtEndUndefined()
    ensures !InsertInPlaceDefined(0, 0) && !InsertInPlaceDefined(3, 3)
    ensures InsertInPlaceDefined(3, 2)
  {
  }

  class Vector<T> {
    /** The storage block; its length is capacity(). */
    var data: array<T>
    /** finish - start: the number of elements in use. */
    var finish: nat

    ghost predicate Valid()
      reads this
    {
      finish <= data.Length
    }

    /** The elements begin()..end(). */
    function Elements(): (r: seq<T>)
      reads this, data
      requires Valid()
      ensures |r| == finish
    {
      data[..finish]
    }

    /** vector(): no storage at all. */
    constructor Default()
      ensures Valid() && Elements() == [] && Capacity() == 0
      ensures fresh(data)
    {
      data := new T[0];
      finish := 0;
    }

    /** vector(n, value): fill_initialize allocates exactly n slots and
        fills them with value. */
    constructor (n: nat, value: T)
      ensures Valid() && Elements() == seq(n, _ => value)
      ensures Size() == Capacity() == n
      ensures fresh(data)
    {
      data := new T[n](_ => value);
      finish := n;
    }

    /** size(): finish - start, the number of elements held. */
    function Size(): (r: nat)
      reads this, data
      requires Valid()
      ensures r == |Elements()|
      ensures r <= Capacity()
    {
      finish
    }

    /** capacity(): the slots of the block, which hold the elements and
        leave Capacity() - Size() free. */
    function Capacity(): (r: nat)
      reads this, data
      ensures Valid() ==> |Elements()| <= r
    {
      data.Length
    }

    function Empty(): (r: bool)
      reads this
      requires Valid()
      ensures r <==> Size() == 0
    {
      finish == 0
    }

    /** operator[](n) = *(begin() + n). */
    function Index(n: nat): (r: T)
      reads this, data
      requires Valid() && n < Size()
      ensures r == Elements()[n]
    {
      data[n]
    }

    function Front(): (r: T)
      reads this, data
      requires Valid() && Size() > 0
      ensures r == Elements()[0]
    {
      data[0]
    }

    function Back(): (r: T)
      reads this, data
      requires Valid() && Size() > 0
      ensures r == Elements()[Size() - 1]
    {
      data[finish - 1]
    }

    /** push_back(x): constructs x at finish while there is room, otherwise
        goes through insert(end(), 1, x), which grows the capacity to
        1 if it was 0 and to twice the size otherwise. */
    method PushBack(x: T)
      requires Valid()
      modifies this, data
      ensures Valid() && Elements() == old(Elements()) + [x]
      ensures old(finish < data.Length) ==> data == old(data) && Capacity() == old(Capacity())
      ensures old(finish == data.Length) ==> Capacity() == (if old(finish) == 0 then 1 else 2 * old(finish)) && fresh(data)
    {
      if finish != data.Length {
        data[finish] := x;
        finish := finish + 1;
      } else {
        InsertN(finish, 1, x);
      }
    }

    /** insert(position, x) as written. With room to spare it copies the
        last element one slot on, shifts [position, finish - 1) one slot
        back and stores x at position; this needs an element at or after
        position. When full it moves to a block of twice the size (1 when
        empty) with x placed between the two halves. */
    method InsertAsWritten(position: nat, x: T)
      requires Valid() && position <= finish
      requires finish < data.Length ==> InsertInPlaceDefined(finish, position)
      modifies this, data
      ensures Valid() && Elements() == InsertedN(old(Elements()), position, 1, x)
      ensures old(finish < data.Length) ==> data == old(data)
      ensures old(finish == data.Length) ==> Capacity() == (if old(finish) == 0 then 1 else 2 * old(finish)) && fresh(data)
    {
      if finish != data.Length {
        InsertInPlace(position, x);
      } else {
        InsertRealloc(position, 1, x, if finish != 0 then 2 * finish else 1);
      }
    }

    /** The in-capacity branch of insert(position, x). */
    method InsertInPlace(position: nat, x: T)
      requires Valid() && InsertInPlaceDefined(finish, position) && finish < data.Length
      modifies this, data
      ensures Valid() && Elements() == InsertedN(old(Elements()), position, 1, x)
      ensures data == old(data)
    {
      ghost var s := Elements();
      data[finish] := data[finish - 1];
      finish := finish + 1;
      var xCopy := x;
      CopyBackward(data, position, finish - 2, finish - 1);
      data[position] := xCopy;
      SameElements(s, position, 1, x);
    }

    /** Elements() is InsertedN(s, i, n, x) once every slot below finish
        agrees with it. */
    lemma SameElements(s: seq<T>, i: nat, n: nat, x: T)
      requires Valid() && i <= |s| && finish == |s| + n
      requires forall k :: 0 <= k < finish ==> data[k] == InsertedN(s, i, n, x)[k]
      ensures Elements() == InsertedN(s, i, n, x)
    {
    }

    /** The reallocating branch of both inserts: a block of len slots
        receives [0, position), n copies of x, then [position, finish). */
    method InsertRealloc(position: nat, n: nat, x: T, len: nat)
      requires Valid() && position <= finish && finish + n <= len
      modifies this
      ensures Valid() && Elements() == InsertedN(old(Elements()), position, n, x)
      ensures Capacity() == len && fresh(data)
    {
      ghost var s := Elements();
      var newData := new T[len](_ => x);
      var newFinish := CopyInto(data, 0, position, newData, 0);
      AlgoBase.Fill(newData, newFinish, newFinish + n, x);
      newFinish := newFinish + n;
      newFinish := CopyInto(data, position, finish, newData, newFinish);
      data, finish := newData, newFinish;
      SameElements(s, position, n, x);
    }

    /** insert(position, x) with insertion at the end of a vector that has
        room handled as a plain construct at finish. */
    method Insert(position: nat, x: T)
      requires Valid() && position <= finish
      modifies this, data
      ensures Valid() && Elements() == InsertedN(old(Elements()), position, 1, x)
      ensures old(finish < data.Length) ==> data == old(data)
      ensures old(finish == data.Length) ==> Capacity() == (if old(finish) == 0 then 1 else 2 * old(finish)) && fresh(data)
    {
      if finish != data.Length && position == finish {
        data[finish] := x;
        finish := finish + 1;
      } else {
        InsertAsWritten(position, x);
      }
    }

    /** insert(position, n, x): nothing for n == 0. With room for n more
        it either moves the last n elements into the fresh slots and
        shifts the rest (more than n elements after position), or fills
        the fresh slots with copies of x and moves the tail past them;
        then fills the gap with x. Otherwise it moves to a block of
        size + max(size, n). */
    method InsertN(position: nat, n: nat, x: T)
      requires Valid() && position <= finish
      modifies this, data
      ensures Valid() && Elements() == InsertedN(old(Elements()), position, n, x)
      ensures old(data.Length - finish >= n) ==> data == old(data)
      ensures old(data.Length - finish < n) ==> Capacity() == old(finish) + (if old(finish) >= n then old(finish) else n) && fresh(data)
    {
      if n != 0 {
        if data.Length - finish >= n {
          InsertNInPlace(position, n, x);
        } else {
          var oldSize := finish;
          InsertRealloc(position, n, x, oldSize + (if oldSize >= n then oldSize else n));
        }
      } else {
        assert InsertedN(Elements(), position, 0, x) == Elements();
      }
    }

    /** The in-capacity branch of insert(position, n, x). */
    method InsertNInPlace(position: nat, n: nat, x: T)
      requires Valid() && position <= finish && finish + n <= data.Length
      modifies this, data
      ensures Valid() && Elements() == InsertedN(old(Elements()), position, n, x)
      ensures data == old(data)
    {
      ghost var s := Elements();
      ghost var d0 := data[..];
      ghost var f0 := finish;
      var xCopy := x;
      var elemsAfter := finish - position;
      if elemsAfter > n {
        OpenGapShift(data, position, finish, n, xCopy);
      } else {
        OpenGapSpill(data, position, finish, n, xCopy);
      }
      finish := finish + n;
      forall k | 0 <= k < finish
        ensures data[k] == InsertedN(s, position, n, x)[k]
      {
        assert data[k] == data[..][k];
        if k >= position + n {
          assert k < f0 + n && data[..][k] == d0[k - n] == s[k - n];
        } else if k < position {
          assert data[..][k] == d0[k] == s[k];
        }
      }
      SameElements(s, position, n, x);
    }

    /** pop_back(): drops the last element. */
    method PopBack()
      requires Valid() && Size() > 0
      modifies this
      ensures Valid() && Elements() == old(Elements()[..Size() - 1])
      ensures data == old(data)
    {
      finish := finish - 1;
    }

    /** erase(first, last): copies [last, finish) down to first, drops
        last - first elements from the end and returns first. The storage
        block is kept. */
    method EraseRange(first: nat, last: nat) returns (r: nat)
      requires Valid() && first <= last <= finish
      modifies data, `finish
      ensures Valid() && Elements() == ErasedRange(old(Elements()), first, last)
      ensures r == first && Capacity() == old(Capacity())
    {
      ghost var s := Elements();
      CopyForward(data, last, finish, first);
      finish := finish - (last - first);
      assert Elements() == ErasedRange(s, first, last);
      r := first;
    }

    /** erase(position): copies [position + 1, finish) one slot down unless
        position is the last element, drops the last slot and returns
        position. */
    method Erase(position: nat) returns (r: nat)
      requires Valid() && position < finish
      modifies data, `finish
      ensures Valid() && Elements() == ErasedRange(old(Elements()), position, position + 1)
      ensures r == position && Capacity() == old(Capacity())
    {
      ghost var s := Elements();
      if position + 1 != finish {
        CopyForward(data, position + 1, finish, position);
      }
      finish := finish - 1;
      assert Elements() == ErasedRange(s, position, position + 1);
      r := position;
    }

    /** resize(newSize, x): erases down to newSize or inserts copies of x
        at the end. */
    method Resize(newSize: nat, x: T)
      requires Valid()
      modifies this, data
      ensures Valid() && Size() == newSize
      ensures newSize < old(Size()) ==> Elements() == old(Elements()[..newSize]) && data == old(data)
      ensures newSize >= old(Size()) ==> Elements() == old(Elements()) + seq(newSize - old(Size()), _ => x)
    {
      if newSize < finish {
        var _ := EraseRange(newSize, finish);
      } else {
        InsertN(finish, newSize - finish, x);
      }
    }

    /** clear() = erase(begin(), end()): no elements, same storage. */
    method Clear()
      requires Valid()
      modifies data, `finish
      ensures Valid() && Elements() == [] && data == old(data)
    {
      var _ := EraseRange(0, finish);
    }
  }

  /** vector(2, 9) followed by push_back(1) ... push_back(5): the capacity
      doubles at each full push_back, and the elements are kept in order. */
  method PushBackGrowth() returns (caps: seq<nat>, elems: seq<int>)
    ensures caps == [2, 4, 4, 8, 8, 8]
    ensures elems == [9, 9, 1, 2, 3, 4, 5]
  {
    var v := new Vector<int>(2, 9);
    caps := [v.Capacity()];
    var i := 1;
    while i != 6
      invariant 1 <= i <= 6 && v.Valid()
      invariant |caps| == i && caps == [2, 4, 4, 8, 8, 8][..i]
      invariant v.Elements() == [9, 9] + seq(i - 1, k => k + 1)
      invariant v.Capacity() == caps[i - 1] && v.Size() == i + 1
      invariant fresh(v) && fresh(v.data)
    {
      v.PushBack(i);
      caps := caps + [v.Capacity()];
      i := i + 1;
    }
    elems := v.Elements();
  }
}
