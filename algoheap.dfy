/** The heap algorithms of algoheap.hpp on a random-access range, here
    the first n slots of an array. A heap is a max-heap under comp: no
    parent is comp-less than its child. The plain overloads are the
    comparator ones with comp the element type's operator<. */
module AlgoHeap {

  /** What the algorithms need of comp: a strict weak ordering. */
  ghost predicate StrictWeakOrder<T(!new)>(comp: (T, T) -> bool)
  {
    (forall x :: !comp(x, x)) &&
    (forall x, y, z :: comp(x, y) && comp(y, z) ==> comp(x, z)) &&
    (forall x, y, z :: !comp(x, y) && !comp(y, z) ==> !comp(x, z))
  }

  /** (i - 1) / 2 in C, which truncates: the parent of slot i, and 0 for
      the root, where the source computes it but never reads it. */
  function Parent(i: nat): (p: nat)
    ensures i > 0 ==> p < i && (i == 2 * p + 1 || i == 2 * p + 2)
  {
    if i == 0 then 0 else (i - 1) / 2
  }

  /** Slot h lies in the subtree rooted at top. */
  predicate Below(h: nat, top: nat)
    decreases h
  {
    h == top || (h > top && Below(Parent(h), top))
  }

  lemma {:induction false} BelowRoot(h: nat)
    ensures Below(h, 0)
    decreases h
  {
    if h > 0 {
      BelowRoot(Parent(h));
    }
  }

  /** The edge from slot i to its parent holds: the parent is not
      comp-less than the child. */
  ghost predicate EdgeOk<T>(s: seq<T>, i: nat, comp: (T, T) -> bool)
    requires 0 < i < |s|
  {
    !comp(s[Parent(i)], s[i])
  }

  /** Every edge of s[..len] whose parent is at or after k holds; with
      k == 0, s[..len] is a heap. */
  ghost predicate HeapEdges<T>(s: seq<T>, len: nat, k: nat, comp: (T, T) -> bool)
    requires len <= |s|
  {
    forall i :: 0 < i < len && k <= Parent(i) ==> EdgeOk(s, i, comp)
  }

  ghost predicate IsHeap<T>(s: seq<T>, len: nat, comp: (T, T) -> bool)
    requires len <= |s|
  {
    HeapEdges(s, len, 0, comp)
  }

  /** x is not comp-less than any child of slot h within len. */
  ghost predicate AboveChildren<T>(s: seq<T>, len: nat, h: nat, x: T, comp: (T, T) -> bool)
    requires len <= |s|
  {
    (2 * h + 1 < len ==> !comp(x, s[2 * h + 1])) &&
    (2 * h + 2 < len ==> !comp(x, s[2 * h + 2]))
  }

  /** The state while a hole moves through the subtree of top: every edge
      below top that does not touch the hole holds, and the hole's parent
      is above the hole's children, so either may fill the hole. */
  ghost predicate HoleOk<T>(s: seq<T>, len: nat, top: nat, h: nat, comp: (T, T) -> bool)
    requires h < len <= |s|
  {
    (forall i :: 0 < i < len && top <= Parent(i) && i != h && Parent(i) != h ==> EdgeOk(s, i, comp)) &&
    (h > top ==> AboveChildren(s, len, h, s[Parent(h)], comp))
  }

  /** __push_heap(first, holeIndex, topIndex, value): while the hole is
      below topIndex and its parent is comp-less than value, the parent
      moves down into the hole; then value fills it. */
  function SiftUp<T>(s: seq<T>, hole: nat, top: nat, value: T, comp: (T, T) -> bool): (r: seq<T>)
    requires hole < |s|
    ensures |r| == |s|
    ensures forall k :: hole < k < |s| ==> r[k] == s[k]
    decreases hole
  {
    if hole > top && comp(s[Parent(hole)], value) then
      SiftUp(s[hole := s[Parent(hole)]], Parent(hole), top, value, comp)
    else
      s[hole := value]
  }

  /** The loop of __adjust_heap: the hole moves down into its larger child
      (the left one only when the right is comp-less than it), and into a
      lone left child at the end of the range. Returns the new state and
      the final hole. */
  function Descend<T>(s: seq<T>, hole: nat, len: nat, comp: (T, T) -> bool): (r: (seq<T>, nat))
    requires hole <= len <= |s| && hole < |s|
    ensures |r.0| == |s| && hole <= r.1 < |s| && (r.1 < len || r.1 == hole)
    ensures 2 * r.1 + 1 >= len
    ensures forall k :: len <= k < |s| ==> r.0[k] == s[k]
    decreases len - hole
  {
    var second := 2 * hole + 2;
    if second < len then
      var child := if comp(s[second], s[second - 1]) then second - 1 else second;
      Descend(s[hole := s[child]], child, len, comp)
    else if second == len then
      (s[hole := s[second - 1]], second - 1)
    else
      (s, hole)
  }

  /** __adjust_heap(first, holeIndex, len, value): descend from holeIndex,
      then sift value up no higher than holeIndex. The descent compares
      with comp and the final sift-up with up. */
  function Adjust<T>(s: seq<T>, hole: nat, len: nat, value: T, comp: (T, T) -> bool, up: (T, T) -> bool): (r: seq<T>)
    requires hole <= len <= |s| && hole < |s|
    ensures |r| == |s|
    ensures forall k :: len <= k < |s| && k != hole ==> r[k] == s[k]
  {
    var d := Descend(s, hole, len, comp);
    SiftUp(d.0, d.1, hole, value, up)
  }

  /** push_heap(first, first + n): the last element sifts up from n - 1. */
  function PushHeap<T>(s: seq<T>, n: nat, comp: (T, T) -> bool): (r: seq<T>)
    requires 1 <= n <= |s|
    ensures |r| == |s|
  {
    SiftUp(s, n - 1, 0, s[n - 1], comp)
  }

  /** pop_heap(first, first + n): the root goes to n - 1 and the old last
      element is adjusted into [0, n - 1) from the root. */
  function PopHeap<T>(s: seq<T>, n: nat, comp: (T, T) -> bool, up: (T, T) -> bool): (r: seq<T>)
    requires 1 <= n <= |s|
    ensures |r| == |s|
  {
    Adjust(s[n - 1 := s[0]], 0, n - 1, s[n - 1], comp, up)
  }

  /** The loop of __make_heap from parent down to 0. */
  function MakeHeapFrom<T>(s: seq<T>, len: nat, parent: nat, comp: (T, T) -> bool, up: (T, T) -> bool): (r: seq<T>)
    requires parent < len <= |s|
    ensures |r| == |s|
    decreases parent
  {
    var s1 := Adjust(s, parent, len, s[parent], comp, up);
    if parent == 0 then s1 else MakeHeapFrom(s1, len, parent - 1, comp, up)
  }

  /** make_heap(first, first + n): ranges shorter than 2 are left alone;
      otherwise every parent from (n - 2) / 2 down to 0 is adjusted. */
  function MakeHeap<T>(s: seq<T>, n: nat, comp: (T, T) -> bool, up: (T, T) -> bool): (r: seq<T>)
    requires n <= |s|
    ensures |r| == |s|
  {
    if n < 2 then s else MakeHeapFrom(s, n, (n - 2) / 2, comp, up)
  }

  /** sort_heap(first, first + n): pop_heap on a range one shorter each
      time while it holds more than one element. */
  function SortHeap<T>(s: seq<T>, n: nat, comp: (T, T) -> bool, up: (T, T) -> bool): (r: seq<T>)
    requires n <= |s|
    ensures |r| == |s|
    decreases n
  {
    if n > 1 then SortHeap(PopHeap(s, n, comp, up), n - 1, comp, up) else s
  }

  // ---- Permutation -------------------------------------------------

  /** Exchanging the two values written at two slots keeps the multiset. */
  lemma UpdateSwap<T>(s: seq<T>, i: nat, j: nat, a: T, b: T)
    requires i < |s| && j < |s| && i != j
    ensures multiset(s[i := a][j := b]) == multiset(s[i := b][j := a])
  {
  }

  lemma {:induction false} SiftUpMultiset<T>(s: seq<T>, hole: nat, top: nat, value: T, comp: (T, T) -> bool)
    requires hole < |s|
    ensures multiset(SiftUp(s, hole, top, value, comp)) == multiset(s[hole := value])
    decreases hole
  {
    if hole > top && comp(s[Parent(hole)], value) {
      var p := Parent(hole);
      SiftUpMultiset(s[hole := s[p]], p, top, value, comp);
      UpdateSwap(s, hole, p, s[p], value);
      assert s[hole := value][p := s[p]] == s[hole := value];
    }
  }

  lemma {:induction false} DescendMultiset<T>(s: seq<T>, hole: nat, len: nat, comp: (T, T) -> bool, x: T)
    requires hole <= len <= |s| && hole < |s|
    ensures var d := Descend(s, hole, len, comp); multiset(d.0[d.1 := x]) == multiset(s[hole := x])
    decreases len - hole
  {
    var second := 2 * hole + 2;
    if second < len {
      var child := if comp(s[second], s[second - 1]) then second - 1 else second;
      DescendMultiset(s[hole := s[child]], child, len, comp, x);
      UpdateSwap(s, hole, child, s[child], x);
      assert s[hole := x][child := s[child]] == s[hole := x];
    } else if second == len {
      UpdateSwap(s, hole, second - 1, s[second - 1], x);
      assert s[hole := x][second - 1 := s[second - 1]] == s[hole := x];
    }
  }

  /** __adjust_heap places value at holeIndex's place in the multiset. */
  lemma AdjustMultiset<T>(s: seq<T>, hole: nat, len: nat, value: T, comp: (T, T) -> bool, up: (T, T) -> bool)
    requires hole <= len <= |s| && hole < |s|
    ensures multiset(Adjust(s, hole, len, value, comp, up)) == multiset(s[hole := value])
  {
    var d := Descend(s, hole, len, comp);
    SiftUpMultiset(d.0, d.1, hole, value, up);
    DescendMultiset(s, hole, len, comp, value);
  }

  // ---- Heap order --------------------------------------------------

  /** Moving the parent down into the hole, or filling the hole with a
      value above its children and not above its parent, keeps the edges
      of the subtree of top in order. */
  lemma {:induction false} SiftUpHeap<T(!new)>(s: seq<T>, len: nat, top: nat, h: nat, value: T, comp: (T, T) -> bool)
    requires StrictWeakOrder(comp) && h < len <= |s| && Below(h, top)
    requires HoleOk(s, len, top, h, comp) && AboveChildren(s, len, h, value, comp)
    ensures HeapEdges(SiftUp(s, h, top, value, comp), len, top, comp)
    decreases h
  {
    if h > top && comp(s[Parent(h)], value) {
      var p := Parent(h);
      var s1 := s[h := s[p]];
      assert p >= top;
      SiftUpStep(s, len, top, h, value, comp);
      SiftUpHeap(s1, len, top, p, value, comp);
    } else {
      var r := s[h := value];
      assert SiftUp(s, h, top, value, comp) == r;
      forall i | 0 < i < len && top <= Parent(i)
        ensures EdgeOk(r, i, comp)
      {
        if i == h {
        } else if Parent(i) == h {
          assert i == 2 * h + 1 || i == 2 * h + 2;
        } else {
          assert EdgeOk(s, i, comp);
        }
      }
    }
  }

  /** One move of __push_heap's loop keeps HoleOk and puts value above the
      new hole's children. */
  lemma SiftUpStep<T(!new)>(s: seq<T>, len: nat, top: nat, h: nat, value: T, comp: (T, T) -> bool)
    requires StrictWeakOrder(comp) && h < len <= |s| && Below(h, top)
    requires HoleOk(s, len, top, h, comp) && AboveChildren(s, len, h, value, comp)
    requires h > top && comp(s[Parent(h)], value)
    ensures Below(Parent(h), top)
    ensures HoleOk(s[h := s[Parent(h)]], len, top, Parent(h), comp)
    ensures AboveChildren(s[h := s[Parent(h)]], len, Parent(h), value, comp)
  {
    SiftUpStepEdges(s, len, top, h, comp);
    SiftUpStepAbove(s, len, top, h, value, comp);
  }

  /** After the parent p of the hole moves down, the edges that do not
      touch p hold. */
  lemma SiftUpStepEdges<T>(s: seq<T>, len: nat, top: nat, h: nat, comp: (T, T) -> bool)
    requires h < len <= |s| && Below(h, top) && h > top
    requires HoleOk(s, len, top, h, comp)
    ensures forall i :: 0 < i < len && top <= Parent(i) && i != Parent(h) && Parent(i) != Parent(h) ==>
      EdgeOk(s[h := s[Parent(h)]], i, comp)
  {
    var p := Parent(h);
    var s1 := s[h := s[p]];
    forall i | 0 < i < len && top <= Parent(i) && i != p && Parent(i) != p
      ensures EdgeOk(s1, i, comp)
    {
      if Parent(i) == h {
        assert i == 2 * h + 1 || i == 2 * h + 2;
      } else {
        assert EdgeOk(s, i, comp);
      }
    }
  }

  /** After the parent p of the hole moves down, both p's parent and value
      are above p's children. */
  lemma SiftUpStepAbove<T(!new)>(s: seq<T>, len: nat, top: nat, h: nat, value: T, comp: (T, T) -> bool)
    requires StrictWeakOrder(comp) && h < len <= |s| && Below(h, top)
    requires HoleOk(s, len, top, h, comp)
    requires h > top && comp(s[Parent(h)], value)
    ensures Below(Parent(h), top)
    ensures Parent(h) > top ==> AboveChildren(s[h := s[Parent(h)]], len, Parent(h), s[Parent(Parent(h))], comp)
    ensures AboveChildren(s[h := s[Parent(h)]], len, Parent(h), value, comp)
  {
    var p := Parent(h);
    var sib := if h == 2 * p + 1 then 2 * p + 2 else 2 * p + 1;
    if sib < len {
      assert Parent(sib) == p;
      assert EdgeOk(s, sib, comp);
    }
    if p > top {
      assert Below(p, top);
      assert Below(Parent(p), top);
      assert EdgeOk(s, p, comp);
    }
  }

  /** The descent of __adjust_heap keeps HoleOk, stays in the subtree of
      top and ends at a slot with no child in the range. */
  lemma {:induction false} DescendHoleOk<T(!new)>(s: seq<T>, len: nat, top: nat, h: nat, comp: (T, T) -> bool)
    requires StrictWeakOrder(comp) && h < len <= |s| && Below(h, top)
    requires HoleOk(s, len, top, h, comp)
    ensures var d := Descend(s, h, len, comp); d.1 < len && Below(d.1, top) && HoleOk(d.0, len, top, d.1, comp)
    decreases len - h
  {
    var second := 2 * h + 2;
    if second < len {
      var child := if comp(s[second], s[second - 1]) then second - 1 else second;
      DescendStep(s, len, top, h, child, comp);
      DescendHoleOk(s[h := s[child]], len, top, child, comp);
    } else if second == len {
      DescendStep(s, len, top, h, second - 1, comp);
    }
  }

  /** Moving child c, which is above its sibling, up into the hole h makes
      c the hole and keeps HoleOk. */
  lemma DescendStep<T(!new)>(s: seq<T>, len: nat, top: nat, h: nat, c: nat, comp: (T, T) -> bool)
    requires StrictWeakOrder(comp) && h < c < len <= |s| && Below(h, top)
    requires c == 2 * h + 1 || c == 2 * h + 2
    requires c == 2 * h + 1 && 2 * h + 2 < len ==> !comp(s[c], s[2 * h + 2])
    requires c == 2 * h + 2 ==> !comp(s[c], s[2 * h + 1])
    requires HoleOk(s, len, top, h, comp)
    ensures Below(c, top) && HoleOk(s[h := s[c]], len, top, c, comp)
  {
    var s1 := s[h := s[c]];
    assert Parent(c) == h;
    forall i | 0 < i < len && top <= Parent(i) && i != c && Parent(i) != c
      ensures EdgeOk(s1, i, comp)
    {
      if i == h {
      } else if Parent(i) == h {
        assert i == 2 * h + 1 || i == 2 * h + 2;
      } else {
        assert EdgeOk(s, i, comp);
      }
    }
    forall g | g == 2 * c + 1 || g == 2 * c + 2
      ensures g < len ==> !comp(s1[c], s1[g])
    {
      if g < len {
        assert Parent(g) == c;
        assert EdgeOk(s, g, comp);
      }
    }
  }

  /** __adjust_heap from hole with comp in both phases: if every edge
      below hole already holds, every edge from hole on holds after. */
  lemma AdjustIsHeap<T(!new)>(s: seq<T>, hole: nat, len: nat, value: T, comp: (T, T) -> bool)
    requires StrictWeakOrder(comp) && hole < len <= |s|
    requires HeapEdges(s, len, hole + 1, comp)
    ensures HeapEdges(Adjust(s, hole, len, value, comp, comp), len, hole, comp)
  {
    assert HoleOk(s, len, hole, hole, comp);
    DescendHoleOk(s, len, hole, hole, comp);
    var d := Descend(s, hole, len, comp);
    SiftUpHeap(d.0, len, hole, d.1, value, comp);
  }

  /** The root of a heap is not comp-less than any element. */
  lemma {:induction false} RootIsMax<T(!new)>(s: seq<T>, len: nat, i: nat, comp: (T, T) -> bool)
    requires StrictWeakOrder(comp) && i < len <= |s| && IsHeap(s, len, comp)
    ensures !comp(s[0], s[i])
    decreases i
  {
    if i > 0 {
      RootIsMax(s, len, Parent(i), comp);
      assert EdgeOk(s, i, comp);
    }
  }

  /** push_heap on a heap of n - 1 elements gives a heap of n, with the
      same elements. */
  lemma PushHeapIsHeap<T(!new)>(s: seq<T>, n: nat, comp: (T, T) -> bool)
    requires StrictWeakOrder(comp) && 1 <= n <= |s| && IsHeap(s, n - 1, comp)
    ensures IsHeap(PushHeap(s, n, comp), n, comp)
    ensures multiset(PushHeap(s, n, comp)) == multiset(s)
    ensures PushHeap(s, n, comp)[n..] == s[n..]
  {
    PushHeapOrder(s, n, comp);
    PushHeapKeeps(s, n, comp);
  }

  /** The heap-order half of PushHeapIsHeap. */
  lemma PushHeapOrder<T(!new)>(s: seq<T>, n: nat, comp: (T, T) -> bool)
    requires StrictWeakOrder(comp) && 1 <= n <= |s| && IsHeap(s, n - 1, comp)
    ensures IsHeap(PushHeap(s, n, comp), n, comp)
  {
    BelowRoot(n - 1);
    forall i | 0 < i < n && Parent(i) != n - 1 && i != n - 1
      ensures EdgeOk(s, i, comp)
    {
      assert HeapEdges(s, n - 1, 0, comp);
    }
    SiftUpHeap(s, n, 0, n - 1, s[n - 1], comp);
  }

  /** push_heap keeps the elements and leaves the slots from n on alone. */
  lemma PushHeapKeeps<T>(s: seq<T>, n: nat, comp: (T, T) -> bool)
    requires 1 <= n <= |s|
    ensures multiset(PushHeap(s, n, comp)) == multiset(s)
    ensures PushHeap(s, n, comp)[n..] == s[n..]
  {
    var r := SiftUp(s, n - 1, 0, s[n - 1], comp);
    assert r == PushHeap(s, n, comp);
    SiftUpMultiset(s, n - 1, 0, s[n - 1], comp);
    assert s[n - 1 := s[n - 1]] == s;
    assert forall k {:trigger r[k]} :: n <= k < |s| ==> r[k] == s[k];
    assert r[n..] == s[n..];
  }

  /** The root of a heap is not comp-less than any element of it. */
  lemma RootIsMaxAll<T(!new)>(s: seq<T>, len: nat, comp: (T, T) -> bool)
    requires StrictWeakOrder(comp) && len <= |s| && IsHeap(s, len, comp)
    ensures forall i :: 0 <= i < len ==> !comp(s[0], s[i])
  {
    forall i | 0 <= i < len
      ensures !comp(s[0], s[i])
    {
      RootIsMax(s, len, i, comp);
    }
  }

  /** pop_heap moves the root to n - 1, keeps the elements and leaves the
      slots after n alone, whatever the comparators. */
  lemma PopHeapMoves<T>(s: seq<T>, n: nat, comp: (T, T) -> bool, up: (T, T) -> bool)
    requires 1 <= n <= |s|
    ensures var r := PopHeap(s, n, comp, up);
      r[n - 1] == s[0] && multiset(r) == multiset(s) && r[n..] == s[n..]
  {
    PopHeapSlots(s, n, comp, up);
    PopHeapMultiset(s, n, comp, up);
  }

  /** The slots pop_heap does not adjust: n - 1 receives the root, and
      those from n on are left alone. */
  lemma PopHeapSlots<T>(s: seq<T>, n: nat, comp: (T, T) -> bool, up: (T, T) -> bool)
    requires 1 <= n <= |s|
    ensures var r := PopHeap(s, n, comp, up); r[n - 1] == s[0] && r[n..] == s[n..]
  {
    var s1 := s[n - 1 := s[0]];
    var r := Adjust(s1, 0, n - 1, s[n - 1], comp, up);
    assert r == PopHeap(s, n, comp, up);
    if n == 1 {
      assert Descend(s1, 0, 0, comp) == (s1, 0);
      assert r == s;
    } else {
      assert r[n - 1] == s1[n - 1];
      assert forall k {:trigger r[k]} :: n <= k < |s| ==> r[k] == s1[k] == s[k];
      assert r[n..] == s[n..];
    }
  }

  /** pop_heap keeps the elements of the whole sequence. */
  lemma PopHeapMultiset<T>(s: seq<T>, n: nat, comp: (T, T) -> bool, up: (T, T) -> bool)
    requires 1 <= n <= |s|
    ensures multiset(PopHeap(s, n, comp, up)) == multiset(s)
  {
    var s1 := s[n - 1 := s[0]];
    AdjustMultiset(s1, 0, n - 1, s[n - 1], comp, up);
    if n == 1 {
      assert s1[0 := s[n - 1]] == s;
    } else {
      UpdateSwap(s, n - 1, 0, s[0], s[n - 1]);
      assert s[n - 1 := s[n - 1]][0 := s[0]] == s;
    }
  }

  /** pop_heap on a heap of n leaves a heap of n - 1. */
  lemma PopHeapIsHeap<T(!new)>(s: seq<T>, n: nat, comp: (T, T) -> bool)
    requires StrictWeakOrder(comp) && 1 <= n <= |s| && IsHeap(s, n, comp)
    ensures IsHeap(PopHeap(s, n, comp, comp), n - 1, comp)
  {
    var s1 := s[n - 1 := s[0]];
    if n > 1 {
      assert HeapEdges(s1, n - 1, 1, comp) by {
        forall i | 0 < i < n - 1 && 1 <= Parent(i)
          ensures EdgeOk(s1, i, comp)
        {
          assert EdgeOk(s, i, comp);
        }
      }
      AdjustIsHeap(s1, 0, n - 1, s[n - 1], comp);
    }
  }

  /** Adjusting every parent from parent down to 0 turns a range whose
      edges below parent hold into a heap; elements and the slots after
      len are kept. */
  lemma {:induction false} MakeHeapFromIsHeap<T(!new)>(s: seq<T>, len: nat, parent: nat, comp: (T, T) -> bool)
    requires StrictWeakOrder(comp) && parent < len <= |s| && HeapEdges(s, len, parent + 1, comp)
    ensures IsHeap(MakeHeapFrom(s, len, parent, comp, comp), len, comp)
    decreases parent
  {
    var s1 := Adjust(s, parent, len, s[parent], comp, comp);
    AdjustIsHeap(s, parent, len, s[parent], comp);
    if parent > 0 {
      MakeHeapFromIsHeap(s1, len, parent - 1, comp);
    }
  }

  lemma {:induction false} MakeHeapFromMultiset<T>(s: seq<T>, len: nat, parent: nat, comp: (T, T) -> bool, up: (T, T) -> bool)
    requires parent < len <= |s|
    ensures multiset(MakeHeapFrom(s, len, parent, comp, up)) == multiset(s)
    ensures MakeHeapFrom(s, len, parent, comp, up)[len..] == s[len..]
    decreases parent
  {
    var s1 := Adjust(s, parent, len, s[parent], comp, up);
    AdjustMultiset(s, parent, len, s[parent], comp, up);
    assert s[parent := s[parent]] == s;
    assert s1[len..] == s[len..];
    if parent > 0 {
      MakeHeapFromMultiset(s1, len, parent - 1, comp, up);
    }
  }

  /** make_heap turns any range into a heap of the same elements and
      leaves the slots after it alone. */
  lemma MakeHeapIsHeap<T(!new)>(s: seq<T>, n: nat, comp: (T, T) -> bool)
    requires StrictWeakOrder(comp) && n <= |s|
    ensures IsHeap(MakeHeap(s, n, comp, comp), n, comp)
  {
    if n >= 2 {
      assert HeapEdges(s, n, (n - 2) / 2 + 1, comp);
      MakeHeapFromIsHeap(s, n, (n - 2) / 2, comp);
    }
  }

  lemma MakeHeapMultiset<T>(s: seq<T>, n: nat, comp: (T, T) -> bool, up: (T, T) -> bool)
    requires n <= |s|
    ensures multiset(MakeHeap(s, n, comp, up)) == multiset(s) && MakeHeap(s, n, comp, up)[n..] == s[n..]
  {
    if n >= 2 {
      MakeHeapFromMultiset(s, n, (n - 2) / 2, comp, up);
    }
  }

  /** s[lo..hi] is ascending under comp: no later element is comp-less
      than an earlier one. */
  ghost predicate SortedBy<T>(s: seq<T>, lo: nat, hi: nat, comp: (T, T) -> bool)
    requires lo <= hi <= |s|
  {
    forall i, j :: lo <= i < j < hi ==> !comp(s[j], s[i])
  }

  /** sort_heap's loop state with k elements left in the heap: the heap is
      s[..k], s[k..n] is ascending, and nothing in it is comp-less than an
      element of the heap. */
  ghost predicate SortState<T>(s: seq<T>, k: nat, n: nat, comp: (T, T) -> bool)
    requires k <= n <= |s|
  {
    IsHeap(s, k, comp) && SortedBy(s, k, n, comp) &&
    forall i, j :: 0 <= i < k <= j < n ==> !comp(s[j], s[i])
  }

  /** One pop_heap of sort_heap keeps SortState with one element fewer in
      the heap. */
  lemma SortStep<T(!new)>(s: seq<T>, k: nat, n: nat, comp: (T, T) -> bool)
    requires StrictWeakOrder(comp) && 1 <= k <= n <= |s| && SortState(s, k, n, comp)
    ensures SortState(PopHeap(s, k, comp, comp), k - 1, n, comp)
    ensures multiset(PopHeap(s, k, comp, comp)) == multiset(s)
  {
    var r := PopHeap(s, k, comp, comp);
    PopHeapMoves(s, k, comp, comp);
    PopHeapIsHeap(s, k, comp);
    RootIsMaxAll(s, k, comp);
    PrefixFrom(r, s, k);
  }

  /** Two sequences with the same elements and the same slots from k on
      have the same elements before k. */
  lemma PrefixMultiset<T>(r: seq<T>, s: seq<T>, k: nat)
    requires k <= |s| == |r| && multiset(r) == multiset(s) && r[k..] == s[k..]
    ensures multiset(r[..k]) == multiset(s[..k])
  {
    assert s == s[..k] + s[k..] && r == r[..k] + r[k..];
    assert multiset(r) == multiset(r[..k]) + multiset(r[k..]);
    assert multiset(s) == multiset(s[..k]) + multiset(s[k..]);
    forall x
      ensures multiset(r[..k])[x] == multiset(s[..k])[x]
    {
      assert multiset(r[..k])[x] == multiset(r)[x] - multiset(r[k..])[x];
    }
  }

  /** ... so every element before k comes from before k. */
  lemma PrefixFrom<T>(r: seq<T>, s: seq<T>, k: nat)
    requires k <= |s| == |r| && multiset(r) == multiset(s) && r[k..] == s[k..]
    ensures forall i :: 0 <= i < k ==> exists m :: 0 <= m < k && r[i] == s[m]
    ensures forall j :: k <= j < |s| ==> r[j] == s[j]
  {
    PrefixMultiset(r, s, k);
    forall i | 0 <= i < k
      ensures exists m :: 0 <= m < k && r[i] == s[m]
    {
      assert r[i] in multiset(r[..k]);
      assert r[i] in s[..k];
    }
    forall j | k <= j < |s|
      ensures r[j] == s[j]
    {
      assert r[j] == r[k..][j - k];
    }
  }

  lemma {:induction false} SortHeapSorted<T(!new)>(s: seq<T>, k: nat, n: nat, comp: (T, T) -> bool)
    requires StrictWeakOrder(comp) && k <= n <= |s| && SortState(s, k, n, comp)
    ensures SortedBy(SortHeap(s, k, comp, comp), 0, n, comp)
    decreases k
  {
    if k > 1 {
      SortStep(s, k, n, comp);
      SortHeapSorted(PopHeap(s, k, comp, comp), k - 1, n, comp);
    }
  }

  lemma {:induction false} SortHeapMultiset<T>(s: seq<T>, n: nat, comp: (T, T) -> bool, up: (T, T) -> bool)
    requires n <= |s|
    ensures multiset(SortHeap(s, n, comp, up)) == multiset(s) && SortHeap(s, n, comp, up)[n..] == s[n..]
    decreases n
  {
    if n > 1 {
      var r := PopHeap(s, n, comp, up);
      PopHeapMoves(s, n, comp, up);
      SortHeapMultiset(r, n - 1, comp, up);
      assert r[n - 1..] == [r[n - 1]] + r[n..];
      assert SortHeap(r, n - 1, comp, up)[n..] == SortHeap(r, n - 1, comp, up)[n - 1..][1..];
    }
  }

  /** sort_heap on a heap yields an ascending range of the same elements. */
  lemma SortHeapIsSorted<T(!new)>(s: seq<T>, n: nat, comp: (T, T) -> bool)
    requires StrictWeakOrder(comp) && n <= |s| && IsHeap(s, n, comp)
    ensures SortedBy(SortHeap(s, n, comp, comp), 0, n, comp)
  {
    SortHeapSorted(s, n, n, comp);
  }

  function IntLess(x: int, y: int): bool { x < y }
  function IntGreater(x: int, y: int): bool { x > y }

  lemma IntOrders()
    ensures StrictWeakOrder(IntLess) && StrictWeakOrder(IntGreater)
  {
  }

  /** The comparator __adjust_heap ends with the plain __push_heap, which
      sifts with operator< instead of comp. Under comp = greater, popping
      the heap [1, 2, 3] leaves [3, 2] in front, which is not a heap under
      greater; sifting with comp leaves [2, 3], which is. */
  lemma AdjustSiftsWithLess()
    ensures IsHeap([1, 2, 3], 3, IntGreater)
    ensures PopHeap([1, 2, 3], 3, IntGreater, IntLess) == [3, 2, 1]
    ensures !IsHeap([3, 2, 1], 2, IntGreater)
    ensures PopHeap([1, 2, 3], 3, IntGreater, IntGreater) == [2, 3, 1]
    ensures IsHeap([2, 3, 1], 2, IntGreater)
  {
    assert EdgeOk([1, 2, 3], 1, IntGreater) && EdgeOk([1, 2, 3], 2, IntGreater);
    assert [1, 2, 1][0 := 2] == [2, 2, 1];
    assert Descend([1, 2, 1], 0, 2, IntGreater) == ([2, 2, 1], 1);
    assert SiftUp([2, 2, 1], 0, 0, 3, IntLess) == [3, 2, 1];
    assert !EdgeOk([3, 2, 1], 1, IntGreater);
    assert EdgeOk([2, 3, 1], 1, IntGreater);
  }

  /** make_heap(first, last, greater) as written sifts up with < at the
      end of __adjust_heap, so [1, 2, 3] becomes [2, 1, 3], which is no
      heap under greater; sifting with comp leaves [1, 2, 3], which is. */
  lemma MakeHeapSiftsWithLess()
    ensures MakeHeap([1, 2, 3], 3, IntGreater, IntLess) == [2, 1, 3]
    ensures !IsHeap([2, 1, 3], 3, IntGreater)
    ensures MakeHeap([1, 2, 3], 3, IntGreater, IntGreater) == [1, 2, 3]
    ensures IsHeap([1, 2, 3], 3, IntGreater)
  {
    assert EdgeOk([1, 2, 3], 1, IntGreater) && EdgeOk([1, 2, 3], 2, IntGreater);
    assert !EdgeOk([2, 1, 3], 1, IntGreater);
  }

  // ---- The algorithms, in place on a[..n] ---------------------------

  /** __push_heap(first, holeIndex, topIndex, value, comp). */
  method PushHeapHole<T>(a: array<T>, holeIndex: nat, topIndex: nat, value: T, comp: (T, T) -> bool)
    requires holeIndex < a.Length
    modifies a
    ensures a[..] == SiftUp(old(a[..]), holeIndex, topIndex, value, comp)
  {
    var hole: nat := holeIndex;
    var parent: nat := Parent(hole);
    while hole > topIndex && comp(a[parent], value)
      invariant hole < a.Length && parent == Parent(hole)
      invariant SiftUp(a[..], hole, topIndex, value, comp) == SiftUp(old(a[..]), holeIndex, topIndex, value, comp)
      decreases hole
    {
      a[hole] := a[parent];
      hole := parent;
      parent := Parent(hole);
    }
    a[hole] := value;
  }

  /** __adjust_heap(first, holeIndex, len, value, comp), whose last step
      sifts with up: comp once corrected, the element type's operator< as
      written. */
  method AdjustHeap<T>(a: array<T>, holeIndex: nat, len: nat, value: T, comp: (T, T) -> bool, up: (T, T) -> bool)
    requires holeIndex <= len <= a.Length && holeIndex < a.Length
    modifies a
    ensures a[..] == Adjust(old(a[..]), holeIndex, len, value, comp, up)
  {
    var topIndex := holeIndex;
    var hole := DescendHole(a, holeIndex, len, comp);
    PushHeapHole(a, hole, topIndex, value, up);
  }

  /** The loop of __adjust_heap and the lone-child step after it; returns
      the final hole. */
  method DescendHole<T>(a: array<T>, holeIndex: nat, len: nat, comp: (T, T) -> bool) returns (hole: nat)
    requires holeIndex <= len <= a.Length && holeIndex < a.Length
    modifies a
    ensures (a[..], hole) == Descend(old(a[..]), holeIndex, len, comp)
  {
    hole := holeIndex;
    var secondChild: nat := 2 * hole + 2;
    while secondChild < len
      invariant holeIndex <= hole <= len && hole < a.Length && secondChild == 2 * hole + 2
      invariant Descend(a[..], hole, len, comp) == Descend(old(a[..]), holeIndex, len, comp)
      decreases len - hole
    {
      if comp(a[secondChild], a[secondChild - 1]) {
        secondChild := secondChild - 1;
      }
      a[hole] := a[secondChild];
      hole := secondChild;
      secondChild := 2 * (secondChild + 1);
    }
    if secondChild == len {
      a[hole] := a[secondChild - 1];
      hole := secondChild - 1;
    }
  }

  /** push_heap(first, first + n, comp): a[..n - 1] a heap becomes a[..n]
      a heap of the same elements. */
  method PushHeapBy<T(!new)>(a: array<T>, n: nat, comp: (T, T) -> bool)
    requires 1 <= n <= a.Length
    modifies a
    ensures a[..] == PushHeap(old(a[..]), n, comp)
    ensures StrictWeakOrder(comp) && old(IsHeap(a[..], n - 1, comp)) ==>
      IsHeap(a[..], n, comp) && multiset(a[..]) == old(multiset(a[..])) && a[n..] == old(a[n..])
  {
    ghost var s := a[..];
    PushHeapHole(a, n - 1, 0, a[n - 1], comp);
    if StrictWeakOrder(comp) && IsHeap(s, n - 1, comp) {
      PushHeapIsHeap(s, n, comp);
    }
  }

  /** pop_heap(first, first + n, comp) with the final sift-up by up:
      the root goes to n - 1, the elements are kept. */
  method PopHeapWith<T>(a: array<T>, n: nat, comp: (T, T) -> bool, up: (T, T) -> bool)
    requires 1 <= n <= a.Length
    modifies a
    ensures a[..] == PopHeap(old(a[..]), n, comp, up)
    ensures a[n - 1] == old(a[0]) && multiset(a[..]) == old(multiset(a[..])) && a[n..] == old(a[n..])
  {
    ghost var s := a[..];
    var value := a[n - 1];
    a[n - 1] := a[0];
    AdjustHeap(a, 0, n - 1, value, comp, up);
    PopHeapMoves(s, n, comp, up);
  }

  /** pop_heap(first, first + n, comp), sifting with comp: the maximum goes
      to n - 1 and a[..n - 1] is a heap. */
  method PopHeapBy<T(!new)>(a: array<T>, n: nat, comp: (T, T) -> bool)
    requires 1 <= n <= a.Length
    modifies a
    ensures a[..] == PopHeap(old(a[..]), n, comp, comp)
    ensures a[n - 1] == old(a[0]) && multiset(a[..]) == old(multiset(a[..])) && a[n..] == old(a[n..])
    ensures StrictWeakOrder(comp) && old(IsHeap(a[..], n, comp)) ==>
      IsHeap(a[..], n - 1, comp) && forall i :: 0 <= i < n ==> !comp(a[n - 1], old(a[i]))
  {
    ghost var s := a[..];
    PopHeapWith(a, n, comp, comp);
    if StrictWeakOrder(comp) && IsHeap(s, n, comp) {
      PopHeapIsHeap(s, n, comp);
      RootIsMaxAll(s, n, comp);
    }
  }

  /** make_heap(first, first + n, comp) with the sift-up of each adjust by
      up: ranges shorter than 2 are left alone, then every parent from
      (n - 2) / 2 down to 0 is adjusted. */
  method MakeHeapWith<T>(a: array<T>, n: nat, comp: (T, T) -> bool, up: (T, T) -> bool)
    requires n <= a.Length
    modifies a
    ensures a[..] == MakeHeap(old(a[..]), n, comp, up)
    ensures multiset(a[..]) == old(multiset(a[..])) && a[n..] == old(a[n..])
  {
    MakeHeapMultiset(a[..], n, comp, up);
    if n < 2 {
      return;
    }
    var len := n;
    var parent: nat := (len - 2) / 2;
    while true
      invariant parent < len
      invariant MakeHeapFrom(a[..], len, parent, comp, up) == MakeHeap(old(a[..]), n, comp, up)
      decreases parent
    {
      AdjustHeap(a, parent, len, a[parent], comp, up);
      if parent == 0 {
        return;
      }
      parent := parent - 1;
    }
  }

  /** make_heap(first, first + n, comp), sifting with comp: a[..n] becomes
      a heap of the same elements. */
  method MakeHeapBy<T(!new)>(a: array<T>, n: nat, comp: (T, T) -> bool)
    requires n <= a.Length
    modifies a
    ensures a[..] == MakeHeap(old(a[..]), n, comp, comp)
    ensures multiset(a[..]) == old(multiset(a[..])) && a[n..] == old(a[n..])
    ensures StrictWeakOrder(comp) ==> IsHeap(a[..], n, comp)
  {
    ghost var s := a[..];
    MakeHeapWith(a, n, comp, comp);
    if StrictWeakOrder(comp) {
      MakeHeapIsHeap(s, n, comp);
    }
  }

  /** sort_heap(first, first + n, comp) with each pop's sift-up by up. */
  method SortHeapWith<T>(a: array<T>, n: nat, comp: (T, T) -> bool, up: (T, T) -> bool)
    requires n <= a.Length
    modifies a
    ensures a[..] == SortHeap(old(a[..]), n, comp, up)
    ensures multiset(a[..]) == old(multiset(a[..])) && a[n..] == old(a[n..])
  {
    SortHeapMultiset(a[..], n, comp, up);
    var last: nat := n;
    while last > 1
      invariant last <= n
      invariant SortHeap(a[..], last, comp, up) == SortHeap(old(a[..]), n, comp, up)
    {
      PopHeapWith(a, last, comp, up);
      last := last - 1;
    }
  }

  /** sort_heap(first, first + n, comp), sifting with comp: a heap becomes
      ascending under comp, with the same elements. */
  method SortHeapBy<T(!new)>(a: array<T>, n: nat, comp: (T, T) -> bool)
    requires n <= a.Length
    modifies a
    ensures a[..] == SortHeap(old(a[..]), n, comp, comp)
    ensures multiset(a[..]) == old(multiset(a[..])) && a[n..] == old(a[n..])
    ensures StrictWeakOrder(comp) && old(IsHeap(a[..], n, comp)) ==> SortedBy(a[..], 0, n, comp)
  {
    ghost var s := a[..];
    SortHeapWith(a, n, comp, comp);
    if StrictWeakOrder(comp) && IsHeap(s, n, comp) {
      SortHeapIsSorted(s, n, comp);
    }
  }

  /** make_heap on 0, 1, ..., 9 with operator<. */
  lemma MakeHeapOfIota()
    ensures MakeHeap([0, 1, 2, 3, 4, 5, 6, 7, 8, 9], 10, IntLess, IntLess) == [9, 8, 6, 7, 4, 5, 2, 0, 3, 1]
  {
  }

  /** Whether s[..len] is a heap depends on s[..len] alone. */
  lemma HeapOfPrefix<T>(s: seq<T>, t: seq<T>, len: nat, comp: (T, T) -> bool)
    requires len <= |s| && len <= |t| && s[..len] == t[..len] && IsHeap(s, len, comp)
    ensures IsHeap(t, len, comp)
  {
    forall i | 0 < i < len
      ensures EdgeOk(t, i, comp)
    {
      assert EdgeOk(s, i, comp);
      assert s[i] == s[..len][i] && s[Parent(i)] == s[..len][Parent(i)];
      assert t[i] == t[..len][i] && t[Parent(i)] == t[..len][Parent(i)];
    }
  }
}
