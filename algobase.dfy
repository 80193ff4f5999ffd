/** The basic algorithms of algobase.hpp. A range [first, last) of
    input iterators is a sequence and a position in it an index; fill
    and iter_swap write through their iterators, so they work on an
    array in place. Ordered elements are integers where the source uses
    operator<, and any type under a comparator comp otherwise. */
module AlgoBase {

  /** Reference definition of lexicographic less-than: the first
      position where the ranges differ decides, and a proper prefix is
      less. */
  function LexLessBy<T>(s1: seq<T>, s2: seq<T>, comp: (T, T) -> bool): bool
  {
    if |s1| == 0 || |s2| == 0 then |s1| == 0 && |s2| != 0
    else if comp(s1[0], s2[0]) then true
    else if comp(s2[0], s1[0]) then false
    else LexLessBy(s1[1..], s2[1..], comp)
  }

  function IntLess(a: int, b: int): bool { a < b }

  /** equal(first1, last1, first2): the second range must be at least as
      long as the first. */
  method Equal<T(==)>(s1: seq<T>, s2: seq<T>) returns (r: bool)
    requires |s1| <= |s2|
    ensures r <==> s1 == s2[..|s1|]
  {
    var i := 0;
    while i != |s1|
      invariant 0 <= i <= |s1| && s1[..i] == s2[..i]
    {
      if s1[i] != s2[i] {
        assert s1[i] != s2[..|s1|][i];
        return false;
      }
      i := i + 1;
    }
    return true;
  }

  /** equal(first1, last1, first2, binary_op). */
  method EqualBy<T>(s1: seq<T>, s2: seq<T>, binaryOp: (T, T) -> bool) returns (r: bool)
    requires |s1| <= |s2|
    ensures r <==> forall k :: 0 <= k < |s1| ==> binaryOp(s1[k], s2[k])
  {
    var i := 0;
    while i != |s1|
      invariant 0 <= i <= |s1|
      invariant forall k :: 0 <= k < i ==> binaryOp(s1[k], s2[k])
    {
      if !binaryOp(s1[i], s2[i]) {
        return false;
      }
      i := i + 1;
    }
    return true;
  }

  /** fill(first, last, value): every slot of [first, last) becomes
      value, and no other slot changes. */
  method Fill<T>(a: array<T>, first: nat, last: nat, value: T)
    requires first <= last <= a.Length
    modifies a
    ensures forall k :: 0 <= k < a.Length ==> a[k] == if first <= k < last then value else old(a[k])
  {
    var i := first;
    while i != last
      invariant first <= i <= last
      invariant forall k :: 0 <= k < a.Length ==> a[k] == if first <= k < i then value else old(a[k])
    {
      a[i] := value;
      i := i + 1;
    }
  }

  /** iter_swap(a, b) through __iter_swap: the two slots exchange their
      values and nothing else changes. */
  method IterSwap<T>(a: array<T>, i: nat, j: nat)
    requires i < a.Length && j < a.Length
    modifies a
    ensures a[..] == old(a[..])[i := old(a[j])][j := old(a[i])]
    ensures multiset(a[..]) == old(multiset(a[..]))
  {
    var tmp := a[i];
    a[i] := a[j];
    a[j] := tmp;
  }

  /** swap(a, b) on two variables: their values are exchanged. */
  method Swap<T>(a: T, b: T) returns (a2: T, b2: T)
    ensures a2 == b && b2 == a
  {
    var tmp := a;
    a2 := b;
    b2 := tmp;
  }

  /** lexicographical_compare(first1, last1, first2, last2, comp). */
  method LexicographicalCompareBy<T>(s1: seq<T>, s2: seq<T>, comp: (T, T) -> bool) returns (r: bool)
    ensures r == LexLessBy(s1, s2, comp)
  {
    var i := 0;
    while i != |s1| && i != |s2|
      invariant 0 <= i <= |s1| && i <= |s2|
      invariant LexLessBy(s1[i..], s2[i..], comp) == LexLessBy(s1, s2, comp)
    {
      if comp(s1[i], s2[i]) {
        return true;
      }
      if comp(s2[i], s1[i]) {
        return false;
      }
      assert s1[i..][1..] == s1[i + 1..] && s2[i..][1..] == s2[i + 1..];
      i := i + 1;
    }
    r := i == |s1| && i != |s2|;
  }

  /** lexicographical_compare(first1, last1, first2, last2) with
      operator<. */
  method LexicographicalCompare(s1: seq<int>, s2: seq<int>) returns (r: bool)
    ensures r == LexLessBy(s1, s2, IntLess)
  {
    r := LexicographicalCompareBy(s1, s2, IntLess);
  }

  /** Under <, lexicographic less-than is a strict order: irreflexive
      and transitive. */
  lemma {:induction false} LexLessStrictOrder(s1: seq<int>, s2: seq<int>, s3: seq<int>)
    ensures !LexLessBy(s1, s1, IntLess)
    ensures LexLessBy(s1, s2, IntLess) && LexLessBy(s2, s3, IntLess) ==> LexLessBy(s1, s3, IntLess)
    decreases |s1|
  {
    if |s1| > 0 {
      LexLessStrictOrder(s1[1..], s1[1..], s1[1..]);
    }
    if |s1| > 0 && |s2| > 0 && |s3| > 0 {
      LexLessStrictOrder(s1[1..], s2[1..], s3[1..]);
    }
  }

  /** Under <, any two different sequences are ordered one way or the
      other. */
  lemma {:induction false} LexLessTotal(s1: seq<int>, s2: seq<int>)
    requires s1 != s2
    ensures LexLessBy(s1, s2, IntLess) || LexLessBy(s2, s1, IntLess)
    decreases |s1|
  {
    if |s1| > 0 && |s2| > 0 && s1[0] == s2[0] {
      assert s1 == [s1[0]] + s1[1..] && s2 == [s2[0]] + s2[1..];
      LexLessTotal(s1[1..], s2[1..]);
    }
  }

  /** A proper prefix is less than the sequence it starts. */
  lemma {:induction false} ProperPrefixIsLess<T>(s: seq<T>, t: seq<T>, comp: (T, T) -> bool)
    requires |s| < |t| && s == t[..|s|]
    requires forall x :: !comp(x, x)
    ensures LexLessBy(s, t, comp)
    decreases |s|
  {
    if |s| > 0 {
      assert s[0] == t[0];
      assert s[1..] == t[1..][..|s| - 1];
      ProperPrefixIsLess(s[1..], t[1..], comp);
    }
  }

  /** "hello" < "holle" character by character. */
  lemma HelloBeforeHolle()
    ensures LexLessBy("hello", "holle", (a: char, b: char) => a < b)
  {
    assert "hello"[1..] == "ello";
    assert "holle"[1..] == "olle";
  }

  /** min(a, b): b only when b < a, so a on ties. */
  function Min(a: int, b: int): (r: int)
    ensures r <= a && r <= b && (r == a || r == b)
    ensures b == a ==> r == a
  {
    if b < a then b else a
  }

  /** max(a, b): b only when b > a, so a on ties. */
  function Max(a: int, b: int): (r: int)
    ensures r >= a && r >= b && (r == a || r == b)
    ensures b == a ==> r == a
  {
    if b > a then b else a
  }

  /** comp is asymmetric (hence irreflexive), as a strict order is. */
  ghost predicate Asymmetric<T(!new)>(comp: (T, T) -> bool)
  {
    forall x, y :: comp(x, y) ==> !comp(y, x)
  }

  /** min(a, b, comp): one of a and b that neither argument is less
      than under a strict order comp, and a when they are equivalent. */
  function MinBy<T(!new)>(a: T, b: T, comp: (T, T) -> bool): (r: T)
    ensures r == a || r == b
    ensures Asymmetric(comp) ==> !comp(a, r) && !comp(b, r)
    ensures !comp(a, b) && !comp(b, a) ==> r == a
  {
    if comp(b, a) then b else a
  }

  /** max(a, b, comp) as written: comp(b, a) ? b : a, the same test as
      min(a, b, comp). */
  function MaxByAsWritten<T(!new)>(a: T, b: T, comp: (T, T) -> bool): (r: T)
    ensures r == MinBy(a, b, comp)
  {
    if comp(b, a) then b else a
  }

  /** max(a, b, comp) as intended: one of a and b that is less than
      neither argument under a strict order comp, and a when they are
      equivalent. */
  function MaxBy<T(!new)>(a: T, b: T, comp: (T, T) -> bool): (r: T)
    ensures r == a || r == b
    ensures Asymmetric(comp) ==> !comp(r, a) && !comp(r, b)
    ensures !comp(a, b) && !comp(b, a) ==> r == a
  {
    if comp(a, b) then b else a
  }

  /** Under a strict order, min(comp) and the intended max(comp) split
      {a, b} between them when a and b are comparable, both return a
      when they are equivalent, and the maximum is never less than the
      minimum. */
  lemma {:induction false} MinByMaxBySplit<T(!new)>(a: T, b: T, comp: (T, T) -> bool)
    requires Asymmetric(comp)
    ensures comp(a, b) || comp(b, a) ==> multiset{MinBy(a, b, comp), MaxBy(a, b, comp)} == multiset{a, b}
    ensures !comp(a, b) && !comp(b, a) ==> MinBy(a, b, comp) == MaxBy(a, b, comp) == a
    ensures !comp(MaxBy(a, b, comp), MinBy(a, b, comp))
  {
    if comp(a, b) {
      assert !comp(b, a);
    }
  }

  /** Under <, the comparator forms agree with min and max; max as
      written returns the minimum instead: max(1, 2, less) is 1. */
  lemma ComparatorMinMax(a: int, b: int)
    ensures MinBy(a, b, IntLess) == Min(a, b)
    ensures MaxBy(a, b, IntLess) == Max(a, b)
    ensures MaxByAsWritten(a, b, IntLess) == Min(a, b)
    ensures MaxByAsWritten(1, 2, IntLess) == 1 != Max(1, 2)
  {
  }

  /** min_max(a, b): make_pair(min(a, b), max(a, b)), an ordered pair
      holding a and b. */
  function MinMax(a: int, b: int): (r: (int, int))
    ensures r.0 <= r.1
    ensures multiset{r.0, r.1} == multiset{a, b}
  {
    (Min(a, b), Max(a, b))
  }

  /** mismatch(first1, last1, first2): the first position where the
      ranges differ, or the end of range 1; both iterators of the
      returned pair stand at that position. */
  method Mismatch<T(==)>(s1: seq<T>, s2: seq<T>) returns (i1: nat, i2: nat)
    requires |s1| <= |s2|
    ensures i1 == i2 <= |s1|
    ensures s1[..i1] == s2[..i1]
    ensures i1 < |s1| ==> s1[i1] != s2[i1]
  {
    i1, i2 := 0, 0;
    while i1 != |s1| && s1[i1] == s2[i2]
      invariant i1 == i2 <= |s1| && s1[..i1] == s2[..i1]
    {
      i1, i2 := i1 + 1, i2 + 1;
    }
  }

  /** mismatch(first1, last1, first2, binary_pred) as written: the
      predicate is given the position first1, not the element *first1.
      With a predicate on element values, such as equal_to<int>, that
      call does not compile, since an iterator does not convert to the
      element type; only a predicate that accepts the iterator itself
      can be passed. The model stands the index in for the iterator. */
  method MismatchByAsWritten(s1: seq<int>, s2: seq<int>, binaryPred: (int, int) -> bool) returns (i1: nat, i2: nat)
    requires |s1| <= |s2|
    ensures i1 == i2 <= |s1|
    ensures forall k :: 0 <= k < i1 ==> binaryPred(k, s2[k])
    ensures i1 < |s1| ==> !binaryPred(i1, s2[i1])
  {
    i1, i2 := 0, 0;
    while i1 != |s1| && binaryPred(i1, s2[i2])
      invariant i1 == i2 <= |s1|
      invariant forall k :: 0 <= k < i1 ==> binaryPred(k, s2[k])
    {
      i1, i2 := i1 + 1, i2 + 1;
    }
  }

  /** mismatch(first1, last1, first2, binary_pred) as intended: the first
      position whose elements fail binary_pred. */
  method MismatchBy<T>(s1: seq<T>, s2: seq<T>, binaryPred: (T, T) -> bool) returns (i1: nat, i2: nat)
    requires |s1| <= |s2|
    ensures i1 == i2 <= |s1|
    ensures forall k :: 0 <= k < i1 ==> binaryPred(s1[k], s2[k])
    ensures i1 < |s1| ==> !binaryPred(s1[i1], s2[i1])
  {
    i1, i2 := 0, 0;
    while i1 != |s1| && binaryPred(s1[i1], s2[i2])
      invariant i1 == i2 <= |s1|
      invariant forall k :: 0 <= k < i1 ==> binaryPred(s1[k], s2[k])
    {
      i1, i2 := i1 + 1, i2 + 1;
    }
  }

  function IntEqual(a: int, b: int): bool { a == b }

  /** The index model of mismatch as written, on the equal ranges
      [5, 5] and [5, 5] with an equality predicate, stops at position 0,
      because it compares the position 0 with 5; the intended form runs
      to the end, as plain mismatch does. In C++ the same call with
      equal_to<int> is rejected by the compiler rather than stopping at
      0: the lemma shows what the as-written call computes once the
      iterator is taken for its index, not an outcome of the program. */
  method MismatchPredicateCounterexample() returns (asWritten: nat, intended: nat, plain: nat)
    ensures asWritten == 0 && intended == 2 && plain == 2
  {
    var s, j := [5, 5], 0;
    assert s[0] == 5 && s[1] == 5;
    asWritten, j := MismatchByAsWritten(s, s, IntEqual);
    intended, j := MismatchBy(s, s, IntEqual);
    plain, j := Mismatch(s, s);
  }
}
