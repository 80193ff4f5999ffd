/** The searching, counting, generating and extremum algorithms of
    algorithm.hpp. A read-only range [first, last) is a sequence s, a
    position is an index into it and last is |s|; a range written in place
    is a slice of an array. The plain overloads are the predicate ones with
    the predicate spelled out (operator== or operator<). */
module Algorithms {
  import opened AlgoHeap

  // ---- adjacent_find --------------------------------------------------

  /** adjacent_find(first, last, binary_op): the first i with
      binary_op(s[i], s[i + 1]), else last. */
  method AdjacentFindBy<T>(s: seq<T>, pred: (T, T) -> bool) returns (i: nat)
    ensures i <= |s|
    ensures i < |s| ==> i + 1 < |s| && pred(s[i], s[i + 1])
    ensures forall j :: 0 <= j < i && j + 1 < |s| ==> !pred(s[j], s[j + 1])
  {
    if |s| == 0 {
      return 0;
    }
    var first, next := 0, 1;
    while next != |s|
      invariant next == first + 1 <= |s|
      invariant forall j :: 0 <= j < first ==> !pred(s[j], s[j + 1])
    {
      if pred(s[first], s[next]) {
        return first;
      }
      first := next;
      next := next + 1;
    }
    return |s|;
  }

  /** adjacent_find(first, last): the first i with s[i] == s[i + 1]. */
  method AdjacentFind<T(==)>(s: seq<T>) returns (i: nat)
    ensures i <= |s|
    ensures i < |s| ==> i + 1 < |s| && s[i] == s[i + 1]
    ensures forall j :: 0 <= j < i && j + 1 < |s| ==> s[j] != s[j + 1]
  {
    i := AdjacentFindBy(s, (a, b) => a == b);
  }

  // ---- count, count_if ------------------------------------------------

  /** The number of elements of s satisfying pred. */
  ghost function CountWhere<T>(s: seq<T>, pred: T -> bool): (n: nat)
    ensures n <= |s|
  {
    if |s| == 0 then 0
    else CountWhere(s[..|s| - 1], pred) + (if pred(s[|s| - 1]) then 1 else 0)
  }

  /** count_if(first, last, pred). */
  method CountIf<T>(s: seq<T>, pred: T -> bool) returns (n: nat)
    ensures n == CountWhere(s, pred)
  {
    n := 0;
    var first := 0;
    while first != |s|
      invariant first <= |s| && n == CountWhere(s[..first], pred)
    {
      assert s[..first + 1][..first] == s[..first];
      if pred(s[first]) {
        n := n + 1;
      }
      first := first + 1;
    }
    assert s[..first] == s;
  }

  /** Counting the elements equal to v is v's multiplicity. */
  lemma {:induction false} CountWhereEqual<T>(s: seq<T>, v: T)
    ensures CountWhere(s, x => x == v) == multiset(s)[v]
  {
    if |s| > 0 {
      var s' := s[..|s| - 1];
      CountWhereEqual(s', v);
      assert s == s' + [s[|s| - 1]];
    }
  }

  /** Counts add up over a concatenation. */
  lemma {:induction false} CountWhereConcat<T>(a: seq<T>, b: seq<T>, pred: T -> bool)
    ensures CountWhere(a + b, pred) == CountWhere(a, pred) + CountWhere(b, pred)
  {
    if |b| > 0 {
      var b' := b[..|b| - 1];
      CountWhereConcat(a, b', pred);
      assert (a + b)[..|a + b| - 1] == a + b';
    } else {
      assert a + b == a;
    }
  }

  /** Every element is counted by pred or by its negation, never both. */
  lemma {:induction false} CountWhereComplement<T>(s: seq<T>, pred: T -> bool)
    ensures CountWhere(s, pred) + CountWhere(s, x => !pred(x)) == |s|
  {
    if |s| > 0 {
      CountWhereComplement(s[..|s| - 1], pred);
    }
  }

  /** count(first, last, value): the multiplicity of value. */
  method Count<T(==)>(s: seq<T>, value: T) returns (n: nat)
    ensures n == multiset(s)[value]
  {
    n := CountIf(s, x => x == value);
    CountWhereEqual(s, value);
  }

  // ---- find, find_if, find_first_of -----------------------------------

  /** find_if(first, last, pred): the first position satisfying pred,
      else last. */
  method FindIf<T>(s: seq<T>, pred: T -> bool) returns (i: nat)
    ensures i <= |s| && (i < |s| ==> pred(s[i]))
    ensures forall j :: 0 <= j < i ==> !pred(s[j])
  {
    i := 0;
    while i != |s| && !pred(s[i])
      invariant i <= |s| && forall j :: 0 <= j < i ==> !pred(s[j])
    {
      i := i + 1;
    }
  }

  /** find(first, last, value): the first position holding value, and
      last exactly when value does not occur. */
  method Find<T(==)>(s: seq<T>, value: T) returns (i: nat)
    ensures i <= |s| && (i < |s| ==> s[i] == value)
    ensures forall j :: 0 <= j < i ==> s[j] != value
    ensures i == |s| <==> value !in s
  {
    i := FindIf(s, x => x == value);
  }

  /** find_first_of(first1, last1, first2, last2, comp): the first
      position of range 1 related by comp to some element of range 2. */
  method FindFirstOfBy<T>(s1: seq<T>, s2: seq<T>, comp: (T, T) -> bool) returns (i: nat)
    ensures i <= |s1|
    ensures i < |s1| ==> exists j :: 0 <= j < |s2| && comp(s1[i], s2[j])
    ensures forall k, j :: 0 <= k < i && 0 <= j < |s2| ==> !comp(s1[k], s2[j])
  {
    i := 0;
    while i != |s1|
      invariant i <= |s1|
      invariant forall k, j :: 0 <= k < i && 0 <= j < |s2| ==> !comp(s1[k], s2[j])
    {
      var itr := 0;
      while itr != |s2|
        invariant itr <= |s2| && forall j :: 0 <= j < itr ==> !comp(s1[i], s2[j])
      {
        if comp(s1[i], s2[itr]) {
          return i;
        }
        itr := itr + 1;
      }
      i := i + 1;
    }
  }

  /** find_first_of(first1, last1, first2, last2): the first element of
      range 1 that occurs in range 2. */
  method FindFirstOf<T(==)>(s1: seq<T>, s2: seq<T>) returns (i: nat)
    ensures i <= |s1| && (i < |s1| ==> s1[i] in s2)
    ensures forall k :: 0 <= k < i ==> s1[k] !in s2
  {
    i := FindFirstOfBy(s1, s2, (a, b) => a == b);
  }

  // ---- for_each -------------------------------------------------------

  /** The state of a function object after it has been applied to each
      element of s in turn. */
  ghost function Applied<T, S>(s: seq<T>, f: (S, T) -> S, st: S): S
  {
    if |s| == 0 then st else f(Applied(s[..|s| - 1], f, st), s[|s| - 1])
  }

  /** Applying over a + b is applying over a, then over b. */
  lemma {:induction false} AppliedConcat<T, S>(a: seq<T>, b: seq<T>, f: (S, T) -> S, st: S)
    ensures Applied(a + b, f, st) == Applied(b, f, Applied(a, f, st))
  {
    if |b| > 0 {
      var b' := b[..|b| - 1];
      AppliedConcat(a, b', f, st);
      assert (a + b)[..|a + b| - 1] == a + b';
    } else {
      assert a + b == a;
    }
  }

  /** for_each(first, last, f): calls f on each element in order and
      returns f; f's state is st and a call is f(state, element). */
  method ForEach<T, S>(s: seq<T>, f: (S, T) -> S, st: S) returns (r: S)
    ensures r == Applied(s, f, st)
  {
    r := st;
    var first := 0;
    while first != |s|
      invariant first <= |s| && r == Applied(s[..first], f, st)
    {
      assert s[..first + 1][..first] == s[..first];
      r := f(r, s[first]);
      first := first + 1;
    }
    assert s[..first] == s;
  }

  // ---- generate, generate_n -------------------------------------------

  /** What n successive calls of a generator return, and its state
      afterwards; a call in state st returns gen(st).0 and moves it to
      gen(st).1. */
  ghost function Generated<T, S>(gen: S -> (T, S), st: S, n: nat): (r: (seq<T>, S))
    ensures |r.0| == n
  {
    if n == 0 then ([], st)
    else
      var p := Generated(gen, st, n - 1);
      (p.0 + [gen(p.1).0], gen(p.1).1)
  }

  /** m + n calls are m calls, then n more from where they left off. */
  lemma {:induction false} GeneratedSplit<T, S>(gen: S -> (T, S), st: S, m: nat, n: nat)
    ensures var p := Generated(gen, st, m); var q := Generated(gen, p.1, n);
      Generated(gen, st, m + n) == (p.0 + q.0, q.1)
  {
    var p := Generated(gen, st, m);
    if n > 0 {
      GeneratedSplit(gen, st, m, n - 1);
      var q' := Generated(gen, p.1, n - 1);
      var y := gen(q'.1).0;
      assert Generated(gen, p.1, n) == (q'.0 + [y], gen(q'.1).1);
      assert Generated(gen, st, m + n) == ((p.0 + q'.0) + [y], gen(q'.1).1);
      assert (p.0 + q'.0) + [y] == p.0 + (q'.0 + [y]);
    } else {
      assert p.0 + [] == p.0;
    }
  }

  /** The counting generator [i = 0]() mutable { return i++; } yields
      0, 1, ..., n - 1. */
  lemma {:induction false} GeneratedCounter(n: nat)
    ensures Generated((i: int) => (i, i + 1), 0, n).0 == seq(n, k => k)
    ensures Generated((i: int) => (i, i + 1), 0, n).1 == n
  {
    if n > 0 {
      GeneratedCounter(n - 1);
    }
  }

  /** A generator that ignores its state yields n copies of its value. */
  lemma {:induction false} GeneratedConstant<T, S>(x: T, st: S, n: nat)
    ensures Generated((s: S) => (x, s), st, n).0 == seq(n, _ => x)
  {
    if n > 0 {
      GeneratedConstant(x, st, n - 1);
    }
  }

  /** generate(first, last, gen): a[first..last] receives successive
      generated values; nothing else changes. Returns gen's state. */
  method Generate<T, S>(a: array<T>, first: nat, last: nat, gen: S -> (T, S), st: S) returns (st': S)
    requires first <= last <= a.Length
    modifies a
    ensures forall k :: 0 <= k < a.Length ==>
      a[k] == if first <= k < last then Generated(gen, st, last - first).0[k - first] else old(a[k])
    ensures st' == Generated(gen, st, last - first).1
  {
    var i := first;
    st' := st;
    while i != last
      invariant first <= i <= last && st' == Generated(gen, st, i - first).1
      invariant forall k :: 0 <= k < a.Length ==>
        a[k] == if first <= k < i then Generated(gen, st, i - first).0[k - first] else old(a[k])
    {
      ghost var p := Generated(gen, st, i - first);
      assert Generated(gen, st, i + 1 - first) == (p.0 + [gen(st').0], gen(st').1);
      var v;
      v, st' := gen(st').0, gen(st').1;
      a[i] := v;
      i := i + 1;
    }
  }

  /** generate_n(first, n, gen): n generated values written from first
      (none when n <= 0); returns the position after the last one written
      and gen's state. */
  method GenerateN<T, S>(a: array<T>, first: nat, n: int, gen: S -> (T, S), st: S) returns (end: nat, st': S)
    requires first <= a.Length && (n <= 0 || first + n <= a.Length)
    modifies a
    ensures end == first + (if n > 0 then n else 0) && end <= a.Length
    ensures forall k :: 0 <= k < a.Length ==>
      a[k] == if first <= k < end then Generated(gen, st, end - first).0[k - first] else old(a[k])
    ensures st' == Generated(gen, st, end - first).1
  {
    var count := n;
    end := first;
    st' := st;
    while count > 0
      invariant first <= end && (n > 0 ==> end + count == first + n && count >= 0)
      invariant n <= 0 ==> end == first
      invariant st' == Generated(gen, st, end - first).1
      invariant forall k :: 0 <= k < a.Length ==>
        a[k] == if first <= k < end then Generated(gen, st, end - first).0[k - first] else old(a[k])
    {
      ghost var p := Generated(gen, st, end - first);
      assert Generated(gen, st, end + 1 - first) == (p.0 + [gen(st').0], gen(st').1);
      var v;
      v, st' := gen(st').0, gen(st').1;
      a[end] := v;
      count, end := count - 1, end + 1;
    }
  }

  // ---- includes -------------------------------------------------------

  /** A strict weak ordering whose equivalence is equality. */
  ghost predicate StrictTotalOrder<T(!new)>(comp: (T, T) -> bool)
  {
    StrictWeakOrder(comp) && forall x, y :: !comp(x, y) && !comp(y, x) ==> x == y
  }

  ghost predicate Sorted<T>(s: seq<T>, comp: (T, T) -> bool)
  {
    forall i, j :: 0 <= i < j < |s| ==> !comp(s[j], s[i])
  }

  /** Both ranges sorted under an ordering that decides equality. */
  ghost predicate IncludesDefined<T(!new)>(s1: seq<T>, s2: seq<T>, comp: (T, T) -> bool)
  {
    StrictTotalOrder(comp) && Sorted(s1, comp) && Sorted(s2, comp)
  }

  /** s2[j] is below every element left in s1: it cannot be matched. */
  lemma IncludesMissing<T(!new)>(s1: seq<T>, s2: seq<T>, i: nat, j: nat, comp: (T, T) -> bool)
    requires IncludesDefined(s1, s2, comp) && i < |s1| && j < |s2| && comp(s2[j], s1[i])
    ensures !(multiset(s2[j..]) <= multiset(s1[i..]))
  {
    var x := s2[j];
    forall k | i <= k < |s1|
      ensures s1[k] != x
    {
      assert !comp(s1[k], s1[i]);
    }
    assert x !in s1[i..];
    assert x in multiset(s2[j..]);
  }

  /** s1[i] is below every element left in s2: it can be skipped. */
  lemma IncludesSkip<T(!new)>(s1: seq<T>, s2: seq<T>, i: nat, j: nat, comp: (T, T) -> bool)
    requires IncludesDefined(s1, s2, comp) && i < |s1| && j < |s2| && comp(s1[i], s2[j])
    ensures (multiset(s2[j..]) <= multiset(s1[i..])) <==> (multiset(s2[j..]) <= multiset(s1[i + 1..]))
  {
    var y := s1[i];
    forall k | j <= k < |s2|
      ensures s2[k] != y
    {
      assert !comp(s2[k], s2[j]);
    }
    assert y !in s2[j..];
    assert s1[i..] == [y] + s1[i + 1..];
    var a, b := multiset(s2[j..]), multiset(s1[i + 1..]);
    assert a[y] == 0;
    if a <= b + multiset{y} {
      forall x ensures a[x] <= b[x] {
        if x != y { assert (b + multiset{y})[x] == b[x]; }
      }
    }
  }

  /** Equal heads: they match each other. */
  lemma IncludesMatch<T(!new)>(s1: seq<T>, s2: seq<T>, i: nat, j: nat, comp: (T, T) -> bool)
    requires IncludesDefined(s1, s2, comp) && i < |s1| && j < |s2|
    requires !comp(s1[i], s2[j]) && !comp(s2[j], s1[i])
    ensures (multiset(s2[j..]) <= multiset(s1[i..])) <==> (multiset(s2[j + 1..]) <= multiset(s1[i + 1..]))
  {
    var x := s1[i];
    assert s2[j] == x;
    assert s1[i..] == [x] + s1[i + 1..];
    assert s2[j..] == [x] + s2[j + 1..];
    var a, b := multiset(s2[j + 1..]), multiset(s1[i + 1..]);
    assert multiset(s2[j..]) == a + multiset{x};
    assert multiset(s1[i..]) == b + multiset{x};
    AddBoth(a, b, x);
  }

  /** Adding the same element to both sides keeps inclusion as it was. */
  lemma AddBoth<T>(a: multiset<T>, b: multiset<T>, x: T)
    ensures a + multiset{x} <= b + multiset{x} <==> a <= b
  {
    if a + multiset{x} <= b + multiset{x} {
      forall z ensures a[z] <= b[z] {
        assert (a + multiset{x})[z] <= (b + multiset{x})[z];
      }
    }
  }

  /** includes(first1, last1, first2, last2, comp): on ranges sorted under
      an ordering that decides equality, whether range 2 is a
      sub-multiset of range 1. */
  method IncludesBy<T(!new)>(s1: seq<T>, s2: seq<T>, comp: (T, T) -> bool) returns (r: bool)
    ensures IncludesDefined(s1, s2, comp) ==> (r <==> multiset(s2) <= multiset(s1))
  {
    ghost var defined := IncludesDefined(s1, s2, comp);
    var i, j := 0, 0;
    assert s1[0..] == s1 && s2[0..] == s2;
    while i != |s1| && j != |s2|
      invariant i <= |s1| && j <= |s2|
      invariant defined ==> ((multiset(s2) <= multiset(s1)) <==> (multiset(s2[j..]) <= multiset(s1[i..])))
      decreases |s1| - i + |s2| - j
    {
      if comp(s2[j], s1[i]) {
        if defined {
          IncludesMissing(s1, s2, i, j, comp);
        }
        return false;
      } else if comp(s1[i], s2[j]) {
        if defined {
          IncludesSkip(s1, s2, i, j, comp);
        }
        i := i + 1;
      } else {
        if defined {
          IncludesMatch(s1, s2, i, j, comp);
        }
        i, j := i + 1, j + 1;
      }
    }
    IncludesEnd(s1, s2, i, j);
    return j == |s2|;
  }

  /** Once one range is used up, range 2's rest fits in range 1's rest
      exactly when range 2 is used up. */
  lemma IncludesEnd<T>(s1: seq<T>, s2: seq<T>, i: nat, j: nat)
    requires i <= |s1| && j <= |s2| && (i == |s1| || j == |s2|)
    ensures multiset(s2[j..]) <= multiset(s1[i..]) <==> j == |s2|
  {
    if j != |s2| {
      assert s2[j] in multiset(s2[j..]);
    }
  }

  /** includes(first1, last1, first2, last2) on ints, comparing with <. */
  method Includes(s1: seq<int>, s2: seq<int>) returns (r: bool)
    ensures (forall i, j :: 0 <= i < j < |s1| ==> s1[i] <= s1[j]) &&
            (forall i, j :: 0 <= i < j < |s2| ==> s2[i] <= s2[j]) ==>
            (r <==> multiset(s2) <= multiset(s1))
  {
    IntOrders();
    r := IncludesBy(s1, s2, IntLess);
  }

  // ---- max_element, min_element, minmax_element -----------------------

  /** max_element(first, last, comp): the first position no element is
      greater than under comp; first (0) on an empty range. */
  method MaxElementBy<T(!new)>(s: seq<T>, comp: (T, T) -> bool) returns (r: nat)
    ensures |s| == 0 ==> r == 0
    ensures |s| > 0 ==> r < |s|
    ensures StrictWeakOrder(comp) && |s| > 0 ==>
      (forall k :: 0 <= k < |s| ==> !comp(s[r], s[k])) &&
      (forall k :: 0 <= k < r ==> comp(s[k], s[r]))
  {
    if |s| == 0 {
      return 0;
    }
    r := 0;
    var first := 0;
    while first + 1 != |s|
      invariant r <= first < |s|
      invariant StrictWeakOrder(comp) ==> forall k :: 0 <= k <= first ==> !comp(s[r], s[k])
      invariant StrictWeakOrder(comp) ==> forall k :: 0 <= k < r ==> comp(s[k], s[r])
    {
      first := first + 1;
      if comp(s[r], s[first]) {
        if StrictWeakOrder(comp) {
          forall k | 0 <= k < first
            ensures comp(s[k], s[first]) && !comp(s[first], s[k])
          {
            assert !comp(s[r], s[k]);
          }
        }
        r := first;
      }
    }
  }

  /** max_element(first, last) on ints: the first position of a
      maximum. */
  method MaxElement(s: seq<int>) returns (r: nat)
    ensures |s| == 0 ==> r == 0
    ensures |s| > 0 ==> r < |s| && (forall k :: 0 <= k < |s| ==> s[k] <= s[r]) &&
                                   (forall k :: 0 <= k < r ==> s[k] < s[r])
  {
    IntOrders();
    r := MaxElementBy(s, IntLess);
  }

  /** comp with its arguments swapped. */
  function Flip<T>(comp: (T, T) -> bool): (T, T) -> bool
  {
    (x, y) => comp(y, x)
  }

  lemma FlipOrder<T(!new)>(comp: (T, T) -> bool)
    requires StrictWeakOrder(comp)
    ensures StrictWeakOrder(Flip(comp))
  {
  }

  /** min_element(first, last, comp) as written: the loop of
      max_element(first, last, comp), so it finds the first position no
      element is greater than. */
  method MinElementByAsWritten<T(!new)>(s: seq<T>, comp: (T, T) -> bool) returns (r: nat)
    ensures |s| == 0 ==> r == 0
    ensures |s| > 0 ==> r < |s|
    ensures StrictWeakOrder(comp) && |s| > 0 ==>
      (forall k :: 0 <= k < |s| ==> !comp(s[r], s[k])) &&
      (forall k :: 0 <= k < r ==> comp(s[k], s[r]))
  {
    r := MaxElementBy(s, comp);
  }

  /** On [2, 1, 3] with < the as-written min_element(comp) returns the
      position of 3, not that of 1. */
  method MinElementByAsWrittenFindsMax() returns (r: nat)
    ensures r == 2
  {
    IntOrders();
    var s := [2, 1, 3];
    r := MinElementByAsWritten(s, IntLess);
    assert !IntLess(s[r], s[2]);
  }

  /** min_element(first, last, comp), corrected to test
      comp(*first, *result): the first position no element is less than
      under comp. */
  method MinElementBy<T(!new)>(s: seq<T>, comp: (T, T) -> bool) returns (r: nat)
    ensures |s| == 0 ==> r == 0
    ensures |s| > 0 ==> r < |s|
    ensures StrictWeakOrder(comp) && |s| > 0 ==>
      (forall k :: 0 <= k < |s| ==> !comp(s[k], s[r])) &&
      (forall k :: 0 <= k < r ==> comp(s[r], s[k]))
  {
    if StrictWeakOrder(comp) {
      FlipOrder(comp);
    }
    r := MaxElementBy(s, Flip(comp));
  }

  /** On [2, 1, 3] with < the corrected min_element(comp) returns the
      position of 1. */
  method MinElementByFindsMin() returns (r: nat)
    ensures r == 1
  {
    IntOrders();
    r := MinElementBy([2, 1, 3], IntLess);
    assert !IntLess([2, 1, 3][1], [2, 1, 3][r]);
  }

  /** min_element(first, last) on ints, testing *result > *first: the
      first position of a minimum. */
  method MinElement(s: seq<int>) returns (r: nat)
    ensures |s| == 0 ==> r == 0
    ensures |s| > 0 ==> r < |s| && (forall k :: 0 <= k < |s| ==> s[r] <= s[k]) &&
                                   (forall k :: 0 <= k < r ==> s[r] < s[k])
  {
    IntOrders();
    r := MaxElementBy(s, IntGreater);
  }

  /** minmax_element(first, last) on ints: the first position of a
      minimum and the first position of a maximum, both first (0) on an
      empty range. */
  method MinMaxElement(s: seq<int>) returns (lo: nat, hi: nat)
    ensures |s| == 0 ==> lo == 0 && hi == 0
    ensures |s| > 0 ==> lo < |s| && (forall k :: 0 <= k < |s| ==> s[lo] <= s[k]) &&
                                    (forall k :: 0 <= k < lo ==> s[lo] < s[k])
    ensures |s| > 0 ==> hi < |s| && (forall k :: 0 <= k < |s| ==> s[k] <= s[hi]) &&
                                    (forall k :: 0 <= k < hi ==> s[k] < s[hi])
  {
    if |s| == 0 {
      return 0, 0;
    }
    lo, hi := 0, 0;
    var first := 0;
    while first + 1 != |s|
      invariant lo <= first < |s| && hi <= first
      invariant forall k :: 0 <= k <= first ==> s[lo] <= s[k] && s[k] <= s[hi]
      invariant forall k :: 0 <= k < lo ==> s[lo] < s[k]
      invariant forall k :: 0 <= k < hi ==> s[k] < s[hi]
    {
      first := first + 1;
      if s[lo] > s[first] {
        lo := first;
      }
      if s[hi] < s[first] {
        hi := first;
      }
    }
  }

  /** adjacent_find on the test driver's vector 1 2 3 4 4 6: the pair of
      4s at position 3, and no descending pair under >. */
  method AdjacentFindOnSample() returns (adj: nat, adjGreater: nat)
    ensures adj == 3 && adjGreater == 6
  {
    var v := [1, 2, 3, 4, 4, 6];
    adj := AdjacentFind(v);
    assert v[3] == v[4];
    adjGreater := AdjacentFindBy(v, (a: int, b: int) => a > b);
  }

  /** count(4) on the same vector is 2. */
  method CountOnSample() returns (fours: nat)
    ensures fours == 2
  {
    var v := [1, 2, 3, 4, 4, 6];
    fours := Count(v, 4);
    assert v == [1, 2, 3] + [4, 4] + [6];
  }

  /** includes on the same vector finds 2 4 in it. */
  method IncludesOnSample() returns (sub: bool)
    ensures sub
  {
    var v := [1, 2, 3, 4, 4, 6];
    forall i, j | 0 <= i < j < |v|
      ensures v[i] <= v[j]
    {
      assert v[i] <= i + 1 && i + 1 <= j <= v[j];
    }
    sub := Includes(v, [2, 4]);
    assert multiset(v) == multiset{1, 2, 3, 4, 4, 6};
  }
}
