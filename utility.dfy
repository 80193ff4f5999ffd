/** pair and make_pair (utility.hpp). A pair is an object with two
    fields that operator= overwrites; the component orders that
    operator< relies on are passed as the functions lt1 and lt2. */
module Utility {
  /** lt is a strict total order: irreflexive, transitive and total on
      distinct values. */
  ghost predicate StrictTotalOrder<T(!new)>(lt: (T, T) -> bool)
  {
    (forall a :: !lt(a, a)) &&
    (forall a, b, c :: lt(a, b) && lt(b, c) ==> lt(a, c)) &&
    (forall a, b :: a != b ==> lt(a, b) || lt(b, a))
  }

  class Pair<T1(==,!new), T2(==,!new)> {
    var first: T1
    var second: T2

    /** pair(x, y): first(x), second(y). */
    constructor (x: T1, y: T2)
      ensures first == x && second == y
    {
      first, second := x, y;
    }

    /** The copy constructor pair(p). */
    constructor Copy(p: Pair<T1, T2>)
      ensures first == p.first && second == p.second
    {
      first, second := p.first, p.second;
    }

    /** operator==: both components are equal. */
    function Eq(rhs: Pair<T1, T2>): (r: bool)
      reads this, rhs
      ensures r <==> first == rhs.first && second == rhs.second
    {
      first == rhs.first && second == rhs.second
    }

    /** operator<: the firsts decide when they differ, the seconds
        otherwise. */
    function Less(rhs: Pair<T1, T2>, lt1: (T1, T1) -> bool, lt2: (T2, T2) -> bool): (r: bool)
      reads this, rhs
      ensures (forall v :: !lt1(v, v)) ==>
        (r <==> lt1(first, rhs.first) || (first == rhs.first && lt2(second, rhs.second)))
    {
      if first != rhs.first then lt1(first, rhs.first) else lt2(second, rhs.second)
    }

    /** operator!=: !operator==. */
    function Ne(rhs: Pair<T1, T2>): (r: bool)
      reads this, rhs
      ensures r <==> first != rhs.first || second != rhs.second
    {
      !Eq(rhs)
    }

    /** operator<=: operator== || operator<. */
    function Le(rhs: Pair<T1, T2>, lt1: (T1, T1) -> bool, lt2: (T2, T2) -> bool): (r: bool)
      reads this, rhs
      ensures StrictTotalOrder(lt1) && StrictTotalOrder(lt2) ==> (r <==> !rhs.Less(this, lt1, lt2))
    {
      assert StrictTotalOrder(lt1) && StrictTotalOrder(lt2) ==>
        (Eq(rhs) || Less(rhs, lt1, lt2) <==> !rhs.Less(this, lt1, lt2)) by {
        if StrictTotalOrder(lt1) && StrictTotalOrder(lt2) {
          LessIsStrictTotalOrder(this, rhs, this, lt1, lt2);
          LessIsStrictTotalOrder(rhs, this, rhs, lt1, lt2);
        }
      }
      Eq(rhs) || Less(rhs, lt1, lt2)
    }

    /** operator>=: !operator<. */
    function Ge(rhs: Pair<T1, T2>, lt1: (T1, T1) -> bool, lt2: (T2, T2) -> bool): (r: bool)
      reads this, rhs
      ensures StrictTotalOrder(lt1) && StrictTotalOrder(lt2) ==> (r <==> rhs.Less(this, lt1, lt2) || Eq(rhs))
    {
      assert StrictTotalOrder(lt1) && StrictTotalOrder(lt2) ==>
        (!Less(rhs, lt1, lt2) <==> rhs.Less(this, lt1, lt2) || Eq(rhs)) by {
        if StrictTotalOrder(lt1) && StrictTotalOrder(lt2) {
          LessIsStrictTotalOrder(this, rhs, this, lt1, lt2);
          LessIsStrictTotalOrder(rhs, this, rhs, lt1, lt2);
        }
      }
      !Less(rhs, lt1, lt2)
    }

    /** operator>: !operator<=. */
    function Gt(rhs: Pair<T1, T2>, lt1: (T1, T1) -> bool, lt2: (T2, T2) -> bool): (r: bool)
      reads this, rhs
      ensures StrictTotalOrder(lt1) && StrictTotalOrder(lt2) ==> (r <==> rhs.Less(this, lt1, lt2))
    {
      !Le(rhs, lt1, lt2)
    }

    /** operator=: copies both fields of rhs and returns *this. */
    method Assign(rhs: Pair<T1, T2>) returns (r: Pair<T1, T2>)
      modifies this
      ensures first == old(rhs.first) && second == old(rhs.second)
      ensures r == this
    {
      first := rhs.first;
      second := rhs.second;
      r := this;
    }
  }

  /** make_pair(t1, t2): a new pair holding t1 and t2. */
  method MakePair<T1(==,!new), T2(==,!new)>(t1: T1, t2: T2) returns (p: Pair<T1, T2>)
    ensures fresh(p) && p.first == t1 && p.second == t2
  {
    p := new Pair(t1, t2);
  }

  /** With strict total component orders, operator< on pairs is the
      lexicographic strict total order: irreflexive, transitive, and
      exactly one of a < b, a == b, b < a holds. */
  lemma {:induction false} LessIsStrictTotalOrder<T1(!new), T2(!new)>(a: Pair<T1, T2>, b: Pair<T1, T2>, c: Pair<T1, T2>,
                                                          lt1: (T1, T1) -> bool, lt2: (T2, T2) -> bool)
    requires StrictTotalOrder(lt1) && StrictTotalOrder(lt2)
    ensures !a.Less(a, lt1, lt2)
    ensures a.Less(b, lt1, lt2) && b.Less(c, lt1, lt2) ==> a.Less(c, lt1, lt2)
    ensures a.Less(b, lt1, lt2) ==> !b.Less(a, lt1, lt2) && !a.Eq(b)
    ensures a.Less(b, lt1, lt2) || a.Eq(b) || b.Less(a, lt1, lt2)
  {
    if a.Less(b, lt1, lt2) && b.Less(c, lt1, lt2) {
      if a.first != b.first && b.first != c.first {
        assert lt1(a.first, c.first);
        assert a.first != c.first;
      }
    }
  }

  /** operator== is an equivalence, and with strict total component
      orders it holds exactly when neither pair is less than the other. */
  lemma {:induction false} EqIsEquivalence<T1(!new), T2(!new)>(a: Pair<T1, T2>, b: Pair<T1, T2>, c: Pair<T1, T2>,
                                                    lt1: (T1, T1) -> bool, lt2: (T2, T2) -> bool)
    ensures a.Eq(a)
    ensures a.Eq(b) ==> b.Eq(a)
    ensures a.Eq(b) && b.Eq(c) ==> a.Eq(c)
    ensures StrictTotalOrder(lt1) && StrictTotalOrder(lt2) ==>
      (a.Eq(b) <==> !a.Less(b, lt1, lt2) && !b.Less(a, lt1, lt2))
  {
    if StrictTotalOrder(lt1) && StrictTotalOrder(lt2) {
      LessIsStrictTotalOrder(a, b, a, lt1, lt2);
      LessIsStrictTotalOrder(b, a, b, lt1, lt2);
    }
  }

  /** The derived operators agree with the order: <= is < or ==, >= is
      > or ==, > is the converse of <, and != is the negation of ==. */
  lemma {:induction false} DerivedOperators<T1(!new), T2(!new)>(a: Pair<T1, T2>, b: Pair<T1, T2>,
                                                    lt1: (T1, T1) -> bool, lt2: (T2, T2) -> bool)
    requires StrictTotalOrder(lt1) && StrictTotalOrder(lt2)
    ensures a.Gt(b, lt1, lt2) <==> b.Less(a, lt1, lt2)
    ensures a.Ge(b, lt1, lt2) <==> b.Less(a, lt1, lt2) || a.Eq(b)
    ensures a.Le(b, lt1, lt2) <==> !b.Less(a, lt1, lt2)
    ensures a.Ne(b) <==> !a.Eq(b)
  {
    LessIsStrictTotalOrder(a, b, a, lt1, lt2);
    LessIsStrictTotalOrder(b, a, b, lt1, lt2);
  }
}
