/** The function objects of functional.hpp. Arithmetic functors act on
    unbounded integers, with C++'s truncating / and %; adaptors store
    the operation they wrap as a Dafny function value. */
module Functional {
  import Arith
  import opened Utility

  function Abs(x: int): (a: nat)
    ensures a == x || a == -x
  {
    if x < 0 then -x else x
  }

  /** plus: minus by either operand gives the other back. */
  function Plus(x: int, y: int): (r: int)
    ensures Minus(r, y) == x && Minus(r, x) == y
  {
    x + y
  }

  /** minus: its sign orders the operands. */
  function Minus(x: int, y: int): (r: int)
    ensures r == 0 <==> x == y
    ensures r > 0 <==> x > y
  {
    x - y
  }

  /** multiplies: divides by a non-zero operand gives the other back,
      with no remainder. */
  function Multiplies(x: int, y: int): (r: int)
    ensures y != 0 ==> Divides(r, y) == x && Modulus(r, y) == 0
  {
    assert y != 0 ==> Divides(x * y, y) == x && Modulus(x * y, y) == 0 by {
      if y != 0 {
        TruncatedUnique(x * y, y, x, 0);
      }
    }
    x * y
  }

  /** negate: the additive inverse, of the same magnitude. */
  function Negate(x: int): (r: int)
    ensures Plus(x, r) == IdentityElementPlus()
    ensures Abs(r) == Abs(x)
  {
    -x
  }

  /** divides: C++ x / y, which truncates toward zero: the remainder
      left is smaller than y in magnitude and has the sign of x. */
  function Divides(x: int, y: int): (q: int)
    requires y != 0
    ensures Abs(x - q * y) < Abs(y)
    ensures x - q * y == 0 || (x - q * y < 0 <==> x < 0)
  {
    TruncatedSplit(x, y);
    if (x < 0) == (y < 0) then Abs(x) / Abs(y) else -(Abs(x) / Abs(y))
  }

  /** modulus: C++ x % y, the magnitude of x modulo that of y, with the
      sign of x; together with divides it gives x back. */
  function Modulus(x: int, y: int): (r: int)
    requires y != 0
    ensures Divides(x, y) * y + r == x
  {
    TruncatedSplit(x, y);
    if x < 0 then -(Abs(x) % Abs(y)) else Abs(x) % Abs(y)
  }

  /** The four sign cases of truncating division, from |x| = Q |y| + R. */
  lemma {:induction false} TruncatedSplit(x: int, y: int)
    requires y != 0
    ensures var q, r := Abs(x) / Abs(y), Abs(x) % Abs(y);
      && (x >= 0 && y > 0 ==> x - q * y == r)
      && (x < 0 && y < 0 ==> x - q * y == -r)
      && (x >= 0 && y < 0 ==> x - (-q) * y == r)
      && (x < 0 && y > 0 ==> x - (-q) * y == -r)
  {
    var q, r := Abs(x) / Abs(y), Abs(x) % Abs(y);
    assert Abs(x) == q * Abs(y) + r;
    if y < 0 {
      assert q * Abs(y) == -(q * y);
      assert (-q) * y == -(q * y);
    } else {
      assert (-q) * y == -(q * y);
    }
  }

  /** divides and modulus are the only quotient and remainder with
      x == q * y + r, |r| < |y| and r of the sign of x. */
  lemma {:induction false} TruncatedUnique(x: int, y: int, q: int, r: int)
    requires y != 0 && x == q * y + r && Abs(r) < Abs(y)
    requires r == 0 || (r < 0 <==> x < 0)
    ensures q == Divides(x, y) && r == Modulus(x, y)
  {
    var q0 := Divides(x, y);
    var r0 := x - q0 * y;
    var k := q - q0;
    Arith.MulSubDistrib(q, q0, y);
    assert Abs(r0 - r) < Abs(y) by {
      if x < 0 {
        assert r0 <= 0 && r <= 0;
      } else {
        assert r0 >= 0 && r >= 0;
      }
    }
    if k != 0 {
      NonZeroMultiple(k, y);
    }
  }

  /** A non-zero multiple of y is at least |y| away from zero. */
  lemma {:induction false} NonZeroMultiple(k: int, y: int)
    requires y != 0 && k != 0
    ensures Abs(k * y) >= Abs(y)
  {
    if y > 0 {
      Arith.MulSign(k, y);
    } else {
      Arith.MulSign(k, -y);
      assert k * y == -(k * (-y));
    }
  }

  /** Truncation differs from Dafny's Euclidean division on negative
      operands. */
  lemma TruncationExamples()
    ensures Divides(-7, 2) == -3 && Modulus(-7, 2) == -1
    ensures -7 / 2 == -4 && -7 % 2 == 1
    ensures Divides(7, -2) == -3 && Modulus(7, -2) == 1
  {
  }

  /** identity_element(plus<T>): T(0). */
  function IdentityElementPlus(): int { 0 }

  /** identity_element(multiplies<T>): T(1). */
  function IdentityElementMultiplies(): int { 1 }

  /** The identity elements are neutral for their operations. */
  lemma IdentityElements(x: int)
    ensures Plus(IdentityElementPlus(), x) == x && Plus(x, IdentityElementPlus()) == x
    ensures Multiplies(IdentityElementMultiplies(), x) == x && Multiplies(x, IdentityElementMultiplies()) == x
  {
  }

  /** minus and negate undo plus. */
  lemma ArithmeticInverses(x: int, y: int)
    ensures Minus(Plus(x, y), y) == x
    ensures Plus(x, Negate(x)) == IdentityElementPlus()
    ensures Minus(x, y) == Plus(x, Negate(y))
  {
  }

  /** equal_to: the negation of not_equal_to. */
  function EqualTo<T(==)>(x: T, y: T): (r: bool)
    ensures r <==> !NotEqualTo(x, y)
  {
    x == y
  }

  /** not_equal_to: x and y are two distinct values. */
  function NotEqualTo<T(==)>(x: T, y: T): (r: bool)
    ensures r <==> |{x, y}| == 2
  {
    x != y
  }

  /** less: y - x is positive, so less never holds of equal values. */
  function Less(x: int, y: int): (r: bool)
    ensures r <==> Minus(y, x) > 0
    ensures r ==> NotEqualTo(x, y)
  {
    x < y
  }

  /** greater: less with the operands swapped. */
  function Greater(x: int, y: int): (r: bool)
    ensures r <==> Less(y, x)
  {
    x > y
  }

  /** greater_equal: the negation of less. */
  function GreaterEqual(x: int, y: int): (r: bool)
    ensures r <==> !Less(x, y)
  {
    x >= y
  }

  /** less_equal: the negation of greater, that is less or equal_to. */
  function LessEqual(x: int, y: int): (r: bool)
    ensures r <==> !Greater(x, y)
    ensures r <==> Less(x, y) || EqualTo(x, y)
  {
    x <= y
  }

  /** logical_and: De Morgan's dual of logical_or. */
  function LogicalAnd(x: bool, y: bool): (r: bool)
    ensures r <==> LogicalNot(LogicalOr(LogicalNot(x), LogicalNot(y)))
  {
    x && y
  }

  /** logical_or: y holds whenever x does not. */
  function LogicalOr(x: bool, y: bool): (r: bool)
    ensures r <==> (LogicalNot(x) ==> y)
  {
    x || y
  }

  /** logical_not: always differs from its argument. */
  function LogicalNot(x: bool): (r: bool)
    ensures r != x
  {
    !x
  }

  /** The relational functors are one order seen six ways: greater is
      less swapped, the non-strict ones are negations of the strict
      ones, and exactly one of less, equal_to, greater holds. */
  lemma RelationalLaws(x: int, y: int)
    ensures NotEqualTo(x, y) == LogicalNot(EqualTo(x, y))
    ensures Greater(x, y) == Less(y, x)
    ensures GreaterEqual(x, y) == LogicalNot(Less(x, y))
    ensures LessEqual(x, y) == LogicalNot(Greater(x, y))
    ensures LessEqual(x, y) == LogicalOr(Less(x, y), EqualTo(x, y))
    ensures (if Less(x, y) then 1 else 0) + (if EqualTo(x, y) then 1 else 0) + (if Greater(x, y) then 1 else 0) == 1
  {
  }

  /** De Morgan's laws for the logical functors. */
  lemma LogicalLaws(x: bool, y: bool)
    ensures LogicalNot(LogicalAnd(x, y)) == LogicalOr(LogicalNot(x), LogicalNot(y))
    ensures LogicalNot(LogicalOr(x, y)) == LogicalAnd(LogicalNot(x), LogicalNot(y))
    ensures LogicalNot(LogicalNot(x)) == x
  {
  }

  /** identity: its argument. */
  function Identity<T>(x: T): (r: T)
    ensures r == x
  {
    x
  }

  /** select1st: the first field of a pair. */
  function Select1st<T1(==,!new), T2(==,!new)>(x: Pair<T1, T2>): (r: T1)
    reads x
    ensures r == x.first
  {
    x.first
  }

  /** select2nd: the second field of a pair. */
  function Select2nd<T1(==,!new), T2(==,!new)>(x: Pair<T1, T2>): (r: T2)
    reads x
    ensures r == x.second
  {
    x.second
  }

  /** Two pairs whose selections agree are equal, and a pair built from
      two values selects them back. */
  lemma SelectionsDeterminePair<T1(!new), T2(!new)>(a: Pair<T1, T2>, b: Pair<T1, T2>, x: T1, y: T2)
    ensures a.Eq(b) <==> Select1st(a) == Select1st(b) && Select2nd(a) == Select2nd(b)
    ensures a.first == x && a.second == y ==> Select1st(a) == x && Select2nd(a) == Identity(y)
  {
  }

  /** unary_negate: !pred(x). */
  datatype UnaryNegate<!A> = UnaryNegate(pred: A -> bool)
  {
    function Apply(x: A): bool { !pred(x) }
  }

  /** not1(pred). */
  function Not1<A(!new)>(pred: A -> bool): (r: UnaryNegate<A>)
    ensures forall x :: r.Apply(x) == !pred(x)
  {
    UnaryNegate(pred)
  }

  /** binary_negate: !pred(x, y). */
  datatype BinaryNegate<!A, !B> = BinaryNegate(pred: (A, B) -> bool)
  {
    function Apply(x: A, y: B): bool { !pred(x, y) }
  }

  /** not2(pred). */
  function Not2<A(!new), B(!new)>(pred: (A, B) -> bool): (r: BinaryNegate<A, B>)
    ensures forall x, y :: r.Apply(x, y) == !pred(x, y)
  {
    BinaryNegate(pred)
  }

  /** not1 and not2 negate, and negating twice gives the predicate back;
      not2(less) is greater_equal. */
  lemma NegatorLaws<A(!new), B(!new)>(p: A -> bool, q: (A, B) -> bool, x: A, y: B, u: int, v: int)
    ensures Not1(p).Apply(x) == !p(x)
    ensures Not1(z => Not1(p).Apply(z)).Apply(x) == p(x)
    ensures Not2(q).Apply(x, y) == !q(x, y)
    ensures Not2((z, w) => Not2(q).Apply(z, w)).Apply(x, y) == q(x, y)
    ensures Not2(Less).Apply(u, v) == GreaterEqual(u, v)
  {
  }

  /** binder1st: op(value, x). */
  datatype Binder1st<!A, !B, R> = Binder1st(op: (A, B) -> R, value: A)
  {
    function Apply(x: B): R { op(value, x) }
  }

  /** bind1st(op, x). */
  function Bind1st<A(!new), B(!new), R>(op: (A, B) -> R, x: A): (r: Binder1st<A, B, R>)
    ensures forall y :: r.Apply(y) == op(x, y)
  {
    Binder1st(op, x)
  }

  /** binder2nd as written: the stored value is passed first, op(value, x). */
  datatype Binder2ndAsWritten<!A, R> = Binder2ndAsWritten(op: (A, A) -> R, value: A)
  {
    function Apply(x: A): R { op(value, x) }
  }

  /** bind2nd(op, x) as written. */
  function Bind2ndAsWritten<A(!new), R>(op: (A, A) -> R, x: A): (r: Binder2ndAsWritten<A, R>)
    ensures forall y :: r.Apply(y) == op(x, y)
  {
    Binder2ndAsWritten(op, x)
  }

  /** binder2nd as intended: the stored value is the second argument. */
  datatype Binder2nd<!A, !B, R> = Binder2nd(op: (A, B) -> R, value: B)
  {
    function Apply(x: A): R { op(x, value) }
  }

  /** bind2nd(op, x). */
  function Bind2nd<A(!new), B(!new), R>(op: (A, B) -> R, x: B): (r: Binder2nd<A, B, R>)
    ensures forall y :: r.Apply(y) == op(y, x)
  {
    Binder2nd(op, x)
  }

  /** bind1st fixes the first argument and bind2nd the second, so
      bind2nd(minus, v) undoes bind2nd(plus, v), and bind2nd(less, v) is
      bind1st(greater, v). */
  lemma BinderLaws(v: int, x: int)
    ensures Bind1st(Minus, v).Apply(x) == v - x
    ensures Bind2nd(Minus, v).Apply(x) == x - v
    ensures Bind2nd(Minus, v).Apply(Bind2nd(Plus, v).Apply(x)) == x
    ensures Bind2nd(Less, v).Apply(x) == Bind1st(Greater, v).Apply(x)
  {
  }

  /** binder2nd as written computes op(value, x): bind2nd(minus, 1) maps
      5 to -4 instead of 4, and bind2nd(minus, v) after bind2nd(plus, v)
      negates its argument instead of returning it. */
  lemma Binder2ndAsWrittenSwaps(v: int, x: int)
    ensures Bind2ndAsWritten(Minus, 1).Apply(5) == -4 != Bind2nd(Minus, 1).Apply(5)
    ensures Bind2ndAsWritten(Minus, v).Apply(Bind2ndAsWritten(Plus, v).Apply(x)) == -x
    ensures Bind2ndAsWritten(Less, 0).Apply(1) != Bind2nd(Less, 0).Apply(1)
  {
  }

  /** pointer_to_unary_function: calls the stored function. */
  datatype PointerToUnaryFunction<!A, R> = PointerToUnaryFunction(ptr: A -> R)
  {
    function Apply(x: A): R { ptr(x) }
  }

  /** pointer_to_binary_function: calls the stored function. */
  datatype PointerToBinaryFunction<!A, !B, R> = PointerToBinaryFunction(ptr: (A, B) -> R)
  {
    function Apply(x: A, y: B): R { ptr(x, y) }
  }

  /** ptr_fun(f) for a unary f. */
  function PtrFun<A(!new), R>(f: A -> R): (r: PointerToUnaryFunction<A, R>)
    ensures forall x :: r.Apply(x) == f(x)
  {
    PointerToUnaryFunction(f)
  }

  /** ptr_fun(f) for a binary f. */
  function PtrFun2<A(!new), B(!new), R>(f: (A, B) -> R): (r: PointerToBinaryFunction<A, B, R>)
    ensures forall x, y :: r.Apply(x, y) == f(x, y)
  {
    PointerToBinaryFunction(f)
  }

  /** ptr_fun wraps a function without changing what it computes, so
      adaptors over it behave as over the function itself. */
  lemma PtrFunLaws<A(!new), B(!new), R>(f: A -> R, g: (A, B) -> R, p: A -> bool, x: A, y: B)
    ensures PtrFun(f).Apply(x) == f(x)
    ensures PtrFun2(g).Apply(x, y) == g(x, y)
    ensures Not1(z => PtrFun(p).Apply(z)).Apply(x) == !p(x)
  {
  }
}
