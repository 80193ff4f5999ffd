/** The numeric algorithms of numeric.hpp. Input ranges are sequences;
    an output iterator is an array dst and a start index, written in
    place. Values are unbounded integers, or any type under the given
    operations. */
module Numeric {

  /** The left fold the accumulating loops compute:
      op(...op(op(init, s[0]), s[1])..., s[n - 1]). */
  function FoldLeft<T, U>(op: (U, T) -> U, init: U, s: seq<T>): U
  {
    if |s| == 0 then init else FoldLeft(op, op(init, s[0]), s[1..])
  }

  /** d is d0 with vals written from index at on, and nothing else
      changed. */
  ghost predicate Written<T>(d: seq<T>, d0: seq<T>, at: nat, vals: seq<T>)
  {
    |d| == |d0| && at + |vals| <= |d0| && d == d0[..at] + vals + d0[at + |vals|..]
  }

  /** Writing one more value right after the written block extends it. */
  lemma WrittenStep<T>(d: seq<T>, d0: seq<T>, at: nat, vals: seq<T>, v: T)
    requires Written(d, d0, at, vals) && at + |vals| < |d|
    ensures Written(d[at + |vals| := v], d0, at, vals + [v])
  {
    var d2 := d[at + |vals| := v];
    var e := d0[..at] + (vals + [v]) + d0[at + |vals| + 1..];
    forall k | 0 <= k < |d2|
      ensures d2[k] == e[k]
    {
    }
  }

  /** Writing full[i] right after the block full[..i] extends it to
      full[..i + 1]. */
  lemma WrittenNext<T>(d: seq<T>, d0: seq<T>, at: nat, full: seq<T>, i: nat)
    requires i < |full| && Written(d, d0, at, full[..i]) && at + |full| <= |d|
    ensures Written(d[at + i := full[i]], d0, at, full[..i + 1])
  {
    WrittenStep(d, d0, at, full[..i], full[i]);
    assert full[..i] + [full[i]] == full[..i + 1];
  }

  /** Stores full[i] just after the i values already written at at. */
  method WriteNext<T>(dst: array<T>, ghost d0: seq<T>, at: nat, ghost full: seq<T>, i: nat, v: T)
    requires i < |full| && v == full[i] && at + |full| <= dst.Length
    requires Written(dst[..], d0, at, full[..i])
    modifies dst
    ensures Written(dst[..], d0, at, full[..i + 1])
  {
    WrittenNext(dst[..], d0, at, full, i);
    dst[at + i] := v;
  }

  /** A block covering the whole of full leaves d as d0 with full spliced
      in. */
  lemma WrittenAll<T>(d: seq<T>, d0: seq<T>, at: nat, full: seq<T>)
    requires Written(d, d0, at, full[..|full|])
    ensures d == d0[..at] + full + d0[at + |full|..]
  {
    assert full[..|full|] == full;
  }

  function Sum(s: seq<int>): int
  {
    if |s| == 0 then 0 else s[0] + Sum(s[1..])
  }

  function Add(a: int, b: int): int { a + b }

  /** Folding with + from init adds the sum of the range to init. */
  lemma {:induction false} FoldAddIsSum(init: int, s: seq<int>)
    ensures FoldLeft(Add, init, s) == init + Sum(s)
    decreases |s|
  {
    if |s| > 0 {
      FoldAddIsSum(init + s[0], s[1..]);
    }
  }

  /** The sum of a range is that of its prefix plus its last element. */
  lemma {:induction false} SumSnoc(s: seq<int>, i: nat)
    requires i < |s|
    ensures Sum(s[..i + 1]) == Sum(s[..i]) + s[i]
    decreases i
  {
    if i > 0 {
      assert s[..i + 1][1..] == s[1..][..i];
      assert s[..i][1..] == s[1..][..i - 1];
      SumSnoc(s[1..], i - 1);
    }
  }

  /** accumulate(first, last, init): init + s[0] + ... + s[n - 1]. */
  method Accumulate(s: seq<int>, init: int) returns (r: int)
    ensures r == init + Sum(s)
  {
    r := init;
    var i := 0;
    while i != |s|
      invariant 0 <= i <= |s| && r == init + Sum(s[..i])
    {
      SumSnoc(s, i);
      r := r + s[i];
      i := i + 1;
    }
    assert s[..i] == s;
  }

  /** accumulate(first, last, init, binary_op): the left fold. */
  method AccumulateBy<T, U>(s: seq<T>, init: U, binaryOp: (U, T) -> U) returns (r: U)
    ensures r == FoldLeft(binaryOp, init, s)
  {
    r := init;
    var i := 0;
    while i != |s|
      invariant 0 <= i <= |s| && FoldLeft(binaryOp, r, s[i..]) == FoldLeft(binaryOp, init, s)
    {
      assert s[i..][1..] == s[i + 1..];
      r := binaryOp(r, s[i]);
      i := i + 1;
    }
  }

  /** adjacent_difference's output: the first element, then each element
      minus the one before it. */
  function AdjacentDifferences(s: seq<int>): (d: seq<int>)
  {
    seq(|s|, i requires 0 <= i < |s| => if i == 0 then s[0] else s[i] - s[i - 1])
  }

  /** The running sums s[0], s[0] + s[1], ... */
  function PartialSums(s: seq<int>): (p: seq<int>)
  {
    seq(|s|, i requires 0 <= i < |s| => Sum(s[..i + 1]))
  }

  /** Running sums undo adjacent differences, and the other way round. */
  lemma {:induction false} PartialSumsUndoDifferences(s: seq<int>)
    ensures PartialSums(AdjacentDifferences(s)) == s
    ensures AdjacentDifferences(PartialSums(s)) == s
  {
    var d := AdjacentDifferences(s);
    forall i | 0 <= i < |s|
      ensures Sum(d[..i + 1]) == s[i]
    {
      DifferencesTelescope(s, i);
    }
    var p := PartialSums(s);
    forall i | 0 <= i < |s|
      ensures AdjacentDifferences(p)[i] == s[i]
    {
      if i == 0 {
        assert s[..1][1..] == [];
        assert p[0] == Sum(s[..1]) == s[0];
      } else {
        SumSnoc(s, i);
        assert p[i] == Sum(s[..i + 1]) && p[i - 1] == Sum(s[..i]);
      }
    }
  }

  lemma {:induction false} DifferencesTelescope(s: seq<int>, i: nat)
    requires i < |s|
    ensures Sum(AdjacentDifferences(s)[..i + 1]) == s[i]
    decreases i
  {
    var d := AdjacentDifferences(s);
    SumSnoc(d, i);
    if i == 0 {
      assert d[..0] == [];
    } else {
      DifferencesTelescope(s, i - 1);
    }
  }

  /** adjacent_difference(first, last, result): nothing is written for an
      empty range; otherwise result[k] receives AdjacentDifferences(s)[k].
      Returns result + n. */
  method AdjacentDifference(s: seq<int>, dst: array<int>, result: nat) returns (end: nat)
    requires result + |s| <= dst.Length
    modifies dst
    ensures end == result + |s|
    ensures dst[..] == old(dst[..result]) + AdjacentDifferences(s) + old(dst[result + |s|..])
  {
    if |s| == 0 {
      assert dst[..] == dst[..result] + dst[result..];
      return result;
    }
    ghost var d := AdjacentDifferences(s);
    ghost var d0 := dst[..];
    assert d[..0] == [];
    WriteNext(dst, d0, result, d, 0, s[0]);
    var value := s[0];
    var i, out := 1, result;
    while i != |s|
      invariant 1 <= i <= |s| && out == result + i - 1 && value == s[i - 1]
      invariant Written(dst[..], d0, result, d[..i])
    {
      var tmp := s[i];
      out := out + 1;
      WriteNext(dst, d0, result, d, i, tmp - value);
      value := tmp;
      i := i + 1;
    }
    WrittenAll(dst[..], d0, result, d);
    end := out + 1;
  }

  /** The outputs of the binary_op forms of adjacent_difference and
      partial_sum: the first element, then f(previous output or input,
      s[i]) as each form defines. */
  function AdjacentDifferencesBy<T>(s: seq<T>, binaryOp: (T, T) -> T): (d: seq<T>)
  {
    seq(|s|, i requires 0 <= i < |s| => if i == 0 then s[0] else binaryOp(s[i], s[i - 1]))
  }

  /** adjacent_difference(first, last, result, binary_op): result[k]
      receives binary_op(s[k], s[k - 1]) after the first element. */
  method AdjacentDifferenceBy<T>(s: seq<T>, dst: array<T>, result: nat, binaryOp: (T, T) -> T) returns (end: nat)
    requires result + |s| <= dst.Length
    modifies dst
    ensures end == result + |s|
    ensures dst[..] == old(dst[..result]) + AdjacentDifferencesBy(s, binaryOp) + old(dst[result + |s|..])
  {
    if |s| == 0 {
      assert dst[..] == dst[..result] + dst[result..];
      return result;
    }
    ghost var d := AdjacentDifferencesBy(s, binaryOp);
    ghost var d0 := dst[..];
    assert |d| == |s| && d[0] == s[0] && d[..0] == [];
    WriteNext(dst, d0, result, d, 0, s[0]);
    var value := s[0];
    var i, out := 1, result;
    while i != |s|
      invariant 1 <= i <= |s| && out == result + i - 1 && value == s[i - 1]
      invariant Written(dst[..], d0, result, d[..i])
    {
      var tmp := s[i];
      out := out + 1;
      assert d[i] == binaryOp(tmp, value);
      WriteNext(dst, d0, result, d, i, binaryOp(tmp, value));
      value := tmp;
      i := i + 1;
    }
    WrittenAll(dst[..], d0, result, d);
    end := out + 1;
  }

  /** Under subtraction the binary_op form is the plain one. */
  lemma DifferencesBySubtraction(s: seq<int>)
    ensures AdjacentDifferencesBy(s, (a: int, b: int) => a - b) == AdjacentDifferences(s)
  {
  }

  /** partial_sum(first, last, result): result[k] receives
      s[0] + ... + s[k]. Returns result + n. */
  method PartialSum(s: seq<int>, dst: array<int>, result: nat) returns (end: nat)
    requires result + |s| <= dst.Length
    modifies dst
    ensures end == result + |s|
    ensures dst[..] == old(dst[..result]) + PartialSums(s) + old(dst[result + |s|..])
  {
    if |s| == 0 {
      assert dst[..] == dst[..result] + dst[result..];
      return result;
    }
    assert s[..1][1..] == [];
    ghost var p := PartialSums(s);
    ghost var d0 := dst[..];
    assert p[..0] == [] && p[0] == Sum(s[..1]) == s[0];
    assert d0 == d0[..result] + p[..0] + d0[result..];
    WriteNext(dst, d0, result, p, 0, s[0]);
    var value := s[0];
    var i, out := 1, result;
    while i != |s|
      invariant 1 <= i <= |s| && out == result + i - 1 && value == Sum(s[..i])
      invariant Written(dst[..], d0, result, p[..i])
    {
      SumSnoc(s, i);
      value := s[i] + value;
      out := out + 1;
      WriteNext(dst, d0, result, p, i, value);
      i := i + 1;
    }
    WrittenAll(dst[..], d0, result, p);
    end := out + 1;
  }

  /** The intended running folds: s[0], then op(previous, s[i]). */
  function RunningFolds<T>(s: seq<T>, op: (T, T) -> T): (p: seq<T>)
    requires |s| > 0
    ensures |p| == |s| && p[0] == s[0]
    ensures forall i :: 0 < i < |s| ==> p[i] == op(p[i - 1], s[i])
    decreases |s|
  {
    if |s| == 1 then s else var q := RunningFolds(s[..|s| - 1], op); q + [op(q[|q| - 1], s[|s| - 1])]
  }

  /** The running folds as partial_sum(first, last, result, binary_op)
      writes them: s[0], then op(s[i], previous). */
  function RunningFoldsAsWritten<T>(s: seq<T>, op: (T, T) -> T): (p: seq<T>)
    requires |s| > 0
    ensures |p| == |s| && p[0] == s[0]
    ensures forall i :: 0 < i < |s| ==> p[i] == op(s[i], p[i - 1])
    decreases |s|
  {
    if |s| == 1 then s else var q := RunningFoldsAsWritten(s[..|s| - 1], op); q + [op(s[|s| - 1], q[|q| - 1])]
  }

  /** Each intended running fold is the accumulate of the prefix. */
  lemma {:induction false} RunningFoldsAccumulate<T>(s: seq<T>, op: (T, T) -> T, i: nat)
    requires i < |s|
    ensures RunningFolds(s, op)[i] == FoldLeft(op, s[0], s[1..i + 1])
  {
    if i > 0 {
      RunningFoldsAccumulate(s, op, i - 1);
      assert s[1..i + 1] == s[1..i] + [s[i]];
      FoldLeftSnoc(op, s[0], s[1..i], s[i]);
    } else {
      assert s[1..1] == [];
    }
  }

  /** Folding one more element applies op to the fold so far. */
  lemma {:induction false} FoldLeftSnoc<T, U>(op: (U, T) -> U, init: U, s: seq<T>, x: T)
    ensures FoldLeft(op, init, s + [x]) == op(FoldLeft(op, init, s), x)
    decreases |s|
  {
    if |s| > 0 {
      assert (s + [x])[1..] == s[1..] + [x];
      FoldLeftSnoc(op, op(init, s[0]), s[1..], x);
    } else {
      assert (s + [x])[1..] == [];
    }
  }

  /** partial_sum(first, last, result, binary_op) as written: the new
      element is the left operand, op(*first, value). */
  method PartialSumByAsWritten<T>(s: seq<T>, dst: array<T>, result: nat, binaryOp: (T, T) -> T) returns (end: nat)
    requires result + |s| <= dst.Length
    modifies dst
    ensures end == result + |s|
    ensures |s| == 0 ==> dst[..] == old(dst[..])
    ensures |s| > 0 ==> dst[..] == old(dst[..result]) + RunningFoldsAsWritten(s, binaryOp) + old(dst[result + |s|..])
  {
    if |s| == 0 {
      return result;
    }
    ghost var p := RunningFoldsAsWritten(s, binaryOp);
    ghost var d0 := dst[..];
    assert p[..0] == [];
    WriteNext(dst, d0, result, p, 0, s[0]);
    var value := s[0];
    var i, out := 1, result;
    while i != |s|
      invariant 1 <= i <= |s| && out == result + i - 1
      invariant value == p[i - 1]
      invariant Written(dst[..], d0, result, p[..i])
    {
      value := binaryOp(s[i], value);
      out := out + 1;
      WriteNext(dst, d0, result, p, i, value);
      i := i + 1;
    }
    WrittenAll(dst[..], d0, result, p);
    end := out + 1;
  }

  /** partial_sum(first, last, result, binary_op) as intended: the running
      value is the left operand, op(value, *first). */
  method PartialSumBy<T>(s: seq<T>, dst: array<T>, result: nat, binaryOp: (T, T) -> T) returns (end: nat)
    requires result + |s| <= dst.Length
    modifies dst
    ensures end == result + |s|
    ensures |s| == 0 ==> dst[..] == old(dst[..])
    ensures |s| > 0 ==> dst[..] == old(dst[..result]) + RunningFolds(s, binaryOp) + old(dst[result + |s|..])
  {
    if |s| == 0 {
      return result;
    }
    ghost var p := RunningFolds(s, binaryOp);
    ghost var d0 := dst[..];
    assert p[..0] == [];
    WriteNext(dst, d0, result, p, 0, s[0]);
    var value := s[0];
    var i, out := 1, result;
    while i != |s|
      invariant 1 <= i <= |s| && out == result + i - 1
      invariant value == p[i - 1]
      invariant Written(dst[..], d0, result, p[..i])
    {
      value := binaryOp(value, s[i]);
      out := out + 1;
      WriteNext(dst, d0, result, p, i, value);
      i := i + 1;
    }
    WrittenAll(dst[..], d0, result, p);
    end := out + 1;
  }

  function Sub(a: int, b: int): int { a - b }

  /** With subtraction the operand order shows: on [8, 2] the intended
      running folds are [8, 6] and those written are [8, -6]. Under a
      commutative op the two agree. */
  lemma RunningFoldsOperandOrder(s: seq<int>, op: (int, int) -> int)
    requires |s| > 0
    requires forall a, b :: op(a, b) == op(b, a)
    ensures RunningFolds([8, 2], Sub) == [8, 6]
    ensures RunningFoldsAsWritten([8, 2], Sub) == [8, -6]
    ensures RunningFoldsAsWritten(s, op) == RunningFolds(s, op)
  {
    var p, q := RunningFolds(s, op), RunningFoldsAsWritten(s, op);
    forall i | 0 <= i < |s|
      ensures p[i] == q[i]
    {
      RunningFoldsAgree(s, op, i);
    }
  }

  lemma {:induction false} RunningFoldsAgree(s: seq<int>, op: (int, int) -> int, i: nat)
    requires i < |s|
    requires forall a, b :: op(a, b) == op(b, a)
    ensures RunningFolds(s, op)[i] == RunningFoldsAsWritten(s, op)[i]
  {
    if i > 0 {
      RunningFoldsAgree(s, op, i - 1);
      assert op(RunningFolds(s, op)[i - 1], s[i]) == op(s[i], RunningFolds(s, op)[i - 1]);
    }
  }

  /** Sum of products of the first |s1| pairs. */
  function Dot(s1: seq<int>, s2: seq<int>): int
    requires |s1| <= |s2|
  {
    if |s1| == 0 then 0 else s1[0] * s2[0] + Dot(s1[1..], s2[1..])
  }

  /** Dot over one more pair. */
  lemma {:induction false} DotSnoc(s1: seq<int>, s2: seq<int>, i: nat)
    requires i < |s1| <= |s2|
    ensures Dot(s1[..i + 1], s2) == Dot(s1[..i], s2) + s1[i] * s2[i]
    decreases i
  {
    if i > 0 {
      assert s1[..i + 1][1..] == s1[1..][..i];
      assert s1[..i][1..] == s1[1..][..i - 1];
      DotSnoc(s1[1..], s2[1..], i - 1);
    }
  }

  /** inner_product(first1, last1, first2, init): init + the sum of
      s1[k] * s2[k]; range 2 must be at least as long as range 1. */
  method InnerProduct(s1: seq<int>, s2: seq<int>, init: int) returns (r: int)
    requires |s1| <= |s2|
    ensures r == init + Dot(s1, s2)
  {
    r := init;
    var i := 0;
    while i != |s1|
      invariant 0 <= i <= |s1| && r == init + Dot(s1[..i], s2)
    {
      DotSnoc(s1, s2, i);
      r := r + s1[i] * s2[i];
      i := i + 1;
    }
    assert s1[..i] == s1;
  }

  /** inner_product(first1, last1, first2, init, binary_op1, binary_op2):
      the left fold with op1 of the pairwise op2 values. */
  method InnerProductBy<T1, T2, U, V>(s1: seq<T1>, s2: seq<T2>, init: U, op1: (U, V) -> U, op2: (T1, T2) -> V)
    returns (r: U)
    requires |s1| <= |s2|
    ensures r == FoldLeft(op1, init, seq(|s1|, i requires 0 <= i < |s1| => op2(s1[i], s2[i])))
  {
    ghost var pairs := seq(|s1|, i requires 0 <= i < |s1| => op2(s1[i], s2[i]));
    r := init;
    var i := 0;
    while i != |s1|
      invariant 0 <= i <= |s1| && FoldLeft(op1, r, pairs[i..]) == FoldLeft(op1, init, pairs)
    {
      assert pairs[i..][1..] == pairs[i + 1..];
      r := op1(r, op2(s1[i], s2[i]));
      i := i + 1;
    }
  }

  function Mul(a: int, b: int): int { a * b }

  /** With + and * the general inner_product is the plain one. */
  lemma {:induction false} InnerProductByPlusTimes(s1: seq<int>, s2: seq<int>, init: int)
    requires |s1| <= |s2|
    ensures FoldLeft(Add, init, seq(|s1|, i requires 0 <= i < |s1| => Mul(s1[i], s2[i]))) == init + Dot(s1, s2)
    decreases |s1|
  {
    var pairs := seq(|s1|, i requires 0 <= i < |s1| => Mul(s1[i], s2[i]));
    if |s1| > 0 {
      assert pairs[1..] == seq(|s1| - 1, i requires 0 <= i < |s1| - 1 => Mul(s1[1..][i], s2[1..][i]));
      InnerProductByPlusTimes(s1[1..], s2[1..], init + s1[0] * s2[0]);
    }
  }

  /** op is associative. */
  ghost predicate Associative<T(!new)>(op: (T, T) -> T)
  {
    forall a, b, c :: op(op(a, b), c) == op(a, op(b, c))
  }

  /** x op x op ... op x with n >= 1 operands. */
  function Pow<T>(op: (T, T) -> T, x: T, n: nat): T
    requires n >= 1
  {
    if n == 1 then x else op(Pow(op, x, n - 1), x)
  }

  /** Under an associative op, powers of x add their exponents. */
  lemma {:induction false} PowAdd<T(!new)>(op: (T, T) -> T, x: T, a: nat, b: nat)
    requires Associative(op) && a >= 1 && b >= 1
    ensures op(Pow(op, x, a), Pow(op, x, b)) == Pow(op, x, a + b)
    decreases b
  {
    if b > 1 {
      PowAdd(op, x, a, b - 1);
      assert op(Pow(op, x, a), op(Pow(op, x, b - 1), x)) == op(op(Pow(op, x, a), Pow(op, x, b - 1)), x);
    }
  }

  /** Halving an even exponent count. */
  lemma HalveEven(e: int, m: int)
    requires m % 2 == 0
    ensures e * m == (2 * e) * (m / 2)
  {
    assert m == 2 * (m / 2);
  }

  /** Halving an exponent count, keeping its low bit. */
  lemma HalveAny(e: int, m: int)
    requires m >= 0
    ensures 2 * e * m == 2 * (2 * e) * (m / 2) + (if m % 2 != 0 then 2 * e else 0)
  {
    assert m == 2 * (m / 2) + m % 2;
    assert 2 * e * m == 2 * e * (2 * (m / 2)) + 2 * e * (m % 2);
  }

  /** The first loop of power: while n is even, n is halved and x
      squared. What is left is an odd count m of operands y = x^ey with
      ey * m == n. */
  method SquareWhileEven(x: int, n: nat, op: (int, int) -> int) returns (y: int, m: nat, ghost ey: nat)
    requires n >= 1
    ensures m % 2 == 1 && ey >= 1 && ey * m == n
    ensures Associative(op) ==> y == Pow(op, x, ey)
  {
    y, m, ey := x, n, 1;
    while m % 2 == 0
      invariant m >= 1 && ey >= 1 && ey * m == n
      invariant Associative(op) ==> y == Pow(op, x, ey)
      decreases m
    {
      HalveEven(ey, m);
      m := m / 2;
      if Associative(op) {
        PowAdd(op, x, ey, ey);
      }
      y := op(y, y);
      ey := 2 * ey;
    }
  }

  /** power for n >= 1: squares x while n is even, then multiplies in
      x^(2^k) for every remaining set bit of n. Under an associative op
      the result is x op ... op x with n operands. */
  method PowerPositive(x: int, n: nat, op: (int, int) -> int) returns (r: int)
    requires n >= 1
    ensures Associative(op) ==> r == Pow(op, x, n)
  {
    var y, m, ey := SquareWhileEven(x, n, op);
    r := y;
    ghost var er: nat := ey;
    HalveAny(ey, m);
    m := m / 2;
    while m != 0
      invariant ey >= 1 && er >= 1 && er + 2 * ey * m == n
      invariant Associative(op) ==> y == Pow(op, x, ey) && r == Pow(op, x, er)
      decreases m
    {
      y, r, m, ey, er := PowerStep(x, n, op, y, r, m, ey, er);
    }
  }

  /** One turn of power's second loop: x is squared, multiplied into the
      result when the low bit of n is set, and n is halved. */
  method PowerStep(ghost x: int, ghost n: nat, op: (int, int) -> int, y: int, r: int, m: nat, ghost ey: nat, ghost er: nat)
    returns (y2: int, r2: int, m2: nat, ghost ey2: nat, ghost er2: nat)
    requires m != 0 && ey >= 1 && er >= 1 && er + 2 * ey * m == n
    requires Associative(op) ==> y == Pow(op, x, ey) && r == Pow(op, x, er)
    ensures m2 < m && ey2 >= 1 && er2 >= 1 && er2 + 2 * ey2 * m2 == n
    ensures Associative(op) ==> y2 == Pow(op, x, ey2) && r2 == Pow(op, x, er2)
  {
    HalveAny(ey, m);
    if Associative(op) {
      PowAdd(op, x, ey, ey);
    }
    y2, ey2, r2, er2 := op(y, y), 2 * ey, r, er;
    if m % 2 != 0 {
      if Associative(op) {
        PowAdd(op, x, er, ey2);
      }
      r2, er2 := op(r, y2), er + ey2;
    }
    m2 := m / 2;
  }

  /** power(x, n, op) as written: the literal 1 for n == 0, whatever op
      is. */
  method PowerAsWritten(x: int, n: nat, op: (int, int) -> int) returns (r: int)
    ensures n == 0 ==> r == 1
    ensures n >= 1 && Associative(op) ==> r == Pow(op, x, n)
  {
    if n == 0 {
      return 1;
    }
    r := PowerPositive(x, n, op);
  }

  /** power(x, n, op) as intended: identity_element(op) for n == 0. */
  method Power(x: int, n: nat, op: (int, int) -> int, identity: int) returns (r: int)
    ensures n == 0 ==> r == identity
    ensures n >= 1 && Associative(op) ==> r == Pow(op, x, n)
  {
    if n == 0 {
      return identity;
    }
    r := PowerPositive(x, n, op);
  }

  /** x^n over the integers. */
  function IntPow(x: int, n: nat): int
  {
    if n == 0 then 1 else IntPow(x, n - 1) * x
  }

  /** With multiplication and its identity 1, power is x^n for every n;
      with addition, x op ... op x is n * x, whose value at n == 0 is the
      identity 0, not the 1 that power as written returns. */
  lemma {:induction false} PowerLaws(x: int, n: nat)
    ensures Associative(Mul) && Associative(Add)
    ensures n >= 1 ==> Pow(Mul, x, n) == IntPow(x, n)
    ensures n >= 1 ==> Pow(Add, x, n) == n * x
    decreases n
  {
    assert Associative(Mul) by {
      forall a: int, b: int, c: int
        ensures Mul(Mul(a, b), c) == Mul(a, Mul(b, c))
      {
        assert (a * b) * c == a * (b * c);
      }
    }
    if n > 1 {
      PowerLaws(x, n - 1);
      assert (n - 1) * x + x == n * x;
    }
  }

  /** iota(first, last, value): slot first + k receives value + k, and no
      other slot changes. */
  method Iota(a: array<int>, first: nat, last: nat, value: int)
    requires first <= last <= a.Length
    modifies a
    ensures a[..] == old(a[..first]) + seq(last - first, k => value + k) + old(a[last..])
  {
    var i, v := first, value;
    while i != last
      invariant first <= i <= last && v == value + (i - first)
      invariant a[..] == old(a[..first]) + seq(i - first, k => value + k) + old(a[i..])
    {
      a[i] := v;
      i, v := i + 1, v + 1;
    }
  }
}
