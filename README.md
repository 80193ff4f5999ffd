# A verified model of STL_Impl's containers and algorithms

STL_Impl is a hand-written re-implementation of part of the C++ standard
template library. This project models its sequential core in Dafny and
proves what each piece promises. The core covers:

- the segmented `deque`, its random-access cursor, and the `queue` and `stack`
  adapters built over it;
- the contiguous `vector`;
- the sentinel-based circular doubly-linked `list`;
- the heap algorithms and the `priority_queue` built on them;
- the sequence algorithms of `algorithm.hpp`, `algobase.hpp` and `numeric.hpp`;
- the iterator utilities (`distance`, `advance`, the insert iterators,
  `reverse_iterator`);
- `pair`;
- the function objects of `functional.hpp`.

Each source file becomes one Dafny module of the same name:

| source | module | file |
|---|---|---|
| deque.hpp (`__deque_buf_size`, `__deque_iterator`) | `DequeIter` | deque_iterator.dfy |
| deque.hpp (`deque`) | `Deques` | deque.dfy |
| queue.hpp | `Queues` | queue.dfy |
| stack.hpp | `Stacks` | stack.dfy |
| vector.hpp | `Vectors` | vector.dfy |
| list.hpp | `Lists` | list.dfy |
| algoheap.hpp | `AlgoHeap` | algoheap.dfy |
| pqueue.hpp | `PriorityQueues` | pqueue.dfy |
| algorithm.hpp | `Algorithms` | algorithm.dfy |
| algobase.hpp | `AlgoBase` | algobase.dfy |
| numeric.hpp | `Numeric` | numeric.dfy |
| iterator.hpp | `Iterators` | iterator.dfy |
| utility.hpp | `Utility` | utility.dfy |
| functional.hpp | `Functional` | functional.dfy |
| (arithmetic facts used throughout) | `Arith` | arith.dfy |

How the source's forms carry over:

- Containers whose methods update fields in place are Dafny classes. Their
  methods carry `modifies` clauses, and their observable state is a ghost
  sequence of elements (`Elements()`). Every mutating method states the new
  sequence in terms of the old one, and keeps the container's representation
  invariant `Valid()`.
- Algorithms that loop over an iterator range are methods over an `array`
  (or over a sequence when they only read). Each is proved against a
  specification function on sequences, and the lemmas state the properties of
  that function.
- Pure functors, `pair` comparisons and the heap recursions are functions.
- Iterators into arrays and deques are integer indices. Iterators into the
  list are node indices.
- Integers are unbounded. C++'s truncating `/` and `%` are written out.

## Model

| member | source | states |
|---|---|---|
| `Utility.Pair.constructor` | utility.hpp:18-19 | the new pair holds `x` as `first` and `y` as `second` |
| `Utility.Pair.Copy` | utility.hpp:20-21 | the copy holds the same `first` and `second` as `p` |
| `Utility.Pair.Eq` | utility.hpp:22-26 | `==` compares both components; its meaning as an equivalence that agrees with `<` is stated by `Utility.EqIsEquivalence` |
| `Utility.EqIsEquivalence` | utility.hpp:22-26 | `==` is reflexive, symmetric and transitive, and with strict total component orders it holds exactly when neither pair is `<` the other |
| `Utility.Pair.Less` | utility.hpp:27-31 | with an irreflexive first-component order, `<` is the lexicographic order: the firsts are `<`, or they are equal and the seconds are `<` |
| `Utility.Pair.Ne` | utility.hpp:32 | `!=` holds exactly when some component differs |
| `Utility.Pair.Le` | utility.hpp:33 | with strict total component orders, `<=` holds exactly when `rhs < *this` does not |
| `Utility.Pair.Ge` | utility.hpp:34 | with strict total component orders, `>=` holds exactly when `rhs < *this` or the pairs are `==` |
| `Utility.Pair.Gt` | utility.hpp:35 | with strict total component orders, `>` holds exactly when `rhs < *this` |
| `Utility.Pair.Assign` | utility.hpp:36-41 | `operator=` copies both fields of `rhs` and returns the pair itself |
| `Utility.MakePair` | utility.hpp:44-47 | `make_pair` returns a new pair holding `t1` and `t2` |
| `Utility.LessIsStrictTotalOrder` | utility.hpp:27-31 | with strict total orders on the components, `<` on pairs is irreflexive, transitive, asymmetric and total: exactly one of `<`, `==`, `>` holds |
| `Utility.DerivedOperators` | utility.hpp:32-35 | `>` is `<` swapped, `>=` is `>` or `==`, `<=` is not-`>`, `!=` is not-`==` |
| `Functional.Plus` | functional.hpp:22-25 | `minus` by either operand of `plus(x,y)` gives the other operand back |
| `Functional.Minus` | functional.hpp:27-30 | `minus(x,y)` is zero exactly when `x == y` and positive exactly when `x > y` |
| `Functional.Multiplies` | functional.hpp:32-35 | for `y != 0`, `divides(multiplies(x,y), y)` is `x` and `modulus` of it is 0 |
| `Functional.Negate` | functional.hpp:47-50 | `negate(x)` added to `x` gives `identity_element(plus)`, and has the magnitude of `x` |
| `Functional.Divides` | functional.hpp:37-40 | `divides` truncates toward zero: the remainder `x - q*y` is smaller than `y` in magnitude and is zero or has the sign of `x` |
| `Functional.Modulus` | functional.hpp:42-45 | `modulus` is the remainder matching `divides`: `divides(x,y)*y + modulus(x,y) == x` |
| `Functional.TruncatedUnique` | functional.hpp:37-45 | `divides` and `modulus` are the only quotient and remainder with `x == q*y + r`, `abs(r) < abs(y)` and `r` zero or of the sign of `x` |
| `Functional.TruncationExamples` | functional.hpp:37-45 | `-7 / 2` is `-3` remainder `-1`, and `7 / -2` is `-3` remainder `1` (unlike Euclidean `-4`, `1`) |
| `Functional.IdentityElements` | functional.hpp:52-60 | `identity_element(plus)` is neutral for `plus` on both sides; `identity_element(multiplies)` is neutral for `multiplies` |
| `Functional.ArithmeticInverses` | functional.hpp:22-50 | `minus` undoes `plus`, `negate(x)` is the additive inverse, and `minus(x,y) == plus(x, negate(y))` |
| `Functional.EqualTo` | functional.hpp:63-66 | `equal_to` is the negation of `not_equal_to` |
| `Functional.NotEqualTo` | functional.hpp:68-71 | `not_equal_to(x,y)` holds exactly when `x` and `y` are two distinct values |
| `Functional.Less` | functional.hpp:83-86 | `less(x,y)` holds exactly when `minus(y,x)` is positive, and never of equal values |
| `Functional.Greater` | functional.hpp:73-76 | `greater(x,y)` is `less(y,x)` |
| `Functional.GreaterEqual` | functional.hpp:78-81 | `greater_equal` is the negation of `less` |
| `Functional.LessEqual` | functional.hpp:88-91 | `less_equal` is the negation of `greater`, that is `less` or `equal_to` |
| `Functional.LogicalAnd` | functional.hpp:94-97 | `logical_and(x,y)` is `logical_not(logical_or(logical_not(x), logical_not(y)))` |
| `Functional.LogicalOr` | functional.hpp:99-102 | `logical_or(x,y)` holds exactly when `y` holds whenever `x` does not |
| `Functional.LogicalNot` | functional.hpp:104-107 | `logical_not(x)` always differs from `x` |
| `Functional.Identity` | functional.hpp:110-113 | `identity` returns its argument; `Functional.SelectionsDeterminePair` is the partner lemma |
| `Functional.Select1st` | functional.hpp:115-120 | `select1st(p)` is `p.first`; `Functional.SelectionsDeterminePair` is the partner lemma |
| `Functional.Select2nd` | functional.hpp:122-127 | `select2nd(p)` is `p.second`; `Functional.SelectionsDeterminePair` is the partner lemma |
| `Functional.RelationalLaws` | functional.hpp:62-91 | `not_equal_to` is the negation of `equal_to`; `greater` is `less` swapped; `greater_equal` and `less_equal` are the negations of `less` and `greater`; exactly one of `less`, `equal_to`, `greater` holds |
| `Functional.LogicalLaws` | functional.hpp:93-107 | `logical_and`, `logical_or` and `logical_not` satisfy De Morgan's laws and double negation |
| `Functional.SelectionsDeterminePair` | functional.hpp:109-127 | `select1st` and `select2nd` return the pair's fields, so two pairs are `==` exactly when both selections agree; `identity` returns its argument |
| `Functional.Not1` | functional.hpp:130-145 | `not1(p)` applied to any `x` gives `!p(x)` |
| `Functional.Not2` | functional.hpp:147-165 | `not2(p)` applied to any `x, y` gives `!p(x,y)` |
| `Functional.NegatorLaws` | functional.hpp:129-165 | `not1(p)(x) == !p(x)` and `not2(p)(x,y) == !p(x,y)`; negating twice gives the predicate back; `not2(less)` is `greater_equal` |
| `Functional.Bind1st` | functional.hpp:166-186 | `bind1st(op,v)` applied to any `x` gives `op(v,x)` |
| `Functional.Bind2ndAsWritten` | functional.hpp:188-208 | `bind2nd(op,v)` as written, applied to any `x`, gives `op(v,x)`: the stored value comes first |
| `Functional.Bind2nd` | functional.hpp:188-208 | the intended `bind2nd(op,v)` applied to any `x` gives `op(x,v)` |
| `Functional.BinderLaws` | functional.hpp:166-208 | `bind1st(op,v)(x) == op(v,x)`; the intended `bind2nd(op,v)(x) == op(x,v)`, so `bind2nd(minus,v)` undoes `bind2nd(plus,v)` and `bind2nd(less,v)` is `bind1st(greater,v)` |
| `Functional.Binder2ndAsWrittenSwaps` | functional.hpp:188-208 | `binder2nd` as written computes `op(value, x)`: `bind2nd(minus,1)(5)` is `-4`, not `4`, and `bind2nd(minus,v)` after `bind2nd(plus,v)` negates its argument |
| `Functional.PtrFun` | functional.hpp:210-226 | `ptr_fun(f)` applied to any `x` gives `f(x)` |
| `Functional.PtrFun2` | functional.hpp:228-244 | `ptr_fun(g)` applied to any `x, y` gives `g(x,y)` |
| `Functional.PtrFunLaws` | functional.hpp:210-244 | `ptr_fun(f)(x) == f(x)` and `ptr_fun(g)(x,y) == g(x,y)`, so adaptors over a wrapped function behave as over the function |
| `AlgoBase.Equal` | algobase.hpp:11-18 | `equal` is true exactly when range 1 equals the prefix of range 2 of the same length |
| `AlgoBase.EqualBy` | algobase.hpp:20-27 | `equal(..., binary_op)` is true exactly when `binary_op` holds at every position of range 1 |
| `AlgoBase.Fill` | algobase.hpp:29-34 | every slot of `[first,last)` becomes `value`, and every other slot is unchanged |
| `AlgoBase.IterSwap` | algobase.hpp:43-54 | the two slots exchange their values and nothing else changes; the array's multiset is unchanged |
| `AlgoBase.Swap` | algobase.hpp:131-137 | the two values are exchanged |
| `AlgoBase.LexicographicalCompareBy` | algobase.hpp:69-80 | the result is the lexicographic less-than under `comp`: the first differing position decides, and a proper prefix is less |
| `AlgoBase.LexicographicalCompare` | algobase.hpp:57-67 | the result is the lexicographic less-than under `<` |
| `AlgoBase.LexLessStrictOrder` | algobase.hpp:57-67 | under `<`, lexicographic less-than is irreflexive and transitive |
| `AlgoBase.LexLessTotal` | algobase.hpp:57-67 | under `<`, any two different sequences are ordered one way or the other |
| `AlgoBase.ProperPrefixIsLess` | algobase.hpp:66 | a proper prefix is less than the sequence it starts |
| `AlgoBase.HelloBeforeHolle` | algobase.hpp:69-80 | `"hello"` is lexicographically less than `"holle"` |
| `AlgoBase.Min` | algobase.hpp:83-86 | `min(a,b)` is the smaller of the two, and `a` on ties |
| `AlgoBase.Max` | algobase.hpp:93-96 | `max(a,b)` is the larger of the two, and `a` on ties |
| `AlgoBase.MinBy` | algobase.hpp:88-91 | `min(a,b,comp)` is `a` or `b`; under a strict order neither argument is less than it; on equivalent arguments it is `a` |
| `AlgoBase.MaxByAsWritten` | algobase.hpp:98-101 | `max(a,b,comp)` as written returns the same as `min(a,b,comp)` |
| `AlgoBase.MaxBy` | algobase.hpp:98-101 | the intended `max(a,b,comp)` is `a` or `b`; under a strict order it is less than neither argument; on equivalent arguments it is `a` |
| `AlgoBase.MinByMaxBySplit` | algobase.hpp:88-101 | under a strict order, `min(comp)` and the intended `max(comp)` return one each of two comparable arguments, both return `a` on equivalent ones, and the maximum is never less than the minimum |
| `AlgoBase.ComparatorMinMax` | algobase.hpp:83-101 | under `<`, the comparator forms of `min` and the intended `max` agree with `min` and `max`; `max` as written returns the minimum, and `max(1,2,less)` is 1 |
| `AlgoBase.MinMax` | algobase.hpp:103-107 | `min_max(a,b)` is an ordered pair holding exactly `a` and `b` |
| `AlgoBase.Mismatch` | algobase.hpp:110-118 | both returned positions are the first index where the ranges differ, or the end of range 1 when there is none |
| `AlgoBase.MismatchByAsWritten` | algobase.hpp:120-129 | as written the predicate receives the position `first1`, not `*first1`: the result is the first index `k` where `binary_pred(k, s2[k])` fails |
| `AlgoBase.MismatchBy` | algobase.hpp:120-129 | the intended result is the first index where `binary_pred(s1[k], s2[k])` fails, or the end of range 1 |
| `AlgoBase.MismatchPredicateCounterexample` | algobase.hpp:124 | in the index model of the as-written call, `[5,5]` against itself with an equality predicate stops at 0, while the intended form and plain `mismatch` run to 2; in C++ that call with `equal_to<int>` does not compile |
| `Numeric.Accumulate` | numeric.hpp:9-14 | `accumulate` returns `init` plus the sum of the range |
| `Numeric.AccumulateBy` | numeric.hpp:16-22 | `accumulate(..., binary_op)` returns the left fold `op(...op(init, s[0])..., s[n-1])` |
| `Numeric.FoldAddIsSum` | numeric.hpp:9-22 | folding with `+` from `init` adds the sum of the range to `init`, so the two forms of `accumulate` agree |
| `Numeric.PartialSumsUndoDifferences` | tests/numeric.cpp:39-51 | running sums undo adjacent differences, and adjacent differences undo running sums |
| `Numeric.DifferencesTelescope` | numeric.hpp:26-45 | the first `i+1` adjacent differences sum to `s[i]` |
| `Numeric.AdjacentDifference` | numeric.hpp:26-45 | writes nothing on an empty range; otherwise writes `s[0]` then `s[i] - s[i-1]` from `result` on, changes no other slot, and returns `result + n` |
| `Numeric.AdjacentDifferenceBy` | numeric.hpp:47-67 | the same with `binary_op(s[i], s[i-1])` in place of the subtraction |
| `Numeric.DifferencesBySubtraction` | numeric.hpp:26-67 | with subtraction as `binary_op`, the general `adjacent_difference` writes the same as the plain one |
| `Numeric.PartialSum` | numeric.hpp:89-105 | writes nothing on an empty range; otherwise writes the running sums `s[0] + ... + s[i]` from `result` on, changes no other slot, and returns `result + n` |
| `Numeric.RunningFolds` | numeric.hpp:107-126 | the intended running folds: `s[0]`, then `op(previous, s[i])` |
| `Numeric.RunningFoldsAsWritten` | numeric.hpp:107-117 | the running folds as written: `s[0]`, then `op(s[i], previous)` |
| `Numeric.RunningFoldsAccumulate` | numeric.hpp:107-126 | each intended running fold equals `accumulate` of the prefix from `s[0]` |
| `Numeric.PartialSumByAsWritten` | numeric.hpp:107-126 | `partial_sum(..., binary_op)` as written writes the as-written running folds from `result` on, nothing on an empty range, and returns `result + n` |
| `Numeric.PartialSumBy` | numeric.hpp:107-126 | the intended `partial_sum(..., binary_op)` writes the intended running folds from `result` on, nothing on an empty range, and returns `result + n` |
| `Numeric.RunningFoldsOperandOrder` | numeric.hpp:113 | for a commutative `op` the two forms agree; under subtraction `[8,2]` gives `[8,6]` as intended but `[8,-6]` as written |
| `Numeric.RunningFoldsAgree` | numeric.hpp:113 | for a commutative `op`, every as-written running fold equals the intended one |
| `Numeric.InnerProduct` | numeric.hpp:70-76 | `inner_product` returns `init` plus the sum of `s1[i]*s2[i]` over range 1 |
| `Numeric.InnerProductBy` | numeric.hpp:78-86 | the general `inner_product` returns the left fold of `op1` from `init` over `op2(s1[i], s2[i])` |
| `Numeric.InnerProductByPlusTimes` | numeric.hpp:70-86 | with `+` and `*`, the general `inner_product` equals the plain one |
| `Numeric.PowAdd` | numeric.hpp:129-149 | under an associative `op`, `x^a op x^b == x^(a+b)` |
| `Numeric.SquareWhileEven` | numeric.hpp:134-137 | the first loop of `power` leaves an odd count `m` and `y == x^e` with `e*m == n` |
| `Numeric.PowerStep` | numeric.hpp:141-146 | one turn of the second loop keeps `result == x^er` and `x == x^ey` with `er + 2*ey*m == n`, and halves `m` |
| `Numeric.PowerPositive` | numeric.hpp:133-148 | for `n >= 1` and an associative `op`, `power` returns `x op ... op x` with `n` operands |
| `Numeric.PowerAsWritten` | numeric.hpp:129-149 | `power` as written returns the literal `1` for `n == 0`, whatever `op`, and `x^n` for `n >= 1` |
| `Numeric.Power` | numeric.hpp:129-149 | the intended `power` returns `op`'s identity for `n == 0`, and `x^n` for `n >= 1` |
| `Numeric.PowerLaws` | numeric.hpp:129-149 | `*` and `+` are associative; under `*` the power is the integer `x^n`; under `+` it is `n*x`, whose `n == 0` value is `0`, not the `1` returned as written |
| `Numeric.Iota` | numeric.hpp:152-156 | slot `first + k` becomes `value + k` for every `k < last - first`, and no other slot changes |
| `Numeric.WriteNext` | numeric.hpp:26-45 | storing the next output value extends the block written from `result` by one, leaving every other slot alone |
| `Numeric.WrittenAll` | numeric.hpp:26-45 | once the whole block is written, the destination is the old array with the output spliced in at `result` |
| `Algorithms.AdjacentFindBy` | algorithm.hpp:26-36 | the result is the first `i` with `binary_op(s[i], s[i+1])`; when there is none, including on an empty range, it is `last` |
| `Algorithms.AdjacentFind` | algorithm.hpp:14-24 | the result is the first `i` with `s[i] == s[i+1]`, else `last` |
| `Algorithms.CountWhere` | algorithm.hpp:49-57 | the number of elements satisfying `pred` is at most the length of the range |
| `Algorithms.CountIf` | algorithm.hpp:49-57 | `count_if` returns the number of elements satisfying `pred` |
| `Algorithms.CountWhereEqual` | algorithm.hpp:39-47 | counting the elements equal to `v` gives `v`'s multiplicity in the range |
| `Algorithms.CountWhereConcat` | algorithm.hpp:49-57 | counts add up over a concatenation of ranges |
| `Algorithms.CountWhereComplement` | algorithm.hpp:49-57 | every element is counted by `pred` or by its negation, never both |
| `Algorithms.Count` | algorithm.hpp:39-47 | `count` returns the multiplicity of `value` in the range |
| `Algorithms.FindIf` | algorithm.hpp:75-80 | the result is the first position satisfying `pred`, else `last` |
| `Algorithms.Find` | algorithm.hpp:68-73 | the result is the first position holding `value`, else `last`; it is `last` exactly when `value` does not occur |
| `Algorithms.FindFirstOfBy` | algorithm.hpp:132-140 | the result is the first position of range 1 whose element is `comp`-related to some element of range 2, else `last1` |
| `Algorithms.FindFirstOf` | algorithm.hpp:122-130 | the result is the first position of range 1 whose element occurs in range 2, else `last1` |
| `Algorithms.AppliedConcat` | algorithm.hpp:143-148 | applying a function object over `a + b` is applying it over `a`, then over `b` from that state |
| `Algorithms.ForEach` | algorithm.hpp:143-148 | `for_each` returns the function object in the state reached by applying it to each element in order |
| `Algorithms.Generated` | algorithm.hpp:151-162 | `n` calls of a generator return exactly `n` values |
| `Algorithms.GeneratedSplit` | algorithm.hpp:151-162 | `m + n` generator calls are `m` calls followed by `n` more from the state they left |
| `Algorithms.GeneratedCounter` | algorithm.hpp:151-162 | a counting generator from 0 yields `0, 1, ..., n-1` and ends in state `n` |
| `Algorithms.GeneratedConstant` | algorithm.hpp:151-162 | a generator that ignores its state yields `n` copies of its value |
| `Algorithms.Generate` | algorithm.hpp:151-155 | every slot of `[first,last)` receives the successive generated values, no other slot changes, and the generator ends in the state after `last - first` calls |
| `Algorithms.GenerateN` | algorithm.hpp:157-162 | exactly `max(n,0)` generated values are written from `first`, no other slot changes, and the returned iterator is `first + max(n,0)` |
| `Algorithms.IncludesMissing` | algorithm.hpp:169-170 | on sorted ranges, when `*first2 < *first1` the rest of range 2 cannot be contained in the rest of range 1 |
| `Algorithms.IncludesSkip` | algorithm.hpp:171-172 | on sorted ranges, when `*first1 < *first2` skipping `*first1` does not change the answer |
| `Algorithms.IncludesMatch` | algorithm.hpp:173-174 | on sorted ranges, equivalent heads match each other and both can be dropped |
| `Algorithms.AddBoth` | algorithm.hpp:173-174 | adding the same element to both multisets keeps the inclusion as it was |
| `Algorithms.IncludesEnd` | algorithm.hpp:177 | once either range is used up, the rest of range 2 is contained exactly when it is empty |
| `Algorithms.IncludesBy` | algorithm.hpp:180-194 | on ranges sorted under an order that decides equality, `includes(comp)` is true exactly when range 2 is a sub-multiset of range 1 |
| `Algorithms.Includes` | algorithm.hpp:165-178 | on sorted integer ranges, `includes` is true exactly when range 2 is a sub-multiset of range 1 |
| `Algorithms.MaxElementBy` | algorithm.hpp:207-215 | returns `first` on an empty range; otherwise, under a strict weak order, a position no element is greater than, with every earlier element less than it (the first maximum) |
| `Algorithms.MaxElement` | algorithm.hpp:197-205 | returns `first` on an empty range; otherwise the first position of a maximum |
| `Algorithms.FlipOrder` | algorithm.hpp:227-235 | `comp` with its arguments swapped is again a strict weak order |
| `Algorithms.MinElementByAsWritten` | algorithm.hpp:227-235 | `min_element(comp)` as written tests `comp(*result, *first)`, the test of `max_element`, so it returns the first maximum under `comp` |
| `Algorithms.MinElementByAsWrittenFindsMax` | algorithm.hpp:232 | on `[2,1,3]` with `<`, `min_element(comp)` as written returns 2, the position of the maximum |
| `Algorithms.MinElementBy` | algorithm.hpp:227-235 | the intended `min_element(comp)` returns the first minimum under `comp`, and `first` on an empty range |
| `Algorithms.MinElementByFindsMin` | algorithm.hpp:227-235 | on `[2,1,3]` with `<`, the intended `min_element(comp)` returns 1 |
| `Algorithms.MinElement` | algorithm.hpp:217-225 | returns `first` on an empty range; otherwise the first position of a minimum |
| `Algorithms.MinMaxElement` | algorithm.hpp:237-248 | returns `(first, first)` on an empty range; otherwise the first minimum and the first maximum |
| `Algorithms.AdjacentFindOnSample` | tests/algorithm.cpp:32-59 | on `1 2 3 4 4 6`, `adjacent_find` returns 3, and with `greater` it returns `last` (6) |
| `Algorithms.CountOnSample` | tests/algorithm.cpp:63-64 | `count(4)` on `1 2 3 4 4 6` is 2 |
| `Algorithms.IncludesOnSample` | tests/algorithm.cpp:139-146 | `1 2 3 4 4 6` includes `2 4` |
| `Iterators.DistanceInput` | iterator.hpp:76-85 | counting the `++` steps from `first` until it equals `last` gives the number of positions between them |
| `Iterators.Distance` | iterator.hpp:87-101 | whichever version the category selects, `distance` returns `last - first` in positions |
| `Iterators.AdvanceInput` | iterator.hpp:105-109 | `n` increments move the iterator exactly `n` positions forward |
| `Iterators.AdvanceBidirectional` | iterator.hpp:111-119 | the iterator moves `n` positions, forward by `++` when `n >= 0` and back by `--` otherwise |
| `Iterators.Advance` | iterator.hpp:121-131 | whichever version the category selects, the iterator ends up where `i += n` puts it, and `r - i == n` |
| `Iterators.BackInsertIterator.constructor` | iterator.hpp:144 | the iterator refers to the container it was given |
| `Iterators.BackInsertIterator.Assign` | iterator.hpp:145-149 | assigning `value` appends it to the container, which stays valid |
| `Iterators.FrontInsertIterator.constructor` | iterator.hpp:171 | the iterator refers to the container it was given |
| `Iterators.FrontInsertIterator.Assign` | iterator.hpp:172-176 | assigning `value` prepends it to the container, which stays valid |
| `Iterators.InsertIterator.Index` | iterator.hpp:191 | the position of `iter` lies within the container's elements or at the end |
| `Iterators.InsertIterator.constructor` | iterator.hpp:199-200 | the iterator refers to the container and the position it was given |
| `Iterators.InsertIterator.Assign` | iterator.hpp:201-206 | assigning `value` inserts it before `iter`, and `iter` ends up just past it (one position further) |
| `Iterators.SpliceStep` | iterator.hpp:201-206 | inserting `x` just after a block spliced between `pre` and `post` extends the block by `x` |
| `Iterators.CopyInto` | iterator.hpp:201-206 | assigning `vs` one value at a time through an `insert_iterator` splices `vs`, in order, at the iterator's position, and leaves the iterator past it |
| `Iterators.CopyFront` | iterator.hpp:172-176 | assigning `vs` one value at a time through a `front_insert_iterator` puts `vs` reversed before the old elements |
| `Iterators.CopyBack` | iterator.hpp:145-149 | assigning `vs` one value at a time through a `back_insert_iterator` appends `vs` in order |
| `Iterators.Reversed` | iterator.hpp:218-278 | the reversal of a sequence has its length |
| `Iterators.ReversedAt` | iterator.hpp:238-241 | element `k` of the reversal is element `n - 1 - k` of the sequence |
| `Iterators.ReversedPointwise` | iterator.hpp:238-241 | a sequence holding `s` back to front is the reversal of `s` |
| `Iterators.ReverseIterator.constructor` | iterator.hpp:234 | the new reverse iterator's base is `x` |
| `Iterators.ReverseIterator.Base` | iterator.hpp:237 | `base()` is the position just after the element `*r` reads, as `Iterators.ReverseIterator.Deref` uses it |
| `Iterators.ReverseIterator.Deref` | iterator.hpp:238-241 | `*r` is `*(base() - 1)`, which is element `n - base()` of the reversed sequence |
| `Iterators.ReverseIterator.Index` | iterator.hpp:277 | `r[n]` is element `n - base() + n` of the reversed sequence, which is `*(r + n)` |
| `Iterators.ReverseIterator.Incr` | iterator.hpp:244-247 | `++r` decrements the base |
| `Iterators.ReverseIterator.Decr` | iterator.hpp:253-256 | `--r` increments the base |
| `Iterators.ReverseIterator.Plus` | iterator.hpp:262-264 | `r + n` is a new reverse iterator with base `base() - n` |
| `Iterators.ReverseIterator.Minus` | iterator.hpp:269-271 | `r - n` is a new reverse iterator with base `base() + n` |
| `Iterators.ReverseIterator.AddAssign` | iterator.hpp:265-268 | `r += n` subtracts `n` from the base |
| `Iterators.ReverseIterator.SubAssign` | iterator.hpp:272-275 | `r -= n` adds `n` to the base |
| `Iterators.ReadReversed` | iterator.hpp:237-247 | walking a reverse iterator from base `end()` to base `begin()` reads the sequence backwards |
| `Iterators.IndexIsAdvancedDeref` | iterator.hpp:265-277 | `r[n]` equals what `*r` reads after `r += n` |
| `Lists.AtBeforeDistinct` | list.hpp:63-77 | in a well-linked list, the nodes at different element positions are different, and so are the nodes before them |
| `Lists.LinkedInsert` | list.hpp:117-124 | linking a new node before position `k` (the four pointer writes of `insert`) leaves `next` and `prev` mutually consistent along the new order |
| `Lists.LinkedErase` | list.hpp:126-133 | unlinking the node at position `k` (the two pointer writes of `erase`) leaves `next` and `prev` consistent along the shorter order |
| `Lists.Values` | list.hpp:10-15 | the values of a list are the data of its nodes, in order |
| `Lists.ValuesInsert` | list.hpp:117-124 | after a node holding `x` is linked in at position `k`, the values are the old ones with `x` at `k` |
| `Lists.ValuesErase` | list.hpp:126-133 | after the node at position `k` is unlinked and destroyed, the values are the old ones without position `k` |
| `Lists.IndexOf` | list.hpp:36-37 | the position found holds the node looked for |
| `Lists.Dedup` | list.hpp:181-194 | collapsing the runs of equal neighbours keeps the last element and does not lengthen the sequence |
| `Lists.DedupNoAdjacentEqual` | list.hpp:181-194 | after `unique` no two neighbours are equal, and the elements present are exactly those before |
| `Lists.Removed` | list.hpp:168-179 | removing the elements equal to `v` does not lengthen the sequence |
| `Lists.RemovedCounts` | list.hpp:168-179 | after `remove(v)` no element equals `v`, and every other value keeps its multiplicity |
| `Lists.RemovedConcat` | list.hpp:168-179 | removing `v` from `a + b` is removing it from `a` and from `b` |
| `Lists.RemovedAdvance` | list.hpp:173-178 | one step of `remove`'s walk moves the head of what is left into the result, unless it equals `v` |
| `Lists.WalkDone` | list.hpp:187 | when `unique`'s walk reaches the end, the whole list has been processed |
| `Lists.DedupStep` | list.hpp:187-193 | one step of `unique`'s walk either drops a repeat of the last kept element or keeps a new one |
| `Lists.DedupExample` | tests/list.cpp:59 | `unique` turns `1 3 3 3 2 2 1` into `1 3 2 1` |
| `Lists.List.Elements` | list.hpp:93-94 | the elements run from `begin()` to the node before `end()` |
| `Lists.List.Pos` | list.hpp:17-58 | every iterator (an element node or the sentinel) has exactly one position, the sentinel's being the size |
| `Lists.List.constructor` | list.hpp:104-111 | a new list is empty with its sentinel linked to itself |
| `Lists.List.Begin` | list.hpp:93 | `begin()` is at position 0 |
| `Lists.List.End` | list.hpp:94 | `end()` is the sentinel, at position `size()` |
| `Lists.List.Empty` | list.hpp:95 | `empty()` (sentinel linked to itself) holds exactly when there are no elements |
| `Lists.List.Incr` | list.hpp:41-44 | `++` follows `next`: one position on, and from `end()` round to `begin()` |
| `Lists.List.Decr` | list.hpp:50-53 | `--` follows `prev`: one position back, and from `begin()` round to `end()` |
| `Lists.List.IncrDecr` | list.hpp:41-53 | `++` and `--` undo each other |
| `Lists.List.Deref` | list.hpp:38 | `*it` is the element at the iterator's position |
| `Lists.List.Front` | list.hpp:101 | `front()` is the first element |
| `Lists.List.Back` | list.hpp:102 | `back()` is the last element |
| `Lists.List.Size` | list.hpp:96-100 | counting the steps from `begin()` to `end()` gives the number of elements |
| `Lists.List.Insert` | list.hpp:117-124 | a new node holding `x` is linked in just before `position`; the elements gain `x` at that position; the returned iterator is the new node, at `position`'s old index |
| `Lists.List.Erase` | list.hpp:126-133 | `position` is unlinked and destroyed; the elements lose that position; the returned iterator is its successor, now at the same index |
| `Lists.List.PushFront` | list.hpp:114 | `x` becomes the first element |
| `Lists.List.PushBack` | list.hpp:115 | `x` becomes the last element |
| `Lists.List.PopFront` | list.hpp:134 | the first element is removed |
| `Lists.List.PopBack` | list.hpp:135-137 | the last element is removed |
| `Lists.List.Clear` | list.hpp:156-166 | every element node is destroyed, and the list is left empty with its sentinel linked to itself |
| `Lists.List.RemoveStep` | list.hpp:174-177 | one round of `remove`'s loop steps past `first`, erasing it when it equals `value`, and moves it into the kept part otherwise |
| `Lists.List.Remove` | list.hpp:168-179 | `remove(value)` leaves exactly the elements not equal to `value`, in their order |
| `Lists.List.UniqueStep` | list.hpp:188-192 | one round of `unique`'s loop erases `next` when it repeats `first`, or moves `first` to it otherwise |
| `Lists.List.Unique` | list.hpp:181-194 | `unique()` collapses each run of equal neighbours to one element |
| `Vectors.CopyForward` | vector.hpp:82-89 | `std::copy` inside one storage block moves `[first, last)` to start at `result` and leaves every other slot alone |
| `Vectors.CopyBackward` | vector.hpp:122 | `std::copy_backward` inside one storage block moves `[first, last)` to end at `dLast` and leaves every other slot alone |
| `Vectors.CopyInto` | vector.hpp:132-135 | `uninitialized_copy` into a different block lands the source range at `at`, returns the end of what it wrote and leaves the other slots alone |
| `Vectors.OpenGapShift` | vector.hpp:160-165 | with more than `n` elements after `position`, the three moves leave the prefix, then `n` copies of `x`, then the old tail shifted up by `n` |
| `Vectors.ShiftComposed` | vector.hpp:160-165 | the three slot-by-slot effects of `uninitialized_copy`, `copy_backward` and `fill`, composed, open the gap of `n` copies of `x` |
| `Vectors.OpenGapSpill` | vector.hpp:166-172 | with at most `n` elements after `position`, filling the spill slots, moving the tail past them and filling the rest opens the same gap |
| `Vectors.InsertedN` | vector.hpp:152-199 | the elements after inserting `n` copies of `x` before index `i`: the prefix unchanged, `n` copies of `x`, then the old tail |
| `Vectors.ErasedRange` | vector.hpp:81-86 | the elements after erasing `[first, last)`: the prefix unchanged, then the elements from `last` on |
| `Vectors.InsertedNThenErased` | vector.hpp:81-86 | erasing the `n` elements just inserted at `i` gives the original elements back |
| `Vectors.InsertAtEndUndefined` | vector.hpp:118-124 | the in-place branch of `insert(position, x)` is defined only when an element sits at or after `position`, so `insert(end(), x)` with spare capacity is not |
| `Vectors.Vector.Elements` | vector.hpp:43-45 | the elements are the first `size()` slots of the storage block |
| `Vectors.Vector.Default` | vector.hpp:52 | `vector()` has no elements and no capacity |
| `Vectors.Vector.constructor` | vector.hpp:36-56 | `vector(n, value)` holds `n` copies of `value` in a block of exactly `n` slots |
| `Vectors.Vector.Size` | vector.hpp:45 | size() is the number of elements, and never exceeds the capacity |
| `Vectors.Vector.Capacity` | vector.hpp:46-48 | the capacity is at least the number of elements |
| `Vectors.Vector.Empty` | vector.hpp:49 | `empty()` holds exactly when the size is 0 |
| `Vectors.Vector.Index` | vector.hpp:50 | `operator[](n)` is the element at position `n` |
| `Vectors.Vector.Front` | vector.hpp:63 | `front()` is the first element |
| `Vectors.Vector.Back` | vector.hpp:64 | `back()` is the last element |
| `Vectors.Vector.PushBack` | vector.hpp:65-73 | `push_back(x)` appends `x`; the block is kept while there is room, and otherwise the capacity becomes 1 (from empty) or twice the size |
| `Vectors.Vector.InsertAsWritten` | vector.hpp:116-150 | `insert(position, x)` as written inserts `x` before `position` whenever its in-place branch is defined; when full the capacity becomes 1 or twice the size |
| `Vectors.Vector.InsertInPlace` | vector.hpp:118-124 | the in-capacity branch of `insert(position, x)` inserts `x` before an existing element and keeps the block |
| `Vectors.Vector.InsertRealloc` | vector.hpp:174-197 | the reallocating branch copies the prefix, `n` copies of `x` and the tail into a fresh block of `len` slots |
| `Vectors.Vector.Insert` | vector.hpp:116-150 | `insert(position, x)`, with insertion at the end of a vector with room handled as a plain construct, inserts `x` before `position` for every valid `position` |
| `Vectors.Vector.InsertN` | vector.hpp:152-199 | `insert(position, n, x)` inserts `n` copies of `x` before `position`; the block is kept when `n` slots are free, and otherwise the capacity becomes `size + max(size, n)` |
| `Vectors.Vector.InsertNInPlace` | vector.hpp:156-173 | the in-capacity branch of `insert(position, n, x)` inserts the `n` copies and keeps the block |
| `Vectors.Vector.PopBack` | vector.hpp:77-80 | `pop_back()` drops the last element and keeps the block |
| `Vectors.Vector.EraseRange` | vector.hpp:81-86 | `erase(first, last)` removes exactly `[first, last)`, returns `first` and keeps the capacity |
| `Vectors.Vector.Erase` | vector.hpp:87-94 | `erase(position)` removes exactly the element at `position`, returns `position` and keeps the capacity |
| `Vectors.Vector.Resize` | vector.hpp:96-103 | `resize(n, x)` leaves exactly `n` elements: a prefix of the old ones when shrinking, the old ones followed by copies of `x` when growing |
| `Vectors.Vector.Clear` | vector.hpp:105 | `clear()` leaves no elements and keeps the block |
| `Vectors.PushBackGrowth` | tests/vector.cpp:24-45 | `vector(2, 9)` followed by `push_back(1)` … `push_back(5)` has capacities 2, 4, 4, 8, 8, 8 and ends with 9, 9, 1, 2, 3, 4, 5 |
| `DequeIter.BufSize` | deque.hpp:13-16 | the buffer size is positive: the hint when it is non-zero, otherwise the largest count of elements that fits in 512 bytes, or 1 for elements of 512 bytes or more |
| `DequeIter.BufSizeExamples` | deque.hpp:13-16 | buffer sizes for a few hints and element sizes, such as 128 for 4-byte elements and 1 for 600-byte ones |
| `DequeIter.PosInjective` | deque.hpp:34-43 | two cursors inside their buffers are equal exactly when their positions are equal |
| `DequeIter.Next` | deque.hpp:52-59 | `operator++` yields a cursor inside its buffer one position further on |
| `DequeIter.Prev` | deque.hpp:65-72 | `operator--` yields a cursor inside its buffer one position back |
| `DequeIter.Add` | deque.hpp:79-95 | `operator+=` and `operator+` yield a cursor inside its buffer exactly `n` positions on, for negative `n` as well |
| `DequeIter.Sub` | deque.hpp:96-100 | `operator-=` and `operator-` with a distance yield a cursor inside its buffer exactly `n` positions back |
| `DequeIter.Diff` | deque.hpp:47-50 | the difference of two cursors is the difference of their positions |
| `DequeIter.Less` | deque.hpp:106-108 | `operator<` is irreflexive and, on distinct cursors, holds exactly when the other cursor is not before this one; `DequeIter.LessIsPosOrder` proves it is the order of positions |
| `DequeIter.LessIsPosOrder` | deque.hpp:106-108 | `operator<` holds exactly when the first cursor's position is smaller |
| `DequeIter.AddIsFloorStep` | deque.hpp:79-91 | `+= n` lands `floor((cur + n) / b)` buffers on, at slot `(cur + n) mod b` |
| `DequeIter.StepsAgree` | deque.hpp:52-100 | `++` is `+= 1`, `--` is `+= -1`, `- n` undoes `+ n`, and the difference of `c + n` and `c` is `n` |
| `DequeIter.AddAdd` | deque.hpp:79-95 | moving by `j` then by `m` is moving by `j + m` |
| `DequeIter.NodeMono` | deque.hpp:106-108 | a cursor at a larger position lies in the same or a later buffer |
| `DequeIter.AddRebase` | deque.hpp:39-43 | moving a cursor's buffer to another map slot moves every cursor derived from it by the same number of map slots |
| `Deques.FillBuffer` | deque.hpp:274-277 | `uninitialized_fill` over slots `[from, to)` of one buffer writes `value` there and leaves the other slots alone |
| `Deques.AllocateNode` | deque.hpp:165-167 | `allocate_node` gives a buffer of `buffer_size()` slots |
| `Deques.CreateMapAndNodes` | deque.hpp:283-307 | `create_map_and_nodes` builds a map of `max(8, n / b + 3)` slots whose centred `n / b + 1` slots hold buffers of `b` slots |
| `Deques.FillNodes` | deque.hpp:268-281 | the loop of `fill_initialize` fills every whole buffer before the last one, then the first `n mod b` slots of the last |
| `Deques.CopyWithin` | deque.hpp:358-359 | `std::copy` of map slots to an earlier place in the same map moves them there and leaves the other slots alone |
| `Deques.CopyWithinBackward` | deque.hpp:360-361 | `std::copy_backward` of map slots to a later place in the same map moves them there and leaves the other slots alone |
| `Deques.CopyNodes` | deque.hpp:363-368 | `std::copy` of map slots into a new map places them from `at` on and leaves the other slots alone |
| `Deques.NewStartFits` | deque.hpp:355-367 | the place `reallocate_map` picks for the live buffers leaves room for the slots it was asked to add, at the requested end |
| `Deques.Reallocated` | deque.hpp:348-376 | `reallocate_map` recentres the live buffers in place when the map has more than twice the slots needed, and otherwise moves them to a map of `size + max(size, n) + 2` slots; the live buffers arrive unchanged and the added slots fit |
| `Deques.Inserted` | deque.hpp:252-264 | the sequence after inserting `x` before index `i`: the prefix, `x`, then the tail |
| `Deques.ShiftedLayout` | deque.hpp:374-375 | moving the live buffers and every cursor by the same number of map slots keeps the layout and every stored element |
| `Deques.Recentre` | deque.hpp:348-376 | `reallocate_map` on the map value keeps every element, keeps the offsets of `start` and `finish`, and leaves the free map slots it was asked for |
| `Deques.SlotsDistinct` | deque.hpp:104-105 | different elements sit at different cursors, so cursor equality is index equality |
| `Deques.Written` | deque.hpp:45 | writing through the cursor of element `k` replaces element `k` and no other |
| `Deques.Copy` | deque.hpp:246 | `std::copy` over the deque's cursors copies the elements `[f, l)` over those from `d` on (`d <= f`) and returns the cursor after the last one written |
| `Deques.CopyBackward` | deque.hpp:243 | `std::copy_backward` over the deque's cursors copies `[f, l)` over the elements ending before `e` (`l <= e`) and returns the cursor of the first one written |
| `Deques.ErasedByFront` | deque.hpp:242-244 | moving the elements before `i` one slot back and dropping the first slot erases element `i` |
| `Deques.ErasedByBack` | deque.hpp:245-248 | moving the elements after `i` one slot forward and dropping the last slot erases element `i` |
| `Deques.RangeErasedByFront` | deque.hpp:423-429 | moving the elements before `i` by `j - i` slots and dropping the first `j - i` slots erases `[i, j)` |
| `Deques.RangeErasedByBack` | deque.hpp:430-436 | moving the elements from `j` on by `j - i` slots and dropping the last `j - i` slots erases `[i, j)` |
| `Deques.InsertedByFront` | deque.hpp:449-458 | after `push_front(front())`, moving elements `1..i` one slot forward and writing `x` at `i` inserts `x` before index `i` |
| `Deques.InsertedByBack` | deque.hpp:459-467 | after `push_back(back())`, moving elements `i..n-1` one slot back and writing `x` at `i` inserts `x` before index `i` |
| `Deques.Deque.constructor` | deque.hpp:173-179 | `deque(n, value)` holds `n` copies of `value` in a map of `max(8, n / b + 3)` slots spanning `n / b + 1` buffers, with `start` at the first slot of its buffer |
| `Deques.Deque.Deref` | deque.hpp:45 | `operator*` on the cursor of element `k` yields element `k` |
| `Deques.Deque.Begin` | deque.hpp:135 | `begin()` is the cursor of the first element |
| `Deques.Deque.End` | deque.hpp:136 | `end()` is the cursor one past the last element, `size()` positions after `begin()` |
| `Deques.Deque.Index` | deque.hpp:138-140 | `operator[](n)` is element `n` |
| `Deques.Deque.Front` | deque.hpp:142 | `front()` is the first element |
| `Deques.Deque.Back` | deque.hpp:143-147 | `back()` is the last element |
| `Deques.Deque.Size` | deque.hpp:149 | `size()` is the number of elements |
| `Deques.Deque.Empty` | deque.hpp:151 | `empty()` holds exactly when there are no elements |
| `Deques.Deque.Assign` | deque.hpp:45 | assigning through the cursor of element `k` replaces element `k` only and moves no cursor |
| `Deques.Deque.PushBack` | deque.hpp:182-189 | `push_back(t)` appends `t`; with room in the last buffer neither `start` nor the map changes |
| `Deques.Deque.PushBackAux` | deque.hpp:309-327 | `push_back_aux`, with the copy made from `t`, appends `t` and leaves `finish` at the first slot of a new buffer |
| `Deques.Deque.PushBackAuxAsWritten` | deque.hpp:309-327 | `push_back_aux` as written appends the default-initialized `t_copy`, modelled as the fixed value `dflt`, and so differs from `t` whenever `t` is not that value |
| `Deques.Deque.StoreAtBackInNewNode` | deque.hpp:314-318 | after the reservation, storing at the last slot and moving `finish` to a new buffer appends the value |
| `Deques.Deque.PushFront` | deque.hpp:190-197 | `push_front(t)` prepends `t`; with room in the first buffer neither `finish` nor the map changes |
| `Deques.Deque.PushFrontAux` | deque.hpp:329-346 | `push_front_aux` prepends `t` and leaves `start` at the last slot of a new buffer |
| `Deques.Deque.StoreAtFrontInNewNode` | deque.hpp:334-338 | after the reservation, moving `start` to the last slot of a new buffer and storing there prepends the value |
| `Deques.Deque.ReserveMapAtBack` | deque.hpp:204-207 | `reserve_map_at_back(n)` keeps the elements and leaves `n` free map slots after `finish`, changing nothing when they were already there |
| `Deques.Deque.ReserveMapAtFront` | deque.hpp:208-211 | `reserve_map_at_front(n)` keeps the elements and leaves `n` free map slots before `start`, changing nothing when they were already there |
| `Deques.Deque.ReallocateMap` | deque.hpp:348-376 | `reallocate_map` keeps the elements and the live buffers, gives the map the size the source computes, and leaves the requested free slots at the requested end |
| `Deques.Deque.PopBack` | deque.hpp:215-222 | `pop_back()` drops the last element and changes neither `start` nor the map |
| `Deques.Deque.PopBackAux` | deque.hpp:378-385 | `pop_back_aux` drops the last element and leaves `finish` at the last slot of the previous buffer |
| `Deques.Deque.PopFront` | deque.hpp:223-230 | `pop_front()` drops the first element and changes neither `finish` nor the map |
| `Deques.Deque.PopFrontAux` | deque.hpp:387-394 | `pop_front_aux` drops the first element and leaves `start` at the first slot of the next buffer |
| `Deques.Deque.Clear` | deque.hpp:396-411 | `clear()` leaves no elements, with `finish` back on `start` |
| `Deques.Deque.CopyElems` | deque.hpp:246 | `std::copy` on the deque's own cursors copies `[f, l)` over the elements from `d` on and moves no cursor |
| `Deques.Deque.CopyElemsBackward` | deque.hpp:243 | `std::copy_backward` on the deque's own cursors copies `[f, l)` over the elements ending before `e` and moves no cursor |
| `Deques.Deque.Erase` | deque.hpp:238-250 | `erase(pos)` removes exactly element `i` and returns the cursor of the element that followed it |
| `Deques.Deque.EraseRange` | deque.hpp:413-440 | `erase(first, last)` removes exactly elements `[i, j)` and returns the cursor of the element that followed them |
| `Deques.Deque.DropFront` | deque.hpp:425-429 | dropping the first `n` elements moves `start` to the cursor of element `n` and keeps the rest |
| `Deques.Deque.DropBack` | deque.hpp:432-436 | dropping the last `n` elements moves `finish` back by `n` and keeps the rest |
| `Deques.Deque.Insert` | deque.hpp:252-264 | `insert(position, x)` inserts `x` before element `i`, at the front, at the back or inside, and returns the cursor of the new element |
| `Deques.Deque.InsertAux` | deque.hpp:443-470 | `insert_aux(pos, x)` inserts `x` before an inner element `i` and returns its cursor |
| `Deques.Deque.InsertAuxFront` | deque.hpp:449-458 | the front-half branch of `insert_aux` inserts `x` before element `index` |
| `Deques.Deque.InsertAuxBack` | deque.hpp:459-467 | the back-half branch of `insert_aux` inserts `x` before element `index` |
| `Queues.Queue.constructor` | queue.hpp:12 | `queue()` starts with an empty deque |
| `Queues.Queue.Empty` | queue.hpp:31 | `empty()` holds exactly when the queue holds nothing |
| `Queues.Queue.Size` | queue.hpp:32 | `size()` is the number of elements held |
| `Queues.Queue.Front` | queue.hpp:33-34 | `front()` is the oldest element held |
| `Queues.Queue.Push` | queue.hpp:36 | `push(x)` appends `x` at the back |
| `Queues.Queue.Pop` | queue.hpp:37 | `pop()` removes the oldest element |
| `Queues.FifoOrder` | tests/queue.cpp:35-48 | pushing `0 .. n-1` and popping until empty sees the fronts in the order pushed |
| `Stacks.Stack.constructor` | stack.hpp:10 | `stack()` starts with an empty deque |
| `Stacks.Stack.Empty` | stack.hpp:29 | `empty()` holds exactly when the stack holds nothing |
| `Stacks.Stack.Size` | stack.hpp:30 | `size()` is the number of elements held |
| `Stacks.Stack.Top` | stack.hpp:31-32 | `top()` is the newest element held |
| `Stacks.Stack.Push` | stack.hpp:34 | `push(x)` appends `x` at the top |
| `Stacks.Stack.Pop` | stack.hpp:35 | `pop()` removes the newest element |
| `Stacks.LifoOrder` | tests/stack.cpp:36-49 | pushing `0 .. n-1` and popping until empty sees the tops in reverse order of pushing |
| `AlgoHeap.Parent` | algoheap.hpp:14-22 | `(i - 1) / 2` is, for every slot but the root, a smaller slot whose left or right child is `i` |
| `AlgoHeap.BelowRoot` | algoheap.hpp:11-25 | every slot lies in the subtree of the root, so a sift-up to `topIndex` 0 may reach any slot |
| `AlgoHeap.SiftUp` | algoheap.hpp:108-118 | `__push_heap` changes no slot after the hole it starts from |
| `AlgoHeap.Descend` | algoheap.hpp:136-148 | the descent of `__adjust_heap` ends at a hole at or after where it started, with no child left in the range, and changes no slot from `len` on |
| `AlgoHeap.Adjust` | algoheap.hpp:133-150 | `__adjust_heap` changes no slot from `len` on except the starting hole |
| `AlgoHeap.UpdateSwap` | algoheap.hpp:113 | writing two values at two slots in either order of values keeps the same multiset |
| `AlgoHeap.SiftUpMultiset` | algoheap.hpp:108-118 | `__push_heap` yields the elements of the range with `value` in the hole |
| `AlgoHeap.DescendMultiset` | algoheap.hpp:136-148 | the descent moves the hole without losing or duplicating any element |
| `AlgoHeap.AdjustMultiset` | algoheap.hpp:133-150 | `__adjust_heap` yields the elements of the range with `value` in the starting hole |
| `AlgoHeap.SiftUpHeap` | algoheap.hpp:108-118 | sifting `value` up from a hole whose subtree is otherwise in heap order restores heap order from `topIndex` on |
| `AlgoHeap.SiftUpStep` | algoheap.hpp:112-116 | one move of the sift-up loop keeps the hole invariant, with `value` above the new hole's children |
| `AlgoHeap.DescendHoleOk` | algoheap.hpp:136-148 | the descent keeps the hole invariant, stays in the subtree of its start and ends inside the range |
| `AlgoHeap.DescendStep` | algoheap.hpp:139-142 | moving the larger child up into the hole keeps the hole invariant |
| `AlgoHeap.AdjustIsHeap` | algoheap.hpp:133-150 | `__adjust_heap` at a slot whose subtrees are heaps makes the subtree rooted there a heap |
| `AlgoHeap.RootIsMax` | algoheap.hpp:17 | no element of a heap is greater than its root |
| `AlgoHeap.RootIsMaxAll` | algoheap.hpp:17 | the root of a heap is not less than any element of it |
| `AlgoHeap.PushHeapIsHeap` | algoheap.hpp:120-130 | `push_heap` on a heap of `n - 1` followed by a new element makes a heap of `n` with the same elements, and touches nothing after it |
| `AlgoHeap.PushHeapOrder` | algoheap.hpp:120-130 | `push_heap` on a heap of `n - 1` gives a heap of `n` |
| `AlgoHeap.PushHeapKeeps` | algoheap.hpp:120-130 | `push_heap` keeps the elements and leaves the slots from `n` on alone |
| `AlgoHeap.PopHeapMoves` | algoheap.hpp:152-169 | `pop_heap` moves the root to `n - 1`, keeps the elements and leaves the slots from `n` on alone |
| `AlgoHeap.PopHeapSlots` | algoheap.hpp:152-163 | `pop_heap` moves the root to `n - 1` and leaves the slots from `n` on alone |
| `AlgoHeap.PopHeapMultiset` | algoheap.hpp:152-163 | `pop_heap` keeps the elements of the whole range |
| `AlgoHeap.PopHeapIsHeap` | algoheap.hpp:152-169 | `pop_heap` on a heap of `n`, sifting with the same comparator, leaves a heap of `n - 1` |
| `AlgoHeap.MakeHeapFromIsHeap` | algoheap.hpp:183-191 | adjusting every parent from `parent` down to 0 makes a heap when the subtrees below `parent` were heaps already |
| `AlgoHeap.MakeHeapFromMultiset` | algoheap.hpp:183-191 | the loop of `__make_heap` keeps the elements and leaves the slots after `len` alone |
| `AlgoHeap.MakeHeapIsHeap` | algoheap.hpp:180-198 | `make_heap` turns any range into a heap |
| `AlgoHeap.MakeHeapMultiset` | algoheap.hpp:180-198 | `make_heap` keeps the elements and leaves the slots after the range alone |
| `AlgoHeap.SortStep` | algoheap.hpp:175-176 | one `pop_heap` of `sort_heap` keeps the loop invariant with one element fewer in the heap |
| `AlgoHeap.PrefixMultiset` | algoheap.hpp:175-176 | a permutation that fixes every slot from `k` on permutes the slots before `k` among themselves |
| `AlgoHeap.SortHeapSorted` | algoheap.hpp:172-177 | from the loop invariant, `sort_heap` ends with the whole range ascending |
| `AlgoHeap.SortHeapMultiset` | algoheap.hpp:172-177 | `sort_heap` keeps the elements and leaves the slots after the range alone |
| `AlgoHeap.SortHeapIsSorted` | algoheap.hpp:172-177 | `sort_heap` on a heap leaves the range ascending |
| `AlgoHeap.IntOrders` | algoheap.hpp:17 | `<` and `>` on integers are strict weak orders |
| `AlgoHeap.AdjustSiftsWithLess` | algoheap.hpp:149 | `pop_heap` with `greater` on the heap 1, 2, 3 gives 3, 2, 1 when the last sift-up uses `<` as written, which leaves no heap, and 2, 3, 1 when it uses `comp` |
| `AlgoHeap.PushHeapHole` | algoheap.hpp:108-118 | the `__push_heap` loop on the array computes `SiftUp` |
| `AlgoHeap.AdjustHeap` | algoheap.hpp:133-150 | `__adjust_heap` on the array computes `Adjust` |
| `AlgoHeap.DescendHole` | algoheap.hpp:136-148 | the descending loop on the array computes `Descend` and returns its final hole |
| `AlgoHeap.PushHeapBy` | algoheap.hpp:120-130 | `push_heap(first, first + n, comp)` turns a heap of `n - 1` plus a new element into a heap of `n` with the same elements |
| `AlgoHeap.PopHeapWith` | algoheap.hpp:152-169 | `pop_heap` with any final sift-up comparator moves the root to `n - 1` and keeps the elements |
| `AlgoHeap.PopHeapBy` | algoheap.hpp:152-169 | `pop_heap(first, first + n, comp)`, sifting with `comp`, moves the maximum to `n - 1`, keeps the elements and leaves a heap of `n - 1` |
| `AlgoHeap.MakeHeapWith` | algoheap.hpp:180-198 | `make_heap` with any final sift-up comparator computes `MakeHeap` and keeps the elements |
| `AlgoHeap.MakeHeapSiftsWithLess` | algoheap.hpp:149 | `make_heap` with `greater` on `[1, 2, 3]` gives `[2, 1, 3]`, no heap under `greater`, when the last sift-up uses `<` as written, and leaves the heap `[1, 2, 3]` when it uses `comp` |
| `AlgoHeap.MakeHeapBy` | algoheap.hpp:180-198 | `make_heap(first, first + n, comp)`, sifting with `comp`, makes a heap of the same elements |
| `AlgoHeap.SortHeapWith` | algoheap.hpp:172-177 | `sort_heap` with any final sift-up comparator computes `SortHeap` and keeps the elements |
| `AlgoHeap.SortHeapBy` | algoheap.hpp:172-177 | `sort_heap(first, first + n, comp)` with the corrected sift-up by `comp` leaves a heap ascending under `comp`, with the same elements |
| `AlgoHeap.MakeHeapOfIota` | tests/algorithm_heap.cpp:18-28 | `make_heap` on 0 .. 9 gives 9, 8, 6, 7, 4, 5, 2, 0, 3, 1 |
| `AlgoHeap.HeapOfPrefix` | algoheap.hpp:180-198 | whether a range is a heap depends only on the slots in it |
| `PriorityQueues.PriorityQueue.constructor` | pqueue.hpp:23-24 | `priority_queue(x)` holds nothing and keeps the comparator `x` |
| `PriorityQueues.PriorityQueue.FromRange` | pqueue.hpp:25-29 | `priority_queue(first, last, x)`, with the corrected sift-up by `x` in `make_heap`, holds exactly the elements of the range, arranged as a heap under `x` |
| `PriorityQueues.PriorityQueue.Empty` | pqueue.hpp:36 | `empty()` holds exactly when nothing is held |
| `PriorityQueues.PriorityQueue.Size` | pqueue.hpp:37 | `size()` is the number of elements held |
| `PriorityQueues.PriorityQueue.Top` | pqueue.hpp:38 | `top()` is an element held that no held element is greater than under `comp` |
| `PriorityQueues.PriorityQueue.Push` | pqueue.hpp:39-47 | `push(x)` adds `x` to what is held, one element more, and the container stays a heap |
| `PriorityQueues.PriorityQueue.Pop` | pqueue.hpp:48-56 | `pop()` removes one copy of the old `top()`, and the container stays a heap |
| `PriorityQueues.DrainExtends` | pqueue.hpp:38-56 | appending the current top to the tops seen so far keeps them non-increasing and above what is still held, losing no element |
| `PriorityQueues.DrainStep` | pqueue.hpp:38-56 | one `top()` then `pop()` moves the top from the queue to the output while keeping the output non-increasing and above the rest |
| `PriorityQueues.Drain` | tests/priority_queue.cpp:19-28 | popping until empty yields the held elements, each exactly as often as held, in non-increasing order under `comp` |

## Left out

- Allocation and raw storage (memory/alloc.hpp, memory/construct.hpp, memory/utils.hpp) are not part of this model. Constructing a slot is writing it, destroying a slot is forgetting it, allocating is a fresh array or buffer, and deallocating drops it.
- Exceptions: every `try`/`catch`/rethrow path (deque.hpp:273-280, 295-301, 315-326 and 335-345; vector.hpp:131-141 and 181-190; pqueue.hpp:40-55). Dafny has no exceptions. So the rollback in `push_front_aux`, which frees `*(finish.node - 1)` instead of the new node (deque.hpp:343), is not modelled.
- Deque buffers are sequence values (`nodes: seq<seq<T>>`) that the operations reassign. Their aliasing and in-place update are therefore not captured: two map slots holding the same buffer pointer, or a write through one cursor seen through another copy of the map. Element order, positions and all cursor arithmetic are modelled.
- Which buffers are deallocated is not tracked: that `pop_front` and `pop_back` free a buffer only when it becomes empty, and which buffers `clear` and `erase` free, is not stated. Map slots outside the live range simply hold no element.
- `Deques.Deque.PushBack` and `Deques.Deque.Insert` use the corrected `push_back_aux`, which appends `t`. The as-written one, which appends a default-initialized value instead of `t`, is `Deques.Deque.PushBackAuxAsWritten` (see Findings). The back branch of `insert_aux` inherits the defect in the source whenever its `push_back(back())` crosses a buffer boundary.
- `Queues.Queue.Push` uses the corrected `push_back_aux`. As written, a push that fills the last slot of a buffer appends a default-initialized value instead of `x` (deque.hpp:309-316).
- `Queues.FifoOrder` rests on the corrected `push_back`. As written with a buffer size of 1 every push takes `push_back_aux`, so after pushing 0, 1, 2 the fronts are not 0, 1, 2: each holds a default-initialized value, indeterminate for `int`.
- `Stacks.Stack.Push` uses the corrected `push_back_aux`. As written, a push that fills the last slot of a buffer appends a default-initialized value instead of `x` (deque.hpp:309-316).
- `Stacks.LifoOrder` rests on the corrected `push_back`. As written the tops are default-initialized values, not the pushed ones, wherever a push filled the last slot of a buffer.
- `Deques.Deque.constructor` takes `n` as a natural number; the source's `deque(int n, value)` with a negative `n` is not modelled. `deque()` is `deque(0, T{})`.
- `max_size()` (deque.hpp:150) and all machine-width wrap-around: integers are unbounded. C++'s truncating `/` and `%` are written out where an operand can be negative.
- `operator->` of the deque and list iterators and of `reverse_iterator`: they only return the address of `operator*`.
- __rb_tree.hpp is not part of this model: `__insert`, `__copy` and `__erase` have no bodies, so no tree can be built.
- `search` (a stub, algorithm.hpp:61-65) and `find_end`, which therefore always returns `last1` (algorithm.hpp:82-120), are not modelled.
- `minmax_element(first, last, comp)` (algorithm.hpp:250-258) uses the comma operator where a pair is meant and is not modelled; the non-comparator `minmax_element` is.
- `list::transfer` (list.hpp:143-153) has unbalanced parentheses and is not modelled.
- `fill_n` (algobase.hpp:38-42) returns a value from a `void` function and is not modelled.
- `Lists.List.Size`: `size()` calls a three-argument `distance` that iterator.hpp does not define (list.hpp:98). It is modelled as counting the steps from `begin()` to `end()`, as the two-argument `distance` does.
- `istream_iterator` and `ostream_iterator` (iterator.hpp:280-341), `stl::rand` seeded from the clock (utility.hpp:49-58) and the colour strings of __debug.hpp are I/O or nondeterminism and are not modelled.
- The iterator category tags, `iterator_traits` and the typedef plumbing (iterator.hpp:9-72) become the `Iterators.Category` datatype and the choice of cursor type.
- `Numeric.Power` takes `x` as an integer and `n` as a natural number, as do `Numeric.PowerAsWritten` and `Numeric.PowerPositive`. The source is generic in `T` and in the `Integer` type of `n`. With a negative `n`, `n >>= 1` never reaches 0 (`-1 >> 1` is `-1`), so the source does not terminate; that case is not modelled.
- `Iterators.AdvanceInput` requires `n >= 0`. The source's input-iterator `advance` loops on `n--`, which never reaches 0 from a negative `n`.
- `*` and `++` of the three insert iterators return the iterator itself and change nothing, so they have no model member.
- The postfix `++` and `--` of `reverse_iterator` (iterator.hpp:248-261) and of the list iterator (list.hpp:44-58) return a reference to a local copy, which dangles. They are modelled by their effect on the iterator only. The default constructor of `reverse_iterator` is not modelled.
- `pair`'s default constructor is not modelled: `T1()` and `T2()` have no counterpart for a generic type.
- The deprecated `==` and `<` of `queue` and `stack` (queue.hpp:21-26, stack.hpp:19-24) are not modelled: they compare the underlying deques, and the deque defines neither operator.
- `PriorityQueues.PriorityQueue.FromRange` builds its vector by `push_back` of each element: `c(first, last)` (pqueue.hpp:27) names a range constructor that vector.hpp does not declare.
- `PriorityQueues.PriorityQueue.FromRange` uses the corrected `make_heap(comp)`, whose final sift-up uses `comp`. As written it uses `<` (algoheap.hpp:149), so with `greater` the range `[1, 2, 3]` becomes `[2, 1, 3]`, which is no heap, and `top()` is 2 (`AlgoHeap.MakeHeapSiftsWithLess`). The two agree for the default `std::less`.
- `AlgoHeap.SortHeapBy` uses the corrected `pop_heap(comp)`, whose final sift-up uses `comp`. As written `sort_heap(comp)` sifts up with `<` (algoheap.hpp:149), so for a comparator other than `<` the result need not be sorted; `AlgoHeap.SortHeapWith` models it with the final comparator as a parameter.
- `PriorityQueues.PriorityQueue.Pop` uses the corrected `pop_heap` whose final sift-up uses `comp`. As written it uses `<` (algoheap.hpp:149), which is the same for the default `std::less`.
- The one-argument `resize(new_size)` and `explicit vector(n)` use `T()`; they are the two-argument forms with a default value and have no separate member.
- `Vectors.Vector.InsertRealloc`: the slots of a new block past the elements hold copies of `x` instead of uninitialised storage.

## Findings

| source | as written | input that shows it | evidently intended | confidence | as-written member | corrected member |
|---|---|---|---|---|---|---|
| deque.hpp:312-316 | `push_back_aux` constructs a default-initialized `t_copy` and stores that | `push_back(7)` on a deque of `int` whose last buffer has one free slot does not append 7: it stores a default-initialized `t_copy` (indeterminate for `int`) | store a copy of `t` | high, not executed | `Deques.Deque.PushBackAuxAsWritten` | `Deques.Deque.PushBackAux` |
| algobase.hpp:98-101 | `max(a, b, comp)` returns `comp(b, a) ? b : a`, the same as `min` | `max(1, 2, less)` is 1 (`AlgoBase.ComparatorMinMax`) | `comp(a, b) ? b : a` | high, not executed | `AlgoBase.MaxByAsWritten` | `AlgoBase.MaxBy` |
| algobase.hpp:120-129 | `mismatch` with a predicate passes the iterator `first1`, not `*first1`, so the call does not compile for a predicate on element values such as `equal_to<int>` | any call with `equal_to<int>` is rejected by the compiler; taking the iterator for its index, `[5, 5]` against itself stops at position 0 (`AlgoBase.MismatchPredicateCounterexample`) | `binary_pred(*first1, *first2)` | high, not executed | `AlgoBase.MismatchByAsWritten` | `AlgoBase.MismatchBy` |
| functional.hpp:196-201 | `binder2nd` calls `op(value, x)` | `bind2nd(minus, 1)(5)` is -4 | `op(x, value)`, giving 4 | high, not executed | `Functional.Binder2ndAsWrittenSwaps` | `Functional.BinderLaws` |
| numeric.hpp:107-117 | `partial_sum` with an op folds `binary_op(*first, value)` | with `minus` on `[8, 2]` it writes `[8, -6]` (`Numeric.RunningFoldsOperandOrder`) | `binary_op(value, *first)`, writing `[8, 6]` | high, not executed | `Numeric.PartialSumByAsWritten` | `Numeric.PartialSumBy` |
| numeric.hpp:131-132 | `power(x, 0, op)` returns the literal 1 whatever `op` is | `power(3, 0, plus)` is 1 | `identity_element(op)`, 0 for `plus` | medium, not executed | `Numeric.PowerAsWritten` | `Numeric.Power` |
| algoheap.hpp:149 | the comparator `__adjust_heap` ends with the non-comparator `__push_heap`, which sifts by `<` | `pop_heap` with `greater` on the heap `[1, 2, 3]` gives `[3, 2, 1]`, whose first two slots are no heap under `greater` | sift up with `comp`, giving `[2, 3, 1]` | high, not executed | `AlgoHeap.AdjustSiftsWithLess` | `AlgoHeap.PopHeapBy` |
| vector.hpp:118-124 | the in-capacity `insert(position, x)` reads `*(finish - 1)` and calls `copy_backward(position, finish - 2, finish - 1)` | `insert(end(), x)` on an empty vector with spare capacity reads before `start`; on a non-empty one the `copy_backward` range is reversed (`Vectors.InsertAtEndUndefined`) | construct `x` at `finish` when `position == end()` | medium, not executed | `Vectors.Vector.InsertAsWritten` | `Vectors.Vector.Insert` |
| algorithm.hpp:227-235 | `min_element(first, last, comp)` tests `comp(*result, *first)`, the test of `max_element` | on `[2, 1, 3]` with `less` it returns position 2 (`Algorithms.MinElementByAsWrittenFindsMax`) | `comp(*first, *result)`, returning position 1 | high, not executed | `Algorithms.MinElementByAsWritten` | `Algorithms.MinElementBy` |
