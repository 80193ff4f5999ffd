/** The buffer-size policy and the cursor (iterator) of the segmented deque.

    A cursor designates a slot of one buffer: `node` is the index of the
    map slot that holds the buffer and `cur` the offset of the element
    inside it (the source's `cur - first`). Every buffer holds `b`
    elements, so the source's `last - first` is `b`. The linear position
    of a cursor is node * b + cur; all cursor arithmetic is specified by
    its effect on that position. */
module DequeIter {
  import opened Arith

  /** Elements per buffer for a size hint `n` and an element size `sz`
      (in bytes): the hint when it is non-zero, otherwise as many
      elements as fit in 512 bytes, and at least one. */
  function BufSize(n: nat, sz: nat): (b: nat)
    requires sz > 0
    ensures b > 0
    ensures n != 0 ==> b == n
    ensures n == 0 && sz < 512 ==> b * sz <= 512 < (b + 1) * sz
    ensures n == 0 && sz >= 512 ==> b == 1
  {
    if n != 0 then n else if sz < 512 then 512 / sz else 1
  }

  lemma BufSizeExamples()
    ensures BufSize(32, 4) == 32
    ensures BufSize(0, 4) == 128
    ensures BufSize(0, 600) == 1
    ensures BufSize(0, 3) == 170
  {
  }

  datatype Cursor = Cursor(node: int, cur: int)

  /** first <= cur < last */
  predicate InBuffer(c: Cursor, b: nat)
  {
    0 <= c.cur < b
  }

  /** The position of a cursor in the flat index space of the map. */
  function Pos(c: Cursor, b: nat): int
  {
    c.node * b + c.cur
  }

  /** Cursors inside their buffer are determined by their position. */
  lemma {:induction false} PosInjective(a: Cursor, x: Cursor, b: nat)
    requires InBuffer(a, b) && InBuffer(x, b)
    ensures Pos(a, b) == Pos(x, b) <==> a == x
  {
    if Pos(a, b) == Pos(x, b) {
      DivModUnique(Pos(a, b), b, a.node, a.cur);
      DivModUnique(Pos(x, b), b, x.node, x.cur);
    }
  }

  /** operator++: step to the next slot, moving to the first slot of the
      next buffer when the end of the current one is reached. */
  function Next(c: Cursor, b: nat): (r: Cursor)
    requires InBuffer(c, b)
    ensures InBuffer(r, b) && Pos(r, b) == Pos(c, b) + 1
  {
    if c.cur + 1 == b then Cursor(c.node + 1, 0) else Cursor(c.node, c.cur + 1)
  }

  /** operator--: step back, moving to the last slot of the previous
      buffer from the first slot of a buffer. */
  function Prev(c: Cursor, b: nat): (r: Cursor)
    requires InBuffer(c, b)
    ensures InBuffer(r, b) && Pos(r, b) == Pos(c, b) - 1
  {
    if c.cur == 0 then Cursor(c.node - 1, b - 1) else Cursor(c.node, c.cur - 1)
  }

  /** operator+= and operator+: stay in the buffer when the new offset
      lies in [0, b), otherwise step over whole buffers, rounding the
      buffer count down also for negative offsets. */
  function Add(c: Cursor, n: int, b: nat): (r: Cursor)
    requires InBuffer(c, b)
    ensures InBuffer(r, b) && Pos(r, b) == Pos(c, b) + n
  {
    var offset := n + c.cur;
    if 0 <= offset < b then Cursor(c.node, c.cur + n)
    else
      var nodeOffset := if offset > 0 then offset / b else -((-offset - 1) / b) - 1;
      AddStep(c.node, offset, nodeOffset, b);
      Cursor(c.node + nodeOffset, offset - nodeOffset * b)
  }

  lemma AddStep(node: int, offset: int, nodeOffset: int, b: nat)
    requires b > 0
    requires nodeOffset == if offset > 0 then offset / b else -((-offset - 1) / b) - 1
    ensures 0 <= offset - nodeOffset * b < b
    ensures (node + nodeOffset) * b + (offset - nodeOffset * b) == node * b + offset
  {
    if offset > 0 {
      assert offset == offset / b * b + offset % b;
    } else {
      var m := (-offset - 1) / b;
      assert -offset - 1 == m * b + (-offset - 1) % b;
      assert nodeOffset * b == -(m * b) - b;
    }
    assert (node + nodeOffset) * b == node * b + nodeOffset * b;
  }

  /** operator-= and operator- (with a distance): move back by n. */
  function Sub(c: Cursor, n: int, b: nat): (r: Cursor)
    requires InBuffer(c, b)
    ensures InBuffer(r, b) && Pos(r, b) == Pos(c, b) - n
  {
    Add(c, -n, b)
  }

  /** operator- between cursors: whole buffers strictly between the two,
      plus the tail of `x`'s buffer and the head of `a`'s. */
  function Diff(a: Cursor, x: Cursor, b: nat): (d: int)
    ensures d == Pos(a, b) - Pos(x, b)
  {
    DiffStep(a, x, b);
    b * (a.node - x.node - 1) + a.cur + (b - x.cur)
  }

  lemma DiffStep(a: Cursor, x: Cursor, b: nat)
    ensures b * (a.node - x.node - 1) + a.cur + (b - x.cur) == Pos(a, b) - Pos(x, b)
  {
    assert b * (a.node - x.node - 1) == a.node * b - x.node * b - b;
  }

  /** operator<: the same buffer compares slots, otherwise map slots. */
  predicate Less(a: Cursor, x: Cursor): (r: bool)
    ensures r ==> a != x
    ensures a != x ==> (r <==> !(x.node < a.node || (x.node == a.node && x.cur < a.cur)))
  {
    if a.node == x.node then a.cur < x.cur else a.node < x.node
  }

  /** The cursor order is the order of positions. */
  lemma {:induction false} LessIsPosOrder(a: Cursor, x: Cursor, b: nat)
    requires InBuffer(a, b) && InBuffer(x, b)
    ensures Less(a, x) <==> Pos(a, b) < Pos(x, b)
  {
    if a.node < x.node {
      MulMono(a.node + 1, x.node, b);
      assert (a.node + 1) * b == a.node * b + b;
    } else if x.node < a.node {
      MulMono(x.node + 1, a.node, b);
      assert (x.node + 1) * b == x.node * b + b;
    }
  }

  /** += lands on the buffer floor((cur + n) / b) further on, at the slot
      (cur + n) mod b, for negative n as well. */
  lemma {:induction false} AddIsFloorStep(c: Cursor, n: int, b: nat)
    requires InBuffer(c, b)
    ensures Add(c, n, b) == Cursor(c.node + (c.cur + n) / b, (c.cur + n) % b)
  {
    var r := Cursor(c.node + (c.cur + n) / b, (c.cur + n) % b);
    assert Pos(r, b) == Pos(c, b) + n by {
      assert c.cur + n == (c.cur + n) / b * b + (c.cur + n) % b;
      assert (c.node + (c.cur + n) / b) * b == c.node * b + (c.cur + n) / b * b;
    }
    PosInjective(Add(c, n, b), r, b);
  }

  /** ++ and -- are += 1 and += -1, and - undoes +. */
  lemma {:induction false} StepsAgree(c: Cursor, n: int, b: nat)
    requires InBuffer(c, b)
    ensures Next(c, b) == Add(c, 1, b)
    ensures Prev(c, b) == Add(c, -1, b)
    ensures Sub(Add(c, n, b), n, b) == c
    ensures Diff(Add(c, n, b), c, b) == n
  {
    PosInjective(Next(c, b), Add(c, 1, b), b);
    PosInjective(Prev(c, b), Add(c, -1, b), b);
    PosInjective(Sub(Add(c, n, b), n, b), c, b);
  }

  /** Two moves compose into one. */
  lemma {:induction false} AddAdd(c: Cursor, j: int, m: int, b: nat)
    requires InBuffer(c, b)
    ensures Add(Add(c, j, b), m, b) == Add(c, j + m, b)
  {
    PosInjective(Add(Add(c, j, b), m, b), Add(c, j + m, b), b);
  }

  /** A cursor at a larger position is in the same or a later buffer. */
  lemma {:induction false} NodeMono(x: Cursor, y: Cursor, b: nat)
    requires InBuffer(x, b) && InBuffer(y, b) && Pos(x, b) <= Pos(y, b)
    ensures x.node <= y.node
  {
    LessIsPosOrder(y, x, b);
  }

  /** Moving a cursor to another map slot moves every cursor derived
      from it by the same number of slots. */
  lemma {:induction false} AddRebase(c: Cursor, node: int, k: int, b: nat)
    requires InBuffer(c, b)
    ensures Add(Cursor(node, c.cur), k, b) == Cursor(Add(c, k, b).node - c.node + node, Add(c, k, b).cur)
  {
    AddIsFloorStep(c, k, b);
    AddIsFloorStep(Cursor(node, c.cur), k, b);
  }

  /** Moving a cursor by d map slots moves its position by d buffers. */
  lemma {:induction false} PosShift(c: Cursor, d: int, b: nat)
    ensures Pos(Cursor(c.node + d, c.cur), b) == Pos(c, b) + d * b
  {
    assert (c.node + d) * b == c.node * b + d * b;
  }

  /** The cursor of offset k from the first slot of the buffer at map
      slot ns: it lies in one of the next n / b buffers when k <= n, and
      before slot n % b in the last of them when k < n. */
  lemma {:induction false} FloorSlot(ns: int, b: nat, k: nat, n: nat)
    requires b > 0 && k <= n
    ensures InBuffer(Cursor(ns + k / b, k % b), b)
    ensures Pos(Cursor(ns + k / b, k % b), b) == Pos(Cursor(ns, 0), b) + k
    ensures ns <= ns + k / b <= ns + n / b
    ensures k < n && k / b == n / b ==> k % b < n % b
    ensures k == 0 ==> Cursor(ns + k / b, k % b) == Cursor(ns, 0)
  {
    DivMono(k, n, b);
    SmallDiv(0, b);
    PosShift(Cursor(ns, k % b), k / b, b);
    assert k == k / b * b + k % b;
  }
}
