/** The segmented double-ended queue.

    The map `nodes` holds, from map slot start.node to finish.node, the
    buffers that contain the elements; every buffer has B slots. The
    element with index k lives at the cursor start + k. `Contents` is the
    sequence of elements and `Slots` the cursors start + 0 .. start +
    |Contents|. The map and its buffers are sequence values that the
    operations reassign. Map slots outside [start.node, finish.node] hold
    no element: either no buffer (the empty sequence) or a buffer the
    deque no longer uses. */
module Deques {
  import opened DequeIter

  /** uninitialized_fill over the slots [from, to) of one buffer. */
  method FillBuffer<T>(buf: seq<T>, from: nat, to: nat, value: T) returns (r: seq<T>)
    requires from <= to <= |buf|
    ensures |r| == |buf|
    ensures forall j :: from <= j < to ==> r[j] == value
    ensures forall j :: 0 <= j < |r| && !(from <= j < to) ==> r[j] == buf[j]
  {
    r := buf;
    var j := from;
    while j < to
      invariant from <= j <= to && |r| == |buf|
      invariant forall x :: from <= x < j ==> r[x] == value
      invariant forall x :: 0 <= x < |r| && !(from <= x < j) ==> r[x] == buf[x]
    {
      r := r[j := value];
      j := j + 1;
    }
  }

  /** allocate_node: a buffer of b slots (the source leaves them
      uninitialised; here they hold d). */
  function AllocateNode<T>(b: nat, d: T): (buf: seq<T>)
    ensures |buf| == b
    ensures forall j :: 0 <= j < b ==> buf[j] == d
  {
    seq(b, _ => d)
  }

  /** create_map_and_nodes: a map of max(8, n / b + 3) slots whose
      middle n / b + 1 slots receive buffers. */
  method CreateMapAndNodes<T>(n: nat, b: nat, d: T) returns (m: seq<seq<T>>, nstart: nat, nfinish: nat)
    requires b > 0
    ensures |m| == Max(8, n / b + 3)
    ensures nstart == (|m| - (n / b + 1)) / 2 && nfinish == nstart + n / b < |m|
    ensures forall i :: nstart <= i <= nfinish ==> |m[i]| == b
  {
    var numNodes := n / b + 1;
    var size := Max(8, numNodes + 2);
    m := seq(size, _ => []);
    nstart := (size - numNodes) / 2;
    nfinish := nstart + numNodes - 1;
    var cur := nstart;
    while cur <= nfinish
      invariant nstart <= cur <= nfinish + 1 && |m| == size
      invariant forall i :: nstart <= i < cur ==> |m[i]| == b
    {
      m := m[cur := AllocateNode(b, d)];
      cur := cur + 1;
    }
  }

  /** The filling loop of fill_initialize: whole buffers from nstart to
      before nfinish, then the first r slots of the buffer at nfinish. */
  method FillNodes<T>(m: seq<seq<T>>, nstart: nat, nfinish: nat, b: nat, r: nat, value: T) returns (m2: seq<seq<T>>)
    requires nstart <= nfinish < |m| && r <= b
    requires forall i :: nstart <= i <= nfinish ==> |m[i]| == b
    ensures |m2| == |m|
    ensures forall i :: nstart <= i <= nfinish ==> |m2[i]| == b
    ensures forall i, j :: nstart <= i < nfinish && 0 <= j < b ==> m2[i][j] == value
    ensures forall j :: 0 <= j < r ==> m2[nfinish][j] == value
  {
    m2 := m;
    var cur := nstart;
    while cur < nfinish
      invariant nstart <= cur <= nfinish && |m2| == |m|
      invariant forall i :: nstart <= i <= nfinish ==> |m2[i]| == b
      invariant forall i, j :: nstart <= i < cur && 0 <= j < b ==> m2[i][j] == value
    {
      var filled := FillBuffer(m2[cur], 0, b, value);
      m2 := m2[cur := filled];
      cur := cur + 1;
    }
    var last := FillBuffer(m2[nfinish], 0, r, value);
    m2 := m2[nfinish := last];
  }

  /** std::copy of map slots [from, to) to the slots from `at` on inside
      the same map, front to back: correct when the target lies first. */
  method CopyWithin<A>(m: seq<A>, from: int, to: int, at: int) returns (r: seq<A>)
    requires 0 <= at <= from <= to <= |m|
    ensures |r| == |m|
    ensures forall x :: at <= x < at + (to - from) ==> r[x] == m[x - at + from]
    ensures forall x :: 0 <= x < |r| && !(at <= x < at + (to - from)) ==> r[x] == m[x]
  {
    r := m;
    var i := 0;
    while i < to - from
      invariant 0 <= i <= to - from && |r| == |m|
      invariant forall x :: at <= x < at + i ==> r[x] == m[x - at + from]
      invariant forall x :: 0 <= x < |r| && !(at <= x < at + i) ==> r[x] == m[x]
    {
      r := r[at + i := r[from + i]];
      i := i + 1;
    }
  }

  /** std::copy_backward of map slots [from, to) to the slots ending at
      atEnd inside the same map, back to front: correct when the target
      lies last. */
  method CopyWithinBackward<A>(m: seq<A>, from: int, to: int, atEnd: int) returns (r: seq<A>)
    requires 0 <= from <= to && from <= atEnd - (to - from) && atEnd <= |m|
    ensures |r| == |m|
    ensures forall x :: atEnd - (to - from) <= x < atEnd ==> r[x] == m[x - atEnd + to]
    ensures forall x :: 0 <= x < |r| && !(atEnd - (to - from) <= x < atEnd) ==> r[x] == m[x]
  {
    r := m;
    var i := to - from;
    while i > 0
      invariant 0 <= i <= to - from && |r| == |m|
      invariant forall x :: atEnd - (to - from) + i <= x < atEnd ==> r[x] == m[x - atEnd + to]
      invariant forall x :: 0 <= x < |r| && !(atEnd - (to - from) + i <= x < atEnd) ==> r[x] == m[x]
    {
      i := i - 1;
      r := r[atEnd - (to - from) + i := r[from + i]];
    }
  }

  /** std::copy of map slots [from, to) of src into another map dst from
      `at` on. */
  method CopyNodes<A>(src: seq<A>, from: int, to: int, dst: seq<A>, at: int) returns (r: seq<A>)
    requires 0 <= from <= to <= |src| && 0 <= at && at + (to - from) <= |dst|
    ensures |r| == |dst|
    ensures forall x :: at <= x < at + (to - from) ==> r[x] == src[x - at + from]
    ensures forall x :: 0 <= x < |r| && !(at <= x < at + (to - from)) ==> r[x] == dst[x]
  {
    r := dst;
    var i := 0;
    while i < to - from
      invariant 0 <= i <= to - from && |r| == |dst|
      invariant forall x :: at <= x < at + i ==> r[x] == src[x - at + from]
      invariant forall x :: 0 <= x < |r| && !(at <= x < at + i) ==> r[x] == dst[x]
    {
      r := r[at + i := src[from + i]];
      i := i + 1;
    }
  }

  /** Where reallocate_map puts the first live buffer: the live buffers
      and the added slots are centred, the added slots before the live
      buffers when they are added at the front. */
  function NewStart(size: int, newNum: int, toAdd: nat, atFront: bool): int
  {
    (size - newNum) / 2 + (if atFront then toAdd else 0)
  }

  /** After reallocate_map the reservation it was called for fits. */
  lemma {:induction false} NewStartFits(size: int, oldNum: nat, toAdd: nat, atFront: bool)
    requires oldNum >= 1 && size >= oldNum + toAdd + 2
    ensures var ns := NewStart(size, oldNum + toAdd, toAdd, atFront);
      && 0 <= ns && ns + oldNum <= size
      && (atFront ==> toAdd + 1 <= ns)
      && (!atFront ==> ns + oldNum - 1 + toAdd < size)
  {
  }

  /** The map reallocate_map leaves behind, and where the live buffers
      m[lo..hi] now start: recentred in place when the map has more than
      twice the slots needed, otherwise in a new map of |m| + max(|m|,
      nodesToAdd) + 2 slots. */
  method Reallocated<A>(m: seq<A>, lo: nat, hi: nat, nodesToAdd: nat, addAtFront: bool, empty: A) returns (r: seq<A>, ns: nat)
    requires lo <= hi < |m|
    ensures var newNum := hi - lo + 1 + nodesToAdd;
      && |r| == (if |m| > 2 * newNum then |m| else |m| + Max(|m|, nodesToAdd) + 2)
      && ns == NewStart(|r|, newNum, nodesToAdd, addAtFront)
    ensures ns + (hi - lo) < |r|
    ensures addAtFront ==> nodesToAdd + 1 <= ns
    ensures !addAtFront ==> ns + (hi - lo) + nodesToAdd < |r|
    ensures forall x :: ns <= x <= ns + (hi - lo) ==> r[x] == m[x - ns + lo]
  {
    var oldNum := hi - lo + 1;
    var newNum := oldNum + nodesToAdd;
    if |m| > 2 * newNum {
      ns := NewStart(|m|, newNum, nodesToAdd, addAtFront);
      NewStartFits(|m|, oldNum, nodesToAdd, addAtFront);
      if ns < lo {
        r := CopyWithin(m, lo, hi + 1, ns);
      } else {
        r := CopyWithinBackward(m, lo, hi + 1, ns + oldNum);
      }
    } else {
      var newMapSize := |m| + Max(|m|, nodesToAdd) + 2;
      ns := NewStart(newMapSize, newNum, nodesToAdd, addAtFront);
      NewStartFits(newMapSize, oldNum, nodesToAdd, addAtFront);
      r := CopyNodes(m, lo, hi + 1, seq(newMapSize, _ => empty), ns);
    }
  }

  function Max(a: int, b: int): (m: int)
    ensures m >= a && m >= b && (m == a || m == b)
  {
    if a < b then b else a
  }

  /** The sequence that inserting x before index i is meant to give. */
  function Inserted<T>(s: seq<T>, i: nat, x: T): (r: seq<T>)
    requires i <= |s|
    ensures |r| == |s| + 1 && r[i] == x
    ensures forall k :: 0 <= k < i ==> r[k] == s[k]
    ensures forall k :: i < k <= |s| ==> r[k] == s[k - 1]
  {
    s[..i] + [x] + s[i..]
  }

  /** Cursors moved d buffers along the map. */
  ghost function Shifted(sl: seq<Cursor>, d: int): (r: seq<Cursor>)
    ensures |r| == |sl|
    ensures forall k :: 0 <= k < |sl| ==> r[k] == Cursor(sl[k].node + d, sl[k].cur)
  {
    seq(|sl|, k requires 0 <= k < |sl| => Cursor(sl[k].node + d, sl[k].cur))
  }

  /** The live buffers m[lo..hi] exist and have b slots each. */
  ghost predicate Buffers<T>(m: seq<seq<T>>, lo: int, hi: int, b: nat)
  {
    0 <= lo <= hi < |m| && forall i :: lo <= i <= hi ==> |m[i]| == b
  }

  /** slots are the consecutive cursors from s to f, each inside its
      buffer and between the buffers of s and f. */
  ghost predicate Cursors(s: Cursor, f: Cursor, slots: seq<Cursor>, b: nat)
  {
    |slots| > 0 && slots[0] == s && slots[|slots| - 1] == f &&
    (forall k :: 0 <= k < |slots| ==>
       InBuffer(slots[k], b) && Pos(slots[k], b) == Pos(s, b) + k && s.node <= slots[k].node <= f.node)
  }

  /** The shape a deque keeps: the live buffers m[s.node..f.node] have b
      slots each, and slots are the consecutive cursors from s to f. */
  ghost predicate Layout<T>(m: seq<seq<T>>, s: Cursor, f: Cursor, slots: seq<Cursor>, b: nat)
  {
    Buffers(m, s.node, f.node, b) && Cursors(s, f, slots, b)
  }

  /** Element k of contents sits in the buffer slot that slots[k] designates. */
  ghost predicate Stored<T>(m: seq<seq<T>>, slots: seq<Cursor>, contents: seq<T>)
  {
    |contents| < |slots| &&
    (forall k {:trigger m[slots[k].node][slots[k].cur]} ::
       0 <= k < |contents| && 0 <= slots[k].node < |m| && 0 <= slots[k].cur < |m[slots[k].node]| ==>
       contents[k] == m[slots[k].node][slots[k].cur])
  }

  /** The stored-element fact for element k. */
  lemma StoredAt<T>(m: seq<seq<T>>, s: Cursor, f: Cursor, slots: seq<Cursor>, contents: seq<T>, b: nat, k: int)
    requires Layout(m, s, f, slots, b) && Stored(m, slots, contents) && 0 <= k < |contents|
    ensures k < |slots| && 0 <= slots[k].node < |m| && 0 <= slots[k].cur < |m[slots[k].node]|
    ensures contents[k] == m[slots[k].node][slots[k].cur]
  {
  }

  /** Moving the live buffers to the map slots from s2.node on, and every
      cursor with them, keeps the layout and the stored elements. */
  lemma {:induction false} ShiftedLayout<T>(m: seq<seq<T>>, s: Cursor, f: Cursor, slots: seq<Cursor>, contents: seq<T>, b: nat,
                                            m2: seq<seq<T>>, s2: Cursor, f2: Cursor, slots2: seq<Cursor>)
    requires Layout(m, s, f, slots, b) && Stored(m, slots, contents) && |contents| < |slots|
    requires 0 <= s2.node && f2.node < |m2| && f2.node - s2.node == f.node - s.node
    requires s2.cur == s.cur && f2.cur == f.cur && slots2 == Shifted(slots, s2.node - s.node)
    requires forall x :: s2.node <= x <= f2.node ==> m2[x] == m[x - s2.node + s.node]
    ensures Layout(m2, s2, f2, slots2, b) && Stored(m2, slots2, contents)
    ensures m2[s2.node..f2.node + 1] == m[s.node..f.node + 1]
  {
    ShiftedSlotsLayout(m, s, f, slots, b, m2, s2, f2, slots2);
    ShiftedStored(m, s, f, slots, contents, b, m2, s2.node - s.node, slots2);
    var live2, live := m2[s2.node..f2.node + 1], m[s.node..f.node + 1];
    forall x | 0 <= x < |live|
      ensures live2[x] == live[x]
    {
      assert m2[s2.node + x] == m[s.node + x];
    }
  }

  lemma {:induction false} ShiftedSlotsLayout<T>(m: seq<seq<T>>, s: Cursor, f: Cursor, slots: seq<Cursor>, b: nat,
                                                  m2: seq<seq<T>>, s2: Cursor, f2: Cursor, slots2: seq<Cursor>)
    requires Layout(m, s, f, slots, b)
    requires 0 <= s2.node && f2.node < |m2| && f2.node - s2.node == f.node - s.node
    requires s2.cur == s.cur && f2.cur == f.cur && slots2 == Shifted(slots, s2.node - s.node)
    requires forall x :: s2.node <= x <= f2.node ==> m2[x] == m[x - s2.node + s.node]
    ensures Layout(m2, s2, f2, slots2, b)
  {
    var d := s2.node - s.node;
    PosShift(s, d, b);
    forall k | 0 <= k < |slots|
      ensures InBuffer(slots2[k], b) && Pos(slots2[k], b) == Pos(s2, b) + k
      ensures s2.node <= slots2[k].node <= f2.node
    {
      PosShift(slots[k], d, b);
    }
    forall i | s2.node <= i <= f2.node
      ensures |m2[i]| == b
    {
      assert m2[i] == m[i - s2.node + s.node];
    }
  }

  lemma {:induction false} ShiftedStored<T>(m: seq<seq<T>>, s: Cursor, f: Cursor, slots: seq<Cursor>, contents: seq<T>, b: nat,
                                            m2: seq<seq<T>>, d: int, slots2: seq<Cursor>)
    requires Layout(m, s, f, slots, b) && Stored(m, slots, contents)
    requires |slots2| == |slots|
    requires forall k :: 0 <= k < |slots| ==> slots2[k] == Cursor(slots[k].node + d, slots[k].cur)
    requires forall x :: s.node + d <= x <= f.node + d ==> 0 <= x < |m2| && m2[x] == m[x - d]
    ensures Stored(m2, slots2, contents)
  {
    forall k | 0 <= k < |contents|
      ensures k < |slots2| && 0 <= slots2[k].node < |m2| && 0 <= slots2[k].cur < |m2[slots2[k].node]|
      ensures contents[k] == m2[slots2[k].node][slots2[k].cur]
    {
      StoredAt(m, s, f, slots, contents, b, k);
      var x := slots2[k].node;
      assert s.node + d <= x <= f.node + d;
      assert m2[x] == m[x - d];
    }
  }

  /** reallocate_map on the map value: the live buffers move to where
      Reallocated puts them, and the cursors start and finish with them. */
  method Recentre<T>(m: seq<seq<T>>, s: Cursor, f: Cursor, ghost slots: seq<Cursor>, ghost contents: seq<T>, b: nat,
                     nodesToAdd: nat, addAtFront: bool)
    returns (m2: seq<seq<T>>, s2: Cursor, f2: Cursor, ghost slots2: seq<Cursor>)
    requires Layout(m, s, f, slots, b) && Stored(m, slots, contents) && |contents| < |slots|
    ensures Layout(m2, s2, f2, slots2, b) && Stored(m2, slots2, contents) && |slots2| == |slots|
    ensures m2[s2.node..f2.node + 1] == m[s.node..f.node + 1]
    ensures s2.cur == s.cur && f2.cur == f.cur
    ensures var newNum := f.node - s.node + 1 + nodesToAdd;
      && |m2| == (if |m| > 2 * newNum then |m| else |m| + Max(|m|, nodesToAdd) + 2)
      && s2.node == NewStart(|m2|, newNum, nodesToAdd, addAtFront)
    ensures addAtFront ==> nodesToAdd + 1 <= s2.node
    ensures !addAtFront ==> f2.node + nodesToAdd < |m2|
  {
    var ns;
    m2, ns := Reallocated(m, s.node, f.node, nodesToAdd, addAtFront, []);
    s2, f2 := Cursor(ns, s.cur), Cursor(ns + (f.node - s.node), f.cur);
    slots2 := Shifted(slots, ns - s.node);
    ShiftedLayout(m, s, f, slots, contents, b, m2, s2, f2, slots2);
  }

  /** The cursor of element k is s + k. */
  lemma SlotIsAdd<T>(m: seq<seq<T>>, s: Cursor, f: Cursor, slots: seq<Cursor>, b: nat, k: int)
    requires Layout(m, s, f, slots, b) && 0 <= k < |slots|
    ensures slots[k] == Add(s, k, b)
  {
    PosInjective(slots[k], Add(s, k, b), b);
  }

  /** ++ and -- walk from one element's cursor to the next. */
  lemma SlotNext<T>(m: seq<seq<T>>, s: Cursor, f: Cursor, slots: seq<Cursor>, b: nat, k: int)
    requires Layout(m, s, f, slots, b) && 0 <= k < |slots| - 1
    ensures Next(slots[k], b) == slots[k + 1] && Prev(slots[k + 1], b) == slots[k]
  {
    PosInjective(Next(slots[k], b), slots[k + 1], b);
    PosInjective(Prev(slots[k + 1], b), slots[k], b);
  }

  /** Different elements have different cursors. */
  lemma SlotsDistinct<T>(m: seq<seq<T>>, s: Cursor, f: Cursor, slots: seq<Cursor>, b: nat, j: int, k: int)
    requires Layout(m, s, f, slots, b) && 0 <= j < |slots| && 0 <= k < |slots|
    ensures slots[j] == slots[k] <==> j == k
  {
    if slots[j] == slots[k] {
      assert Pos(slots[j], b) == Pos(slots[k], b);
    }
  }

  /** *c = v on the map value. */
  function Write<T>(m: seq<seq<T>>, c: Cursor, v: T): (m2: seq<seq<T>>)
    requires 0 <= c.node < |m| && 0 <= c.cur < |m[c.node]|
    ensures |m2| == |m| && forall i :: 0 <= i < |m| ==> |m2[i]| == |m[i]|
    ensures m2[c.node][c.cur] == v
    ensures forall i, j :: 0 <= i < |m| && 0 <= j < |m[i]| && (i != c.node || j != c.cur) ==> m2[i][j] == m[i][j]
  {
    m[c.node := m[c.node][c.cur := v]]
  }

  /** Writing v through the cursor of element k keeps the layout and
      replaces element k, and only it. */
  lemma {:induction false} Written<T>(m: seq<seq<T>>, s: Cursor, f: Cursor, slots: seq<Cursor>, contents: seq<T>, b: nat, k: int, v: T)
    requires Layout(m, s, f, slots, b) && Stored(m, slots, contents) && |slots| == |contents| + 1
    requires 0 <= k < |contents|
    ensures Layout(Write(m, slots[k], v), s, f, slots, b)
    ensures Stored(Write(m, slots[k], v), slots, contents[k := v])
  {
    var m2 := Write(m, slots[k], v);
    forall j | 0 <= j < |contents| && j != k
      ensures contents[j] == m2[slots[j].node][slots[j].cur]
    {
      assert Pos(slots[j], b) != Pos(slots[k], b);
    }
  }

  /** One step of Copy and CopyBackward: the neighbours of the cursors
      of elements j and k, and the effect of writing v through the
      cursor of element k. */
  lemma {:induction false} CopyStep<T>(m: seq<seq<T>>, s: Cursor, f: Cursor, slots: seq<Cursor>, contents: seq<T>, b: nat,
                                       j: int, k: int, v: T)
    requires Layout(m, s, f, slots, b) && Stored(m, slots, contents) && |slots| == |contents| + 1
    requires 0 <= j < |contents| && 0 <= k < |contents|
    ensures Next(slots[j], b) == slots[j + 1] && Prev(slots[j + 1], b) == slots[j]
    ensures Next(slots[k], b) == slots[k + 1] && Prev(slots[k + 1], b) == slots[k]
    ensures Layout(Write(m, slots[k], v), s, f, slots, b)
    ensures Stored(Write(m, slots[k], v), slots, contents[k := v])
  {
    SlotNext(m, s, f, slots, b, j);
    SlotNext(m, s, f, slots, b, k);
    Written(m, s, f, slots, contents, b, k, v);
  }

  /** One more element copied front to back: the element read at f + i
      is still the original one, and writing it at d + i extends the
      copied block. */
  lemma {:induction false} CopiedForward<T>(c: seq<T>, d: nat, f: nat, i: nat)
    requires d <= f && f + i < |c|
    ensures var t := c[..d] + c[f..f + i] + c[d + i..];
      |t| == |c| && t[f + i] == c[f + i] &&
      t[d + i := c[f + i]] == c[..d] + c[f..f + i + 1] + c[d + i + 1..]
  {
  }

  /** One more element copied back to front: the element read at l - i - 1
      is still the original one, and writing it at e - i - 1 extends the
      copied block. */
  lemma {:induction false} CopiedBackward<T>(c: seq<T>, l: nat, e: nat, i: nat)
    requires i < l <= e <= |c|
    ensures var t := c[..e - i] + c[l - i..l] + c[e..];
      |t| == |c| && t[l - i - 1] == c[l - i - 1] &&
      t[e - i - 1 := c[l - i - 1]] == c[..e - i - 1] + c[l - i - 1..l] + c[e..]
  {
  }

  /** One step of std::copy: *dst = *src, then ++src and ++dst. */
  method CopyStepForward<T>(m: seq<seq<T>>, s: Cursor, fin: Cursor, ghost slots: seq<Cursor>, ghost contents: seq<T>, b: nat,
                            src: Cursor, dst: Cursor, ghost j: int, ghost k: int)
    returns (m2: seq<seq<T>>, src2: Cursor, dst2: Cursor, ghost contents2: seq<T>)
    requires Layout(m, s, fin, slots, b) && Stored(m, slots, contents) && |slots| == |contents| + 1
    requires 0 <= j < |contents| && 0 <= k < |contents| && src == slots[j] && dst == slots[k]
    ensures Layout(m2, s, fin, slots, b) && Stored(m2, slots, contents2) && |m2| == |m|
    ensures contents2 == contents[k := contents[j]]
    ensures src2 == slots[j + 1] && dst2 == slots[k + 1]
  {
    StoredAt(m, s, fin, slots, contents, b, j);
    var v := m[src.node][src.cur];
    CopyStep(m, s, fin, slots, contents, b, j, k, v);
    m2, contents2 := Write(m, dst, v), contents[k := v];
    src2, dst2 := Next(src, b), Next(dst, b);
  }

  /** One step of std::copy_backward: --src and --dst, then *dst = *src. */
  method CopyStepBackward<T>(m: seq<seq<T>>, s: Cursor, fin: Cursor, ghost slots: seq<Cursor>, ghost contents: seq<T>, b: nat,
                             src: Cursor, dst: Cursor, ghost j: int, ghost k: int)
    returns (m2: seq<seq<T>>, src2: Cursor, dst2: Cursor, ghost contents2: seq<T>)
    requires Layout(m, s, fin, slots, b) && Stored(m, slots, contents) && |slots| == |contents| + 1
    requires 0 <= j < |contents| && 0 <= k < |contents| && src == slots[j + 1] && dst == slots[k + 1]
    ensures Layout(m2, s, fin, slots, b) && Stored(m2, slots, contents2) && |m2| == |m|
    ensures contents2 == contents[k := contents[j]]
    ensures src2 == slots[j] && dst2 == slots[k]
  {
    StoredAt(m, s, fin, slots, contents, b, j);
    CopyStep(m, s, fin, slots, contents, b, j, k, contents[j]);
    src2, dst2 := Prev(src, b), Prev(dst, b);
    var v := m[src2.node][src2.cur];
    m2, contents2 := Write(m, dst2, v), contents[k := v];
  }

  /** std::copy over cursors of one deque, given by its map m and layout
      (s, fin, slots): the elements [f, l) are copied, front to back,
      over the elements from d on, which is correct when the target does
      not start after the source. The cursor past the last element
      written is returned. */
  method Copy<T>(m: seq<seq<T>>, s: Cursor, fin: Cursor, ghost slots: seq<Cursor>, ghost contents: seq<T>, b: nat,
                 first: Cursor, last: Cursor, result: Cursor, ghost f: nat, ghost l: nat, ghost d: nat)
    returns (m2: seq<seq<T>>, r: Cursor, ghost contents2: seq<T>)
    requires Layout(m, s, fin, slots, b) && Stored(m, slots, contents) && |slots| == |contents| + 1
    requires f <= l <= |contents| && d <= f
    requires first == slots[f] && last == slots[l] && result == slots[d]
    ensures Layout(m2, s, fin, slots, b) && Stored(m2, slots, contents2) && |m2| == |m|
    ensures contents2 == contents[..d] + contents[f..l] + contents[d + (l - f)..]
    ensures r == slots[d + (l - f)]
  {
    m2, contents2 := m, contents;
    var src, dst := first, result;
    ghost var i := 0;
    while src != last
      invariant Layout(m2, s, fin, slots, b) && Stored(m2, slots, contents2) && |m2| == |m|
      invariant 0 <= i <= l - f && src == slots[f + i] && dst == slots[d + i]
      invariant contents2 == contents[..d] + contents[f..f + i] + contents[d + i..]
      decreases l - f - i
    {
      CopiedForward(contents, d, f, i);
      m2, src, dst, contents2 := CopyStepForward(m2, s, fin, slots, contents2, b, src, dst, f + i, d + i);
      i := i + 1;
    }
    SlotsDistinct(m2, s, fin, slots, b, f + i, l);
    r := dst;
  }

  /** std::copy_backward over cursors of one deque: the elements [f, l)
      are copied, back to front, over the elements that end before e,
      which is correct when the target does not start before the source.
      The cursor of the first element written is returned. */
  method CopyBackward<T>(m: seq<seq<T>>, s: Cursor, fin: Cursor, ghost slots: seq<Cursor>, ghost contents: seq<T>, b: nat,
                         first: Cursor, last: Cursor, resultEnd: Cursor, ghost f: nat, ghost l: nat, ghost e: nat)
    returns (m2: seq<seq<T>>, r: Cursor, ghost contents2: seq<T>)
    requires Layout(m, s, fin, slots, b) && Stored(m, slots, contents) && |slots| == |contents| + 1
    requires f <= l <= e <= |contents|
    requires first == slots[f] && last == slots[l] && resultEnd == slots[e]
    ensures Layout(m2, s, fin, slots, b) && Stored(m2, slots, contents2) && |m2| == |m|
    ensures contents2 == contents[..e - (l - f)] + contents[f..l] + contents[e..]
    ensures r == slots[e - (l - f)]
  {
    m2, contents2 := m, contents;
    var src, dst := last, resultEnd;
    ghost var i := 0;
    while src != first
      invariant Layout(m2, s, fin, slots, b) && Stored(m2, slots, contents2) && |m2| == |m|
      invariant 0 <= i <= l - f && src == slots[l - i] && dst == slots[e - i]
      invariant contents2 == contents[..e - i] + contents[l - i..l] + contents[e..]
      decreases l - f - i
    {
      CopiedBackward(contents, l, e, i);
      m2, src, dst, contents2 := CopyStepBackward(m2, s, fin, slots, contents2, b, src, dst, l - i - 1, e - i - 1);
      i := i + 1;
    }
    SlotsDistinct(m2, s, fin, slots, b, l - i, f);
    r := dst;
  }

  /** erase(pos) from the front: the elements before i moved one slot
      back, then the first slot dropped. */
  lemma ErasedByFront<T>(c: seq<T>, i: nat)
    requires i < |c|
    ensures (c[..1] + c[0..i] + c[i + 1..])[1..] == c[..i] + c[i + 1..]
  {
  }

  /** erase(pos) from the back: the elements after i moved one slot
      forward, then the last slot dropped. */
  lemma ErasedByBack<T>(c: seq<T>, i: nat)
    requires i < |c|
    ensures var t := c[..i] + c[i + 1..|c|] + c[i + (|c| - (i + 1))..];
      |t| == |c| && t[..|c| - 1] == c[..i] + c[i + 1..]
  {
  }

  /** erase(first, last) from the front: the elements before i moved
      j - i slots back, then the first j - i slots dropped. */
  lemma RangeErasedByFront<T>(c: seq<T>, i: nat, j: nat)
    requires i <= j <= |c|
    ensures var t := c[..j - i] + c[0..i] + c[j..];
      |t| == |c| && t[j - i..] == c[..i] + c[j..]
  {
  }

  /** erase(first, last) from the back: the elements from j on moved
      j - i slots forward, then the last j - i slots dropped. */
  lemma RangeErasedByBack<T>(c: seq<T>, i: nat, j: nat)
    requires i <= j <= |c|
    ensures var t := c[..i] + c[j..|c|] + c[i + (|c| - j)..];
      |t| == |c| && t[..|c| - (j - i)] == c[..i] + c[j..]
  {
  }

  /** insert_aux from the front: after push_front(front()) the elements
      1..i move one slot forward, and x is written at i. */
  lemma {:induction false} InsertedByFront<T>(c: seq<T>, i: nat, x: T)
    requires 0 < i < |c|
    ensures var p := [c[0]] + c;
      var t := p[..1] + p[2..i + 1] + p[1 + (i + 1 - 2)..];
      |t| == |p| && t[i := x] == Inserted(c, i, x)
  {
    var p := [c[0]] + c;
    var t := p[..1] + p[2..i + 1] + p[1 + (i + 1 - 2)..];
    assert |t| == |c| + 1;
    forall k | 0 <= k < |t|
      ensures t[i := x][k] == Inserted(c, i, x)[k]
    {
      if k < 1 {
      } else if k < i {
        assert t[k] == p[2..i + 1][k - 1] == p[k + 1];
      } else if k > i {
        assert t[k] == p[i..][k - i] == p[k];
      }
    }
  }

  /** insert_aux from the back: after push_back(back()) the elements
      i..n-1 move one slot back, and x is written at i. */
  lemma {:induction false} InsertedByBack<T>(c: seq<T>, i: nat, x: T)
    requires 0 < i < |c|
    ensures var n := |c|;
      var p := c + [c[n - 1]];
      var t := p[..n - (n - 1 - i)] + p[i..n - 1] + p[n..];
      |t| == |p| && t[i := x] == Inserted(c, i, x)
  {
    var n := |c|;
    var p := c + [c[n - 1]];
    var t := p[..n - (n - 1 - i)] + p[i..n - 1] + p[n..];
    assert |t| == n + 1;
    forall k | 0 <= k < |t|
      ensures t[i := x][k] == Inserted(c, i, x)[k]
    {
      if k < i {
        assert t[k] == p[k];
      } else if i < k <= n - 1 + 1 - 1 {
        assert t[k] == p[i..n - 1][k - i - 1] == p[k - 1];
      } else if k == n {
        assert t[k] == p[n];
      }
    }
  }

  class Deque<T> {
    /** buffer_size(): elements per buffer. */
    const B: nat
    /** The value a default-constructed element holds: T{} for deque(),
        and the value of push_back_aux's default-initialized t_copy. For
        a class type that is its default constructor's value; for a
        scalar type such as int t_copy is indeterminate, and the model
        gives it this fixed value. */
    const dflt: T
    var nodes: seq<seq<T>>
    var mapSize: nat
    var start: Cursor
    var finish: Cursor

    ghost var Contents: seq<T>
    /** Slots[k] is the cursor start + k, for k from 0 to |Contents|. */
    ghost var Slots: seq<Cursor>

    ghost predicate Valid()
      reads this
    {
      B > 0 && mapSize == |nodes| && |Slots| == |Contents| + 1 &&
      Layout(nodes, start, finish, Slots, B) && Stored(nodes, Slots, Contents)
    }

    /** deque(n, value) through fill_initialize and create_map_and_nodes:
        n / B + 1 buffers centred in a map of max(8, n / B + 3) slots,
        all filled with value up to the n-th slot. */
    constructor (n: nat, value: T, bufSiz: nat, elemSize: nat, defaultValue: T)
      requires elemSize > 0
      ensures Valid()
      ensures B == BufSize(bufSiz, elemSize) && dflt == defaultValue
      ensures Contents == seq(n, _ => value)
      ensures mapSize == Max(8, n / B + 3)
      ensures finish.node - start.node == n / B && start.cur == 0
    {
      var b := BufSize(bufSiz, elemSize);
      B := b;
      dflt := defaultValue;
      var m, nstart, nfinish := CreateMapAndNodes(n, b, defaultValue);
      m := FillNodes(m, nstart, nfinish, b, n % b, value);
      nodes := m;
      mapSize := |m|;
      start := Cursor(nstart, 0);
      finish := Cursor(nfinish, n % b);
      Contents := seq(n, _ => value);
      Slots := seq(n + 1, k => Cursor(nstart + k / b, k % b));
      new;
      forall k | 0 <= k <= n
        ensures InBuffer(Slots[k], B) && Pos(Slots[k], B) == Pos(start, B) + k
        ensures start.node <= Slots[k].node <= finish.node
        ensures k < n ==> Contents[k] == nodes[Slots[k].node][Slots[k].cur]
      {
        FloorSlot(nstart, B, k, n);
      }
      FloorSlot(nstart, B, 0, n);
    }

    /** operator*: the element a live cursor designates. */
    function Deref(c: Cursor): (v: T)
      reads this
      requires Valid() && start.node <= c.node <= finish.node && InBuffer(c, B)
      ensures forall k :: 0 <= k < |Contents| && c == Slots[k] ==> v == Contents[k]
    {
      nodes[c.node][c.cur]
    }

    function Begin(): (c: Cursor)
      reads this
      requires Valid()
      ensures c == Slots[0]
    {
      start
    }

    /** end(): the cursor one past the last element. */
    function End(): (c: Cursor)
      reads this
      requires Valid()
      ensures c == Slots[|Contents|] && Diff(c, Begin(), B) == |Contents|
    {
      finish
    }

    /** operator[]: the element at start + n. */
    function Index(n: nat): (v: T)
      reads this
      requires Valid() && n < |Contents|
      ensures v == Contents[n]
    {
      SlotIsAdd(nodes, start, finish, Slots, B, n);
      Deref(Add(start, n, B))
    }

    function Front(): (v: T)
      reads this
      requires Valid() && |Contents| > 0
      ensures v == Contents[0]
    {
      Deref(start)
    }

    /** back(): the element before finish. */
    function Back(): (v: T)
      reads this
      requires Valid() && |Contents| > 0
      ensures v == Contents[|Contents| - 1]
    {
      SlotNext(nodes, start, finish, Slots, B, |Contents| - 1);
      Deref(Prev(finish, B))
    }

    /** size(): finish - start. */
    function Size(): (n: int)
      reads this
      requires Valid()
      ensures n == |Contents|
    {
      Diff(finish, start, B)
    }

    /** empty(): finish == start. */
    function Empty(): (e: bool)
      reads this
      requires Valid()
      ensures e <==> |Contents| == 0
    {
      SlotsDistinct(nodes, start, finish, Slots, B, 0, |Contents|);
      finish == start
    }

    /** *c = v through a live cursor. */
    method Assign(c: Cursor, v: T, ghost k: nat)
      requires Valid() && k < |Contents| && c == Slots[k]
      modifies this
      ensures Valid() && Slots == old(Slots) && start == old(start) && finish == old(finish)
      ensures Contents == old(Contents)[k := v]
      ensures mapSize == old(mapSize)
    {
      Written(nodes, start, finish, Slots, Contents, B, k, v);
      nodes, Contents := Write(nodes, c, v), Contents[k := v];
    }

    /** push_back: stores t in the slot at finish and steps finish, unless
        that slot is the last of its buffer; then push_back_aux. */
    method PushBack(t: T)
      requires Valid()
      modifies this
      ensures Valid()
      ensures Contents == old(Contents) + [t]
      ensures old(finish.cur) != B - 1 ==> start == old(start) && mapSize == old(mapSize)
    {
      if finish.cur != B - 1 {
        ghost var n := |Contents|;
        nodes := nodes[finish.node := nodes[finish.node][finish.cur := t]];
        finish := Cursor(finish.node, finish.cur + 1);
        Contents := Contents + [t];
        Slots := Slots + [finish];
        forall k | 0 <= k < n
          ensures Contents[k] == nodes[Slots[k].node][Slots[k].cur]
        {
          assert Pos(Slots[k], B) != Pos(Slots[n], B);
        }
      } else {
        PushBackAux(t);
      }
    }

    /** push_back_aux with t_copy built from t: reserves a map slot after
        finish, gives it a new buffer, stores t in the last slot of
        finish's buffer and moves finish to the new buffer. */
    method PushBackAux(t: T)
      requires Valid() && finish.cur == B - 1
      modifies this
      ensures Valid()
      ensures Contents == old(Contents) + [t]
      ensures start.cur == old(start.cur) && finish.cur == 0
    {
      var tCopy := t;
      ReserveMapAtBack(1);
      StoreAtBackInNewNode(tCopy);
    }

    /** push_back_aux as written: t_copy is default-initialized, so the
        value appended is that default-initialized value, dflt in the
        model, and never t. */
    method PushBackAuxAsWritten(t: T)
      requires Valid() && finish.cur == B - 1
      modifies this
      ensures Valid()
      ensures Contents == old(Contents) + [dflt]
      ensures t != dflt ==> Contents != old(Contents) + [t]
    {
      var tCopy := dflt;
      ReserveMapAtBack(1);
      StoreAtBackInNewNode(tCopy);
      assert Contents[|Contents| - 1] == dflt;
    }

    /** The part of push_back_aux after the map reservation. */
    method StoreAtBackInNewNode(v: T)
      requires Valid() && finish.cur == B - 1 && finish.node + 1 < mapSize
      modifies this
      ensures Valid()
      ensures Contents == old(Contents) + [v]
      ensures start == old(start) && finish == Cursor(old(finish.node) + 1, 0)
    {
      nodes := nodes[finish.node + 1 := AllocateNode(B, dflt)];
      nodes := nodes[finish.node := nodes[finish.node][finish.cur := v]];
      ghost var n := |Contents|;
      ghost var f0 := finish;
      finish := Cursor(finish.node + 1, 0);
      assert finish == Next(f0, B);
      Contents := Contents + [v];
      Slots := Slots + [finish];
      forall k | 0 <= k < n
        ensures Contents[k] == nodes[Slots[k].node][Slots[k].cur]
      {
        assert Pos(Slots[k], B) != Pos(Slots[n], B);
      }
    }

    /** push_front: stores t in the slot before start when start is not at
        the first slot of its buffer, otherwise push_front_aux. */
    method PushFront(t: T)
      requires Valid()
      modifies this
      ensures Valid()
      ensures Contents == [t] + old(Contents)
      ensures old(start.cur) != 0 ==> finish == old(finish) && mapSize == old(mapSize)
    {
      if start.cur != 0 {
        ghost var s0 := start;
        nodes := nodes[start.node := nodes[start.node][start.cur - 1 := t]];
        start := Cursor(start.node, start.cur - 1);
        assert start == Prev(s0, B);
        Contents := [t] + Contents;
        Slots := [start] + Slots;
        forall k | 1 <= k < |Contents|
          ensures Contents[k] == nodes[Slots[k].node][Slots[k].cur]
        {
          assert Pos(Slots[k], B) != Pos(start, B);
        }
      } else {
        PushFrontAux(t);
      }
    }

    /** push_front_aux: reserves a map slot before start, gives it a new
        buffer and stores t in its last slot, which becomes start. */
    method PushFrontAux(t: T)
      requires Valid() && start.cur == 0
      modifies this
      ensures Valid()
      ensures Contents == [t] + old(Contents)
      ensures start.cur == B - 1 && finish.cur == old(finish.cur)
    {
      var tCopy := t;
      ReserveMapAtFront(1);
      StoreAtFrontInNewNode(tCopy);
    }

    /** The part of push_front_aux after the map reservation. */
    method StoreAtFrontInNewNode(v: T)
      requires Valid() && start.cur == 0 && start.node >= 1
      modifies this
      ensures Valid()
      ensures Contents == [v] + old(Contents)
      ensures finish == old(finish) && start == Cursor(old(start.node) - 1, B - 1)
    {
      nodes := nodes[start.node - 1 := AllocateNode(B, dflt)[B - 1 := v]];
      ghost var s0 := start;
      start := Cursor(start.node - 1, B - 1);
      assert start == Prev(s0, B);
      Contents := [v] + Contents;
      Slots := [start] + Slots;
    }

    /** reserve_map_at_back: reallocates the map unless nodesToAdd + 1
        slots from finish.node on exist. */
    method ReserveMapAtBack(nodesToAdd: nat)
      requires Valid()
      modifies this
      ensures Valid()
      ensures Contents == old(Contents) && nodes[start.node..finish.node + 1] == old(nodes[start.node..finish.node + 1])
      ensures start.cur == old(start.cur) && finish.cur == old(finish.cur)
      ensures finish.node + nodesToAdd < mapSize
      ensures old(finish.node + nodesToAdd < mapSize) ==> unchanged(this)
    {
      if nodesToAdd + 1 > mapSize - finish.node {
        ReallocateMap(nodesToAdd, false);
      }
    }

    /** reserve_map_at_front: reallocates the map unless nodesToAdd + 1
        slots precede start.node. */
    method ReserveMapAtFront(nodesToAdd: nat)
      requires Valid()
      modifies this
      ensures Valid()
      ensures Contents == old(Contents) && nodes[start.node..finish.node + 1] == old(nodes[start.node..finish.node + 1])
      ensures start.cur == old(start.cur) && finish.cur == old(finish.cur)
      ensures nodesToAdd + 1 <= start.node
      ensures old(nodesToAdd + 1 <= start.node) ==> unchanged(this)
    {
      if nodesToAdd + 1 > start.node {
        ReallocateMap(nodesToAdd, true);
      }
    }

    /** reallocate_map: moves the live buffers so that nodesToAdd free map
        slots follow (or, addAtFront, precede) them. */
    method ReallocateMap(nodesToAdd: nat, addAtFront: bool)
      requires Valid()
      modifies this
      ensures Valid()
      ensures Contents == old(Contents) && nodes[start.node..finish.node + 1] == old(nodes[start.node..finish.node + 1])
      ensures start.cur == old(start.cur) && finish.cur == old(finish.cur)
      ensures var newNum := old(finish.node - start.node) + 1 + nodesToAdd;
        && mapSize == (if old(mapSize) > 2 * newNum then old(mapSize)
                       else old(mapSize) + Max(old(mapSize), nodesToAdd) + 2)
        && start.node == NewStart(mapSize, newNum, nodesToAdd, addAtFront)
      ensures addAtFront ==> nodesToAdd + 1 <= start.node
      ensures !addAtFront ==> finish.node + nodesToAdd < mapSize
    {
      var m, s2, f2, sl2 := Recentre(nodes, start, finish, Slots, Contents, B, nodesToAdd, addAtFront);
      nodes, mapSize, start, finish, Slots := m, |m|, s2, f2, sl2;
    }

    /** pop_back: steps finish back inside its buffer, or pop_back_aux. */
    method PopBack()
      requires Valid() && |Contents| > 0
      modifies this
      ensures Valid()
      ensures Contents == old(Contents[..|Contents| - 1])
      ensures start == old(start) && nodes == old(nodes) && mapSize == old(mapSize)
    {
      if finish.cur != 0 {
        ghost var n := |Contents|;
        SlotNext(nodes, start, finish, Slots, B, n - 1);
        finish := Cursor(finish.node, finish.cur - 1);
        Contents := Contents[..n - 1];
        Slots := Slots[..n];
      } else {
        PopBackAux();
      }
    }

    /** pop_back_aux: finish moves to the last slot of the previous buffer. */
    method PopBackAux()
      requires Valid() && |Contents| > 0 && finish.cur == 0
      modifies this
      ensures Valid()
      ensures Contents == old(Contents[..|Contents| - 1])
      ensures start == old(start) && nodes == old(nodes) && mapSize == old(mapSize)
      ensures finish.cur == B - 1
    {
      ghost var n := |Contents|;
      SlotNext(nodes, start, finish, Slots, B, n - 1);
      finish := Cursor(finish.node - 1, B - 1);
      Contents := Contents[..n - 1];
      Slots := Slots[..n];
      forall k | 0 <= k < n
        ensures Slots[k].node <= finish.node
      {
        NodeMono(Slots[k], finish, B);
      }
    }

    /** pop_front: steps start on inside its buffer, or pop_front_aux. */
    method PopFront()
      requires Valid() && |Contents| > 0
      modifies this
      ensures Valid()
      ensures Contents == old(Contents[1..])
      ensures finish == old(finish) && nodes == old(nodes) && mapSize == old(mapSize)
    {
      if start.cur != B - 1 {
        SlotNext(nodes, start, finish, Slots, B, 0);
        start := Cursor(start.node, start.cur + 1);
        Contents := Contents[1..];
        Slots := Slots[1..];
      } else {
        PopFrontAux();
      }
    }

    /** pop_front_aux: start moves to the first slot of the next buffer. */
    method PopFrontAux()
      requires Valid() && |Contents| > 0 && start.cur == B - 1
      modifies this
      ensures Valid()
      ensures Contents == old(Contents[1..])
      ensures finish == old(finish) && nodes == old(nodes) && mapSize == old(mapSize)
      ensures start.cur == 0
    {
      SlotNext(nodes, start, finish, Slots, B, 0);
      start := Cursor(start.node + 1, 0);
      Contents := Contents[1..];
      Slots := Slots[1..];
      forall k | 0 <= k < |Slots|
        ensures start.node <= Slots[k].node
      {
        NodeMono(start, Slots[k], B);
      }
    }

    /** clear: finish moves back onto start; the buffer at start is kept. */
    method Clear()
      requires Valid()
      modifies this
      ensures Valid()
      ensures Contents == [] && start == old(start) && finish == start
      ensures nodes == old(nodes) && mapSize == old(mapSize)
    {
      finish := start;
      Contents := [];
      Slots := [start];
    }

    /** std::copy over this deque's cursors: the elements [f, l) are
        copied, front to back, over those from d on (d <= f). */
    method CopyElems(first: Cursor, last: Cursor, result: Cursor, ghost f: nat, ghost l: nat, ghost d: nat)
      returns (r: Cursor)
      requires Valid() && f <= l <= |Contents| && d <= f
      requires first == Slots[f] && last == Slots[l] && result == Slots[d]
      modifies this
      ensures Valid() && Slots == old(Slots) && start == old(start) && finish == old(finish) && mapSize == old(mapSize)
      ensures Contents == old(Contents[..d] + Contents[f..l] + Contents[d + (l - f)..])
      ensures r == Slots[d + (l - f)]
    {
      var m; ghost var c;
      m, r, c := Copy(nodes, start, finish, Slots, Contents, B, first, last, result, f, l, d);
      nodes, Contents := m, c;
    }

    /** std::copy_backward over this deque's cursors: the elements [f, l)
        are copied, back to front, over those ending before e (l <= e). */
    method CopyElemsBackward(first: Cursor, last: Cursor, resultEnd: Cursor, ghost f: nat, ghost l: nat, ghost e: nat)
      returns (r: Cursor)
      requires Valid() && f <= l <= e <= |Contents|
      requires first == Slots[f] && last == Slots[l] && resultEnd == Slots[e]
      modifies this
      ensures Valid() && Slots == old(Slots) && start == old(start) && finish == old(finish) && mapSize == old(mapSize)
      ensures Contents == old(Contents[..e - (l - f)] + Contents[f..l] + Contents[e..])
      ensures r == Slots[e - (l - f)]
    {
      var m; ghost var c;
      m, r, c := CopyBackward(nodes, start, finish, Slots, Contents, B, first, last, resultEnd, f, l, e);
      nodes, Contents := m, c;
    }

    /** erase(pos): closes the gap from the nearer end. When fewer than
        half the elements precede pos, they move one slot back
        (copy_backward) and pop_front drops the first slot; otherwise the
        elements after pos move one slot forward (copy) and pop_back drops
        the last. The result, start + index, designates the element that
        followed pos. */
    method Erase(pos: Cursor, ghost i: nat) returns (r: Cursor)
      requires Valid() && i < |Contents| && pos == Slots[i]
      modifies this
      ensures Valid()
      ensures Contents == old(Contents[..i] + Contents[i + 1..])
      ensures r == Slots[i]
    {
      ghost var c0 := Contents;
      SlotNext(nodes, start, finish, Slots, B, i);
      var next := Next(pos, B);
      var index := Diff(pos, start, B);
      // size() >> 1 on an unsigned size is size() / 2
      if index < Size() / 2 {
        var r0 := CopyElemsBackward(start, pos, next, 0, i, i + 1);
        PopFront();
        ErasedByFront(c0, i);
      } else {
        var r0 := CopyElems(next, finish, pos, i + 1, |Contents|, i);
        PopBack();
        ErasedByBack(c0, i);
      }
      SlotIsAdd(nodes, start, finish, Slots, B, i);
      r := Add(start, index, B);
    }

    /** erase(first, last): the whole deque is cleared when [first, last)
        is all of it; otherwise the shorter side moves over the gap and
        the freed slots at that end are dropped. The result designates
        the element that followed the erased range. */
    method EraseRange(first: Cursor, last: Cursor, ghost i: nat, ghost j: nat) returns (r: Cursor)
      requires Valid() && i <= j <= |Contents| && first == Slots[i] && last == Slots[j]
      modifies this
      ensures Valid()
      ensures Contents == old(Contents[..i] + Contents[j..])
      ensures r == Slots[i]
    {
      ghost var c0, len := Contents, |Contents|;
      SlotsDistinct(nodes, start, finish, Slots, B, 0, i);
      SlotsDistinct(nodes, start, finish, Slots, B, j, len);
      if first == start && last == finish {
        Clear();
        r := finish;
      } else {
        var n := Diff(last, first, B);
        var elemsBefore := Diff(first, start, B);
        if elemsBefore < (Size() - n) / 2 {
          var r0 := CopyElemsBackward(start, first, last, 0, i, j);
          SlotIsAdd(nodes, start, finish, Slots, B, n);
          var newStart := Add(start, n, B);
          DropFront(newStart, n);
          RangeErasedByFront(c0, i, j);
        } else {
          var r0 := CopyElems(last, finish, first, j, len, i);
          var newFinish := Sub(finish, n, B);
          PosInjective(newFinish, Slots[len - n], B);
          DropBack(newFinish, n);
          RangeErasedByBack(c0, i, j);
        }
        SlotIsAdd(nodes, start, finish, Slots, B, elemsBefore);
        r := Add(start, elemsBefore, B);
      }
    }

    /** The end of the front branch of erase(first, last): the first n
        elements are destroyed and start moves to newStart. */
    method DropFront(newStart: Cursor, ghost n: nat)
      requires Valid() && n <= |Contents| && newStart == Slots[n]
      modifies this
      ensures Valid()
      ensures Contents == old(Contents[n..])
      ensures start == newStart && finish == old(finish) && nodes == old(nodes) && mapSize == old(mapSize)
    {
      start := newStart;
      Contents := Contents[n..];
      Slots := Slots[n..];
      forall k | 0 <= k < |Slots|
        ensures start.node <= Slots[k].node
      {
        NodeMono(start, Slots[k], B);
      }
    }

    /** The end of the back branch of erase(first, last): the last n
        elements are destroyed and finish moves back to newFinish. */
    method DropBack(newFinish: Cursor, ghost n: nat)
      requires Valid() && n <= |Contents| && newFinish == Slots[|Contents| - n]
      modifies this
      ensures Valid()
      ensures Contents == old(Contents[..|Contents| - n])
      ensures finish == newFinish && start == old(start) && nodes == old(nodes) && mapSize == old(mapSize)
    {
      ghost var len := |Contents|;
      finish := newFinish;
      Contents := Contents[..len - n];
      Slots := Slots[..len - n + 1];
      forall k | 0 <= k < |Slots|
        ensures Slots[k].node <= finish.node
      {
        NodeMono(Slots[k], finish, B);
      }
    }

    /** insert(position, x): push_front when position is start, push_back
        when it is finish, insert_aux otherwise. The result designates the
        inserted element. */
    method Insert(position: Cursor, x: T, ghost i: nat) returns (r: Cursor)
      requires Valid() && i <= |Contents| && position == Slots[i]
      modifies this
      ensures Valid()
      ensures Contents == Inserted(old(Contents), i, x)
      ensures r == Slots[i]
    {
      ghost var c0 := Contents;
      SlotsDistinct(nodes, start, finish, Slots, B, 0, i);
      SlotsDistinct(nodes, start, finish, Slots, B, i, |Contents|);
      if position == start {
        PushFront(x);
        r := start;
      } else if position == finish {
        PushBack(x);
        SlotNext(nodes, start, finish, Slots, B, |Contents| - 1);
        r := Prev(finish, B);
      } else {
        r := InsertAux(position, x, i);
      }
    }

    /** insert_aux(pos, x), pos strictly inside the deque: the nearer end
        grows by a copy of its end element (push_front(front()) or
        push_back(back())), the elements between that end and pos shift
        one slot towards it, and x is written at pos. */
    method InsertAux(pos: Cursor, x: T, ghost i: nat) returns (r: Cursor)
      requires Valid() && 0 < i < |Contents| && pos == Slots[i]
      modifies this
      ensures Valid()
      ensures Contents == Inserted(old(Contents), i, x)
      ensures r == Slots[i]
    {
      var index := Diff(pos, start, B);
      var xCopy := x;
      if index < Size() / 2 {
        r := InsertAuxFront(index, xCopy);
      } else {
        r := InsertAuxBack(index, xCopy);
      }
    }

    /** The branch of insert_aux for an index in the front half: after
        push_front(front()), the elements [front2, pos1) move one slot
        forward onto front1, and x is written at start + index. */
    method InsertAuxFront(index: nat, x: T) returns (r: Cursor)
      requires Valid() && 0 < index < |Contents|
      modifies this
      ensures Valid()
      ensures Contents == Inserted(old(Contents), index, x)
      ensures r == Slots[index]
    {
      ghost var c0 := Contents;
      PushFront(Front());
      SlotNext(nodes, start, finish, Slots, B, 0);
      SlotNext(nodes, start, finish, Slots, B, 1);
      var front1 := Next(start, B);
      var front2 := Next(front1, B);
      SlotIsAdd(nodes, start, finish, Slots, B, index);
      var pos := Add(start, index, B);
      SlotNext(nodes, start, finish, Slots, B, index);
      var pos1 := Next(pos, B);
      var r0 := CopyElems(front2, pos1, front1, 2, index + 1, 1);
      Assign(pos, x, index);
      InsertedByFront(c0, index, x);
      r := pos;
    }

    /** The branch of insert_aux for an index in the back half: after
        push_back(back()), the elements [pos, back2) move one slot back
        so that they end at back1, and x is written at start + index. */
    method InsertAuxBack(index: nat, x: T) returns (r: Cursor)
      requires Valid() && 0 < index < |Contents|
      modifies this
      ensures Valid()
      ensures Contents == Inserted(old(Contents), index, x)
      ensures r == Slots[index]
    {
      ghost var c0, n := Contents, |Contents|;
      PushBack(Back());
      SlotNext(nodes, start, finish, Slots, B, n);
      SlotNext(nodes, start, finish, Slots, B, n - 1);
      var back1 := Prev(finish, B);
      var back2 := Prev(back1, B);
      SlotIsAdd(nodes, start, finish, Slots, B, index);
      var pos := Add(start, index, B);
      var r0 := CopyElemsBackward(pos, back2, back1, index, n - 1, n);
      Assign(pos, x, index);
      InsertedByBack(c0, index, x);
      r := pos;
    }
  }
}
