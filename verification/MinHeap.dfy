/** The integer min-heap whose sift loops stop after four iterations. */
module MinHeap {

  /** The loop cap of both sift loops. */
  const SIFT_CAP: nat := 4

  function Parent(i: nat): nat
    requires i > 0
  {
    (i - 1) / 2
  }

  /** The element at i is no smaller than its parent. */
  ghost predicate Ordered(d: seq<int>, i: nat)
    requires 0 < i < |d|
  {
    d[Parent(i)] <= d[i]
  }

  ghost predicate Heap(d: seq<int>) {
    forall i | 0 < i < |d| :: Ordered(d, i)
  }

  function Swap(d: seq<int>, i: nat, j: nat): (e: seq<int>)
    requires i < |d| && j < |d|
    ensures |e| == |d|
  {
    d[i := d[j]][j := d[i]]
  }

  // ---------- What the loops compute ----------

  function SiftUp(d: seq<int>, idx: nat, cap: nat): (e: seq<int>)
    requires idx < |d|
    ensures |e| == |d|
    decreases cap
  {
    if cap == 0 || idx == 0 || !(d[idx] < d[Parent(idx)]) then d
    else SiftUp(Swap(d, idx, Parent(idx)), Parent(idx), cap - 1)
  }

  /** The smallest of a node and its children, the left child winning ties. */
  function Smallest(d: seq<int>, pos: nat): (s: nat)
    requires pos < |d|
    ensures s < |d| && d[s] <= d[pos] && (s == pos || ((s == 2 * pos + 1 || s == 2 * pos + 2) && d[s] < d[pos]))
    ensures forall c | c in [2 * pos + 1, 2 * pos + 2] && c < |d| :: d[s] <= d[c]
    ensures s == 2 * pos + 2 ==> d[s] < d[2 * pos + 1]
  {
    var left, right := 2 * pos + 1, 2 * pos + 2;
    var s := if left < |d| && d[left] < d[pos] then left else pos;
    if right < |d| && d[right] < d[s] then right else s
  }

  function SiftDown(d: seq<int>, pos: nat, cap: nat): (e: seq<int>)
    requires pos < |d|
    ensures |e| == |d|
    decreases cap
  {
    if cap == 0 || Smallest(d, pos) == pos then d
    else SiftDown(Swap(d, pos, Smallest(d, pos)), Smallest(d, pos), cap - 1)
  }

  function Pushed(d: seq<int>, val: int): (e: seq<int>)
    ensures |e| == |d| + 1
  {
    SiftUp(d + [val], |d|, SIFT_CAP)
  }

  /** The last element moved to the root of what remains. */
  function Lifted(d: seq<int>): (e: seq<int>)
    requires d != []
    ensures |e| == |d| - 1
  {
    var n := |d| - 1;
    if n == 0 then [] else d[..n][0 := d[n]]
  }

  function Popped(d: seq<int>): (e: seq<int>)
    requires d != []
    ensures |e| == |d| - 1
  {
    var e := Lifted(d);
    if e == [] then e else SiftDown(e, 0, SIFT_CAP)
  }

  // ---------- Contents of the sift loops ----------

  lemma SwapPermutes(d: seq<int>, i: nat, j: nat)
    requires i < |d| && j < |d|
    ensures multiset(Swap(d, i, j)) == multiset(d)
  {
  }

  lemma {:induction false} SiftUpPermutes(d: seq<int>, idx: nat, cap: nat)
    requires idx < |d|
    ensures multiset(SiftUp(d, idx, cap)) == multiset(d)
    decreases cap
  {
    if cap != 0 && idx != 0 && d[idx] < d[Parent(idx)] {
      SwapPermutes(d, idx, Parent(idx));
      SiftUpPermutes(Swap(d, idx, Parent(idx)), Parent(idx), cap - 1);
    }
  }

  lemma {:induction false} SiftDownPermutes(d: seq<int>, pos: nat, cap: nat)
    requires pos < |d|
    ensures multiset(SiftDown(d, pos, cap)) == multiset(d)
    decreases cap
  {
    var s := Smallest(d, pos);
    if cap != 0 && s != pos {
      SwapPermutes(d, pos, s);
      SiftDownPermutes(Swap(d, pos, s), s, cap - 1);
    }
  }

  /** A push adds its value, a pop removes the root: whatever the order of the elements. */
  lemma PushedContents(d: seq<int>, val: int)
    ensures multiset(Pushed(d, val)) == multiset(d) + multiset{val}
  {
    SiftUpPermutes(d + [val], |d|, SIFT_CAP);
  }

  lemma PoppedContents(d: seq<int>)
    requires d != []
    ensures multiset(Popped(d)) == multiset(d) - multiset{d[0]}
  {
    var n := |d| - 1;
    assert d == d[..n] + [d[n]];
    if n > 0 {
      assert d[..n] == [d[0]] + d[1..n];
      assert Lifted(d) == [d[n]] + d[1..n];
      SiftDownPermutes(Lifted(d), 0, SIFT_CAP);
    }
  }

  // ---------- Order of the sift loops ----------

  ghost predicate Above(d: seq<int>, a: nat, b: nat) {
    a < |d| && b < |d| ==> d[a] <= d[b]
  }

  /** Heap order except possibly between idx and its parent. */
  ghost predicate HeapButParent(d: seq<int>, idx: nat) {
    (forall i | 0 < i < |d| && i != idx :: Ordered(d, i)) &&
    (idx > 0 ==> Above(d, Parent(idx), 2 * idx + 1) && Above(d, Parent(idx), 2 * idx + 2))
  }

  function Depth(i: nat): nat {
    if i == 0 then 0 else 1 + Depth(Parent(i))
  }

  lemma SwapUp(d: seq<int>, idx: nat)
    requires 0 < idx < |d| && HeapButParent(d, idx) && d[idx] < d[Parent(idx)]
    ensures HeapButParent(Swap(d, idx, Parent(idx)), Parent(idx))
  {
    var p := Parent(idx);
    var e := Swap(d, idx, p);
    forall i | 0 < i < |e| && i != p
      ensures Ordered(e, i)
    {
      if i != idx {
        assert Ordered(d, i);
      }
    }
    if p > 0 {
      assert Ordered(d, p);
      forall c | c in [2 * p + 1, 2 * p + 2] && c < |d| && c != idx
        ensures d[p] <= d[c]
      {
        assert Ordered(d, c);
      }
    }
  }

  lemma {:induction false} SiftUpOrders(d: seq<int>, idx: nat, cap: nat)
    requires idx < |d| && HeapButParent(d, idx) && Depth(idx) <= cap
    ensures Heap(SiftUp(d, idx, cap))
    decreases cap
  {
    if idx > 0 && d[idx] < d[Parent(idx)] {
      SwapUp(d, idx);
      SiftUpOrders(Swap(d, idx, Parent(idx)), Parent(idx), cap - 1);
      assert SiftUp(d, idx, cap) == SiftUp(Swap(d, idx, Parent(idx)), Parent(idx), cap - 1);
    } else {
      assert SiftUp(d, idx, cap) == d;
    }
  }

  /** Heap order except possibly between pos and its children. */
  ghost predicate HeapButChildren(d: seq<int>, pos: nat) {
    (forall i | 0 < i < |d| && Parent(i) != pos :: Ordered(d, i)) &&
    (pos > 0 ==> Above(d, Parent(pos), 2 * pos + 1) && Above(d, Parent(pos), 2 * pos + 2))
  }

  /** The levels below pos in a heap of n elements, down the left side. */
  function Levels(pos: nat, n: nat): nat
    decreases n - pos
  {
    if 2 * pos + 1 >= n then 0 else 1 + Levels(2 * pos + 1, n)
  }

  lemma {:induction false} LevelsRight(pos: nat, n: nat)
    ensures Levels(pos + 1, n) <= Levels(pos, n)
    decreases n - pos
  {
    if 2 * pos + 3 < n {
      LevelsRight(2 * pos + 1, n);
      LevelsRight(2 * pos + 2, n);
    }
  }

  lemma SwapDown(d: seq<int>, pos: nat)
    requires pos < |d| && HeapButChildren(d, pos) && Smallest(d, pos) != pos
    ensures HeapButChildren(Swap(d, pos, Smallest(d, pos)), Smallest(d, pos))
  {
    var s := Smallest(d, pos);
    var e := Swap(d, pos, s);
    assert Parent(s) == pos;
    forall i | 0 < i < |e| && Parent(i) != s
      ensures Ordered(e, i)
    {
      if Parent(i) == pos {
        assert i in [2 * pos + 1, 2 * pos + 2];
      } else {
        assert Ordered(d, i);
      }
    }
    forall c | c in [2 * s + 1, 2 * s + 2] && c < |d|
      ensures d[s] <= d[c]
    {
      assert Ordered(d, c);
    }
  }

  lemma {:induction false} SiftDownOrders(d: seq<int>, pos: nat, cap: nat)
    requires pos < |d| && HeapButChildren(d, pos) && Levels(pos, |d|) <= cap
    ensures Heap(SiftDown(d, pos, cap))
    decreases cap
  {
    var s := Smallest(d, pos);
    if s != pos {
      LevelsRight(2 * pos + 1, |d|);
      SwapDown(d, pos);
      SiftDownOrders(Swap(d, pos, s), s, cap - 1);
    } else {
      forall i | 0 < i < |d| && Parent(i) == pos
        ensures Ordered(d, i)
      {
        assert i in [2 * pos + 1, 2 * pos + 2];
      }
    }
  }

  // ---------- Exactly how large a heap the cap serves ----------

  /** The last index at depth k. */
  function LastAt(k: nat): nat {
    if k == 0 then 0 else 2 * LastAt(k - 1) + 2
  }

  lemma {:induction false} DepthBound(i: nat, k: nat)
    ensures Depth(i) <= k <==> i <= LastAt(k)
    decreases k
  {
    if i > 0 && k > 0 {
      DepthBound(Parent(i), k - 1);
    }
  }

  lemma LastAtCap()
    ensures LastAt(SIFT_CAP) == 30
  {
    assert LastAt(2) == 6;
  }

  lemma LevelsBound(n: nat)
    ensures Levels(0, n) <= SIFT_CAP <==> n <= 31
  {
    assert Levels(7, n) == if 15 >= n then 0 else 1 + Levels(15, n);
    assert Levels(3, n) == if 7 >= n then 0 else 1 + Levels(7, n);
    assert Levels(1, n) == if 3 >= n then 0 else 1 + Levels(3, n);
  }

  ghost predicate PushKeepsOrder(n: nat) {
    forall d, val | |d| == n && Heap(d) :: Heap(Pushed(d, val))
  }

  ghost predicate PopKeepsOrder(n: nat) {
    forall d | |d| == n && n > 0 && Heap(d) :: Heap(Popped(d))
  }

  /** All entries are `rest` except the one at `at`. */
  ghost predicate Spike(d: seq<int>, at: nat, value: int, rest: int) {
    at < |d| && d[at] == value && forall i | 0 <= i < |d| && i != at :: d[i] == rest
  }

  lemma {:induction false} SiftUpStuck(d: seq<int>, idx: nat, cap: nat)
    requires Spike(d, idx, 0, 1) && Depth(idx) > cap
    ensures !Heap(SiftUp(d, idx, cap))
    decreases cap
  {
    if cap == 0 {
      assert !Ordered(d, idx);
    } else {
      SiftUpStuck(Swap(d, idx, Parent(idx)), Parent(idx), cap - 1);
    }
  }

  lemma {:induction false} SiftDownStuck(d: seq<int>, pos: nat, cap: nat)
    requires Spike(d, pos, 2, 1) && Levels(pos, |d|) > cap
    ensures !Heap(SiftDown(d, pos, cap))
    decreases cap
  {
    assert d[2 * pos + 1] == 1;
    if cap == 0 {
      assert !Ordered(d, 2 * pos + 1);
    } else {
      assert Smallest(d, pos) == 2 * pos + 1;
      SiftDownStuck(Swap(d, pos, 2 * pos + 1), 2 * pos + 1, cap - 1);
    }
  }

  /** Pushing keeps heap order on every heap of n elements exactly when n is at most 30, so
      that the result has at most 31. */
  lemma PushCap(n: nat)
    ensures PushKeepsOrder(n) <==> n <= 30
  {
    LastAtCap();
    DepthBound(n, SIFT_CAP);
    if n <= 30 {
      forall d, val | |d| == n && Heap(d) ensures Heap(Pushed(d, val)) {
        var e: seq<int> := d + [val];
        assert forall i | 0 < i < n :: Ordered(d, i) && Ordered(e, i) by {
          forall i | 0 < i < n ensures Ordered(d, i) && Ordered(e, i) {
            assert Ordered(d, i);
          }
        }
        SiftUpOrders(e, n, SIFT_CAP);
      }
    } else {
      var d := seq(n, i => 1);
      assert Heap(d);
      SiftUpStuck(d + [0], n, SIFT_CAP);
      assert !Heap(Pushed(d, 0));
    }
  }

  /** Popping keeps heap order on every heap of n elements exactly when n is at most 32. */
  lemma PopCap(n: nat)
    ensures PopKeepsOrder(n) <==> n <= 32
  {
    if n <= 32 {
      forall d | |d| == n && n > 0 && Heap(d) ensures Heap(Popped(d)) {
        if n > 1 {
          var e := Lifted(d);
          LevelsBound(n - 1);
          forall i | 0 < i < |e| && Parent(i) != 0 ensures Ordered(e, i) {
            assert Ordered(d, i);
          }
          SiftDownOrders(e, 0, SIFT_CAP);
        }
      }
    } else {
      LevelsBound(n - 1);
      var d := seq(n, i => if i == n - 1 then 2 else 1);
      assert Heap(d);
      SiftDownStuck(Lifted(d), 0, SIFT_CAP);
      assert Popped(d) == SiftDown(Lifted(d), 0, SIFT_CAP);
      assert !Heap(Popped(d));
    }
  }

  // ---------- The heap behaves as a sorted list ----------

  datatype Op = Push(val: int) | Pop

  /** What a caller sees: whether a push was accepted, and the root a pop removed. */
  datatype Reply = Accepted | Full | Removed(min: int) | Empty

  function Apply(d: seq<int>, size: nat, op: Op): (seq<int>, Reply) {
    match op
    case Push(val) => if |d| >= size then (d, Full) else (Pushed(d, val), Accepted)
    case Pop => if d == [] then (d, Empty) else (Popped(d), Removed(d[0]))
  }

  function Replies(d: seq<int>, size: nat, ops: seq<Op>): seq<Reply>
    decreases |ops|
  {
    if ops == [] then [] else
      var (e, reply) := Apply(d, size, ops[0]);
      [reply] + Replies(e, size, ops[1..])
  }

  ghost predicate Sorted(s: seq<int>) {
    forall i, j | 0 <= i < j < |s| :: s[i] <= s[j]
  }

  function Insert(s: seq<int>, val: int): (t: seq<int>)
    ensures multiset(t) == multiset(s) + multiset{val}
  {
    if s == [] || val <= s[0] then [val] + s
    else
      assert s == [s[0]] + s[1..];
      [s[0]] + Insert(s[1..], val)
  }

  lemma {:induction false} InsertSorted(s: seq<int>, val: int)
    requires Sorted(s)
    ensures Sorted(Insert(s, val))
  {
    if s != [] && s[0] < val {
      InsertSorted(s[1..], val);
      var t := Insert(s[1..], val);
      forall i | 0 <= i < |t| ensures s[0] <= t[i] {
        assert t[i] in multiset(t);
        assert t[i] in multiset(s[1..]) || t[i] == val;
      }
    }
  }

  function ListApply(s: seq<int>, size: nat, op: Op): (seq<int>, Reply) {
    match op
    case Push(val) => if |s| >= size then (s, Full) else (Insert(s, val), Accepted)
    case Pop => if s == [] then (s, Empty) else (s[1..], Removed(s[0]))
  }

  function ListReplies(s: seq<int>, size: nat, ops: seq<Op>): seq<Reply>
    decreases |ops|
  {
    if ops == [] then [] else
      var (t, reply) := ListApply(s, size, ops[0]);
      [reply] + ListReplies(t, size, ops[1..])
  }

  lemma {:induction false} RootLeast(d: seq<int>, i: nat)
    requires Heap(d) && i < |d|
    ensures d[0] <= d[i]
    decreases i
  {
    if i > 0 {
      assert Ordered(d, i);
      RootLeast(d, Parent(i));
    }
  }

  /** A heap and a sorted list with the same contents have the same size and the same head. */
  lemma SameHead(d: seq<int>, s: seq<int>)
    requires Heap(d) && Sorted(s) && multiset(d) == multiset(s)
    ensures |d| == |s| && (d != [] ==> d[0] == s[0])
  {
    assert |multiset(d)| == |d| && |multiset(s)| == |s|;
    if d != [] {
      assert d[0] in multiset(s) && s[0] in multiset(d);
      var i :| 0 <= i < |s| && s[i] == d[0];
      var j :| 0 <= j < |d| && d[j] == s[0];
      RootLeast(d, j);
    }
  }

  ghost predicate SameContents(d: seq<int>, s: seq<int>, size: nat) {
    |d| <= size && Heap(d) && Sorted(s) && multiset(d) == multiset(s)
  }

  lemma PushAgrees(d: seq<int>, s: seq<int>, size: nat, val: int)
    requires size <= 31 && SameContents(d, s, size) && |d| < size
    ensures SameContents(Pushed(d, val), Insert(s, val), size)
  {
    PushCap(|d|);
    PushedContents(d, val);
    InsertSorted(s, val);
  }

  lemma PopAgrees(d: seq<int>, s: seq<int>, size: nat)
    requires size <= 31 && SameContents(d, s, size) && d != [] && s != [] && d[0] == s[0]
    ensures SameContents(Popped(d), s[1..], size)
  {
    PopCap(|d|);
    PoppedContents(d);
    assert s == [s[0]] + s[1..];
  }

  /** Every sequence of pushes and pops on at most 31 slots is answered as by a sorted list; in
      particular popping until empty yields the contents in order. */
  lemma {:induction false} RepliesAgree(d: seq<int>, s: seq<int>, size: nat, ops: seq<Op>)
    requires size <= 31 && SameContents(d, s, size)
    ensures Replies(d, size, ops) == ListReplies(s, size, ops)
    decreases |ops|
  {
    if ops != [] {
      SameHead(d, s);
      match ops[0] {
        case Push(val) =>
          if |d| < size {
            PushAgrees(d, s, size, val);
          }
        case Pop =>
          if d != [] {
            PopAgrees(d, s, size);
          }
      }
      RepliesAgree(Apply(d, size, ops[0]).0, ListApply(s, size, ops[0]).0, size, ops[1..]);
    }
  }

  function Pops(n: nat): seq<Op> {
    if n == 0 then [] else [Pop] + Pops(n - 1)
  }

  /** Popping a heap until it is empty gives its contents in ascending order. */
  lemma {:induction false} DrainSorted(d: seq<int>, s: seq<int>, size: nat)
    requires size <= 31 && SameContents(d, s, size)
    ensures |d| == |s| && |Replies(d, size, Pops(|d|))| == |s|
    ensures forall i | 0 <= i < |s| :: Replies(d, size, Pops(|d|))[i] == Removed(s[i])
    decreases |d|
  {
    SameHead(d, s);
    if d != [] {
      PopAgrees(d, s, size);
      DrainSorted(Popped(d), s[1..], size);
      assert Pops(|d|)[1..] == Pops(|d| - 1);
    }
  }

  // ---------- The heap in place ----------

  class IntHeap {
    const data: array<int>
    var nr: nat

    ghost predicate Valid()
      reads this
    {
      nr <= data.Length
    }

    ghost function Contents(): seq<int>
      requires Valid()
      reads this, data
    {
      data[..nr]
    }

    constructor (size: nat)
      ensures Valid() && fresh(data) && data.Length == size && Contents() == []
    {
      data := new int[size];
      nr := 0;
    }

    static method SiftUpLoop(data: array<int>, start: nat)
      requires start < data.Length
      modifies data
      ensures data[..start + 1] == SiftUp(old(data[..start + 1]), start, SIFT_CAP)
      ensures data[start + 1..] == old(data[start + 1..])
    {
      ghost var goal := SiftUp(data[..start + 1], start, SIFT_CAP);
      var idx: nat := start;
      var i := 0;
      while i < SIFT_CAP && idx > 0
        invariant 0 <= i <= SIFT_CAP && idx <= start
        invariant SiftUp(data[..start + 1], idx, SIFT_CAP - i) == goal
        invariant data[start + 1..] == old(data[start + 1..])
      {
        var par := (idx - 1) / 2;
        ghost var before := data[..start + 1];
        if !(data[idx] < data[par]) {
          break;
        }
        assert goal == SiftUp(Swap(before, idx, par), par, SIFT_CAP - i - 1);
        data[idx], data[par] := data[par], data[idx];
        assert data[..start + 1] == Swap(before, idx, par);
        idx := par;
        i := i + 1;
      }
    }

    /** The child selection of one sift-down iteration. */
    static method FindSmallest(data: array<int>, n: nat, pos: nat) returns (smallest: nat)
      requires pos < n <= data.Length
      ensures smallest == Smallest(data[..n], pos)
    {
      var left := 2 * pos + 1;
      var right := 2 * pos + 2;
      smallest := pos;
      if left < n && data[left] < data[smallest] {
        smallest := left;
      }
      if right < n && data[right] < data[smallest] {
        smallest := right;
      }
    }

    static method SiftDownLoop(data: array<int>, n: nat)
      requires 0 < n <= data.Length
      modifies data
      ensures data[..n] == SiftDown(old(data[..n]), 0, SIFT_CAP)
      ensures data[n..] == old(data[n..])
    {
      ghost var goal := SiftDown(data[..n], 0, SIFT_CAP);
      var pos := 0;
      var i := 0;
      while i < SIFT_CAP
        invariant 0 <= i <= SIFT_CAP && pos < n
        invariant SiftDown(data[..n], pos, SIFT_CAP - i) == goal
        invariant data[n..] == old(data[n..])
      {
        var smallest := FindSmallest(data, n, pos);
        if smallest == pos {
          break;
        }
        ghost var before := data[..n];
        data[pos], data[smallest] := data[smallest], data[pos];
        assert data[..n] == Swap(before, pos, smallest);
        pos := smallest;
        i := i + 1;
      }
    }

    method Push(val: int) returns (ok: bool)
      requires Valid()
      modifies this, data
      ensures Valid()
      ensures ok <==> old(nr) < data.Length
      ensures Contents() == if ok then Pushed(old(Contents()), val) else old(Contents())
    {
      if nr >= data.Length {
        return false;
      }
      data[nr] := val;
      assert data[..nr + 1] == old(data[..nr]) + [val];
      SiftUpLoop(data, nr);
      nr := nr + 1;
      ok := true;
    }

    method Pop() returns (ok: bool)
      requires Valid()
      modifies this, data
      ensures Valid()
      ensures ok <==> old(nr) > 0
      ensures Contents() == if ok then Popped(old(Contents())) else old(Contents())
    {
      if nr == 0 {
        return false;
      }
      ghost var before := data[..nr];
      nr := nr - 1;
      data[0] := data[nr];
      assert data[..nr] == Lifted(before);
      if nr > 0 {
        SiftDownLoop(data, nr);
      }
      ok := true;
    }
  }
}
