/** The circular doubly linked list: its links refine a sequence of nodes. */
module ListRing {

  class ListHead {
    var next: ListHead
    var prev: ListHead

    /** A node that is linked to itself. */
    constructor ()
      ensures next == this && prev == this
    {
      next := this;
      prev := this;
    }

    method Init()
      modifies this
      ensures next == this && prev == this
    {
      next := this;
      prev := this;
    }
  }

  function Succ(i: nat, n: nat): nat
    requires i < n
  {
    if i + 1 < n then i + 1 else 0
  }

  ghost predicate Distinct(r: seq<ListHead>) {
    forall i, j | 0 <= i < j < |r| :: r[i] != r[j]
  }

  /** The nodes in the order of their next links, once around: next and prev are mutual inverses. */
  ghost predicate Ring(r: seq<ListHead>)
    reads r
  {
    r != [] && Distinct(r) &&
    forall i | 0 <= i < |r| :: r[i].next == r[Succ(i, |r|)] && r[Succ(i, |r|)].prev == r[i]
  }

  /** Links entry in behind head. */
  method ListAdd(entry: ListHead, head: ListHead, ghost r: seq<ListHead>)
    requires Ring(r) && r[0] == head && entry !in r
    modifies entry, head, head.next
    ensures Ring([head, entry] + r[1..])
    ensures forall x | x in r :: x != head && x != old(head.next) ==> unchanged(x)
  {
    assert head.next == r[Succ(0, |r|)];
    entry.next := head.next;
    entry.prev := head;
    head.next.prev := entry;
    head.next := entry;
    ghost var t := [head, entry] + r[1..];
    assert Ring(t) by {
      forall i | 0 <= i < |t|
        ensures t[i].next == t[Succ(i, |t|)] && t[Succ(i, |t|)].prev == t[i]
      {
        if i >= 2 {
          assert t[i] == r[i - 1];
          assert r[i - 1].next == r[Succ(i - 1, |r|)];
        }
      }
    }
  }

  /** The nodes without the k-th. */
  ghost function Without(r: seq<ListHead>, k: nat): seq<ListHead>
    requires k < |r|
  {
    r[..k] + r[k + 1..]
  }

  /** Unlinks entry and links it to itself; an entry alone on its ring is left as it is. */
  method ListDel(entry: ListHead, ghost r: seq<ListHead>, ghost k: nat)
    requires Ring(r) && k < |r| && r[k] == entry
    modifies entry, entry.prev, entry.next
    ensures |r| > 1 ==> Ring(Without(r, k))
    ensures Ring([entry])
    ensures |r| == 1 ==> entry.next == old(entry.next) && entry.prev == old(entry.prev)
  {
    ghost var n := |r|;
    ghost var p := if k == 0 then n - 1 else k - 1;
    assert Succ(p, n) == k && entry.prev == r[p] && entry.next == r[Succ(k, n)];
    entry.prev.next := entry.next;
    entry.next.prev := entry.prev;
    entry.next := entry;
    entry.prev := entry;
    if n > 1 {
      ghost var q := Succ(k, n);
      assert r[p].next == r[q] && r[q].prev == r[p];
      assert forall j | 0 <= j < n && j != k && j != p :: r[j].next == r[Succ(j, n)] && r[Succ(j, n)].prev == r[j];
      Bridged(r, k, p, q);
    }
  }

  /** A ring without its k-th node, whose neighbours p and q are linked to each other. */
  lemma Bridged(r: seq<ListHead>, k: nat, p: nat, q: nat)
    requires |r| > 1 && Distinct(r) && k < |r| && p == (if k == 0 then |r| - 1 else k - 1) && q == Succ(k, |r|)
    requires r[p].next == r[q] && r[q].prev == r[p]
    requires forall j | 0 <= j < |r| && j != k && j != p ::
               r[j].next == r[Succ(j, |r|)] && r[Succ(j, |r|)].prev == r[j]
    ensures Ring(Without(r, k))
  {
    var t, n := Without(r, k), |r|;
    forall i | 0 <= i < |t|
      ensures t[i].next == t[Succ(i, |t|)] && t[Succ(i, |t|)].prev == t[i]
    {
      var j := if i < k then i else i + 1;
      assert t[i] == r[j];
      if j == p {
        assert t[Succ(i, |t|)] == r[q];
      } else {
        assert t[Succ(i, |t|)] == r[Succ(j, n)];
      }
    }
  }

  /** Follows the next links from head back to head. */
  method Traverse(head: ListHead, ghost r: seq<ListHead>) returns (visited: seq<ListHead>)
    requires Ring(r) && r[0] == head
    ensures visited == r[1..]
  {
    visited := [];
    assert head.next == r[Succ(0, |r|)];
    var pos := head.next;
    while pos != head
      invariant |visited| < |r| && visited == r[1..|visited| + 1]
      invariant pos == r[Succ(|visited|, |r|)]
      decreases |r| - |visited|
    {
      visited := visited + [pos];
      assert pos == r[|visited|];
      pos := pos.next;
    }
    assert Succ(|visited|, |r|) == 0;
  }

  // ---------- Runs ----------

  datatype Op = Add(node: ListHead) | Del(node: ListHead)

  /** Adding prepends; deleting removes the node if it is there. */
  ghost function Apply(list: seq<ListHead>, op: Op): seq<ListHead> {
    match op
    case Add(node) => [node] + list
    case Del(node) => Removed(list, node)
  }

  ghost function Removed(list: seq<ListHead>, node: ListHead): seq<ListHead> {
    if list == [] then []
    else if list[0] == node then list[1..]
    else [list[0]] + Removed(list[1..], node)
  }

  ghost function Run(list: seq<ListHead>, ops: seq<Op>): seq<ListHead>
    decreases |ops|
  {
    if ops == [] then list else Run(Apply(list, ops[0]), ops[1..])
  }

  /** What a caller owes: only known nodes, and none added while it is on the list. */
  ghost predicate Legal(list: seq<ListHead>, nodes: set<ListHead>, ops: seq<Op>)
    decreases |ops|
  {
    ops != [] ==>
      ops[0].node in nodes && (ops[0].Add? ==> ops[0].node !in list) && Legal(Apply(list, ops[0]), nodes, ops[1..])
  }

  /** The list hangs off head, and every other node is linked to itself. */
  ghost predicate World(head: ListHead, list: seq<ListHead>, nodes: set<ListHead>)
    reads head, list, nodes
  {
    Ring([head] + list) && head !in nodes && (forall x | x in list :: x in nodes) &&
    forall x | x in nodes && x !in list :: Ring([x])
  }

  /** Initialises a head and its nodes, whatever they linked to before: the list is empty. */
  method InitAll(head: ListHead, nodes: seq<ListHead>)
    requires head !in nodes
    modifies head, nodes
    ensures World(head, [], set i | 0 <= i < |nodes| :: nodes[i])
  {
    head.Init();
    var i := 0;
    while i < |nodes|
      invariant 0 <= i <= |nodes|
      invariant head.next == head && head.prev == head
      invariant forall j | 0 <= j < i :: nodes[j].next == nodes[j] && nodes[j].prev == nodes[j]
    {
      nodes[i].Init();
      i := i + 1;
    }
  }

  lemma {:induction false} RemovedIsWithout(list: seq<ListHead>, k: nat)
    requires k < |list| && Distinct(list)
    ensures Removed(list, list[k]) == Without(list, k)
    decreases k
  {
    if k > 0 {
      RemovedIsWithout(list[1..], k - 1);
      assert list[k] == list[1..][k - 1];
      assert Without(list, k) == [list[0]] + Without(list[1..], k - 1);
    } else {
      assert Without(list, 0) == list[1..];
    }
  }

  lemma {:induction false} RemovedAbsent(list: seq<ListHead>, node: ListHead)
    requires node !in list
    ensures Removed(list, node) == list
  {
    if list != [] {
      RemovedAbsent(list[1..], node);
    }
  }

  /** Where a node's ring is, and its position there: the list's ring, or its own. */
  ghost function RingOf(head: ListHead, list: seq<ListHead>, node: ListHead): (where: (seq<ListHead>, nat))
    ensures where.1 < |where.0| && where.0[where.1] == node
    ensures where.0 == if node in list then [head] + list else [node]
  {
    if node in list then
      var k :| 0 <= k < |list| && list[k] == node;
      ([head] + list, k + 1)
    else ([node], 0)
  }

  lemma TailDistinct(head: ListHead, list: seq<ListHead>)
    requires Distinct([head] + list)
    ensures Distinct(list) && head !in list
  {
    var r := [head] + list;
    forall i, j | 0 <= i < j < |list|
      ensures list[i] != list[j]
    {
      assert r[i + 1] == list[i] && r[j + 1] == list[j];
    }
    forall i | 0 <= i < |list|
      ensures list[i] != head
    {
      assert r[0] == head && r[i + 1] == list[i];
    }
  }

  /** b has the elements of a, but not node. */
  ghost predicate AllBut(a: seq<ListHead>, b: seq<ListHead>, node: ListHead) {
    (forall i | 0 <= i < |b| :: b[i] in a && b[i] != node) &&
    (forall i | 0 <= i < |a| :: a[i] in b || a[i] == node)
  }

  lemma WithoutMembers(list: seq<ListHead>, k: nat)
    requires Distinct(list) && k < |list|
    ensures AllBut(list, Without(list, k), list[k])
  {
    var rest := Without(list, k);
    forall i | 0 <= i < |list| && i != k
      ensures list[i] in rest
    {
      assert rest[if i < k then i else i - 1] == list[i];
    }
  }

  lemma WithoutMember(head: ListHead, list: seq<ListHead>, node: ListHead)
    requires Distinct([head] + list) && node in list
    ensures var (r, k) := RingOf(head, list, node);
            k > 0 && Without(r, k) == [head] + Removed(list, node)
    ensures AllBut(list, Removed(list, node), node)
  {
    hide Distinct, AllBut, Removed, RingOf, Without;
    TailDistinct(head, list);
    var (r, k) := RingOf(head, list, node);
    HeadIsNot(head, list, node);
    assert r[0] == head && list[k - 1] == node;
    RemovedIsWithout(list, k - 1);
    WithoutMembers(list, k - 1);
    WithoutBehind(head, list, k - 1);
  }

  lemma HeadIsNot(head: ListHead, list: seq<ListHead>, node: ListHead)
    requires head !in list && node in list
    ensures head != node
  {
  }

  lemma WithoutBehind(head: ListHead, list: seq<ListHead>, k: nat)
    requires k < |list|
    ensures Without([head] + list, k + 1) == [head] + Without(list, k)
  {
    var r := [head] + list;
    assert r[..k + 1] == [head] + list[..k] && r[k + 2..] == list[k + 1..];
  }

  method StepAdd(head: ListHead, node: ListHead, ghost list: seq<ListHead>, ghost nodes: set<ListHead>)
    requires World(head, list, nodes) && node in nodes && node !in list
    modifies head, nodes
    ensures World(head, [node] + list, nodes)
  {
    ghost var r := [head] + list;
    RingNeighbours(r, 0);
    ListAdd(node, head, r);
    assert [head, node] + r[1..] == [head] + ([node] + list);
  }

  /** Deletion, whether or not the node is on the list. */
  method StepDel(head: ListHead, node: ListHead, ghost list: seq<ListHead>, ghost nodes: set<ListHead>)
    requires World(head, list, nodes) && node in nodes
    modifies head, nodes
    ensures World(head, Removed(list, node), nodes)
  {
    hide RingOf, Ring;
    ghost var (r, k) := RingOf(head, list, node);
    ghost var rest := Removed(list, node);
    RingNeighbours(r, k);
    RingDistinct([head] + list);
    if node in list {
      WithoutMember(head, list, node);
    } else {
      RemovedAbsent(list, node);
      assert rest == list;
      assert node != head && node !in [head] + list;
    }
    assert forall i | 0 <= i < |rest| :: rest[i] in list && rest[i] in nodes;
    assert node.prev in r && node.next in r && r == if node in list then [head] + list else [node];
    ListDel(node, r, k);
    forall x | x in nodes && x !in rest
      ensures Ring([x])
    {
      assert x != node ==> x !in r;
    }
    assert Ring([head] + rest);
  }

  lemma RingDistinct(r: seq<ListHead>)
    requires Ring(r)
    ensures Distinct(r)
  {
  }

  /** One operation, whatever the state of its node. */
  method Step(head: ListHead, op: Op, ghost list: seq<ListHead>, ghost nodes: set<ListHead>)
    requires World(head, list, nodes) && op.node in nodes && (op.Add? ==> op.node !in list)
    modifies head, nodes
    ensures World(head, Apply(list, op), nodes)
  {
    match op
    case Add(node) => StepAdd(head, node, list, nodes);
    case Del(node) => StepDel(head, node, list, nodes);
  }

  lemma RingNeighbours(r: seq<ListHead>, k: nat)
    requires Ring(r) && k < |r|
    ensures r[k].next in r && r[k].prev in r
  {
    var p := if k == 0 then |r| - 1 else k - 1;
    assert Succ(p, |r|) == k;
    assert r[Succ(p, |r|)].prev == r[p];
  }

  lemma WorldRing(head: ListHead, list: seq<ListHead>, nodes: set<ListHead>)
    requires World(head, list, nodes)
    ensures Ring([head] + list)
  {
  }

  /** Every legal run of additions and deletions: afterwards the links are those of the sequence
      the run computes, and walking them visits each of its nodes once. */
  method Replay(head: ListHead, ops: seq<Op>, ghost list: seq<ListHead>, ghost nodes: set<ListHead>)
    returns (visited: seq<ListHead>)
    requires World(head, list, nodes) && Legal(list, nodes, ops)
    modifies head, nodes
    ensures World(head, Run(list, ops), nodes)
    ensures visited == Run(list, ops)
  {
    hide World, Ring, Apply;
    ghost var current := list;
    var i := 0;
    assert ops[0..] == ops;
    while i < |ops|
      invariant 0 <= i <= |ops|
      invariant World(head, current, nodes) && Legal(current, nodes, ops[i..])
      invariant Run(current, ops[i..]) == Run(list, ops)
    {
      assert ops[i..][0] == ops[i] && ops[i..][1..] == ops[i + 1..];
      Step(head, ops[i], current, nodes);
      current := Apply(current, ops[i]);
      i := i + 1;
    }
    WorldRing(head, current, nodes);
    assert ([head] + current)[1..] == current;
    visited := Traverse(head, [head] + current);
  }

  /** Deleting a node twice is deleting it once. */
  lemma DeleteTwice(list: seq<ListHead>, node: ListHead)
    requires Distinct(list)
    ensures Apply(Apply(list, Del(node)), Del(node)) == Apply(list, Del(node))
    ensures node !in Apply(list, Del(node))
  {
    if node in list {
      var k :| 0 <= k < |list| && list[k] == node;
      RemovedIsWithout(list, k);
    } else {
      RemovedAbsent(list, node);
    }
    RemovedAbsent(Removed(list, node), node);
  }
}
