/** The intrusive circular doubly linked list (LiteOS/utils/los_list.h). A list head and its elements form one ring;
    the ghost sequence `s` lists that ring, head first.
 */
module RingList {

  class Node {
    var next: Node?
    var prev: Node?

    constructor ()
      ensures next == null && prev == null
    {
      next, prev := null, null;
    }
  }

  ghost predicate Distinct(s: seq<Node>) {
    forall i, j :: 0 <= i < j < |s| ==> s[i] != s[j]
  }

  /** `next` runs through `s` and back to its first node, and `prev` is its inverse. */
  ghost predicate Ring(s: seq<Node>)
    reads s
  {
    && |s| > 0 && Distinct(s)
    && s[|s| - 1].next == s[0] && s[0].prev == s[|s| - 1]
    && (forall i {:trigger s[i].next} :: 0 <= i < |s| - 1 ==> s[i].next == s[i + 1])
    && (forall i {:trigger s[i].prev} :: 0 < i < |s| ==> s[i].prev == s[i - 1])
  }

  /** `next` and `prev` are mutually inverse on a ring. */
  lemma MutuallyInverse(s: seq<Node>, i: nat)
    requires Ring(s) && i < |s|
    ensures s[i].next != null && s[i].prev != null && s[i].next.prev == s[i] && s[i].prev.next == s[i]
    ensures s[i].next in s && s[i].prev in s
  {
  }

  function Inserted<T>(s: seq<T>, k: nat, x: T): seq<T>
    requires k <= |s|
  {
    s[..k] + [x] + s[k..]
  }

  function Removed<T>(s: seq<T>, k: nat): seq<T>
    requires k < |s|
  {
    s[..k] + s[k + 1..]
  }

  lemma InsertedAt<T>(s: seq<T>, k: nat, x: T)
    requires k <= |s|
    ensures |Inserted(s, k, x)| == |s| + 1
    ensures forall i :: 0 <= i < |s| + 1 ==>
              Inserted(s, k, x)[i] == if i < k then s[i] else if i == k then x else s[i - 1]
  {
  }

  lemma InsertedDistinct(s: seq<Node>, k: nat, x: Node)
    requires Distinct(s) && k <= |s| && x !in s
    ensures Distinct(Inserted(s, k, x))
  {
    InsertedAt(s, k, x);
  }

  /** LOS_ListInit */
  method ListInit(list: Node)
    modifies list
    ensures Ring([list])
  {
    list.next := list;
    list.prev := list;
  }

  /** LOS_ListAdd: the new node comes right after `list`. */
  method ListAdd(list: Node, node: Node, ghost s: seq<Node>, ghost k: nat)
    requires Ring(s) && k < |s| && list == s[k] && node !in s
    modifies list, list.next, node
    ensures Ring(Inserted(s, k + 1, node))
  {
    MutuallyInverse(s, k);
    node.next := list.next;
    node.prev := list;
    list.next.prev := node;
    list.next := node;
    InsertedAt(s, k + 1, node);
    InsertedDistinct(s, k + 1, node);
  }

  /** LOS_ListHeadInsert */
  method ListHeadInsert(list: Node, node: Node, ghost s: seq<Node>)
    requires Ring(s) && list == s[0] && node !in s
    modifies list, list.next, node
    ensures Ring(Inserted(s, 1, node))
  {
    ListAdd(list, node, s, 0);
  }

  /** LOS_ListTailInsert */
  method ListTailInsert(list: Node, node: Node, ghost s: seq<Node>)
    requires Ring(s) && list == s[0] && node !in s
    modifies list, list.prev, node
    ensures Ring(s + [node])
  {
    MutuallyInverse(s, 0);
    assert list.prev == s[|s| - 1];
    ListAdd(list.prev, node, s, |s| - 1);
    assert Inserted(s, |s|, node) == s + [node];
  }

  /** The pointer surgery shared by LOS_ListDelete and LOS_ListDelInit. */
  method Unlink(node: Node, ghost s: seq<Node>, ghost k: nat)
    requires Ring(s) && k < |s| && node == s[k]
    modifies node, node.next, node.prev
    ensures |s| > 1 ==> Ring(Removed(s, k))
  {
    MutuallyInverse(s, k);
    node.next.prev := node.prev;
    node.prev.next := node.next;
    ghost var t := Removed(s, k);
    assert forall i :: 0 <= i < |t| ==> t[i] == if i < k then s[i] else s[i + 1];
  }

  /** LOS_ListDelete */
  method ListDelete(node: Node, ghost s: seq<Node>, ghost k: nat)
    requires Ring(s) && k < |s| && node == s[k]
    modifies node, node.next, node.prev
    ensures |s| > 1 ==> Ring(Removed(s, k))
    ensures node.next == null && node.prev == null
  {
    Unlink(node, s, k);
    node.next := null;
    node.prev := null;
  }

  /** LOS_ListDelInit: the node becomes a ring of its own. */
  method ListDelInit(node: Node, ghost s: seq<Node>, ghost k: nat)
    requires Ring(s) && k < |s| && node == s[k]
    modifies node, node.next, node.prev
    ensures |s| > 1 ==> Ring(Removed(s, k))
    ensures Ring([node])
  {
    Unlink(node, s, k);
    ListInit(node);
  }

  /** LOS_ListEmpty */
  method ListEmpty(list: Node, ghost s: seq<Node>) returns (empty: bool)
    requires Ring(s) && list == s[0]
    ensures empty <==> s[1..] == []
  {
    empty := list.next == list;
    if |s| > 1 {
      assert s[0].next == s[1];
    }
  }

  /** LOS_DL_LIST_FOR_EACH visits every element exactly once, in order. */
  method ForEach(list: Node, ghost s: seq<Node>) returns (visited: seq<Node>)
    requires Ring(s) && list == s[0]
    ensures visited == s[1..]
  {
    visited := [];
    var item := list.next;
    ghost var i := 1;
    while item != list
      invariant 1 <= i <= |s| && visited == s[1..i]
      invariant item == if i == |s| then s[0] else s[i]
      decreases |s| - i
    {
      visited := visited + [item];
      item := item.next;
      i := i + 1;
    }
  }

  /** The elements that stay when those in `doomed` are deleted. */
  function Kept(s: seq<Node>, doomed: set<Node>): seq<Node> {
    if s == [] then []
    else
      var n := |s| - 1;
      Kept(s[..n], doomed) + if s[n] in doomed then [] else [s[n]]
  }

  lemma {:induction false} KeptMembers(s: seq<Node>, doomed: set<Node>)
    ensures forall n :: n in Kept(s, doomed) ==> n in s
  {
    if s != [] {
      KeptMembers(s[..|s| - 1], doomed);
    }
  }

  /** The ring while elements 1 to i-1 have been visited: those kept of them, then the rest. */
  ghost function Current(s: seq<Node>, i: nat, doomed: set<Node>): seq<Node>
    requires 1 <= i <= |s|
  {
    [s[0]] + Kept(s[1..i], doomed) + s[i..]
  }

  lemma CurrentShape(s: seq<Node>, i: nat, doomed: set<Node>)
    requires 1 <= i < |s|
    ensures var r, k := Current(s, i, doomed), 1 + |Kept(s[1..i], doomed)|;
            && k < |r| && |r| > 1 && r[0] == s[0] && r[k] == s[i]
            && (k + 1 < |r| <==> i + 1 < |s|) && (i + 1 < |s| ==> r[k + 1] == s[i + 1])
  {
  }

  lemma KeptNext(s: seq<Node>, i: nat, doomed: set<Node>)
    requires 1 <= i < |s|
    ensures Kept(s[1..i + 1], doomed) == Kept(s[1..i], doomed) + if s[i] in doomed then [] else [s[i]]
  {
    assert s[1..i + 1][..i - 1] == s[1..i];
  }

  lemma AcrossNext(head: seq<Node>, kept: seq<Node>, node: Node, rest: seq<Node>)
    ensures head + kept + ([node] + rest) == head + (kept + [node]) + rest
    ensures Removed(head + kept + ([node] + rest), |head| + |kept|) == head + kept + rest
  {
  }

  lemma CurrentNext(s: seq<Node>, i: nat, doomed: set<Node>)
    requires 1 <= i < |s|
    ensures var r, k := Current(s, i, doomed), 1 + |Kept(s[1..i], doomed)|;
            && k < |r| && |r| > 1 && r[0] == s[0] && r[k] == s[i]
            && (k + 1 < |r| <==> i + 1 < |s|) && (i + 1 < |s| ==> r[k + 1] == s[i + 1])
            && Current(s, i + 1, doomed) == if s[i] in doomed then Removed(r, k) else r
  {
    CurrentShape(s, i, doomed);
    KeptNext(s, i, doomed);
    assert s[i..] == [s[i]] + s[i + 1..];
    AcrossNext([s[0]], Kept(s[1..i], doomed), s[i], s[i + 1..]);
    assert Kept(s[1..i], doomed) + [] == Kept(s[1..i], doomed);
  }

  lemma CurrentMembers(s: seq<Node>, i: nat, doomed: set<Node>)
    requires 1 <= i <= |s|
    ensures forall n :: n in Current(s, i, doomed) ==> n in s
  {
    KeptMembers(s[1..i], doomed);
  }

  lemma CurrentEnd(s: seq<Node>, doomed: set<Node>)
    requires |s| > 0
    ensures Current(s, 1, doomed) == s
    ensures Current(s, |s|, doomed) == [s[0]] + Kept(s[1..], doomed)
  {
    assert s[1..|s|] == s[1..];
  }

  /** The body of the loop: delete the visited element or leave it. */
  method VisitSafe(item: Node, doomed: set<Node>, ghost s: seq<Node>, ghost i: nat)
    requires 1 <= i < |s| && Ring(Current(s, i, doomed)) && item == s[i]
    modifies s
    ensures Ring(Current(s, i + 1, doomed))
  {
    CurrentNext(s, i, doomed);
    CurrentMembers(s, i, doomed);
    if item in doomed {
      DeleteIn(item, Current(s, i, doomed), 1 + |Kept(s[1..i], doomed)|, s);
    }
  }

  /** LOS_ListDelete on a ring whose nodes are among those of `s`. */
  method DeleteIn(node: Node, ghost r: seq<Node>, ghost k: nat, ghost s: seq<Node>)
    requires Ring(r) && k < |r| && 1 < |r| && node == r[k] && forall n :: n in r ==> n in s
    modifies s
    ensures Ring(Removed(r, k))
  {
    MutuallyInverse(r, k);
    assert node in s && node.next in s && node.prev in s;
    ListDelete(node, r, k);
  }

  lemma NextInCurrent(s: seq<Node>, i: nat, doomed: set<Node>)
    requires 1 <= i < |s| && Ring(Current(s, i, doomed))
    ensures s[i].next == if i + 1 == |s| then s[0] else s[i + 1]
  {
    CurrentNext(s, i, doomed);
    var r, k := Current(s, i, doomed), 1 + |Kept(s[1..i], doomed)|;
    assert r[k] == s[i];
    if i + 1 < |s| { assert r[k].next == r[k + 1]; } else { assert r[|r| - 1].next == r[0]; }
  }

  /** The node the loop looks at has a successor. */
  lemma ItemHasNext(s: seq<Node>, i: nat, doomed: set<Node>, item: Node)
    requires 1 <= i <= |s| && Ring(Current(s, i, doomed)) && item == if i == |s| then s[0] else s[i]
    ensures item.next != null
  {
    var r := Current(s, i, doomed);
    if i == |s| {
      assert r[0] == item;
      MutuallyInverse(r, 0);
    } else {
      CurrentNext(s, i, doomed);
      MutuallyInverse(r, 1 + |Kept(s[1..i], doomed)|);
    }
  }

  /** LOS_DL_LIST_FOR_EACH_SAFE with a body that deletes some of the elements it visits: every element is still
      visited exactly once, in order, and the elements left are those not deleted. */
  method ForEachSafe(list: Node, doomed: set<Node>, ghost s: seq<Node>) returns (visited: seq<Node>)
    requires Ring(s) && list == s[0]
    modifies s
    ensures visited == s[1..]
    ensures Ring([list] + Kept(s[1..], doomed))
  {
    CurrentEnd(s, doomed);
    visited := [];
    var item := list.next;
    ghost var i := 1;
    ItemHasNext(s, i, doomed, item);
    var next := item.next;
    while item != list
      invariant 1 <= i <= |s| && visited == s[1..i] && Distinct(s)
      invariant Ring(Current(s, i, doomed))
      invariant item == if i == |s| then s[0] else s[i]
      invariant next == item.next
      decreases |s| - i
    {
      NextInCurrent(s, i, doomed);
      visited := visited + [item];
      VisitSafe(item, doomed, s, i);
      item := next;
      i := i + 1;
      ItemHasNext(s, i, doomed, item);
      next := item.next;
    }
    assert i == |s|;
  }

  // ----- every sequence of operations

  datatype Op = HeadInsert(n: Node) | TailInsert(n: Node) | Delete(n: Node) | DelInit(n: Node)

  /** A caller inserts only nodes that are not in the list and deletes only elements of it. */
  predicate Legal(s: seq<Node>, op: Op) {
    |s| > 0 && match op
      case HeadInsert(n) => n !in s
      case TailInsert(n) => n !in s
      case Delete(n) => n in s[1..]
      case DelInit(n) => n in s[1..]
  }

  /** Where a node is. */
  ghost function Position(s: seq<Node>, n: Node): (k: nat)
    requires |s| > 0 && n in s[1..]
    ensures 0 < k < |s| && s[k] == n
  {
    var j :| 0 <= j < |s[1..]| && s[1..][j] == n;
    j + 1
  }

  /** The effect on the sequence, head first. */
  ghost function Effect(s: seq<Node>, op: Op): seq<Node>
    requires Legal(s, op)
  {
    match op
    case HeadInsert(n) => Inserted(s, 1, n)
    case TailInsert(n) => s + [n]
    case Delete(n) => Removed(s, Position(s, n))
    case DelInit(n) => Removed(s, Position(s, n))
  }

  ghost predicate AllLegal(s: seq<Node>, ops: seq<Op>)
    decreases |ops|
  {
    ops != [] ==> Legal(s, ops[0]) && AllLegal(Effect(s, ops[0]), ops[1..])
  }

  ghost function EffectAll(s: seq<Node>, ops: seq<Op>): seq<Node>
    requires AllLegal(s, ops)
    decreases |ops|
  {
    if ops == [] then s else EffectAll(Effect(s, ops[0]), ops[1..])
  }

  method Perform(list: Node, op: Op, ghost s: seq<Node>)
    requires Ring(s) && list == s[0] && Legal(s, op)
    modifies s, op.n
    ensures Ring(Effect(s, op)) && Effect(s, op)[0] == list
  {
    match op {
      case HeadInsert(n) => ListHeadInsert(list, n, s);
      case TailInsert(n) => ListTailInsert(list, n, s);
      case Delete(n) => ListDelete(n, s, Position(s, n));
      case DelInit(n) => ListDelInit(n, s, Position(s, n));
    }
  }

  /** Every legal sequence of operations keeps one ring that represents the expected sequence. */
  method PerformAll(list: Node, ops: seq<Op>, ghost s: seq<Node>, ghost nodes: set<Node>)
    requires Ring(s) && list == s[0] && AllLegal(s, ops)
    requires (forall n :: n in s ==> n in nodes) && (forall op :: op in ops ==> op.n in nodes)
    modifies nodes
    ensures Ring(EffectAll(s, ops)) && EffectAll(s, ops)[0] == list
    decreases |ops|
  {
    if ops != [] {
      Perform(list, ops[0], s);
      PerformAll(list, ops[1..], Effect(s, ops[0]), nodes);
    }
  }
}
