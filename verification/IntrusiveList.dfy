/**
 The circular doubly linked list of list.h. A list node is embedded in a timer, and
 `list_entry` goes from the one to the other by a fixed offset, so here a node and its
 timer are one object. The node that heads a list has unused timer fields.
 */
module IntrusiveList {
  import opened Counting

  class Node {
    var prev: Node?
    var next: Node?

    // zhyper_timer_t
    var isPeriodic: bool
    var isActive: bool
    var hasCallback: bool

    constructor (periodic: bool, callback: bool)
      ensures isPeriodic == periodic && !isActive && hasCallback == callback
      ensures next == this && prev == this
    {
      isPeriodic, isActive, hasCallback := periodic, false, callback;
      prev, next := this, this;
    }
  }

  function Succ(i: nat, n: nat): nat { if i + 1 == n then 0 else i + 1 }

  /** `r` is a well-formed circular list: the head, then the nodes in order. */
  ghost predicate Ring(r: seq<Node>)
    reads r
  {
    && r != [] && AllDistinct(r)
    && forall i {:trigger Succ(i, |r|)} :: 0 <= i < |r| ==> r[i].next == r[Succ(i, |r|)] && r[Succ(i, |r|)].prev == r[i]
  }

  /** list_init */
  method ListInit(list: Node)
    modifies list`prev, list`next
    ensures Ring([list])
  {
    list.next := list;
    list.prev := list;
  }

  /** __list_add: `node` goes between the neighbours at `i` and after it. */
  method Insert(node: Node, prev: Node, next: Node, ghost r: seq<Node>, ghost i: nat)
    requires Ring(r) && i < |r| && prev == r[i] && next == r[Succ(i, |r|)] && node !in r
    modifies node`prev, node`next, prev`next, next`prev
    ensures Ring(r[..i + 1] + [node] + r[i + 1..])
  {
    next.prev := node;
    node.next := next;
    node.prev := prev;
    prev.next := node;
    ghost var s := r[..i + 1] + [node] + r[i + 1..];
    forall k | 0 <= k < |s| ensures s[k].next == s[Succ(k, |s|)] && s[Succ(k, |s|)].prev == s[k] {
      ghost var j := if k <= i then k else k - 1;
      assert r[j].next == r[Succ(j, |r|)] || r[j] == prev;
    }
  }

  /** list_add: behind the head. */
  method ListAdd(node: Node, head: Node, ghost r: seq<Node>)
    requires Ring(r) && head == r[0] && head.next != null && node !in r
    modifies node`prev, node`next, head`next, head.next`prev
    ensures Ring([head, node] + r[1..])
  {
    assert head.next == r[Succ(0, |r|)];
    Insert(node, head, head.next, r, 0);
    assert r[..1] + [node] + r[1..] == [head, node] + r[1..];
  }

  /** list_add_tail: before the head. */
  method ListAddTail(node: Node, head: Node, ghost r: seq<Node>)
    requires Ring(r) && head == r[0] && head.prev != null && node !in r
    modifies node`prev, node`next, head`prev, head.prev`next
    ensures Ring(r + [node])
  {
    assert Succ(|r| - 1, |r|) == 0 && head.prev == r[|r| - 1];
    Insert(node, head.prev, head, r, |r| - 1);
    assert r[..|r|] + [node] + r[|r|..] == r + [node];
  }

  /** list_del of the node at `i`, which is not the head. */
  method ListDel(node: Node, ghost r: seq<Node>, ghost i: nat)
    requires Ring(r) && 0 < i < |r| && node == r[i]
    requires node.prev != null && node.next != null
    modifies node`prev, node`next, node.prev`next, node.next`prev
    ensures Ring(r[..i] + r[i + 1..])
    ensures node.next == null && node.prev == null
  {
    ghost var s := r[..i] + r[i + 1..];
    assert r[i - 1].next == node && Succ(i - 1, |r|) == i;
    assert node.prev == r[i - 1] && node.next == r[Succ(i, |r|)];
    node.next.prev := node.prev;
    node.prev.next := node.next;
    node.next := null;
    node.prev := null;
    forall k | 0 <= k < |s| ensures s[k].next == s[Succ(k, |s|)] && s[Succ(k, |s|)].prev == s[k] {
      ghost var j := if k < i then k else k + 1;
      assert s[k] == r[j] && (k != i - 1 ==> s[Succ(k, |s|)] == r[Succ(j, |r|)]);
    }
  }
}
