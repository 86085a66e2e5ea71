/** The circular doubly linked lists of `ConnectionNode.cpp`. */
module ConnectionNodeModule {
  import opened PollEventHandlerModule
  import opened TimeWheel

  class ConnectionNode {
    /** The connection; `Close` touches only its event handler. */
    var conn: PollEventHandler?
    var prev: ConnectionNode
    var next: ConnectionNode

    constructor ()
      ensures prev == this && next == this && conn == null && Ring([this])
    {
      prev := this;
      next := this;
      conn := null;
    }
  }

  function Succ(i: nat, n: nat): nat {
    if i + 1 == n then 0 else i + 1
  }

  function Pred(i: nat, n: nat): int {
    if i == 0 then n - 1 else i - 1
  }

  /** Node `i` of `c` is between its neighbours in the circle `c`. */
  ghost predicate LinkedAt(c: seq<ConnectionNode>, i: nat)
    requires i < |c|
    reads c
  {
    c[i].next == c[Succ(i, |c|)] && c[i].prev == c[Pred(i, |c|)]
  }

  /** The nodes of `c` form one circle, in the order of `c` and without repetition. */
  ghost predicate Ring(c: seq<ConnectionNode>)
    reads c
  {
    && |c| > 0
    && (forall i, j :: 0 <= i < j < |c| ==> c[i] != c[j])
    && (forall i: nat :: i < |c| ==> LinkedAt(c, i))
  }

  lemma RingIsDoublyLinked(c: seq<ConnectionNode>, i: nat)
    requires Ring(c) && i < |c|
    ensures c[i].next.prev == c[i] && c[i].prev.next == c[i]
  {
    assert LinkedAt(c, i) && LinkedAt(c, Succ(i, |c|)) && LinkedAt(c, Pred(i, |c|));
  }

  method Add(node: ConnectionNode, prev: ConnectionNode, next: ConnectionNode)
    modifies node`prev, node`next, prev`next, next`prev
    ensures prev.next == node && node.prev == prev
    ensures node.next == (if node == prev then node else next) && next.prev == (if node == next then prev else node)
  {
    next.prev := node;
    node.next := next;
    node.prev := prev;
    prev.next := node;
  }

  /** `Delete(prev, next)` */
  method Join(prev: ConnectionNode, next: ConnectionNode)
    modifies next`prev, prev`next
    ensures next.prev == prev && prev.next == next
  {
    next.prev := prev;
    prev.next := next;
  }

  /** Between the head and the first. */
  method AddHead(node: ConnectionNode, head: ConnectionNode, ghost c: seq<ConnectionNode>)
    requires Ring(c) && c[0] == head && node !in c
    modifies node`prev, node`next, head`next, head.next`prev
    ensures Ring([head, node] + c[1..])
  {
    ghost var d := [head, node] + c[1..];
    assert LinkedAt(c, 0);
    Add(node, head, head.next);
    forall k: nat | k < |d| ensures LinkedAt(d, k) {
      if k != 1 {
        var o := if k == 0 then 0 else k - 1;
        assert old(LinkedAt(c, o)) && d[k] == c[o];
      }
    }
  }

  /** Between the last and the head. */
  method AddTail(node: ConnectionNode, head: ConnectionNode, ghost c: seq<ConnectionNode>)
    requires Ring(c) && c[0] == head && node !in c
    modifies node`prev, node`next, head`prev, head.prev`next
    ensures Ring(c + [node])
  {
    ghost var d := c + [node];
    assert LinkedAt(c, 0);
    Add(node, head.prev, head);
    forall k: nat | k < |d| ensures LinkedAt(d, k) {
      if k < |c| {
        assert old(LinkedAt(c, k)) && d[k] == c[k];
      }
    }
  }

  /** The node keeps its own pointers, but no other node of the circle points to it any more. */
  method Delete(node: ConnectionNode, ghost c: seq<ConnectionNode>, ghost i: nat)
    requires Ring(c) && 0 < i < |c| && c[i] == node
    modifies node.prev`next, node.next`prev
    ensures Ring(Without(c, i))
  {
    ghost var d := Without(c, i);
    assert LinkedAt(c, i);
    Join(node.prev, node.next);
    forall k: nat | k < |d| ensures LinkedAt(d, k) {
      var o := if k < i then k else k + 1;
      assert old(LinkedAt(c, o)) && d[k] == c[o];
    }
  }
}
