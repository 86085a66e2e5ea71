/**
 `TcpServer`: the time wheel as a deque of rings in the heap, and the number of connections. A connection that
 is asked to close stays in the wheel until its event handler closes it, as with the poll back end.
 */
module TcpServerModule {
  import opened Bytes
  import opened ConnectionNodeModule
  import opened PollEventHandlerModule
  import opened TimeWheel

  class TcpServer {
    const mMaxConn: int
    var mTimeWheel: seq<ConnectionNode>        // the heads of the rings
    var mConnNum: int
    ghost var rings: Slots<ConnectionNode>     // the nodes in the rings, without the heads
    ghost var nodes: set<ConnectionNode>       // the heads and the nodes

    ghost function Cycle(r: nat): seq<ConnectionNode>
      requires r < |mTimeWheel| == |rings|
      reads `mTimeWheel, `rings
    {
      [mTimeWheel[r]] + rings[r]
    }

    /** Heads and nodes are all different. */
    ghost predicate Apart()
      reads `mTimeWheel, `rings, `nodes
    {
      && |mTimeWheel| > 0 && ApartFrom(rings)
      && (forall r, s :: 0 <= r < s < |mTimeWheel| ==> mTimeWheel[r] != mTimeWheel[s])
      && (forall r :: 0 <= r < |mTimeWheel| ==> mTimeWheel[r] in nodes)
    }

    ghost predicate ApartFrom(slots: Slots<ConnectionNode>)
      reads `mTimeWheel, `nodes
    {
      && |slots| == |mTimeWheel| && Distinct(slots)
      && (forall r, i :: In(slots, r, i) ==> slots[r][i] in nodes && slots[r][i] !in mTimeWheel)
    }

    /** Every slot is one circle from its head. */
    ghost predicate Shape()
      reads `mTimeWheel, `rings, `nodes, nodes
    {
      Apart() && forall r: nat :: r < |rings| ==> Linked(r)
    }

    ghost predicate Linked(r: nat)
      requires Apart() && r < |rings|
      reads `mTimeWheel, `rings, `nodes, nodes
    {
      InNodes(r);
      Ring(Cycle(r))
    }

    lemma InNodes(r: nat)
      requires Apart() && r < |rings|
      ensures forall x :: x in Cycle(r) ==> x in nodes
    {
      forall x | x in Cycle(r) ensures x in nodes {
        var i :| 0 <= i < |Cycle(r)| && Cycle(r)[i] == x;
        if i > 0 {
          assert In(rings, r, i - 1);
        }
      }
    }

    lemma Disjoint(r: nat, s: nat)
      requires Apart() && r < |rings| && s < |rings| && r != s
      ensures forall x :: x in Cycle(r) ==> x !in Cycle(s)
    {
      forall x | x in Cycle(r) && x in Cycle(s) ensures false {
        var i :| 0 <= i < |Cycle(r)| && Cycle(r)[i] == x;
        var j :| 0 <= j < |Cycle(s)| && Cycle(s)[j] == x;
        assert i > 0 ==> In(rings, r, i - 1);
        assert j > 0 ==> In(rings, s, j - 1);
        if i > 0 && j > 0 {
          SamePlace(rings, r, i - 1, s, j - 1);
        }
      }
    }

    /** `AddTail` to the last ring; the other rings do not notice. */
    method AddToLast(node: ConnectionNode)
      requires Shape() && node in nodes && node !in mTimeWheel && !Holds(rings, node)
      modifies nodes`prev, nodes`next
      ensures Ring(Cycle(|rings| - 1) + [node])
      ensures forall r: nat :: r < |rings| - 1 ==> Ring(Cycle(r))
    {
      ghost var last := |rings| - 1;
      var head := mTimeWheel[|mTimeWheel| - 1];
      ghost var c, p := Cycle(last), head.prev;
      assert Linked(last);
      NotInCycle(node);
      InNodes(last);
      assert LinkedAt(c, 0);
      assert p in c && head in c;
      AddTail(node, head, c);
      forall r: nat | r < last ensures Ring(Cycle(r)) {
        Disjoint(r, last);
        assert old(Linked(r)) && p !in Cycle(r) && head !in Cycle(r) && node !in Cycle(r);
      }
    }

    /** Puts a node at the end of the last ring. */
    method LinkTail(node: ConnectionNode)
      requires Shape() && node in nodes && node !in mTimeWheel && !Holds(rings, node)
      modifies `rings, nodes`prev, nodes`next
      ensures Shape() && rings == Enter(old(rings), node)
    {
      ghost var last := |rings| - 1;
      AddToLast(node);
      ghost var c := Cycle(last) + [node];
      EnterKeepsApart(node);
      label added:
      rings := Enter(rings, node);
      forall r: nat | r < |rings| ensures Linked(r) {
        if r == last {
          assert Cycle(r) == c && old@added(Ring(c));
        } else {
          assert Cycle(r) == old@added(Cycle(r)) && old@added(Ring(Cycle(r)));
        }
      }
    }

    lemma NotInCycle(node: ConnectionNode)
      requires Apart() && node !in mTimeWheel && !Holds(rings, node)
      ensures forall r: nat :: r < |rings| ==> node !in Cycle(r)
    {
      forall r: nat, i | r < |rings| && 0 <= i < |Cycle(r)| ensures Cycle(r)[i] != node {
        if i > 0 {
          HoldsAt(rings, r, i - 1);
        }
      }
    }

    lemma EnterKeepsApart(node: ConnectionNode)
      requires Apart() && node !in mTimeWheel && !Holds(rings, node) && node in nodes
      ensures ApartFrom(Enter(rings, node))
    {
      DistinctEnter(rings, node);
      forall r, i | In(Enter(rings, node), r, i)
        ensures Enter(rings, node)[r][i] in nodes && Enter(rings, node)[r][i] !in mTimeWheel
      {
        EnterOrigin(rings, node, r, i);
      }
    }

    lemma Neighbours(r: nat, i: nat)
      requires Shape() && In(rings, r, i)
      ensures
        var (c, node) := (Cycle(r), rings[r][i]);
        && Ring(c) && c[i + 1] == node && node.prev in c && node.next in c
        && forall x :: x in c ==> x in nodes
    {
      assert Linked(r);
      InNodes(r);
      var c := Cycle(r);
      assert LinkedAt(c, i + 1);
    }

    /** `Delete` on a node of a ring; the other rings do not notice. */
    method DeleteFrom(node: ConnectionNode, ghost r: nat, ghost i: nat)
      requires Shape() && In(rings, r, i) && rings[r][i] == node
      modifies nodes`prev, nodes`next
      ensures Ring(Without(Cycle(r), i + 1))
      ensures forall s: nat :: s < |rings| && s != r ==> Ring(Cycle(s))
    {
      Neighbours(r, i);
      ghost var p, q := node.prev, node.next;
      Delete(node, Cycle(r), i + 1);
      forall s: nat | s < |rings| && s != r ensures Ring(Cycle(s)) {
        Disjoint(s, r);
        assert p !in Cycle(s) && q !in Cycle(s);
        assert old(Linked(s));
      }
    }

    /** Takes a node out of its ring. */
    method Unlink(node: ConnectionNode, ghost r: nat, ghost i: nat)
      requires Shape() && In(rings, r, i) && rings[r][i] == node
      modifies `rings, nodes`prev, nodes`next
      ensures Shape() && rings == RemoveAt(old(rings), r, i)
      ensures node !in mTimeWheel && !Holds(rings, node)
    {
      DeleteFrom(node, r, i);
      ghost var c := Without(Cycle(r), i + 1);
      RemoveKeepsApart(r, i);
      label deleted:
      rings := RemoveAt(rings, r, i);
      forall s: nat | s < |rings| ensures Linked(s) {
        if s == r {
          assert Cycle(s) == c && old@deleted(Ring(c));
        } else {
          assert Cycle(s) == old@deleted(Cycle(s)) && old@deleted(Ring(Cycle(s)));
        }
      }
    }

    lemma RemoveKeepsApart(r0: nat, i0: nat)
      requires Apart() && In(rings, r0, i0)
      ensures ApartFrom(RemoveAt(rings, r0, i0)) && !Holds(RemoveAt(rings, r0, i0), rings[r0][i0])
    {
      DistinctRemoveAt(rings, r0, i0);
      forall r, i | In(RemoveAt(rings, r0, i0), r, i)
        ensures RemoveAt(rings, r0, i0)[r][i] in nodes && RemoveAt(rings, r0, i0)[r][i] !in mTimeWheel
      {
        RemoveAtOrigin(rings, r0, i0, r, i);
      }
    }

    // ----- connections -----

    ghost predicate Valid()
      reads this, nodes
    {
      Shape() && Counted() && Connected(rings, nodes)
    }

    /** Every node of the slots has a connection, and no connection belongs to two nodes. */
    static ghost predicate Connected(slots: Slots<ConnectionNode>, ns: set<ConnectionNode>)
      reads ns`conn
    {
      && (forall r, i :: In(slots, r, i) ==> slots[r][i] in ns && slots[r][i].conn != null)
      && (forall x :: x in ns && x.conn != null ==> Holds(slots, x))
      && (forall x, y :: x in ns && y in ns && x.conn != null && x.conn == y.conn ==> x == y)
    }

    ghost predicate Counted()
      reads `rings, `mConnNum
    {
      mConnNum == Total(rings) && mConnNum <= if mMaxConn < 0 then 0 else mMaxConn
    }

    ghost function Conns(): set<PollEventHandler?>
      reads this, nodes
    {
      set x | x in nodes && x.conn != null :: x.conn
    }

    /** The wheel as a value: the nodes slot by slot, and those asked to close. */
    ghost function View(): (w: Wheel<ConnectionNode>)
      reads this, nodes, Conns()
      ensures Valid() ==> TimeWheel.Valid(w, mMaxConn)
    {
      Wheel(rings, set x | x in nodes && x.conn != null && x.conn.mIsClosing)
    }

    constructor (max_conn: int)
      ensures Valid() && fresh(nodes) && mMaxConn == max_conn
      ensures View() == Wheel(Empty<ConnectionNode>(1), {})
    {
      mMaxConn := max_conn;
      mConnNum := 0;
      var head := new ConnectionNode();
      mTimeWheel := [head];
      rings := Empty(1);
      nodes := {head};
      new;
      assert Cycle(0) == [head];
    }

    method OnNewConnection(fd: int) returns (r: Option<ConnectionNode>)
      requires Valid()
      modifies this, nodes
      ensures Valid() && fresh(nodes - old(nodes)) && mTimeWheel == old(mTimeWheel)
      ensures r == None <==> Total(old(rings)) >= mMaxConn
      ensures r.None? ==> View() == old(View())
      ensures r.Some? ==> fresh(r.value) && r.value.conn != null && r.value.conn.mFd == fd
      ensures r.Some? ==> View() == Accepted(old(View()), mMaxConn, r.value)
    {
      if mConnNum >= mMaxConn {
        return None;
      }
      var node := Welcome(fd);
      mConnNum := mConnNum + 1;
      return Some(node);
    }

    /** Everything but the count. */
    method Welcome(fd: int) returns (node: ConnectionNode)
      requires Shape() && Connected(rings, nodes)
      modifies `rings, `nodes, nodes`prev, nodes`next
      ensures Shape() && Connected(rings, nodes) && nodes == old(nodes) + {node} && fresh(node)
      ensures Total(rings) == Total(old(rings)) + 1
      ensures node.conn != null && node.conn.mFd == fd
      ensures rings == Enter(old(rings), node) && View().closing == old(View()).closing
    {
      var conn := new PollEventHandler(fd);
      node := EnterNew(conn);
    }

    method EnterNew(conn: PollEventHandler) returns (node: ConnectionNode)
      requires Shape() && Connected(rings, nodes) && forall x :: x in nodes ==> x.conn != conn
      modifies `rings, `nodes, nodes`prev, nodes`next
      ensures Shape() && rings == Enter(old(rings), node) && nodes == old(nodes) + {node}
      ensures fresh(node) && node.conn == conn && Connected(rings, nodes) && Total(rings) == Total(old(rings)) + 1
    {
      ghost var slots, ns := rings, nodes;
      node := new ConnectionNode();
      node.conn := conn;
      Adopt(node);
      LinkTail(node);
      EnterConnected(slots, ns, node);
      TotalEnter(slots, node);
    }

    ghost method Adopt(node: ConnectionNode)
      requires Shape() && node !in nodes
      modifies `nodes
      ensures Shape() && nodes == old(nodes) + {node} && node !in mTimeWheel && !Holds(rings, node)
    {
      label before:
      nodes := nodes + {node};
      forall r: nat | r < |rings| ensures Linked(r) {
        assert old@before(Linked(r)) && Cycle(r) == old@before(Cycle(r));
      }
    }

    static lemma EnterConnected(slots: Slots<ConnectionNode>, ns: set<ConnectionNode>, node: ConnectionNode)
      requires |slots| > 0 && Connected(slots, ns)
      requires node !in ns && node.conn != null && forall x :: x in ns ==> x.conn != node.conn
      ensures Connected(Enter(slots, node), ns + {node})
    {
      forall r, i | In(Enter(slots, node), r, i)
        ensures Enter(slots, node)[r][i] in ns + {node} && Enter(slots, node)[r][i].conn != null
      {
        EnterOrigin(slots, node, r, i);
      }
      forall x ensures Holds(Enter(slots, node), x) <==> Holds(slots, x) || x == node {
        EnterHolds(slots, node, x);
      }
    }

    /** `OnMessage` after the user's callback: the node goes to the end of the last ring, also from there. */
    method OnMessage(con: ConnectionNode, ghost r: nat, ghost i: nat)
      requires Valid() && In(rings, r, i) && rings[r][i] == con
      modifies `rings, nodes`prev, nodes`next
      ensures Valid() && View() == old(View()).(slots := Refresh(old(rings), r, i))
      ensures Possible(old(View()), Message(con)) && View() == Do(old(View()), mMaxConn, Message(con))
    {
      PlaceIs(rings, r, i);
      Unlink(con, r, i);
      LinkTail(con);
      RefreshKeeps(old(rings), r, i);
      RefreshConnected(old(rings), nodes, r, i);
    }

    static lemma RefreshConnected(slots: Slots<ConnectionNode>, ns: set<ConnectionNode>, r0: nat, i0: nat)
      requires In(slots, r0, i0) && Distinct(slots) && Connected(slots, ns)
      ensures Connected(Refresh(slots, r0, i0), ns)
    {
      var e := Refresh(slots, r0, i0);
      RefreshKeeps(slots, r0, i0);
      forall r, i | In(e, r, i) ensures e[r][i] in ns && e[r][i].conn != null {
        HoldsAt(e, r, i);
        var p := Place(slots, e[r][i]);
      }
    }

    /** `OnCloseConnection` after the user's callback and the event loop have let go of the connection. */
    method OnCloseConnection(con: ConnectionNode, ghost r: nat, ghost i: nat)
      requires Valid() && In(rings, r, i) && rings[r][i] == con
      modifies `rings, `nodes, `mConnNum, nodes
      ensures Valid() && View() == Wheel(RemoveAt(old(rings), r, i), old(View()).closing - {con})
      ensures con in old(View()).closing ==> View() == Do(old(View()), mMaxConn, TimeWheel.Close(con))
      ensures con !in nodes && nodes == old(nodes) - {con}
    {
      PlaceIs(rings, r, i);
      Retire(con, r, i);
      TotalRemoveAt(old(rings), r, i);
      mConnNum := mConnNum - 1;
    }

    /** Everything but the count. */
    method Retire(con: ConnectionNode, ghost r: nat, ghost i: nat)
      requires Shape() && Connected(rings, nodes) && In(rings, r, i) && rings[r][i] == con
      modifies `rings, `nodes, nodes
      ensures Shape() && Connected(rings, nodes) && nodes == old(nodes) - {con}
      ensures rings == RemoveAt(old(rings), r, i) && View().closing == old(View()).closing - {con}
    {
      Unlink(con, r, i);
      Disown(con);
      RemoveConnected(old(rings), old(nodes), r, i);
      con.conn := null;
    }

    ghost method Disown(node: ConnectionNode)
      requires Shape() && node in nodes && node !in mTimeWheel && !Holds(rings, node)
      modifies `nodes
      ensures Shape() && nodes == old(nodes) - {node}
    {
      label before:
      nodes := nodes - {node};
      assert Apart() by {
        forall r, i | In(rings, r, i) ensures rings[r][i] in nodes && rings[r][i] !in mTimeWheel {
          HoldsAt(rings, r, i);
        }
      }
      forall r: nat | r < |rings| ensures Linked(r) {
        assert old@before(Linked(r)) && Cycle(r) == old@before(Cycle(r));
      }
    }

    static lemma RemoveConnected(slots: Slots<ConnectionNode>, ns: set<ConnectionNode>, r0: nat, i0: nat)
      requires In(slots, r0, i0) && Distinct(slots) && Connected(slots, ns)
      ensures Connected(RemoveAt(slots, r0, i0), ns - {slots[r0][i0]})
    {
      var e := RemoveAt(slots, r0, i0);
      DistinctRemoveAt(slots, r0, i0);
      forall r, i | In(e, r, i) ensures e[r][i] in ns - {slots[r0][i0]} && e[r][i].conn != null {
        HoldsAt(e, r, i);
        RemoveAtOrigin(slots, r0, i0, r, i);
      }
      forall x ensures Holds(e, x) <==> Holds(slots, x) && x != slots[r0][i0] {
        RemoveAtHolds(slots, r0, i0, x);
      }
    }

    // ----- slots -----

    /** Extends the wheel to `n` slots; aborts unless `n` is more than one. */
    method SetTimeOut(n: int) returns (r: Outcome<bool>)
      requires Valid()
      modifies this
      ensures r == if n > 1 then Returned(true) else Aborted
      ensures Valid() && fresh(nodes - old(nodes)) && old(nodes) <= nodes
      ensures View() == if n > 1 then Extended(old(View()), n - 1) else old(View())
    {
      if !(n > 1) {
        return Aborted;
      }
      var i := 1;
      assert old(rings) + Empty(0) == rings;
      while i < n
        invariant 1 <= i <= n && Valid() && fresh(nodes - old(nodes)) && old(nodes) <= nodes
        invariant View() == old(View()).(slots := old(rings) + Empty(i - 1))
      {
        AddSlot();
        assert old(rings) + Empty(i - 1) + [[]] == old(rings) + Empty(i);
        i := i + 1;
      }
      return Returned(true);
    }

    /** Adds an empty ring at the back. */
    method AddSlot()
      requires Valid()
      modifies `mTimeWheel, `rings, `nodes
      ensures Valid() && fresh(nodes - old(nodes)) && old(nodes) <= nodes
      ensures View() == old(View()).(slots := old(rings) + [[]])
    {
      var head := new ConnectionNode();
      Adopt(head);
      AppendRing(head);
      AppendConnected(old(rings), old(nodes), head);
      TotalAppend(old(rings), []);
    }

    static lemma AppendConnected(slots: Slots<ConnectionNode>, ns: set<ConnectionNode>, head: ConnectionNode)
      requires Connected(slots, ns) && head.conn == null
      ensures Connected(slots + [[]], ns + {head})
    {
      forall r, i | In(slots, r, i) ensures In(slots + [[]], r, i) && (slots + [[]])[r][i] == slots[r][i] {
      }
      forall r, i | In(slots + [[]], r, i) ensures In(slots, r, i) && (slots + [[]])[r][i] == slots[r][i] {
      }
    }

    method AppendRing(head: ConnectionNode)
      requires Shape() && head in nodes && head !in mTimeWheel && !Holds(rings, head) && Ring([head])
      modifies `mTimeWheel, `rings
      ensures Shape() && rings == old(rings) + [[]]
    {
      label before:
      mTimeWheel := mTimeWheel + [head];
      rings := rings + [[]];
      ghost var last := |rings| - 1;
      assert Apart() by {
        forall r, i | In(rings, r, i) ensures rings[r][i] in nodes && rings[r][i] !in mTimeWheel {
          assert In(old(rings), r, i);
          HoldsAt(old(rings), r, i);
        }
        forall r, i, s, j | Same(rings, r, i, s, j) ensures r == s && i == j {
          SamePlace(old(rings), r, i, s, j);
        }
      }
      forall r: nat | r < |rings| ensures Linked(r) {
        if r == last {
          assert Cycle(r) == [head];
        } else {
          assert old@before(Linked(r)) && Cycle(r) == old@before(Cycle(r));
        }
      }
    }

    /** Asks the connections of the first slot to close, no others, and makes it the last slot. */
    method OnTimeOut()
      requires Valid()
      modifies `mTimeWheel, `rings, Conns()
      ensures Valid() && nodes == old(nodes) && View() == Ticked(old(View()))
    {
      CloseRing();
      Rotate();
      TotalTurned(old(rings));
      TurnedConnected(old(rings), nodes);
    }

    method Rotate()
      requires Shape()
      modifies `mTimeWheel, `rings
      ensures Shape() && rings == Turned(old(rings))
    {
      label before:
      var head := mTimeWheel[0];
      mTimeWheel := mTimeWheel[1..];
      mTimeWheel := mTimeWheel + [head];
      rings := Turned(rings);
      TurnedKeepsApart@before();
      forall r: nat | r < |rings| ensures Linked(r) {
        var q := if r == |rings| - 1 then 0 else r + 1;
        assert old@before(Linked(q)) && Cycle(r) == old@before(Cycle(q));
      }
    }

    twostate lemma TurnedKeepsApart()
      requires old(Apart()) && nodes == old(nodes)
      requires rings == Turned(old(rings)) && mTimeWheel == old(mTimeWheel)[1..] + [old(mTimeWheel)[0]]
      ensures Apart()
    {
      DistinctTurned(old(rings));
      forall r, i | In(rings, r, i) ensures rings[r][i] in nodes && rings[r][i] !in mTimeWheel {
        TurnedOrigin(old(rings), r, i);
      }
    }

    static lemma TurnedConnected(slots: Slots<ConnectionNode>, ns: set<ConnectionNode>)
      requires |slots| > 0 && Connected(slots, ns)
      ensures Connected(Turned(slots), ns)
    {
      forall r, i | In(Turned(slots), r, i)
        ensures Turned(slots)[r][i] in ns && Turned(slots)[r][i].conn != null
      {
        TurnedOrigin(slots, r, i);
      }
      forall x ensures Holds(Turned(slots), x) <==> Holds(slots, x) {
        TurnedHolds(slots, x);
      }
    }

    /** The walk around the first ring. */
    method CloseRing()
      requires Valid()
      modifies Conns()
      ensures View().closing == old(View()).closing + Elements(rings[0])
    {
      var head := mTimeWheel[0];
      assert Linked(0) && LinkedAt(Cycle(0), 0);
      var it := head.next;
      ghost var k := 0;
      while it != head
        invariant k <= |rings[0]| && it == Cycle(0)[Succ(k, |Cycle(0)|)]
        invariant forall x :: x in nodes && x.conn != null ==>
          (x.conn.mIsClosing <==> old(x.conn.mIsClosing) || x in rings[0][..k])
        decreases |rings[0]| - k
      {
        assert LinkedAt(Cycle(0), k + 1) && it == rings[0][k] && In(rings, 0, k);
        it.conn.SetClosing(true);
        it := it.next;
        k := k + 1;
      }
    }
  }
}
