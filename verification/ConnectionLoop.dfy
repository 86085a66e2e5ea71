/**
 A connection on its loop. What `poll` is asked about it is the loop's table's to say: a copy of what the
 connection wanted when it was placed. So it depends on that moment whether the assert of the write path can fail.
 */
module ConnectionLoopModule {
  import opened Bytes
  import opened PollEventHandlerModule
  import opened SlotTable
  import opened ConnectionModule
  import opened ConnectionNodeModule
  import opened TcpServerModule
  import Loop = EventLoopModule
  import Wheel = TimeWheel

  /** The loop's table, the connection, and what its handler was last told. */
  datatype State = State(table: Loop.Table, con: Conn, revents: Events) {
    ghost predicate Valid() {
      Loop.Valid(table) && con.Valid()
    }

    /** The connection's entry for `poll`. */
    ghost function Entry(h: Loop.Handler): PollFd
      requires Valid() && On(table.slots, h)
    {
      table.fds[Place(table.slots, h)]
    }
  }

  /** Something is done to the table, `poll` returns, the connection's handler gets its turn, or its user calls it. */
  datatype Event =
    | Change(op: Loop.Op) | Poll(ready: seq<Events>) | Turn(reading: Reading, answer: int) | Call(action: Action)

  /** To place the connection's own handler is to copy what it holds. */
  ghost function Actual(s: State, h: Loop.Handler, op: Loop.Op): Loop.Op {
    if op.Add? && op.h == h then Loop.Add(h, s.con.events, s.revents) else op
  }

  /** The close callback takes the connection off its loop, within its turn; after that nobody has it any more. */
  ghost function Retired(s: State, h: Loop.Handler, c: Conn, revents: Events): (u: State)
    requires s.Valid() && c.Valid() && On(s.table.slots, h)
    ensures u.Valid() && u.con == c && u.revents == revents
    ensures if c.closed then !On(u.table.slots, h) else u.table == s.table
  {
    if !c.closed then State(s.table, c, revents)
    else
      Loop.UnApplyKeepsValid(s.table, Place(s.table.slots, h), h);
      State(Loop.UnApply(s.table, Place(s.table.slots, h)), c, revents)
  }

  ghost function Happen(s: State, h: Loop.Handler, e: Event): (r: Outcome<State>)
    requires s.Valid()
    ensures r.Returned? ==> r.value.Valid()
  {
    match e
    case Change(op) =>
      if s.con.closed && op.Add? && op.h == h then Returned(s)
      else
      (match Loop.Exec(s.table, Actual(s, h, op))
       case Aborted => Aborted
       case Returned(t) => Returned(s.(table := t)))
    case Poll(ready) => Returned(s.(table := Loop.Polled(s.table, ready)))
    case Turn(reading, answer) =>
      if !On(s.table.slots, h) || s.con.closed then Returned(s)
      else
        var revents := s.Entry(h).revents;
        HandleKeepsValid(s.con, revents, reading, answer);
        (match AfterEvents(s.con, revents, reading, answer)
         case Aborted => Aborted
         case Returned(c) => Returned(Retired(s, h, c, revents)))
    case Call(action) =>
      StepKeepsValid(s.con, ConnectionModule.Call(action));
      (match s.con.Act(action)
       case Aborted => Aborted
       case Returned(c) => Returned(s.(con := c)))
  }

  ghost function HappenAll(s: State, h: Loop.Handler, events: seq<Event>): (r: Outcome<State>)
    requires s.Valid()
    ensures r.Returned? ==> r.value.Valid()
    decreases |events|
  {
    if |events| == 0 then Returned(s)
    else
      match Happen(s, h, events[0])
      case Aborted => Aborted
      case Returned(u) => HappenAll(u, h, events[1..])
  }

  /** The assert of `OnWriteEvent` fails in this turn. */
  ghost predicate WriteFails(s: State, h: Loop.Handler, e: Event)
    requires s.Valid()
  {
    && e.Turn? && On(s.table.slots, h) && !s.con.closed
    && var after := AfterRead(s.con, s.Entry(h).revents, e.reading);
    after.Returned? && (ReadKeepsValid(s.con, s.Entry(h).revents, e.reading);
                        after.value.Flush(s.Entry(h).revents, e.answer).Aborted?)
  }

  /** Whenever the connection is placed, nothing waits to be sent. */
  ghost predicate PlacedIdle(s: State, h: Loop.Handler, events: seq<Event>)
    requires s.Valid()
    decreases |events|
  {
    |events| > 0 ==>
      && (events[0].Change? && events[0].op.Add? && events[0].op.h == h && !On(s.table.slots, h) && !s.con.closed ==>
            s.con.queue.items == [])
      && var r := Happen(s, h, events[0]);
      r.Returned? ==> PlacedIdle(r.value, h, events[1..])
  }

  /** `poll` neither is asked nor has said that the socket can be written. */
  ghost predicate ReadOnly(s: State, h: Loop.Handler)
    requires s.Valid()
  {
    && !s.revents.pollout
    && (On(s.table.slots, h) ==> !s.Entry(h).events.pollout && !s.Entry(h).revents.pollout)
  }

  lemma PlaceStays(t: Loop.Table, u: Loop.Table, i: nat, h: Loop.Handler)
    requires Loop.Valid(t) && Loop.Valid(u) && At(t.slots, i, h) && At(u.slots, i, h)
    ensures On(t.slots, h) && On(u.slots, h) && Place(t.slots, h) == Place(u.slots, h) == i
  {
    PlaceIs(t.slots, i, h);
    PlaceIs(u.slots, i, h);
  }

  lemma ChangeStaysReadOnly(s: State, h: Loop.Handler, op: Loop.Op)
    requires s.Valid() && ReadOnly(s, h) && Happen(s, h, Change(op)).Returned?
    requires op.Add? && op.h == h && !On(s.table.slots, h) && !s.con.closed ==> s.con.queue.items == []
    ensures ReadOnly(Happen(s, h, Change(op)).value, h)
  {
    if s.con.closed && op.Add? && op.h == h {
      return;
    }
    var t, change := s.table, Actual(s, h, op);
    var u := Loop.Exec(t, change).value;
    if On(t.slots, h) {
      if op == Loop.Remove(h) {
        Loop.UnApplyKeepsValid(t, Place(t.slots, h), h);
      } else {
        Loop.EntryStays(t, change, Place(t.slots, h), h);
        PlaceStays(t, u, Place(t.slots, h), h);
      }
    } else if op.h != h {
      Loop.StaysOff(t, change, h);
    } else if h.mFd >= 0 && op.Add? {
      PlacedEntry(s, h, op);
    }
  }

  /** A handler's new entry is a copy of what the handler holds. */
  lemma PlacedEntry(s: State, h: Loop.Handler, op: Loop.Op)
    requires s.Valid() && op.Add? && op.h == h && h.mFd >= 0 && !On(s.table.slots, h) && !s.con.closed
    ensures Happen(s, h, Change(op)).Returned?
    ensures
      var u := Happen(s, h, Change(op)).value;
      On(u.table.slots, h) && u.Entry(h) == PollFd(h.mFd, s.con.events, s.revents) && u.con == s.con
  {
    var fd := PollFd(h.mFd, s.con.events, s.revents);
    var u := Loop.Apply(s.table, h, fd);
    Loop.ApplyKeepsValidExactly(s.table, h, fd);
    InsertKeepsValidExactly(s.table.slots, h);
    PlaceIs(u.slots, FreeIdx(s.table.slots), h);
  }

  /** The steps of the connection alone that an event is: none if the event is not the connection's. */
  ghost function Alone(s: State, h: Loop.Handler, e: Event): seq<Step>
    requires s.Valid()
  {
    match e
    case Turn(reading, answer) =>
      if On(s.table.slots, h) then [ConnectionModule.Poll(s.Entry(h).revents, reading, answer)] else []
    case Call(action) => [ConnectionModule.Call(action)]
    case _ => []
  }

  ghost function AllAlone(s: State, h: Loop.Handler, events: seq<Event>): seq<Step>
    requires s.Valid()
    decreases |events|
  {
    if |events| == 0 then []
    else
      match Happen(s, h, events[0])
      case Aborted => Alone(s, h, events[0])
      case Returned(u) => Alone(s, h, events[0]) + AllAlone(u, h, events[1..])
  }

  lemma EventIsAlone(s: State, h: Loop.Handler, e: Event, rest: seq<Step>)
    requires s.Valid() && ReadOnly(s, h)
    ensures
      var r := Happen(s, h, e);
      && (r.Returned? ==> Run(s.con, Alone(s, h, e) + rest) == Run(r.value.con, rest))
      && (r.Aborted? && !e.Change? ==> Run(s.con, Alone(s, h, e) + rest).Aborted?)
  {
    var steps := Alone(s, h, e);
    if |steps| > 0 {
      RunFirst(s.con, steps[0], rest);
    } else {
      assert steps + rest == rest;
    }
    if e.Turn? && On(s.table.slots, h) {
      assert Revents(REGISTERED, s.Entry(h).revents) == s.Entry(h).revents;
    }
  }

  lemma EventStaysReadOnly(s: State, h: Loop.Handler, e: Event)
    requires s.Valid() && ReadOnly(s, h) && PlacedIdle(s, h, [e])
    ensures Happen(s, h, e).Returned? ==> ReadOnly(Happen(s, h, e).value, h)
  {
    if e.Change? && Happen(s, h, e).Returned? {
      ChangeStaysReadOnly(s, h, e.op);
    } else if e.Poll? {
      Loop.PollAnswersWhatIsAsked(s.table, e.ready, h);
    }
  }

  /**
   Whatever happens to the loop, if nothing waits whenever the connection is placed, it behaves as the connection
   alone that is polled for reading only; and if nothing is removed that is not there, it aborts only as that does.
   */
  lemma {:induction false} RunsAsAlone(s: State, h: Loop.Handler, events: seq<Event>)
    requires s.Valid() && ReadOnly(s, h) && PlacedIdle(s, h, events)
    ensures
      var r, alone := HappenAll(s, h, events), Run(s.con, AllAlone(s, h, events));
      && (r.Returned? ==> ReadOnly(r.value, h) && alone == Returned(r.value.con))
      && (r.Aborted? ==> alone.Aborted? || exists k: nat :: k < |events| && RemovesAbsent(s, h, events, k))
    decreases |events|
  {
    if |events| > 0 {
      var e, rest := events[0], events[1..];
      var r := Happen(s, h, e);
      assert PlacedIdle(s, h, [e]);
      EventStaysReadOnly(s, h, e);
      if r.Returned? {
        EventIsAlone(s, h, e, AllAlone(r.value, h, rest));
        RunsAsAlone(r.value, h, rest);
        if k: nat :| k < |rest| && RemovesAbsent(r.value, h, rest, k) {
          assert events[..k + 1][1..] == rest[..k];
          assert RemovesAbsent(s, h, events, k + 1);
        }
      } else if e.Change? {
        assert events[..0] == [];
        assert RemovesAbsent(s, h, events, 0);
      } else {
        EventIsAlone(s, h, e, []);
        assert Alone(s, h, e) + [] == Alone(s, h, e);
      }
    }
  }

  /** Event `k` is the removal of a handler that is not on the loop. */
  ghost predicate RemovesAbsent(s: State, h: Loop.Handler, events: seq<Event>, k: nat)
    requires s.Valid() && k < |events|
  {
    var before := HappenAll(s, h, events[..k]);
    && before.Returned? && events[k].Change? && events[k].op.Remove?
    && !On(before.value.table.slots, events[k].op.h)
  }

  /** The assert of the write path fails after these events, in which the connection is only placed idle. */
  ghost predicate WriteFailsAfter(s: State, h: Loop.Handler, events: seq<Event>, e: Event)
    requires s.Valid()
  {
    PlacedIdle(s, h, events) && HappenAll(s, h, events).Returned? && WriteFails(HappenAll(s, h, events).value, h, e)
  }

  lemma NoWriteFails(s: State, h: Loop.Handler, e: Event)
    requires s.Valid() && ReadOnly(s, h)
    ensures !WriteFails(s, h, e)
  {
    if e.Turn? && On(s.table.slots, h) {
      ReadKeepsValid(s.con, s.Entry(h).revents, e.reading);
    }
  }

  /** One round in which the socket can be written. */
  function Writable(s: State): seq<Event> {
    [Event.Poll(seq(|s.table.fds|, _ => Events(false, true))), WRITE]
  }

  const WRITE := Turn(Eof, 1)

  lemma WritableRound(s: State, h: Loop.Handler) returns (u: State)
    requires s.Valid() && On(s.table.slots, h) && s.Entry(h).events.pollout
    ensures Happen(s, h, Writable(s)[0]) == Returned(u) && u.Valid() && u.con == s.con
    ensures On(u.table.slots, h) && u.Entry(h).events == s.Entry(h).events && u.Entry(h).revents == Events(false, true)
  {
    u := Happen(s, h, Writable(s)[0]).value;
    Loop.PollAnswersWhatIsAsked(s.table, Writable(s)[0].ready, h);
  }

  lemma OneByteSent(s: State, h: Loop.Handler) returns (u: State)
    requires s.Valid() && On(s.table.slots, h) && s.Entry(h).revents == Events(false, true)
    requires !s.con.closing && s.con.queue.items != []
    ensures Happen(s, h, WRITE) == Returned(u) && u.Valid() && u.table == s.table && !u.con.closing
    ensures |u.con.queue.items| < |s.con.queue.items|
  {
    WriteKeepsValid(s.con, 1);
    u := Happen(s, h, WRITE).value;
  }

  lemma HappenFirst(s: State, h: Loop.Handler, e: Event, u: State, rest: seq<Event>)
    requires s.Valid() && u.Valid() && Happen(s, h, e) == Returned(u) && !e.Change?
    ensures HappenAll(s, h, [e] + rest) == HappenAll(u, h, rest)
    ensures PlacedIdle(s, h, [e] + rest) <==> PlacedIdle(u, h, rest)
  {
    assert ([e] + rest)[1..] == rest;
  }

  /** A connection that is polled for writing empties its queue, and is then told once more that it can write. */
  lemma {:induction false} PolledForWritingFails(s: State, h: Loop.Handler) returns (events: seq<Event>)
    requires s.Valid() && On(s.table.slots, h) && s.Entry(h).events.pollout && !s.con.closing
    ensures WriteFailsAfter(s, h, events, WRITE)
    decreases |s.con.queue.items|
  {
    var poll := Writable(s)[0];
    var u := WritableRound(s, h);
    var rest := [];
    if s.con.queue.items != [] {
      var v := OneByteSent(u, h);
      var more := PolledForWritingFails(v, h);
      HappenFirst(u, h, WRITE, v, more);
      rest := [WRITE] + more;
    }
    HappenFirst(s, h, poll, u, rest);
    events := [poll] + rest;
  }

  /** The connection is to be closed by its next turn, until which bytes wait. */
  predicate LastTurn(c: Conn) {
    c.closing && (c.closed || c.queue.items != [])
  }

  lemma {:induction false} ReactKeepsWaiting(c: Conn, reaction: seq<Action>)
    requires c.Valid() && c.queue.items != []
    ensures c.React(reaction).Returned? ==> c.React(reaction).value.queue.items != []
    decreases |reaction|
  {
    if |reaction| > 0 {
      ReactOnce(c, reaction[0]);
      ReactKeepsValid(c, [reaction[0]]);
      if c.Act(reaction[0]).Returned? {
        ReactKeepsWaiting(c.Act(reaction[0]).value, reaction[1..]);
      }
    }
  }

  lemma LastTurnStays(s: State, h: Loop.Handler, e: Event)
    requires s.Valid() && LastTurn(s.con)
    ensures !WriteFails(s, h, e)
    ensures Happen(s, h, e).Returned? ==> LastTurn(Happen(s, h, e).value.con)
  {
    if e.Turn? && On(s.table.slots, h) && !s.con.closed {
      var revents := s.Entry(h).revents;
      ReadKeepsValid(s.con, revents, e.reading);
      if e.reading.Data? {
        ReactKeepsWaiting(s.con, e.reading.reaction);
        ReactKeepsValid(s.con, e.reading.reaction);
      }
      if AfterEvents(s.con, revents, e.reading, e.answer).Returned? {
        HandlingCloses(s.con, revents, e.reading, e.answer);
      }
    }
  }

  lemma {:induction false} NoWriteFailsInLastTurn(s: State, h: Loop.Handler, events: seq<Event>, e: Event)
    requires s.Valid() && LastTurn(s.con)
    ensures !WriteFailsAfter(s, h, events, e)
    decreases |events|
  {
    if |events| == 0 {
      LastTurnStays(s, h, e);
    } else {
      LastTurnStays(s, h, events[0]);
      if Happen(s, h, events[0]).Returned? {
        NoWriteFailsInLastTurn(Happen(s, h, events[0]).value, h, events[1..], e);
      }
    }
  }

  lemma NoWriteFailsPlacedIdle(s: State, h: Loop.Handler, events: seq<Event>, e: Event)
    requires s.Valid() && ReadOnly(s, h)
    ensures !WriteFailsAfter(s, h, events, e)
  {
    if PlacedIdle(s, h, events) && HappenAll(s, h, events).Returned? {
      RunsAsAlone(s, h, events);
      NoWriteFails(HappenAll(s, h, events).value, h, e);
    }
  }

  /**
   It is decided when a connection is placed on its loop: some later turn can fail the assert of the write path
   exactly if bytes wait then and the connection is not to be closed.
   */
  lemma PlacingDecides(s: State, h: Loop.Handler)
    requires s.Valid() && s.revents == NO_EVENTS && h.mFd >= 0 && !On(s.table.slots, h)
    ensures
      var u := Happen(s, h, Change(Loop.Add(h, s.con.events, NO_EVENTS)));
      && u.Returned?
      && ((exists events, e :: WriteFailsAfter(u.value, h, events, e)) <==> s.con.queue.items != [] && !s.con.closing)
  {
    var add := Loop.Add(h, s.con.events, NO_EVENTS);
    if !s.con.closed {
      PlacedEntry(s, h, add);
    }
    var u := Happen(s, h, Change(add)).value;
    if s.con.queue.items != [] && !s.con.closing {
      var events := PolledForWritingFails(u, h);
    } else {
      forall events, e ensures !WriteFailsAfter(u, h, events, e) {
        if s.con.queue.items == [] {
          NoWriteFailsPlacedIdle(u, h, events, e);
        } else {
          NoWriteFailsInLastTurn(u, h, events, e);
        }
      }
    }
  }

  /** The events of a run, with the state of the connection, as far as closing is concerned. */
  lemma {:induction false} ClosingStays(s: State, h: Loop.Handler, events: seq<Event>)
    requires s.Valid() && s.con.closing && HappenAll(s, h, events).Returned?
    ensures HappenAll(s, h, events).value.con.closing
    decreases |events|
  {
    if |events| > 0 {
      var e := events[0];
      if e.Turn? && e.reading.Data? {
        ReactKeepsValid(s.con, e.reading.reaction);
      }
      ClosingStays(Happen(s, h, e).value, h, events[1..]);
    }
  }

  lemma HandlingCloses(c: Conn, revents: Events, reading: Reading, answer: int)
    requires c.Valid() && c.closing && AfterEvents(c, revents, reading, answer).Returned?
    ensures var d := AfterEvents(c, revents, reading, answer).value; d.Valid() && d.closed && d.closings == 1
  {
    HandleKeepsValid(c, revents, reading, answer);
    if reading.Data? {
      ReactKeepsValid(c, reading.reaction);
    }
  }

  /** The connection is closed, its close callback has run once, and it is off the loop. */
  ghost predicate IsGone(s: State, h: Loop.Handler) {
    s.con.closed && s.con.closings == 1 && !On(s.table.slots, h)
  }

  /** A connection marked for closing is closed by its next turn and off the loop, whatever happens until then. */
  lemma MarkedIsClosedByItsTurn(s: State, h: Loop.Handler, events: seq<Event>, reading: Reading, answer: int)
    requires s.Valid() && s.con.closing && HappenAll(s, h, events).Returned?
    requires On(HappenAll(s, h, events).value.table.slots, h) && !HappenAll(s, h, events).value.con.closed
    ensures
      var r := Happen(HappenAll(s, h, events).value, h, Turn(reading, answer));
      r.Returned? ==> IsGone(r.value, h)
  {
    var u := HappenAll(s, h, events).value;
    ClosingStays(s, h, events);
    if AfterEvents(u.con, u.Entry(h).revents, reading, answer).Returned? {
      HandlingCloses(u.con, u.Entry(h).revents, reading, answer);
    }
  }

  /** The wheel's mark is the connection's flag, as the server's node and the connection share their handler. */
  lemma MarkIsTheFlag(server: TcpServer, node: ConnectionNode, con: Connection)
    requires server.Valid() && Wheel.Holds(server.rings, node) && node.conn == con.mEventHandler
    ensures node in server.View().closing <==> con.View().closing
  {
    var r, i :| Wheel.In(server.rings, r, i) && server.rings[r][i] == node;
    assert node in server.nodes;
  }

  /**
   A connection is told to close by the tick that is the n-th without a sign of life, and by no earlier one, and
   its next turn closes it, once.
   */
  lemma EvictedIsClosedByItsTurn(
      server: TcpServer, past: seq<Wheel.Event<ConnectionNode>>, node: ConnectionNode, con: Connection,
      s: State, events: seq<Event>, reading: Reading, answer: int)
    requires server.Valid() && |server.rings| > 0 && Wheel.After(|server.rings|, server.mMaxConn, past).Some?
    requires
      var was := Wheel.After(|server.rings|, server.mMaxConn, past).value;
      && server.View() == Wheel.Ticked(was)
      && Wheel.Holds(was.slots, node) && node !in was.closing && node.conn == con.mEventHandler
    requires con.Sound() && s.Valid() && s.con == con.View()
    requires
      var u := HappenAll(s, con.mEventHandler, events);
      u.Returned? && On(u.value.table.slots, con.mEventHandler) && !u.value.con.closed
    ensures con.View().closing <==> Wheel.TicksSince(past, node) + 1 == |server.rings|
    ensures
      var h := con.mEventHandler;
      var u := HappenAll(s, h, events).value;
      var r := Happen(u, h, Turn(reading, answer));
      con.View().closing && r.Returned? ==> IsGone(r.value, h)
  {
    var n := |server.rings|;
    var was := Wheel.After(n, server.mMaxConn, past).value;
    Wheel.TurnedHolds(was.slots, node);
    MarkIsTheFlag(server, node, con);
    Wheel.EvictedAtTheNthTick(n, server.mMaxConn, past, node);
    if con.View().closing {
      MarkedIsClosedByItsTurn(s, con.mEventHandler, events, reading, answer);
    }
  }

  /** What `OnNewConnection` does first: the new connection is placed before anything can be sent on it. */
  method NewConnection(loop: Loop.PollLoop, fd: int) returns (con: Connection)
    requires loop.Sound() && fd >= 0
    modifies loop
    ensures fresh(con) && fresh(con.mEventHandler) && con.Sound() && con.View() == NEW && loop.Sound()
    ensures Loop.Asked(loop.View(), con.mEventHandler) == Some(REGISTERED)
  {
    ghost var t := loop.View();
    con := new Connection(fd);
    assert forall i :: 0 <= i < |loop.mHandlerList| ==> loop.mHandlerList[i] != Some(con.mEventHandler);
    loop.ApplyHandlerOnLoop(con.mEventHandler);
    InsertKeepsValidExactly(t.slots, con.mEventHandler);
    Loop.EntryAt(loop.View(), FreeIdx(t.slots), con.mEventHandler);
  }
}
