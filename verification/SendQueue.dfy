/**
 Sending from any thread: producers put messages in a locked queue and wake the loop's thread through an
 eventfd; the loop's thread empties the queue into the connection. Every lock region and every system
 call is one step, and the steps of the threads interleave in any way.
 */
module SendQueueModule {
  import opened Bytes
  import opened ConnectionModule
  import opened PollEventHandlerModule

  /** The bytes of a message (`GetContent`). */
  type Msg = seq<uint8>

  /** The largest value of an eventfd counter; a write that would pass it blocks. */
  const COUNTER_MAX: nat := 0xFFFF_FFFF_FFFF_FFFE
  /** What `Handler::WakeUp` adds. */
  const WAKE: nat := 4096

  /** The loop's thread drains from its read of the eventfd until it has seen the queue empty. */
  datatype Loop = Idle | Draining

  /** The loop's thread among the producers: callbacks may send, too. */
  const LOOP: nat := 0

  /**
   `waking` are the threads on their way into the eventfd, after a push or without one; `alive` says that the
   session has not been released; `pushed` and `popped` are the history.
   */
  datatype State = State(
    queue: seq<Msg>, counter: nat, waking: set<nat>, loop: Loop, alive: bool, pushed: seq<Msg>, popped: seq<Msg>)
  {
    /** First in, first out, and no lost wake-up. */
    predicate Valid() {
      && popped + queue == pushed
      && (queue != [] ==> counter > 0 || waking != {} || loop.Draining?)
      && (loop.Draining? ==> alive && LOOP !in waking)
    }
  }

  /** A session that nobody has sent anything on; there may be wake-ups left from before its upgrade. */
  function Quiet(counter: nat): State {
    State([], counter, {}, Idle, true, [], [])
  }

  datatype Step =
    | Push(producer: nat, msg: Msg)   // the lock region of `SendMsg`
    | Nudge(producer: nat)            // a call of `WakeUp` without a push
    | Wake(producer: nat)             // the write to the eventfd in `WakeUp`
    | Read                            // `WakeUpper::OnReadEvent`: read the eventfd
    | Pop                             // `PopSendMsg`
    | Release                         // the connection is closed, and the session with it

  /** The loop's thread sends from callbacks only, and does nothing else before its own write is done. */
  predicate Enabled(s: State, step: Step) {
    match step
    case Push(p, _) => p !in s.waking && (p == LOOP ==> s.loop.Idle?)
    case Nudge(p) => p !in s.waking && (p == LOOP ==> s.loop.Idle?)
    case Wake(p) => p in s.waking && s.alive && s.counter + WAKE <= COUNTER_MAX
    case Read => s.loop.Idle? && s.alive && LOOP !in s.waking && s.counter > 0
    case Pop => s.loop.Draining?
    case Release => s.loop.Idle? && s.alive && LOOP !in s.waking
  }

  function Do(s: State, step: Step): State
    requires Enabled(s, step)
  {
    match step
    case Push(p, m) => s.(queue := s.queue + [m], pushed := s.pushed + [m], waking := s.waking + {p})
    case Nudge(p) => s.(waking := s.waking + {p})
    case Wake(p) => s.(counter := s.counter + WAKE, waking := s.waking - {p})
    case Read => s.(counter := 0, loop := Draining)
    case Pop =>
      if s.queue == [] then s.(loop := Idle)
      else s.(queue := s.queue[1..], popped := s.popped + [s.queue[0]])
    case Release => s.(alive := false)
  }

  /** The state after the steps, if each is enabled in its turn. */
  function After(s: State, steps: seq<Step>): Option<State>
    decreases |steps|
  {
    if |steps| == 0 then Some(s)
    else if !Enabled(s, steps[0]) then None
    else After(Do(s, steps[0]), steps[1..])
  }

  lemma StepKeepsValid(s: State, step: Step)
    requires s.Valid() && Enabled(s, step)
    ensures Do(s, step).Valid()
  {
    if step.Pop? && s.queue != [] {
      assert s.queue == [s.queue[0]] + s.queue[1..];
    }
  }

  /** Over every interleaving the queue is first in, first out, and a waiting message has a wake-up under way. */
  lemma {:induction false} NoLostWakeUp(s: State, steps: seq<Step>)
    requires s.Valid() && After(s, steps).Some?
    ensures After(s, steps).value.Valid()
    decreases |steps|
  {
    if |steps| > 0 {
      StepKeepsValid(s, steps[0]);
      NoLostWakeUp(Do(s, steps[0]), steps[1..]);
    }
  }

  // ----- progress -----

  /** The steps that bring messages nearer to the connection. */
  predicate Forwards(step: Step) {
    step.Wake? || step.Read? || step.Pop?
  }

  /** The loop's thread waits in `WakeUp` for room in the counter, which only the loop's thread can make. */
  predicate SelfBlocked(s: State) {
    LOOP in s.waking && s.counter + WAKE > COUNTER_MAX
  }

  ghost predicate CanProgress(s: State) {
    exists step :: Enabled(s, step) && Forwards(step)
  }

  /** Messages can always move on, except exactly when the session is released or the loop's thread blocks itself. */
  lemma ProgressExactly(s: State)
    requires s.Valid() && s.popped != s.pushed
    ensures CanProgress(s) <==> s.alive && !SelfBlocked(s)
  {
    assert s.queue == [] ==> s.popped + [] == s.popped;
    if s.alive && !SelfBlocked(s) {
      if s.loop.Draining? {
        assert Enabled(s, Pop) && Forwards(Pop);
      } else if LOOP in s.waking {
        assert Enabled(s, Wake(LOOP)) && Forwards(Wake(LOOP));
      } else if s.counter > 0 {
        assert Enabled(s, Read) && Forwards(Read);
      } else {
        var p :| p in s.waking;
        assert Enabled(s, Wake(p)) && Forwards(Wake(p));
      }
    }
  }

  /** A loop's thread that blocks itself is blocked for good, and nothing is delivered any more. */
  lemma {:induction false} SelfBlockedForGood(s: State, steps: seq<Step>)
    requires s.Valid() && SelfBlocked(s) && After(s, steps).Some?
    ensures SelfBlocked(After(s, steps).value) && After(s, steps).value.popped == s.popped
    decreases |steps|
  {
    if |steps| > 0 {
      StepKeepsValid(s, steps[0]);
      SelfBlockedForGood(Do(s, steps[0]), steps[1..]);
    }
  }

  /** `n` wake-ups of another thread before the loop comes to read. */
  function Wakes(n: nat): (steps: seq<Step>)
    ensures |steps| == 2 * n
  {
    if n == 0 then [] else [Nudge(1), Wake(1)] + Wakes(n - 1)
  }

  lemma {:induction false} WakesAddUp(s: State, n: nat)
    requires s.alive && 1 !in s.waking && s.counter + n * WAKE <= COUNTER_MAX
    ensures After(s, Wakes(n)) == Some(s.(counter := s.counter + n * WAKE))
    decreases n
  {
    if n > 0 {
      var s1 := Do(s, Nudge(1));
      var s2 := Do(s1, Wake(1));
      AfterOne(s, Nudge(1), [Wake(1)] + Wakes(n - 1));
      AfterOne(s1, Wake(1), Wakes(n - 1));
      assert Wakes(n) == [Nudge(1)] + ([Wake(1)] + Wakes(n - 1));
      assert s2.waking == s.waking;
      WakesAddUp(s2, n - 1);
    }
  }

  /** It can happen: 2^52 - 1 wake-ups have filled the counter when a callback sends. */
  lemma SelfBlockingIsReachable(m: Msg) returns (steps: seq<Step>)
    ensures After(Quiet(0), steps).Some? && SelfBlocked(After(Quiet(0), steps).value)
    ensures After(Quiet(0), steps).value.queue == [m]
    ensures |steps| == 2 * 4503599627370495 + 1
  {
    var n := COUNTER_MAX / WAKE;
    WakesAddUp(Quiet(0), n);
    var full := Quiet(n * WAKE);
    steps := Wakes(n) + [Push(LOOP, m)];
    AfterJoin(Quiet(0), Wakes(n), [Push(LOOP, m)]);
    AfterOne(full, Push(LOOP, m), []);
  }

  lemma {:induction false} AfterJoin(s: State, steps: seq<Step>, more: seq<Step>)
    requires After(s, steps).Some?
    ensures After(s, steps + more) == After(After(s, steps).value, more)
    decreases |steps|
  {
    if |steps| == 0 {
      assert steps + more == more;
    } else {
      assert (steps + more)[1..] == steps[1..] + more;
      AfterJoin(Do(s, steps[0]), steps[1..], more);
    }
  }

  /** An upper bound of the steps left when nobody calls any more. */
  function Measure(s: State): nat {
    4 * |s.waking| + (if s.counter > 0 then 2 else 0) + |s.queue|
    + (if s.loop.Draining? then 1 else 0) + (if s.alive then 1 else 0)
  }

  /** Nobody starts a `SendMsg` or a `WakeUp`. */
  predicate NoCalls(steps: seq<Step>) {
    forall i :: 0 <= i < |steps| ==> !steps[i].Push? && !steps[i].Nudge?
  }

  lemma {:induction false} StepsLeft(s: State, steps: seq<Step>)
    requires After(s, steps).Some? && NoCalls(steps)
    ensures Measure(After(s, steps).value) + |steps| <= Measure(s)
    ensures After(s, steps).value.pushed == s.pushed
    decreases |steps|
  {
    if |steps| > 0 {
      assert NoCalls(steps[1..]);
      StepsLeft(Do(s, steps[0]), steps[1..]);
    }
  }

  /**
   Once nobody calls any more, every schedule ends within `Measure` steps, and where it ends all that was pushed
   has been popped in push order, unless the session was released or the loop's thread blocks itself.
   */
  lemma EverythingIsDelivered(s: State, steps: seq<Step>)
    requires s.Valid() && After(s, steps).Some? && NoCalls(steps)
    ensures |steps| <= Measure(s)
    ensures
      var t := After(s, steps).value;
      !CanProgress(t) ==> t.popped == s.pushed || !t.alive || SelfBlocked(t)
  {
    StepsLeft(s, steps);
    NoLostWakeUp(s, steps);
    var t := After(s, steps).value;
    if t.popped != t.pushed {
      ProgressExactly(t);
    }
  }

  // ----- the queue and the connection together -----

  /**
   The loop's thread also runs the connection, but not while it drains the queue. `before` is what went through
   the connection before the queue was attached to it, such as the response to the handshake.
   */
  datatype Sender = Sender(before: seq<uint8>, q: State, con: Conn)
  {
    predicate Valid() {
      && q.Valid() && con.Valid()
      && con.submitted == before + Concat(q.popped)
      && (q.alive <==> !con.closed)
    }
  }

  datatype Event =
    | Of(step: Step)                                            // any step but `Pop` and `Release`
    | Forward(answer: int)                                      // `PopSendMsg` and `SendBytes`
    | AskToClose                                                // `Close`, by the time wheel for instance
    | Polled(ready: Events, reading: Reading, answer: int)      // `HandleEvents` of the connection

  /**
   A session's reaction to data is to push messages, which are steps of their own before the rest of the poll,
   and to close; bytes go through the queue.
   */
  predicate ClosesAtMost(reading: Reading) {
    reading.Data? ==> forall i :: 0 <= i < |reading.reaction| ==> reading.reaction[i].Close?
  }

  predicate LoopIsFree(s: Sender) {
    s.q.loop.Idle? && LOOP !in s.q.waking && !s.con.closed
  }

  predicate Possible(s: Sender, e: Event) {
    match e
    case Of(step) => !step.Pop? && !step.Release? && Enabled(s.q, step)
    case Forward(_) => s.q.loop.Draining?
    case AskToClose => LoopIsFree(s)
    case Polled(_, reading, _) => LoopIsFree(s) && ClosesAtMost(reading)
  }

  function Happen(s: Sender, e: Event): Outcome<Sender>
    requires s.con.Valid() && Possible(s, e)
  {
    match e
    case Of(step) => Returned(s.(q := Do(s.q, step)))
    case Forward(answer) =>
      if s.q.queue == [] then Returned(s.(q := Do(s.q, Pop)))
      else if s.con.SendAborts(s.q.queue[0]) then Aborted
      else Returned(s.(q := Do(s.q, Pop), con := s.con.SendBytes(s.q.queue[0], answer)))
    case AskToClose => Returned(s.(con := s.con.(closing := true)))
    case Polled(ready, reading, answer) =>
      match ConnectionModule.Apply(s.con, Poll(ready, reading, answer))
      case Aborted => Aborted
      case Returned(c) => Returned(s.(con := c, q := s.q.(alive := s.q.alive && !c.closed)))
  }

  lemma HappenKeepsValid(s: Sender, e: Event)
    requires s.Valid() && Possible(s, e)
    ensures Happen(s, e).Returned? ==> Happen(s, e).value.Valid() && Happen(s, e).value.before == s.before
  {
    match e
    case Of(step) => StepKeepsValid(s.q, step);
    case Forward(answer) =>
      StepKeepsValid(s.q, Pop);
      if s.q.queue != [] && !s.con.SendAborts(s.q.queue[0]) {
        SendKeepsValid(s.con, s.q.queue[0], answer);
        ConcatAppend(s.q.popped, s.q.queue[0]);
        assert s.before + Concat(s.q.popped) + s.q.queue[0] == s.before + (Concat(s.q.popped) + s.q.queue[0]);
      }
    case AskToClose =>
    case Polled(ready, reading, answer) =>
      ConnectionModule.StepKeepsValid(s.con, Poll(ready, reading, answer));
      PollKeepsSubmitted(s.con, Revents(REGISTERED, ready), reading);
  }

  lemma PollKeepsSubmitted(c: Conn, revents: Events, reading: Reading)
    requires c.Valid() && ClosesAtMost(reading)
    ensures
      var r := AfterRead(c, revents, reading);
      r.Returned? && r.value.submitted == c.submitted && r.value.closed == c.closed
  {
    if reading.Data? {
      ClosingSendsNothing(c, reading.reaction);
    }
  }

  lemma {:induction false} ClosingSendsNothing(c: Conn, reaction: seq<Action>)
    requires forall i :: 0 <= i < |reaction| ==> reaction[i].Close?
    ensures
      var r := c.React(reaction);
      r.Returned? && r.value.submitted == c.submitted && r.value.closed == c.closed
    decreases |reaction|
  {
    if |reaction| > 0 {
      ClosingSendsNothing(c.Act(reaction[0]).value, reaction[1..]);
    }
  }

  /** Runs of possible events; `None` if one of them is not possible in its turn. */
  function Runs(s: Sender, events: seq<Event>): Option<Outcome<Sender>>
    requires s.Valid()
    decreases |events|
  {
    if |events| == 0 then Some(Returned(s))
    else if !Possible(s, events[0]) then None
    else
      HappenKeepsValid(s, events[0]);
      match Happen(s, events[0])
      case Aborted => Some(Aborted)
      case Returned(t) => Runs(t, events[1..])
  }

  /**
   Whatever the producers, the loop, the socket and the close do, and in whatever order: until an assert fails,
   the bytes sent, the bytes that wait and the messages in the queue are what went before and then the messages
   pushed, in push order.
   */
  lemma {:induction false} EveryByteInPushOrder(s: Sender, events: seq<Event>)
    requires s.Valid()
    ensures
      var r := Runs(s, events);
      r.Some? && r.value.Returned? ==>
        var t := r.value.value;
        && t.Valid() && t.before == s.before
        && t.con.sent + t.con.queue.items + Concat(t.q.queue) == s.before + Concat(t.q.pushed)
    decreases |events|
  {
    if |events| == 0 {
      ConcatSplit(s.q.popped, s.q.queue);
      assert s.before + Concat(s.q.popped) + Concat(s.q.queue) == s.before + (Concat(s.q.popped) + Concat(s.q.queue));
    } else if Possible(s, events[0]) {
      HappenKeepsValid(s, events[0]);
      if Happen(s, events[0]).Returned? {
        EveryByteInPushOrder(Happen(s, events[0]).value, events[1..]);
      }
    }
  }

  lemma AfterOne(s: State, step: Step, more: seq<Step>)
    requires Enabled(s, step)
    ensures After(s, [step] + more) == After(Do(s, step), more)
    ensures [step] + [] == [step] && forall other :: [step] + [other] == [step, other]
    ensures forall t :: After(t, []) == Some(t)
  {
    assert ([step] + more)[1..] == more;
  }

  // ----- the classes -----

  class WakeUpper {
    const mEventHandler: PollEventHandler
    var counter: nat    // of the eventfd behind mFd

    constructor (fd: int)
      ensures counter == 0 && fresh(mEventHandler) && mEventHandler.mFd == fd && mEventHandler.mLoopIdx == -1
      ensures mEventHandler.events == Events(true, false)
    {
      mEventHandler := new PollEventHandler(fd);
      counter := 0;
      new;
      mEventHandler.EnableRead(true);
    }

    /** `write`; false stands for a write that blocks. */
    method WakeUp(u: nat) returns (written: bool)
      modifies this
      ensures written <==> old(counter) + u <= COUNTER_MAX
      ensures counter == if written then old(counter) + u else old(counter)
    {
      written := counter + u <= COUNTER_MAX;
      if written {
        counter := counter + u;
      }
    }

    /** `read`: takes the counter's value and resets it. */
    method TakeCounter() returns (u: nat)
      modifies this
      ensures u == old(counter) && counter == 0
    {
      u, counter := counter, 0;
    }
  }

  /** The sending side of `WebSocketHandler`. */
  class SendQueue {
    const mWakeUpper: WakeUpper
    var mSendMsgs: seq<Msg>
    var waking: set<nat>    // which threads are in the middle of `SendMsg` or `WakeUp`
    ghost var loop: Loop
    ghost var alive: bool
    ghost var pushed: seq<Msg>
    ghost var popped: seq<Msg>

    ghost function View(): State
      reads this, mWakeUpper
    {
      State(mSendMsgs, mWakeUpper.counter, waking, loop, alive, pushed, popped)
    }

    constructor (fd: int)
      ensures fresh(mWakeUpper) && View() == Quiet(0)
    {
      mWakeUpper := new WakeUpper(fd);
      mSendMsgs, waking, loop, alive, pushed, popped := [], {}, Idle, true, [], [];
    }

    method PushMsg(producer: nat, msg: Msg)
      requires Enabled(View(), Push(producer, msg))
      modifies this
      ensures View() == Do(old(View()), Push(producer, msg))
    {
      mSendMsgs := mSendMsgs + [msg];
      pushed := pushed + [msg];
      waking := waking + {producer};
    }

    method WakeUp(producer: nat) returns (written: bool)
      requires producer in waking && alive
      modifies this, mWakeUpper
      ensures written <==> Enabled(old(View()), Wake(producer))
      ensures View() == if written then Do(old(View()), Wake(producer)) else old(View())
    {
      written := mWakeUpper.WakeUp(4096);
      if written {
        waking := waking - {producer};
      }
    }

    /** Not interrupted between its two steps. */
    method SendMsg(producer: nat, msg: Msg) returns (written: bool)
      requires Enabled(View(), Push(producer, msg)) && alive
      modifies this, mWakeUpper
      ensures written ==> Some(View()) == After(old(View()), [Push(producer, msg), Wake(producer)])
      ensures !written ==> Some(View()) == After(old(View()), [Push(producer, msg)])
    {
      PushMsg(producer, msg);
      AfterOne(old(View()), Push(producer, msg), []);
      AfterOne(old(View()), Push(producer, msg), [Wake(producer)]);
      ghost var s := View();
      written := WakeUp(producer);
      if written {
        AfterOne(s, Wake(producer), []);
      }
    }

    method PopSendMsg() returns (r: Option<Msg>)
      requires Enabled(View(), Pop)
      modifies this
      ensures View() == Do(old(View()), Pop)
      ensures r == if old(mSendMsgs) == [] then None else Some(old(mSendMsgs)[0])
    {
      if mSendMsgs == [] {
        loop := Idle;
        return None;
      }
      r := Some(mSendMsgs[0]);
      popped := popped + [mSendMsgs[0]];
      mSendMsgs := mSendMsgs[1..];
    }

    /** `WakeUpper::OnReadEvent` up to its callback, which is `HandleWsReponse`. */
    method OnReadEvent()
      requires Enabled(View(), Read)
      modifies this, mWakeUpper
      ensures View() == Do(old(View()), Read)
    {
      var _ := mWakeUpper.TakeCounter();
      loop := Draining;
    }

    /** What other threads do before the loop's thread goes on; what cannot happen does not. */
    method Others(steps: seq<Step>, ghost before: seq<uint8>, ghost con: Conn) returns (ghost done: seq<Event>)
      requires loop == Draining && Sender(before, View(), con).Valid()
      modifies this, mWakeUpper
      ensures loop == old(loop) && (steps == [] ==> mSendMsgs == old(mSendMsgs))
      ensures Runs(Sender(before, old(View()), con), done) == Some(Returned(Sender(before, View(), con)))
      ensures Sender(before, View(), con).Valid()
    {
      done := [];
      var i := 0;
      while i < |steps|
        invariant i <= |steps| && loop == old(loop) && (i == 0 ==> mSendMsgs == old(mSendMsgs))
        invariant Runs(Sender(before, old(View()), con), done) == Some(Returned(Sender(before, View(), con)))
        invariant Sender(before, View(), con).Valid()
      {
        RunsMore(Sender(before, old(View()), con), done, Sender(before, View(), con), Of(steps[i]));
        match steps[i] {
          case Push(p, msg) =>
            if p !in waking && p != LOOP {
              PushMsg(p, msg);
              done := done + [Of(steps[i])];
            }
          case Nudge(p) =>
            if p !in waking && p != LOOP {
              waking := waking + {p};
              done := done + [Of(steps[i])];
            }
          case Wake(p) =>
            if p in waking {
              var written := WakeUp(p);
              done := if written then done + [Of(steps[i])] else done;
            }
          case _ =>
        }
        i := i + 1;
      }
    }

    /** After the `events` since `start` the pop of `was` has brought `sendmsg`, not yet sent. */
    ghost predicate Popped(con: Connection, start: Sender, events: seq<Event>, was: State, sendmsg: Option<Msg>)
      reads this, mWakeUpper, con, con.mEventHandler, con.mWriteBuf, con.mWriteBuf.data
    {
      && con.Sound() && start.Valid() && was.loop.Draining? && View() == Do(was, Pop)
      && sendmsg == (if was.queue == [] then None else Some(was.queue[0]))
      && Runs(start, events) == Some(Returned(Sender(start.before, was, con.View())))
    }

    /** Lets other threads go on and pops. */
    method Next(con: Connection, others: seq<Step>, ghost start: Sender, ghost events: seq<Event>)
      returns (sendmsg: Option<Msg>, ghost more: seq<Event>, ghost was: State)
      requires con.Sound() && start.Valid() && loop == Draining
      requires Runs(start, events) == Some(Returned(Sender(start.before, View(), con.View())))
      modifies this, mWakeUpper
      ensures Popped(con, start, events + more, was, sendmsg)
      ensures others == [] ==> |mSendMsgs| + (if sendmsg.Some? then 1 else 0) == |old(mSendMsgs)|
    {
      ghost var t := Sender(start.before, View(), con.View());
      RunsJoin(start, events, t, []);
      more := Others(others, start.before, con.View());
      RunsJoin(start, events, t, more);
      was := View();
      sendmsg := PopSendMsg();
    }

    /** Sends what was popped. */
    method Forward(
        con: Connection, msg: Msg, answer: int, ghost start: Sender, ghost events: seq<Event>, ghost was: State)
      returns (r: Outcome<bool>)
      requires Popped(con, start, events, was, Some(msg))
      modifies con, con.mEventHandler, con.mWriteBuf, con.mWriteBuf.data
      ensures con.mWriteBuf.data == old(con.mWriteBuf.data) || fresh(con.mWriteBuf.data)
      ensures r.Aborted? ==> Runs(start, events + [Event.Forward(answer)]) == Some(Aborted)
      ensures r.Returned? ==> con.Sound() && loop == Draining
      ensures r.Returned? ==>
        Runs(start, events + [Event.Forward(answer)]) == Some(Returned(Sender(start.before, View(), con.View())))
    {
      RunsMore(start, events, Sender(start.before, was, con.View()), Event.Forward(answer));
      r := con.SendBytes(msg, answer);
    }

    /**
     `WebSocketServer::HandleWsReponse`: empties the queue into the connection while other threads push.
     Whatever they do, this is a run of the machine above that ends with the queue seen empty.
     */
    method HandleWsReponse(con: Connection, turns: seq<Turn>, ghost before: seq<uint8>)
      returns (r: Outcome<bool>, ghost events: seq<Event>)
      requires con.Sound() && loop == Draining && Sender(before, View(), con.View()).Valid()
      modifies this, mWakeUpper, con, con.mEventHandler, con.mWriteBuf, con.mWriteBuf.data
      ensures r.Aborted? ==> Runs(old(Sender(before, View(), con.View())), events) == Some(Aborted)
      ensures r.Returned? ==>
        && con.Sound() && loop == Idle && mSendMsgs == []
        && Runs(old(Sender(before, View(), con.View())), events) == Some(Returned(Sender(before, View(), con.View())))
    {
      ghost var start := Sender(before, View(), con.View());
      ghost var was;
      var sendmsg;
      var i := 0;
      sendmsg, events, was := Next(con, TurnAt(turns, 0).others, start, []);
      assert [] + events == events;
      while sendmsg.Some?
        invariant Popped(con, start, events, was, sendmsg)
        invariant con.mWriteBuf.data == old(con.mWriteBuf.data) || fresh(con.mWriteBuf.data)
        decreases if i < |turns| then |turns| - i else 0, |mSendMsgs|, if sendmsg.Some? then 1 else 0
      {
        var answer := TurnAt(turns, i).answer;
        r := Forward(con, sendmsg.value, answer, start, events, was);
        events := events + [Event.Forward(answer)];
        if r.Aborted? {
          return;
        }
        i := i + 1;
        ghost var more;
        sendmsg, more, was := Next(con, TurnAt(turns, i).others, start, events);
        events := events + more;
      }
      RunsMore(start, events, Sender(start.before, was, con.View()), Event.Forward(0));
      events := events + [Event.Forward(0)];
      return Returned(true), events;
    }
  }

  /** What other threads do before the next pop, and what the socket does after it. */
  datatype Turn = Turn(others: seq<Step>, answer: int)

  function TurnAt(turns: seq<Turn>, i: nat): Turn {
    if i < |turns| then turns[i] else Turn([], 0)
  }

  lemma {:induction false} RunsJoin(s: Sender, events: seq<Event>, t: Sender, more: seq<Event>)
    requires s.Valid() && Runs(s, events) == Some(Returned(t))
    ensures t.Valid() && Runs(s, events + more) == Runs(t, more)
    decreases |events|
  {
    if |events| == 0 {
      assert events + more == more;
    } else {
      HappenKeepsValid(s, events[0]);
      assert (events + more)[1..] == events[1..] + more;
      RunsJoin(Happen(s, events[0]).value, events[1..], t, more);
    }
  }

  lemma RunsMore(s: Sender, events: seq<Event>, t: Sender, e: Event)
    requires s.Valid() && Runs(s, events) == Some(Returned(t))
    ensures t.Valid()
    ensures Possible(t, e) ==> Runs(s, events + [e]) == Some(Happen(t, e))
    ensures Possible(t, e) && Happen(t, e).Returned? ==> Happen(t, e).value.Valid()
  {
    RunsJoin(s, events, t, [e]);
    if Possible(t, e) {
      HappenKeepsValid(t, e);
    }
  }
}
