/**
 The write path of a connection: `SendBytes`, `OnWriteEvent` and the poll event handler that calls back
 into the connection. What the socket does is a parameter: how many bytes `send` takes, what `poll`
 finds ready, what `read` brings.
 */
module ConnectionModule {
  import opened Bytes
  import opened DataQueueModule
  import opened PollEventHandlerModule

  /** `SendRawData`: the bytes that `send` took of `n` offered; an error counts as none. */
  function Taken(answer: int, n: nat): (k: nat)
    ensures k <= n
  {
    if answer < 0 then 0 else if answer > n then n else answer
  }

  /** What the connection's user does in a callback or between two events, on the loop's thread. */
  datatype Action = Send(bytes: seq<uint8>, answer: int) | Close

  /** What `read` brings: the end of the stream or an error, or data to which the user reacts. */
  datatype Reading = Eof | Data(reaction: seq<Action>)

  // ----- the connection as a value -----

  datatype Conn = Conn(
    queue: Queue<uint8>, events: Events, sent: seq<uint8>, submitted: seq<uint8>,
    closing: bool, closed: bool, closings: nat)
  {
    /** No byte is lost, doubled or reordered, and write interest is on exactly while bytes wait. */
    predicate Valid() {
      && queue.Valid()
      && sent + queue.items == submitted
      && (events.pollout <==> queue.items != [])
      && closings == (if closed then 1 else 0) && (closed ==> closing)
    }

    /** When sending `bytes` fails the assert in the queue. */
    predicate SendAborts(bytes: seq<uint8>) {
      queue.items != [] && bytes != [] && |queue.items| + |bytes| == queue.cap && queue.begin != 0
    }

    function SendBytes(bytes: seq<uint8>, answer: int): Conn {
      var k := if queue.items == [] then Taken(answer, |bytes|) else 0;
      var c := this.(sent := sent + bytes[..k], submitted := submitted + bytes);
      if k == |bytes| then c
      else c.(queue := queue.PushBackAll(bytes[k..]), events := events.(pollout := true))
    }

    /** The bytes at the front that lie in one piece. */
    function Front(): (n: nat)
      requires queue.Valid()
      ensures n <= |queue.items|
    {
      if queue.begin + |queue.items| >= queue.cap && queue.begin > 0 then queue.cap - queue.begin else |queue.items|
    }

    function OnWriteEvent(answer: int): (c: Conn)
      requires queue.Valid()
    {
      var k := Taken(answer, Front());
      var q := queue.DropFront(k);
      this.(queue := q, sent := sent + queue.items[..k], events := events.(pollout := q.items != []))
    }

    function Act(a: Action): Outcome<Conn> {
      match a
      case Close => Returned(this.(closing := true))
      case Send(bytes, answer) => if SendAborts(bytes) then Aborted else Returned(SendBytes(bytes, answer))
    }

    function React(reaction: seq<Action>): Outcome<Conn>
      decreases |reaction|
    {
      if |reaction| == 0 then Returned(this)
      else
        match Act(reaction[0])
        case Aborted => Aborted
        case Returned(c) => c.React(reaction[1..])
    }

    function OnReadEvent(reading: Reading): Outcome<Conn> {
      match reading
      case Eof => Returned(this.(closing := true))
      case Data(reaction) => React(reaction)
    }

    function OnClosing(): Conn {
      if closing && !closed then this.(closed := true, closings := closings + 1) else this
    }

    /** The write part of `HandleEvents`; the assert is that of `OnWriteEvent`. */
    function Flush(revents: Events, answer: int): Outcome<Conn>
      requires queue.Valid()
    {
      if !(events.pollout || revents.pollout) then Returned(this)
      else if queue.items == [] then Aborted
      else Returned(OnWriteEvent(answer))
    }
  }

  lemma Rejoined(sent: seq<uint8>, items: seq<uint8>, bytes: seq<uint8>, k: nat)
    requires k <= |bytes| && (items == [] || k == 0)
    ensures sent + bytes[..k] + (items + bytes[k..]) == sent + items + bytes
    ensures k == |bytes| ==> sent + bytes[..k] + items == sent + items + bytes
  {
    assert bytes == bytes[..k] + bytes[k..];
  }

  lemma SendKeepsValid(c: Conn, bytes: seq<uint8>, answer: int)
    requires c.Valid() && !c.SendAborts(bytes)
    ensures c.SendBytes(bytes, answer).Valid()
  {
    var k := if c.queue.items == [] then Taken(answer, |bytes|) else 0;
    Rejoined(c.sent, c.queue.items, bytes, k);
  }

  /**
   With nothing waiting, a send is made at once: what the socket takes is sent, and the rest waits, for which alone
   write events are asked. Behind waiting bytes nothing is sent.
   */
  lemma SendsAtOnceOrWaits(c: Conn, bytes: seq<uint8>, answer: int)
    requires c.Valid() && !c.SendAborts(bytes)
    ensures
      var k := if answer < 0 then 0 else if answer > |bytes| then |bytes| else answer;
      var d := c.SendBytes(bytes, answer);
      && d.submitted == c.submitted + bytes && d.closing == c.closing && d.closed == c.closed
      && (c.queue.items == [] ==> d.sent == c.sent + bytes[..k] && d.queue.items == bytes[k..])
      && (c.queue.items != [] ==> d.sent == c.sent && d.queue.items == c.queue.items + bytes)
      && d.events == c.events.(pollout := d.queue.items != [])
  {
    SendKeepsValid(c, bytes, answer);
  }

  /** A write event sends what the socket takes of the piece at the front, and nothing else changes. */
  lemma WritesTheFront(c: Conn, answer: int)
    requires c.Valid() && c.queue.items != [] && 0 <= answer <= c.Front()
    ensures 0 < c.Front() && (c.Front() == |c.queue.items| || c.queue.begin + c.Front() == c.queue.cap)
    ensures
      var d := c.OnWriteEvent(answer);
      && d.sent == c.sent + c.queue.items[..answer] && d.queue.items == c.queue.items[answer..]
      && d.submitted == c.submitted && d.closing == c.closing
      && d.events == c.events.(pollout := d.queue.items != [])
  {
    WriteKeepsValid(c, answer);
  }

  lemma Moved(sent: seq<uint8>, items: seq<uint8>, k: nat)
    requires k <= |items|
    ensures sent + items[..k] + items[k..] == sent + items
  {
    assert items == items[..k] + items[k..];
  }

  lemma WriteKeepsValid(c: Conn, answer: int)
    requires c.Valid() && c.queue.items != []
    ensures c.OnWriteEvent(answer).Valid()
  {
    Moved(c.sent, c.queue.items, Taken(answer, c.Front()));
  }

  lemma {:induction false} ReactKeepsValid(c: Conn, reaction: seq<Action>)
    requires c.Valid()
    ensures
      var r := c.React(reaction);
      r.Returned? ==> r.value.Valid() && (c.closing ==> r.value.closing)
    decreases |reaction|
  {
    if |reaction| > 0 {
      var a := reaction[0];
      if a.Send? && !c.SendAborts(a.bytes) {
        SendKeepsValid(c, a.bytes, a.answer);
      }
      if c.Act(a).Returned? {
        ReactKeepsValid(c.Act(a).value, reaction[1..]);
      }
    }
  }

  function AfterRead(c: Conn, revents: Events, reading: Reading): Outcome<Conn> {
    if revents.pollin then c.OnReadEvent(reading) else Returned(c)
  }

  function AfterEvents(c: Conn, revents: Events, reading: Reading, answer: int): Outcome<Conn>
    requires c.Valid()
  {
    match AfterRead(c, revents, reading)
    case Aborted => Aborted
    case Returned(d) =>
      ReadKeepsValid(c, revents, reading);
      match d.Flush(revents, answer)
      case Aborted => Aborted
      case Returned(e) => Returned(e.OnClosing())
  }

  lemma ReadKeepsValid(c: Conn, revents: Events, reading: Reading)
    requires c.Valid()
    ensures AfterRead(c, revents, reading).Returned? ==> AfterRead(c, revents, reading).value.Valid()
  {
    if reading.Data? {
      ReactKeepsValid(c, reading.reaction);
    }
  }

  // ----- runs -----

  datatype Step = Call(action: Action) | Poll(ready: Events, reading: Reading, answer: int)

  /**
   A new connection, and what its loop polls for if it is placed on the loop while nothing waits, which is reading
   alone; that this is so in every run of a loop is proved with the loop's table, in ConnectionLoop.dfy.
   */
  const NEW := Conn(Queue(4, 0, [], 0, 0), Events(true, false), [], [], false, false, 0)
  const REGISTERED := Events(true, false)

  /** A closed connection is off its loop: no poll comes to it any more. */
  function Apply(c: Conn, step: Step): Outcome<Conn>
    requires c.Valid()
  {
    match step
    case Call(action) => c.Act(action)
    case Poll(ready, reading, answer) =>
      if c.closed then Returned(c) else AfterEvents(c, Revents(REGISTERED, ready), reading, answer)
  }

  function Run(c: Conn, steps: seq<Step>): Outcome<Conn>
    requires c.Valid()
    decreases |steps|
  {
    if |steps| == 0 then Returned(c)
    else
      StepKeepsValid(c, steps[0]);
      match Apply(c, steps[0])
      case Aborted => Aborted
      case Returned(d) => Run(d, steps[1..])
  }

  lemma StepKeepsValid(c: Conn, step: Step)
    requires c.Valid()
    ensures Apply(c, step).Returned? ==> Apply(c, step).value.Valid()
  {
    match step
    case Call(action) =>
      ReactOnce(c, action);
      ReactKeepsValid(c, [action]);
    case Poll(ready, reading, answer) =>
      HandleKeepsValid(c, Revents(REGISTERED, ready), reading, answer);
  }

  lemma RunFirst(c: Conn, step: Step, rest: seq<Step>)
    requires c.Valid()
    ensures Apply(c, step).Aborted? ==> Run(c, [step] + rest).Aborted?
    ensures Apply(c, step).Returned? ==> Apply(c, step).value.Valid()
    ensures Apply(c, step).Returned? ==> Run(c, [step] + rest) == Run(Apply(c, step).value, rest)
  {
    StepKeepsValid(c, step);
    assert ([step] + rest)[1..] == rest;
  }

  lemma ReactOnce(c: Conn, action: Action)
    ensures c.React([action]) == c.Act(action)
  {
    assert [action][1..] == [];
    if c.Act(action).Returned? {
      assert c.Act(action).value.React([]) == c.Act(action);
    }
  }

  lemma HandleKeepsValid(c: Conn, revents: Events, reading: Reading, answer: int)
    requires c.Valid()
    ensures
      var r := AfterEvents(c, revents, reading, answer);
      r.Returned? ==> r.value.Valid() && (r.value.closing ==> r.value.closed)
  {
    ReadKeepsValid(c, revents, reading);
    var afterRead := AfterRead(c, revents, reading);
    if afterRead.Returned? && afterRead.value.queue.items != [] {
      WriteKeepsValid(afterRead.value, answer);
    }
  }

  /**
   Over every run of sends, closes and polls, whatever the socket takes: until an assert fails, what was
   sent followed by what waits is what was submitted, write interest is on exactly while bytes wait,
   and the closing callback has run at most once.
   */
  lemma {:induction false} RunConservesBytes(c: Conn, steps: seq<Step>)
    requires c.Valid()
    ensures Run(c, steps).Returned? ==> Run(c, steps).value.Valid()
    decreases |steps|
  {
    if |steps| > 0 {
      StepKeepsValid(c, steps[0]);
      if Apply(c, steps[0]).Returned? {
        RunConservesBytes(Apply(c, steps[0]).value, steps[1..]);
      }
    }
  }

  /** What a callback sends. */
  function SentBy(reaction: seq<Action>): seq<uint8>
    decreases |reaction|
  {
    if |reaction| == 0 then []
    else (if reaction[0].Send? then reaction[0].bytes else []) + SentBy(reaction[1..])
  }

  lemma {:induction false} ReactionIsDone(c: Conn, reaction: seq<Action>)
    requires c.Valid() && c.React(reaction).Returned?
    ensures
      var d := c.React(reaction).value;
      d.submitted == c.submitted + SentBy(reaction) && d.closing == (c.closing || Close in reaction)
    decreases |reaction|
  {
    if |reaction| == 0 {
      assert c.submitted + [] == c.submitted;
    } else {
      var a, rest := reaction[0], reaction[1..];
      if a.Send? {
        SendsAtOnceOrWaits(c, a.bytes, a.answer);
        assert c.submitted + a.bytes + SentBy(rest) == c.submitted + (a.bytes + SentBy(rest));
      } else {
        assert [] + SentBy(rest) == SentBy(rest);
      }
      ReactOnce(c, a);
      ReactKeepsValid(c, [a]);
      ReactionIsDone(c.Act(a).value, rest);
      assert reaction == [a] + rest;
    }
  }

  /**
   A readable socket is read: the end of the stream closes the connection in the same turn, and data is answered
   by all that the callback does. One that is not readable is left alone.
   */
  lemma ReadingIsDone(c: Conn, revents: Events, reading: Reading, answer: int)
    requires c.Valid() && AfterEvents(c, revents, reading, answer).Returned?
    ensures
      var r := AfterEvents(c, revents, reading, answer).value;
      && (revents.pollin && reading.Eof? ==> r.closed && r.submitted == c.submitted)
      && (revents.pollin && reading.Data? ==>
            && r.submitted == c.submitted + SentBy(reading.reaction)
            && r.closing == (c.closing || Close in reading.reaction))
      && (!revents.pollin ==> r.submitted == c.submitted && r.closing == c.closing)
  {
    HandleKeepsValid(c, revents, reading, answer);
    if reading.Data? && revents.pollin {
      ReactionIsDone(c, reading.reaction);
    }
  }

  /** In one turn reading comes before writing: what a callback could not send at once is offered again. */
  lemma ReadsBeforeWriting(b: uint8)
    ensures
      var r := AfterEvents(NEW, Events(true, false), Data([Send([b, b], 1)]), 1);
      r.Returned? && r.value.sent == [b, b] && r.value.queue.items == []
  {
    var send := Send([b, b], 1);
    var c := NEW.SendBytes([b, b], 1);
    SendsAtOnceOrWaits(NEW, [b, b], 1);
    assert c.sent == [b] && c.queue.items == [b] && c.queue.begin == 0 && c.queue.cap == 4;
    ReactOnce(NEW, send);
    WriteKeepsValid(c, 1);
    assert [b] + [b] == [b, b];
  }

  /** The assert of `OnWriteEvent` fails exactly when `poll` reports a writable socket and nothing waits. */
  lemma WriteAssertExactly(c: Conn, revents: Events, answer: int)
    requires c.Valid()
    ensures c.Flush(revents, answer).Aborted? <==> revents.pollout && c.queue.items == []
  {}

  /** As long as the loop polls for reading alone, a poll aborts only if the user's reaction does. */
  lemma PollAbortsInReactionOnly(c: Conn, ready: Events, reading: Reading, answer: int)
    requires c.Valid()
    ensures Apply(c, Poll(ready, reading, answer)).Aborted?
       <==> !c.closed && ready.pollin && reading.Data? && c.React(reading.reaction).Aborted?
  {
    var revents := Revents(REGISTERED, ready);
    ReadKeepsValid(c, revents, reading);
    var afterRead := AfterRead(c, revents, reading);
    if afterRead.Returned? {
      WriteAssertExactly(afterRead.value, revents, answer);
    }
  }

  /** A reaction aborts exactly when it reaches a send that meets the queue's assert. */
  lemma {:induction false} ReactionAbortsExactly(c: Conn, reaction: seq<Action>)
    requires c.Valid()
    ensures c.React(reaction).Aborted? <==> exists i :: 0 <= i < |reaction| && SendAbortsAt(c, reaction, i)
    decreases |reaction|
  {
    if |reaction| > 0 {
      var next := c.Act(reaction[0]);
      assert reaction[..0] == [];
      if next.Aborted? {
        assert SendAbortsAt(c, reaction, 0);
      } else {
        ReactOnce(c, reaction[0]);
        ReactKeepsValid(c, [reaction[0]]);
        var d, rest := next.value, reaction[1..];
        ReactionAbortsExactly(d, rest);
        assert !SendAbortsAt(c, reaction, 0);
        forall i | 0 <= i < |rest|
          ensures SendAbortsAt(d, rest, i) <==> SendAbortsAt(c, reaction, i + 1)
        {
          assert reaction[..i + 1][1..] == rest[..i];
        }
        if i :| 0 <= i < |reaction| && SendAbortsAt(c, reaction, i) {
          assert SendAbortsAt(d, rest, i - 1);
        }
      }
    }
  }

  ghost predicate SendAbortsAt(c: Conn, reaction: seq<Action>, i: nat)
    requires i < |reaction|
  {
    var before := c.React(reaction[..i]);
    before.Returned? && reaction[i].Send? && before.value.SendAborts(reaction[i].bytes)
  }

  /**
   While the connection is not to be closed, polls that find nothing to read empty the queue, if the socket takes
   at least one byte each time.
   */
  lemma {:induction false} WaitingBytesAreSent(c: Conn, polls: seq<Step>)
    requires c.Valid() && !c.closing && |c.queue.items| <= |polls|
    requires forall i :: 0 <= i < |polls| ==> polls[i].Poll? && !polls[i].ready.pollin && 0 < polls[i].answer
    ensures Run(c, polls).Returned?
    ensures
      var d := Run(c, polls).value;
      d.submitted == c.submitted && d.sent == d.submitted && !d.events.pollout
    decreases |polls|
  {
    if |polls| == 0 {
      assert c.sent + [] == c.sent;
    } else {
      StepKeepsValid(c, polls[0]);
      var d := Apply(c, polls[0]).value;
      if c.queue.items != [] {
        WriteKeepsValid(c, polls[0].answer);
        assert |c.OnWriteEvent(polls[0].answer).queue.items| < |c.queue.items|;
      }
      WaitingBytesAreSent(d, polls[1..]);
    }
  }

  /**
   A connection that is to be closed writes once more and is closed then: all that it has by then is sent exactly
   if nothing waits or that write takes everything.
   */
  lemma ClosingWritesOnce(c: Conn, ready: Events, reading: Reading, answer: int)
    requires c.Valid() && c.closing && !c.closed && Apply(c, Poll(ready, reading, answer)).Returned?
    ensures
      var d := AfterRead(c, Revents(REGISTERED, ready), reading);
      var r := Apply(c, Poll(ready, reading, answer)).value;
      && d.Returned? && d.value.Valid() && r.Valid() && r.closed && r.submitted == d.value.submitted
      && (r.sent == r.submitted <==>
            d.value.queue.items == [] || Taken(answer, d.value.Front()) == |d.value.queue.items|)
  {
    var revents := Revents(REGISTERED, ready);
    HandleKeepsValid(c, revents, reading, answer);
    ReadKeepsValid(c, revents, reading);
    if reading.Data? {
      ReactKeepsValid(c, reading.reaction);
    }
    SentAllExactly(Apply(c, Poll(ready, reading, answer)).value);
  }

  lemma SentAllExactly(c: Conn)
    requires c.Valid()
    ensures c.sent == c.submitted <==> c.queue.items == []
  {
    assert |c.submitted| == |c.sent| + |c.queue.items|;
    assert c.sent + [] == c.sent;
  }

  /** What waits on a closed connection waits for ever. */
  lemma {:induction false} ClosedIsFinal(c: Conn, polls: seq<Step>)
    requires c.Valid() && c.closed && forall i :: 0 <= i < |polls| ==> polls[i].Poll?
    ensures Run(c, polls) == Returned(c)
    decreases |polls|
  {
    if |polls| > 0 {
      ClosedIsFinal(c, polls[1..]);
    }
  }

  /**
   So however often it is polled, what waits when the connection is told to close is sent exactly if one write
   takes it.
   */
  lemma ClosingLosesTheRest(c: Conn, polls: seq<Step>)
    requires c.Valid() && c.closing && !c.closed && |polls| > 0
    requires forall i :: 0 <= i < |polls| ==> polls[i].Poll? && !polls[i].ready.pollin
    ensures Run(c, polls).Returned?
    ensures
      var d := Run(c, polls).value;
      && d.closed && d.submitted == c.submitted
      && (d.sent == d.submitted <==> c.queue.items == [] || Taken(polls[0].answer, c.Front()) == |c.queue.items|)
  {
    PollAbortsInReactionOnly(c, polls[0].ready, polls[0].reading, polls[0].answer);
    ClosingWritesOnce(c, polls[0].ready, polls[0].reading, polls[0].answer);
    ClosedIsFinal(Apply(c, polls[0]).value, polls[1..]);
  }

  /** Two bytes sent before closing, of which the socket takes one: the other is lost. */
  lemma ClosingTruncates(b: uint8, polls: seq<Step>)
    requires forall i :: 0 <= i < |polls| ==> polls[i].Poll?
    ensures
      var r := Run(NEW, [Call(Send([b, b], 0)), Call(Close), Poll(NO_EVENTS, Eof, 1)] + polls);
      r.Returned? && r.value.closed && r.value.submitted == [b, b] && r.value.sent == [b]
  {
    var send, close, poll := Call(Send([b, b], 0)), Call(Close), Poll(NO_EVENTS, Eof, 1);
    var waiting := TwoWaiting(b);
    var closing := waiting.(closing := true);
    var r := OneByteTaken(closing, b);
    RunThree(NEW, [send, close, poll], polls, waiting, closing, r);
    ClosedIsFinal(r, polls);
  }

  ghost predicate Leads(c: Conn, step: Step, d: Conn) {
    c.Valid() && d.Valid() && Apply(c, step) == Returned(d)
  }

  lemma RunThree(c: Conn, steps: seq<Step>, more: seq<Step>, c1: Conn, c2: Conn, c3: Conn)
    requires |steps| == 3 && Leads(c, steps[0], c1) && Leads(c1, steps[1], c2) && Leads(c2, steps[2], c3)
    ensures Run(c, steps + more) == Run(c3, more)
  {
    var last := [steps[2]] + more;
    var later := [steps[1]] + last;
    RunLeads(c2, steps[2], c3, more);
    RunLeads(c1, steps[1], c2, last);
    RunLeads(c, steps[0], c1, later);
    ThreeAndMore(steps, more);
  }

  lemma RunLeads(c: Conn, step: Step, d: Conn, rest: seq<Step>)
    requires Leads(c, step, d)
    ensures Run(c, [step] + rest) == Run(d, rest)
  {
    RunFirst(c, step, rest);
  }

  lemma ThreeAndMore<T>(s: seq<T>, more: seq<T>)
    requires |s| == 3
    ensures s + more == [s[0]] + ([s[1]] + ([s[2]] + more))
  {}

  lemma TwoWaiting(b: uint8) returns (c: Conn)
    ensures c == Conn(Queue(4, 0, [b, b], 0, 2), Events(true, true), [], [b, b], false, false, 0)
    ensures Leads(NEW, Call(Send([b, b], 0)), c) && Leads(c, Call(Close), c.(closing := true))
  {
    c := Apply(NEW, Call(Send([b, b], 0))).value;
    assert [b, b][0..] == [b, b] && [] + [b, b] == [b, b];
  }

  lemma OneByteTaken(c: Conn, b: uint8) returns (r: Conn)
    requires c == Conn(Queue(4, 0, [b, b], 0, 2), Events(true, true), [], [b, b], true, false, 0)
    ensures Leads(c, Poll(NO_EVENTS, Eof, 1), r) && r.closed && r.submitted == [b, b] && r.sent == [b]
  {
    WriteKeepsValid(c, 1);
    r := Apply(c, Poll(NO_EVENTS, Eof, 1)).value;
    assert [] + [b, b][..1] == [b];
  }

  /** If the socket takes all it is offered, two write events are enough, and one if the bytes lie in one piece. */
  lemma TwoWritesAreEnough(c: Conn, answer: int)
    requires c.Valid() && c.queue.items != [] && c.queue.cap <= answer
    ensures
      var d := c.OnWriteEvent(answer);
      && (c.queue.begin + |c.queue.items| <= c.queue.cap ==> d.sent == c.submitted)
      && (d.queue.items != [] ==> d.Valid() && d.OnWriteEvent(answer).sent == c.submitted)
  {
    WriteKeepsValid(c, answer);
    var d := c.OnWriteEvent(answer);
    if d.queue.items == [] {
      assert d.sent + [] == d.sent;
    } else {
      WriteKeepsValid(d, answer);
      var e := d.OnWriteEvent(answer);
      assert e.queue.items == [] && e.sent + [] == e.sent;
    }
  }

  /** The assert is within reach: three bytes wait, one is taken, two more fill the buffer around its end. */
  lemma SendCanAbort(b: uint8)
    ensures Run(NEW, [Call(Send([b, b, b], 0)), Poll(Events(false, true), Eof, 1), Call(Send([b, b], 0))]) == Aborted
  {
    var send3, poll, send2 := Call(Send([b, b, b], 0)), Poll(Events(false, true), Eof, 1), Call(Send([b, b], 0));
    StepKeepsValid(NEW, send3);
    var c1 := Apply(NEW, send3).value;
    assert |c1.queue.items| == 3 && c1.queue.cap == 4 && c1.queue.begin == 0 && !c1.closing;
    StepKeepsValid(c1, poll);
    var c2 := Apply(c1, poll).value;
    assert |c2.queue.items| == 2 && c2.queue.cap == 4 && c2.queue.begin == 1;
    assert Apply(c2, send2) == Aborted;
    assert Run(c2, [send2]) == Aborted;
    assert [send3, poll, send2][1..] == [poll, send2] && [poll, send2][1..] == [send2];
    assert Run(c1, [poll, send2]) == Aborted;
  }

  // ----- the class -----

  class Connection {
    const mEventHandler: PollEventHandler
    const mWriteBuf: DataQueue<uint8>
    var mIsClosed: bool
    ghost var sent: seq<uint8>
    ghost var submitted: seq<uint8>
    ghost var closings: nat

    ghost predicate Sound()
      reads this, mEventHandler, mWriteBuf, mWriteBuf.data
    {
      mWriteBuf.Valid() && mIsClosed == mEventHandler.mIsClosed && View().Valid()
    }

    ghost function View(): Conn
      reads this, mEventHandler, mWriteBuf, mWriteBuf.data
    {
      Conn(mWriteBuf.View(), mEventHandler.events, sent, submitted,
           mEventHandler.mIsClosing, mEventHandler.mIsClosed, closings)
    }

    constructor (fd: int)
      ensures mEventHandler.mFd == fd && mEventHandler.mLoopIdx == -1
      ensures fresh(mEventHandler) && fresh(mWriteBuf) && fresh(mWriteBuf.data)
      ensures Sound() && View() == NEW
    {
      mEventHandler := new PollEventHandler(fd);
      mWriteBuf := new DataQueue<uint8>();
      mIsClosed, sent, submitted, closings := false, [], [], 0;
      new;
      mEventHandler.EnableRead(true);
      mEventHandler.EnableWrite(false);
    }

    method Close()
      requires Sound()
      modifies mEventHandler
      ensures Returned(View()) == old(View()).Act(Action.Close) && Sound()
    {
      mEventHandler.SetClosing(true);
    }

    method SendRawData(bytes: seq<uint8>, answer: int) returns (nsend: nat)
      modifies `sent
      ensures nsend == Taken(answer, |bytes|) && sent == old(sent) + bytes[..nsend]
    {
      nsend := if answer < 0 then 0 else if answer > |bytes| then |bytes| else answer;
      sent := sent + bytes[..nsend];
    }

    method SendBytes(bytes: seq<uint8>, answer: int) returns (r: Outcome<bool>)
      requires Sound()
      modifies this, mEventHandler, mWriteBuf, mWriteBuf.data
      ensures mWriteBuf.data == old(mWriteBuf.data) || fresh(mWriteBuf.data)
      ensures r.Aborted? <==> old(View()).SendAborts(bytes)
      ensures r.Returned? ==> View() == old(View()).SendBytes(bytes, answer) && Sound()
    {
      ghost var was := View();
      var nsend := 0;
      submitted := submitted + bytes;
      if mWriteBuf.Empty() {
        nsend := SendRawData(bytes, answer);
      }
      if |bytes| - nsend > 0 {
        r := mWriteBuf.PushBackAll(bytes[nsend..]);
        if r.Aborted? {
          return;
        }
        mEventHandler.EnableWrite(true);
      }
      SendKeepsValid(was, bytes, answer);
      r := Returned(true);
    }

    method OnWriteEvent(answer: int) returns (r: Outcome<bool>)
      requires Sound()
      modifies this, mEventHandler, mWriteBuf
      ensures mWriteBuf.data == old(mWriteBuf.data)
      ensures r.Aborted? <==> old(View()).queue.items == []
      ensures r.Returned? ==> View() == old(View()).OnWriteEvent(answer) && Sound()
    {
      if mWriteBuf.Empty() {
        return Aborted;
      }
      WriteKeepsValid(View(), answer);
      var nsend := SendFront(answer);
      r := mWriteBuf.DropFront(nsend);
      mEventHandler.EnableWrite(!mWriteBuf.Empty());
    }

    /** Offers the socket the bytes at the front that lie in one piece. */
    method SendFront(answer: int) returns (nsend: nat)
      requires mWriteBuf.Valid() && mWriteBuf.items != []
      modifies `sent
      ensures nsend == Taken(answer, View().Front()) && sent == old(sent) + mWriteBuf.items[..nsend]
    {
      var n := if mWriteBuf.Folded() then mWriteBuf.FoldedHead() else mWriteBuf.Size();
      var front := mWriteBuf.data[mWriteBuf.mBegin..mWriteBuf.mBegin + n];
      assert front == mWriteBuf.items[..n];
      nsend := SendRawData(front, answer);
      assert front[..nsend] == mWriteBuf.items[..nsend];
    }

    /** The message callback, as the list of what it does. */
    method OnMessage(reaction: seq<Action>) returns (r: Outcome<bool>)
      requires Sound()
      modifies this, mEventHandler, mWriteBuf, mWriteBuf.data
      ensures mWriteBuf.data == old(mWriteBuf.data) || fresh(mWriteBuf.data)
      ensures r.Aborted? <==> old(View()).React(reaction).Aborted?
      ensures r.Returned? ==> Returned(View()) == old(View()).React(reaction) && Sound()
    {
      var i := 0;
      while i < |reaction|
        invariant i <= |reaction| && Sound()
        invariant mWriteBuf.data == old(mWriteBuf.data) || fresh(mWriteBuf.data)
        invariant old(View()).React(reaction) == View().React(reaction[i..])
      {
        assert reaction[i..][1..] == reaction[i + 1..];
        match reaction[i] {
          case Close =>
            Close();
          case Send(bytes, answer) =>
            r := SendBytes(bytes, answer);
            if r.Aborted? {
              return;
            }
        }
        i := i + 1;
      }
      return Returned(true);
    }

    method OnReadEvent(reading: Reading) returns (r: Outcome<bool>)
      requires Sound()
      modifies this, mEventHandler, mWriteBuf, mWriteBuf.data
      ensures mWriteBuf.data == old(mWriteBuf.data) || fresh(mWriteBuf.data)
      ensures r.Aborted? <==> old(View()).OnReadEvent(reading).Aborted?
      ensures r.Returned? ==> Returned(View()) == old(View()).OnReadEvent(reading) && Sound()
    {
      match reading
      case Eof =>
        Close();
        return Returned(true);
      case Data(reaction) =>
        r := OnMessage(reaction);
    }

    /** `OnClosingEvent`; the user's close callback is counted. */
    method OnClosingEvent()
      modifies `closings, `mIsClosed
      ensures closings == old(closings) + 1 && mIsClosed
    {
      closings := closings + 1;
      mIsClosed := true;
    }

    /** `PollEventHandler::HandleEvents` with the callbacks that a connection sets. */
    method HandleEvents(revents: Events, reading: Reading, answer: int) returns (r: Outcome<bool>)
      requires Sound()
      modifies this, mEventHandler, mWriteBuf, mWriteBuf.data
      ensures mWriteBuf.data == old(mWriteBuf.data) || fresh(mWriteBuf.data)
      ensures r.Aborted? <==> AfterEvents(old(View()), revents, reading, answer).Aborted?
      ensures r.Returned? ==> Returned(View()) == AfterEvents(old(View()), revents, reading, answer) && Sound()
    {
      mEventHandler.revents := revents;
      var told := mEventHandler.revents;
      r := HandleRead(told, reading);
      if r.Returned? {
        r := HandleWrite(told, answer);
      }
      if r.Returned? {
        HandleClosing();
      }
    }

    method HandleRead(revents: Events, reading: Reading) returns (r: Outcome<bool>)
      requires Sound()
      modifies this, mEventHandler, mWriteBuf, mWriteBuf.data
      ensures mWriteBuf.data == old(mWriteBuf.data) || fresh(mWriteBuf.data)
      ensures r.Aborted? <==> AfterRead(old(View()), revents, reading).Aborted?
      ensures r.Returned? ==> Returned(View()) == AfterRead(old(View()), revents, reading) && Sound()
    {
      r := Returned(true);
      if revents.pollin {
        r := OnReadEvent(reading);
      }
    }

    method HandleWrite(revents: Events, answer: int) returns (r: Outcome<bool>)
      requires Sound()
      modifies this, mEventHandler, mWriteBuf
      ensures mWriteBuf.data == old(mWriteBuf.data)
      ensures r.Aborted? <==> old(View()).Flush(revents, answer).Aborted?
      ensures r.Returned? ==> Returned(View()) == old(View()).Flush(revents, answer) && Sound()
    {
      r := Returned(true);
      if mEventHandler.events.pollout || revents.pollout {
        r := OnWriteEvent(answer);
      }
    }

    method HandleClosing()
      requires Sound()
      modifies this, mEventHandler
      ensures View() == old(View()).OnClosing() && Sound()
    {
      if mEventHandler.mIsClosing && !mEventHandler.mIsClosed {
        OnClosingEvent();
        mEventHandler.mIsClosed := true;
      }
    }
  }
}
