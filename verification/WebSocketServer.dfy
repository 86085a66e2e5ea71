/**
 `WebSocketServer::OnWsMessage`: one connection's received bytes, chunk by chunk, cut into messages.
 What it does is again a left fold over bytes, so the chunks do not matter; and the one way in which it
 can fail to return is characterised exactly.
 */
module WsServer {
  import opened Bytes
  import opened Folds
  import opened WsFrame
  import opened WsParser
  import opened WsMessage

  /** A message as the callback gets it. */
  datatype Delivery = Delivery(opcode: uint8, payload: seq<uint8>)

  /**
   A session: the message being received, the callback's messages so far, and whether `Close` was called.
   `late` counts the bytes that came after a CLOSE frame.
   */
  datatype Session = Session(msg: Msg, delivered: seq<Delivery>, closing: bool, late: nat)

  const OPENED := Session(FRESH, [], false, 0)

  /** Hands over a complete message; a CLOSE stays in place. */
  function HandOver(s: Session): Session {
    if s.msg.state != NewMsg then s
    else if Opcode(s.msg.b0) == OPCODE_CLOSE then s.(closing := true)
    else s.(msg := FRESH, delivered := s.delivered + [Delivery(Opcode(s.msg.b0), s.msg.body)])
  }

  function Receive(s: Session, b: uint8): Session {
    if s.msg.state.Error? then s
    else if s.msg.Stopped() then s.(late := s.late + 1)
    else HandOver(s.(msg := Step(s.msg, b)))
  }

  function Feed(s: Session, bytes: seq<uint8>): Session {
    Fold(Receive, s, bytes)
  }

  /** What holds of a session between two chunks. */
  predicate Live(s: Session) {
    && Resting(s.msg)
    && !s.msg.state.BuiltMsg?
    && s.msg.surplus == 0
    && (s.msg.state == NewMsg ==> Opcode(s.msg.b0) == OPCODE_CLOSE)
    && (s.closing <==> s.msg.state == NewMsg)
  }

  lemma FeedAppend(s: Session, a: seq<uint8>, b: seq<uint8>)
    ensures Feed(s, a + b) == Feed(Feed(s, a), b)
  {
    FoldAppend(Receive, s, a, b);
  }

  lemma FeedNext(s: Session, bytes: seq<uint8>)
    requires |bytes| > 0
    ensures Feed(s, bytes) == Feed(Receive(s, bytes[0]), bytes[1..])
  {}

  lemma {:induction false} FeedStopped(s: Session, bytes: seq<uint8>)
    requires s.msg.Stopped()
    ensures Feed(s, bytes) == if s.msg.state == Error then s else s.(late := s.late + |bytes|)
    decreases |bytes|
  {
    if |bytes| > 0 {
      FeedNext(s, bytes);
      FeedStopped(Receive(s, bytes[0]), bytes[1..]);
    }
  }

  /** A stretch that the message takes without surplus is, for the session, that message handed over. */
  lemma {:induction false} FeedIsRun(s: Session, bytes: seq<uint8>)
    requires !s.msg.Stopped() && s.msg.surplus == 0 && Run(s.msg, bytes).surplus == 0
    ensures Feed(s, bytes) == HandOver(s.(msg := Run(s.msg, bytes)))
    decreases |bytes|
  {
    if |bytes| > 0 {
      FeedNext(s, bytes);
      RunNext(s.msg, bytes);
      var m, rest := Step(s.msg, bytes[0]), bytes[1..];
      if m.Stopped() {
        RunStopped(m, rest);
        if m.state == Error {
          FeedStopped(Receive(s, bytes[0]), rest);
        } else {
          assert m.state == NewMsg && rest == [];
          FeedNothing(Receive(s, bytes[0]));
        }
      } else {
        FeedIsRun(s.(msg := m), rest);
      }
    }
  }

  lemma FeedNothing(s: Session)
    ensures Feed(s, []) == s
  {}

  /** The handler fails to return on a chunk: bytes follow a CLOSE, or the session had already stopped. */
  predicate Stuck(s: Session, chunk: seq<uint8>) {
    |chunk| > 0 && (s.msg.Stopped() || Feed(s, chunk).late > s.late)
  }

  datatype HandlerState = Connecting | Open | Closing | Closed | HandlerNewMsg | HandlerError

  class WebSocketHandler {
    var mRcvdMsg: WebSocketMsg
    var mState: HandlerState
    var delivered: seq<Delivery>   // what the message callback was given
    var closing: bool              // whether the connection was told to close

    ghost predicate Valid()
      reads this, mRcvdMsg
    {
      mState == Open && mRcvdMsg.Laid() && Live(View())
    }

    ghost function View(): Session
      requires mRcvdMsg.Laid()
      reads this, mRcvdMsg
    {
      Session(mRcvdMsg.View(), delivered, closing, 0)
    }

    constructor ()
      ensures Valid() && View() == OPENED && fresh(mRcvdMsg)
    {
      mRcvdMsg := new WebSocketMsg();
      mState, delivered, closing := Open, [], false;
    }

    method Reset()
      modifies `mRcvdMsg, `mState
      ensures mState == Open && fresh(mRcvdMsg) && mRcvdMsg.Laid() && mRcvdMsg.View() == FRESH
    {
      mRcvdMsg := new WebSocketMsg();
      mState := Open;
    }

    /** What the loop below does with a message after `Parse`. */
    method OnParsed()
      requires mRcvdMsg.Valid()
      modifies this
      ensures mRcvdMsg == old(mRcvdMsg) || fresh(mRcvdMsg)
      ensures mRcvdMsg.Laid()
      ensures old(mState) == Open ==> mState == Open && View() == HandOver(old(View()))
    {
      var msg := mRcvdMsg;
      if msg.mState == NewMsg {
        if Opcode(msg.mContent[0]) == OPCODE_CLOSE {
          closing := true;
        } else {
          delivered := delivered + [Delivery(Opcode(msg.mContent[0]), msg.mContent[msg.mHeadLen..])];
          Reset();
        }
      } else if mState == HandlerError {
        closing := true;
      }
    }

    /** The body of the loop below: the position stays exactly where the message had stopped already. */
    method ParseNext(buf: seq<uint8>, begin: nat) returns (next: Option<nat>)
      requires Valid() && begin < |buf|
      modifies this, mRcvdMsg
      ensures Valid() && (mRcvdMsg == old(mRcvdMsg) || fresh(mRcvdMsg)) && InChunk(buf, begin, next)
      ensures next == Some(begin) <==> old(View()).msg.Stopped()
      ensures next == Some(begin) ==> View() == old(View())
      ensures next != Some(begin) ==>
        var s, taken := old(View()), Taken(buf, begin, next);
        Run(s.msg, taken).surplus == 0 && View() == HandOver(s.(msg := Run(s.msg, taken)))
      ensures next != Some(begin) && next.Some? ==> View().msg.state != Error
    {
      next := mRcvdMsg.Parse(buf, begin);
      OnParsed();
    }

    /**
     Consumes one chunk. Where `stuck` is returned the C++ loop does not return at all: it parses the same
     stopped message at the same position for ever.
     */
    method OnWsMessage(buf: seq<uint8>) returns (stuck: bool)
      requires Valid()
      modifies this, mRcvdMsg
      ensures Valid() && (mRcvdMsg == old(mRcvdMsg) || fresh(mRcvdMsg))
      ensures View() == Feed(old(View()), buf).(late := 0)
      ensures stuck <==> Stuck(old(View()), buf)
    {
      ghost var s0 := View();
      var begin: Option<nat> := Some(0);
      FoldStretch(Receive, s0, buf, 0, 0, 0);
      while begin.Some? && begin.value < |buf|
        invariant Valid() && (mRcvdMsg == old(mRcvdMsg) || fresh(mRcvdMsg))
        invariant InChunk(buf, 0, begin)
        invariant View() == Feed(s0, Taken(buf, 0, begin))
        invariant begin == Some(0) ==> View() == s0
        invariant begin.Some? && begin.value > 0 ==> View().msg.state != Error
        invariant begin.None? || begin.value > 0 ==> !s0.msg.Stopped()
        decreases if begin.Some? then |buf| - begin.value else 0
      {
        ghost var s, pos := View(), begin.value;
        var next := ParseNext(buf, begin.value);
        if next == begin {
          StuckAt(s0, s, buf, pos);
          return true;
        }
        FedTo(s0, s, View(), buf, pos, next);
        begin := next;
      }
      Finished(s0, View(), buf, begin);
      return false;
    }
  }

  lemma FedTo(s0: Session, s: Session, r: Session, buf: seq<uint8>, pos: nat, next: Option<nat>)
    requires Live(s) && pos <= |buf| && s == Feed(s0, buf[0..pos]) && InChunk(buf, pos, next)
    requires !s.msg.Stopped()
    requires Run(s.msg, Taken(buf, pos, next)).surplus == 0
    requires r == HandOver(s.(msg := Run(s.msg, Taken(buf, pos, next))))
    ensures r == Feed(s0, Taken(buf, 0, next))
  {
    var end := if next.None? then |buf| else next.value;
    FoldStretch(Receive, s0, buf, 0, pos, end);
    FeedIsRun(s, Taken(buf, pos, next));
  }

  lemma StuckAt(s0: Session, s: Session, buf: seq<uint8>, pos: nat)
    requires s0.late == 0 && pos < |buf| && s == Feed(s0, buf[0..pos]) && s.late == 0 && s.msg.Stopped()
    requires if pos == 0 then s == s0 else s.msg.state != Error
    ensures s == Feed(s0, buf).(late := 0) && Stuck(s0, buf)
  {
    FoldStretch(Receive, s0, buf, 0, pos, |buf|);
    assert buf[0..|buf|] == buf;
    FeedStopped(s, buf[pos..]);
  }

  lemma Finished(s0: Session, r: Session, buf: seq<uint8>, next: Option<nat>)
    requires InChunk(buf, 0, next) && (next.Some? ==> next.value == |buf|)
    requires r == Feed(s0, Taken(buf, 0, next)) && r.late == s0.late
    requires s0.msg.Stopped() ==> buf == []
    ensures r == Feed(s0, buf) && !Stuck(s0, buf)
  {
    assert Taken(buf, 0, next) == buf;
  }

  // ----- whole connections -----

  /**
   Chunks arrive until one of them gets stuck, or the connection has been told to close: it is closed in the turn
   that read the chunk, and nothing is read from it any more. The result is the session then, and whether it is
   stuck.
   */
  function Serve(s: Session, chunks: seq<seq<uint8>>): (Session, bool)
    decreases |chunks|
  {
    if |chunks| == 0 || s.closing then (s, false)
    else
      var r := Feed(s, chunks[0]).(late := 0);
      if Stuck(s, chunks[0]) then (r, true) else Serve(r, chunks[1..])
  }

  /** What holds of a session as seen by the next chunk: it is to be closed exactly after a CLOSE. */
  predicate Ready(s: Session) {
    s.late == 0 && ClosesAfterClose(s)
  }

  predicate ClosesAfterClose(s: Session) {
    (s.closing <==> s.msg.state == NewMsg) && !s.msg.state.BuiltMsg?
  }

  lemma {:induction false} FeedCloses(s: Session, bytes: seq<uint8>)
    requires ClosesAfterClose(s)
    ensures ClosesAfterClose(Feed(s, bytes)) && (s.closing ==> Feed(s, bytes).closing)
    decreases |bytes|
  {
    if |bytes| > 0 {
      FeedNext(s, bytes);
      FeedCloses(Receive(s, bytes[0]), bytes[1..]);
    }
  }

  /**
   Independence of chunking, for every byte stream: but for bytes behind a CLOSE, which nothing reads, the session
   depends on the concatenation only.
   */
  lemma {:induction false} ChunksDoNotMatter(s: Session, chunks: seq<seq<uint8>>)
    requires Ready(s)
    ensures Serve(s, chunks).0 == Feed(s, Concat(chunks)).(late := 0)
    decreases |chunks|
  {
    if |chunks| == 0 {
      FeedNothing(s);
    } else if s.closing {
      FeedStopped(s, Concat(chunks));
    } else {
      var first, rest := chunks[0], Concat(chunks[1..]);
      var r := Feed(s, first);
      FeedAppend(s, first, rest);
      if Stuck(s, first) {
        StuckIsStopped(s, first);
        FeedStopped(r, rest);
      } else {
        NotLate(s, first);
        FeedCloses(s, first);
        ChunksDoNotMatter(r, chunks[1..]);
      }
    }
  }

  /** Bytes are late only after a CLOSE has stopped the session. */
  lemma {:induction false} LateIsStopped(s: Session, bytes: seq<uint8>)
    ensures Feed(s, bytes).late >= s.late
    ensures Feed(s, bytes).late > s.late ==> Feed(s, bytes).msg.Stopped()
    decreases |bytes|
  {
    if |bytes| > 0 {
      FeedNext(s, bytes);
      if s.msg.Stopped() {
        FeedStopped(s, bytes);
      } else {
        LateIsStopped(Receive(s, bytes[0]), bytes[1..]);
      }
    }
  }

  lemma StuckIsStopped(s: Session, chunk: seq<uint8>)
    requires Stuck(s, chunk)
    ensures Feed(s, chunk).msg.Stopped()
  {
    if s.msg.Stopped() {
      FeedStopped(s, chunk);
    } else {
      LateIsStopped(s, chunk);
    }
  }

  lemma NotLate(s: Session, chunk: seq<uint8>)
    requires s.late == 0 && !Stuck(s, chunk)
    ensures Feed(s, chunk).late == 0
  {
    LateIsStopped(s, chunk);
    if chunk == [] {
      FeedNothing(s);
    }
  }

  /** A read that returns nothing is a closed connection, never a chunk. */
  predicate NoneEmpty(chunks: seq<seq<uint8>>) {
    forall i :: 0 <= i < |chunks| ==> chunks[i] != []
  }

  /** A chunk comes after the one in which a head was refused. */
  ghost predicate AfterRefused(s: Session, chunks: seq<seq<uint8>>, i: nat)
    requires i < |chunks|
  {
    Feed(s, Concat(chunks[..i])).msg.state == Error
  }

  /** One chunk holds the end of a CLOSE and a byte behind it. */
  ghost predicate BehindClose(s: Session, chunks: seq<seq<uint8>>, i: nat)
    requires i < |chunks|
  {
    !Feed(s, Concat(chunks[..i])).closing && Feed(s, Concat(chunks[..i + 1])).late > 0
  }

  ghost predicate StuckBy(s: Session, chunks: seq<seq<uint8>>, i: nat)
    requires i < |chunks|
  {
    AfterRefused(s, chunks, i) || BehindClose(s, chunks, i)
  }

  /**
   When the handler does not return, exactly: a byte follows a CLOSE frame in the same chunk, or a chunk follows
   the one in which a head was refused.
   */
  lemma {:induction false} StuckExactly(s: Session, chunks: seq<seq<uint8>>)
    requires Ready(s) && NoneEmpty(chunks)
    ensures Serve(s, chunks).1 <==> exists i: nat :: i < |chunks| && StuckBy(s, chunks, i)
    decreases |chunks|
  {
    if s.closing {
      NeverStuckAgain(s, chunks);
    } else if |chunks| > 0 {
      var first, tail := chunks[0], chunks[1..];
      FirstChunk(s, chunks);
      if Stuck(s, first) {
        assert StuckBy(s, chunks, 0);
      } else {
        NotLate(s, first);
        FeedCloses(s, first);
        StuckExactly(Feed(s, first), tail);
        ShiftStuck(s, chunks);
      }
    }
  }

  lemma NeverStuckAgain(s: Session, chunks: seq<seq<uint8>>)
    requires Ready(s) && s.closing
    ensures forall i: nat :: i < |chunks| ==> !StuckBy(s, chunks, i)
  {
    forall i: nat | i < |chunks| ensures !StuckBy(s, chunks, i) {
      FeedCloses(s, Concat(chunks[..i]));
    }
  }

  lemma FirstChunk(s: Session, chunks: seq<seq<uint8>>)
    requires |chunks| > 0 && chunks[0] != [] && Ready(s) && !s.closing
    ensures StuckBy(s, chunks, 0) <==> Stuck(s, chunks[0])
  {
    assert chunks[..0] == [] && chunks[..1][0] == chunks[0] && chunks[..1][1..] == [];
    assert Concat(chunks[..1]) == chunks[0];
    FeedNothing(s);
  }

  /** What the tail gets stuck by, the whole gets stuck by one place later. */
  lemma ShiftStuck(s: Session, chunks: seq<seq<uint8>>)
    requires |chunks| > 0 && !StuckBy(s, chunks, 0)
    ensures (exists i: nat :: i < |chunks| && StuckBy(s, chunks, i)) <==>
            (exists i: nat :: i < |chunks| - 1 && StuckBy(Feed(s, chunks[0]), chunks[1..], i))
  {
    var tail, r := chunks[1..], Feed(s, chunks[0]);
    forall i: nat | i < |tail| ensures StuckBy(s, chunks, i + 1) <==> StuckBy(r, tail, i) {
      ShiftPrefix(s, chunks, i);
      ShiftPrefix(s, chunks, i + 1);
    }
    if i: nat :| i < |chunks| && StuckBy(s, chunks, i) {
      assert StuckBy(s, chunks, i - 1 + 1) <==> StuckBy(r, tail, i - 1);
    }
  }

  lemma ShiftPrefix(s: Session, chunks: seq<seq<uint8>>, i: nat)
    requires i < |chunks|
    ensures Feed(s, Concat(chunks[..i + 1])) == Feed(Feed(s, chunks[0]), Concat(chunks[1..][..i]))
  {
    assert chunks[..i + 1][1..] == chunks[1..][..i];
    FeedAppend(s, chunks[0], Concat(chunks[1..][..i]));
  }

  // ----- streams of client frames -----

  predicate ClientFrames(fs: seq<Frame>) {
    forall i :: 0 <= i < |fs| ==> fs[i].FromClient()
  }

  /** CLOSE at most once, and last. */
  predicate CloseIsLast(fs: seq<Frame>) {
    forall i :: 0 <= i < |fs| - 1 ==> fs[i].opcode != OPCODE_CLOSE
  }

  function EncodeAll(fs: seq<Frame>): seq<uint8>
    requires ClientFrames(fs)
  {
    if |fs| == 0 then [] else Encode(fs[0]) + EncodeAll(fs[1..])
  }

  /** What section 5 of RFC 6455 has the receiver deliver: every frame but a CLOSE, in order, unmasked. */
  function Deliveries(fs: seq<Frame>): seq<Delivery> {
    if |fs| == 0 then []
    else (if fs[0].opcode == OPCODE_CLOSE then [] else [Delivery(fs[0].opcode, fs[0].payload)]) + Deliveries(fs[1..])
  }

  /** So every frame of another kind is delivered, whatever kind, with its opcode and its payload in clear. */
  lemma {:induction false} AllAreDelivered(fs: seq<Frame>)
    requires forall i :: 0 <= i < |fs| ==> fs[i].opcode != 8
    ensures |Deliveries(fs)| == |fs|
    ensures forall i :: 0 <= i < |fs| ==> Deliveries(fs)[i] == Delivery(fs[i].opcode, fs[i].payload)
    decreases |fs|
  {
    if |fs| > 0 {
      AllAreDelivered(fs[1..]);
    }
  }

  function AfterFrame(s: Session, f: Frame): Session
    requires f.FromClient()
  {
    if f.opcode == OPCODE_CLOSE then s.(msg := Received(f), closing := true)
    else s.(delivered := s.delivered + [Delivery(f.opcode, f.payload)])
  }

  lemma FeedFrame(s: Session, f: Frame, rest: seq<uint8>)
    requires f.FromClient() && s.msg == FRESH
    ensures Feed(s, Encode(f) + rest) == Feed(AfterFrame(s, f), rest)
  {
    RunFrame(f);
    FeedIsRun(s, Encode(f));
    FeedAppend(s, Encode(f), rest);
  }

  /** A frame that is not complete changes nothing the application can see. */
  lemma FeedPartialFrame(s: Session, f: Frame, k: nat)
    requires f.FromClient() && s.msg == FRESH && k < |Encode(f)|
    ensures var r := Feed(s, Encode(f)[..k]);
            r.delivered == s.delivered && r.closing == s.closing && r.late == s.late && !r.msg.Stopped()
  {
    RunPartialFrame(f, k);
    NoSurplus(FRESH, Encode(f)[..k]);
    FeedIsRun(s, Encode(f)[..k]);
  }

  lemma {:induction false} NoSurplus(m: Msg, bytes: seq<uint8>)
    requires m.surplus == 0 && !Run(m, bytes).Stopped()
    ensures Run(m, bytes).surplus == 0
    decreases |bytes|
  {
    if |bytes| > 0 {
      RunNext(m, bytes);
      if m.Stopped() {
        RunStopped(m, bytes);
      } else {
        NoSurplus(Step(m, bytes[0]), bytes[1..]);
      }
    }
  }

  predicate EndsWithClose(fs: seq<Frame>) {
    |fs| > 0 && fs[|fs| - 1].opcode == OPCODE_CLOSE
  }

  /** `r` is what `s` becomes with all of `fs`: exactly the frames are delivered, and a CLOSE closes. */
  predicate Served(s: Session, fs: seq<Frame>, r: Session)
    requires ClientFrames(fs)
  {
    && r.delivered == s.delivered + Deliveries(fs)
    && r.closing == (s.closing || EndsWithClose(fs))
    && r.late == s.late
    && r.msg == if EndsWithClose(fs) then Received(fs[|fs| - 1]) else s.msg
  }

  lemma {:induction false} FeedFrames(s: Session, fs: seq<Frame>)
    requires ClientFrames(fs) && CloseIsLast(fs) && s.msg == FRESH
    ensures Served(s, fs, Feed(s, EncodeAll(fs)))
    decreases |fs|
  {
    if |fs| == 0 {
      FeedNothing(s);
    } else {
      FeedFrame(s, fs[0], EncodeAll(fs[1..]));
      if |fs| == 1 {
        OneFrame(fs);
        FeedNothing(AfterFrame(s, fs[0]));
        ServedOne(s, fs);
      } else {
        TailFrames(fs);
        FeedFrames(AfterFrame(s, fs[0]), fs[1..]);
        ServedMore(s, fs, Feed(s, EncodeAll(fs)));
      }
    }
  }

  lemma ServedOne(s: Session, fs: seq<Frame>)
    requires |fs| == 1 && ClientFrames(fs)
    ensures Served(s, fs, AfterFrame(s, fs[0]))
  {
    OneFrame(fs);
  }

  lemma ServedMore(s: Session, fs: seq<Frame>, r: Session)
    requires |fs| > 1 && ClientFrames(fs) && CloseIsLast(fs) && Served(AfterFrame(s, fs[0]), fs[1..], r)
    ensures Served(s, fs, r)
  {
    TailFrames(fs);
  }

  lemma OneFrame(fs: seq<Frame>)
    requires |fs| == 1 && ClientFrames(fs)
    ensures EncodeAll(fs[1..]) == []
    ensures Deliveries(fs) == if fs[0].opcode == OPCODE_CLOSE then [] else [Delivery(fs[0].opcode, fs[0].payload)]
  {
    assert fs[1..] == [];
  }

  lemma TailFrames(fs: seq<Frame>)
    requires |fs| > 1 && ClientFrames(fs) && CloseIsLast(fs)
    ensures ClientFrames(fs[1..]) && CloseIsLast(fs[1..]) && EndsWithClose(fs[1..]) == EndsWithClose(fs)
    ensures Deliveries(fs) == [Delivery(fs[0].opcode, fs[0].payload)] + Deliveries(fs[1..])
  {}

  /** Of the first `k` bytes, `n` frames are complete: exactly they are delivered, and nothing has closed or stopped. */
  predicate UpTo(s: Session, fs: seq<Frame>, k: nat, n: nat)
    requires ClientFrames(fs) && k <= |EncodeAll(fs)|
  {
    && n < |fs| && |EncodeAll(fs[..n])| <= k < |EncodeAll(fs[..n + 1])|
    && Seen(s, Deliveries(fs[..n]), Feed(s, EncodeAll(fs)[..k]))
  }

  /** At any earlier byte: the complete frames are delivered, and nothing has closed or stopped. */
  lemma {:induction false} FeedFramesUpTo(s: Session, fs: seq<Frame>, k: nat) returns (n: nat)
    requires ClientFrames(fs) && CloseIsLast(fs) && s.msg == FRESH && k < |EncodeAll(fs)|
    ensures UpTo(s, fs, k, n)
    decreases |fs|
  {
    if k < |Encode(fs[0])| {
      n := 0;
      FeedFirstFrame(s, fs, k);
    } else {
      TailIsLonger(fs, k);
      var t := FeedFramesUpTo(AfterFrame(s, fs[0]), fs[1..], k - |Encode(fs[0])|);
      OneFrameMore(s, fs, k, t);
      n := t + 1;
    }
  }

  lemma OneFrameMore(s: Session, fs: seq<Frame>, k: nat, t: nat)
    requires ClientFrames(fs) && CloseIsLast(fs) && s.msg == FRESH && t + 1 < |fs|
    requires |Encode(fs[0])| <= k < |EncodeAll(fs)|
    requires k - |Encode(fs[0])| < |EncodeAll(fs[1..])|
    requires UpTo(AfterFrame(s, fs[0]), fs[1..], k - |Encode(fs[0])|, t)
    ensures UpTo(s, fs, k, t + 1)
  {
    FirstAndLater(fs, k);
    var later := EncodeAll(fs[1..])[..k - |Encode(fs[0])|];
    FeedFrame(s, fs[0], later);
    EncodeAllTail(fs, t);
    EncodeAllTail(fs, t + 1);
    SeenMore(s, fs, t, Feed(s, Encode(fs[0]) + later));
  }

  lemma FeedFirstFrame(s: Session, fs: seq<Frame>, k: nat)
    requires |fs| > 0 && ClientFrames(fs) && s.msg == FRESH && k < |Encode(fs[0])| && k <= |EncodeAll(fs)|
    ensures UpTo(s, fs, k, 0)
  {
    assert EncodeAll(fs)[..k] == Encode(fs[0])[..k];
    FeedPartialFrame(s, fs[0], k);
    EncodeAllTail(fs, 0);
  }

  lemma TailIsLonger(fs: seq<Frame>, k: nat)
    requires |fs| > 0 && ClientFrames(fs) && CloseIsLast(fs) && |Encode(fs[0])| <= k < |EncodeAll(fs)|
    ensures |fs| > 1 && ClientFrames(fs[1..]) && CloseIsLast(fs[1..])
    ensures k - |Encode(fs[0])| < |EncodeAll(fs[1..])|
  {
    if |fs| == 1 {
      OneFrame(fs);
    } else {
      TailFrames(fs);
    }
  }

  lemma FirstAndLater(fs: seq<Frame>, k: nat)
    requires |fs| > 0 && ClientFrames(fs) && |Encode(fs[0])| <= k <= |EncodeAll(fs)|
    ensures EncodeAll(fs)[..k] == Encode(fs[0]) + EncodeAll(fs[1..])[..k - |Encode(fs[0])|]
  {
    SplitTake(Encode(fs[0]), EncodeAll(fs[1..]), k);
  }

  lemma SeenMore(s: Session, fs: seq<Frame>, t: nat, r: Session)
    requires |fs| > 1 && t < |fs| - 1 && ClientFrames(fs) && CloseIsLast(fs)
    requires Seen(AfterFrame(s, fs[0]), Deliveries(fs[1..][..t]), r)
    ensures Seen(s, Deliveries(fs[..t + 1]), r)
  {
    DeliveriesTail(fs, t);
  }

  lemma EncodeAllTail(fs: seq<Frame>, t: nat)
    requires t < |fs| && ClientFrames(fs)
    ensures EncodeAll(fs[..t + 1]) == Encode(fs[0]) + EncodeAll(fs[1..][..t])
    ensures EncodeAll(fs[1..][..0]) == [] && EncodeAll(fs[..0]) == []
  {
    assert fs[..t + 1][1..] == fs[1..][..t];
  }

  lemma DeliveriesTail(fs: seq<Frame>, t: nat)
    requires t < |fs| && fs[0].opcode != OPCODE_CLOSE
    ensures Deliveries(fs[..t + 1]) == [Delivery(fs[0].opcode, fs[0].payload)] + Deliveries(fs[1..][..t])
  {
    assert fs[..t + 1][1..] == fs[1..][..t];
  }

  /** `r` is still reading, and all that changed visibly since `s` is that `ds` were delivered. */
  predicate Seen(s: Session, ds: seq<Delivery>, r: Session) {
    r.delivered == s.delivered + ds && r.closing == s.closing && r.late == s.late && !r.msg.Stopped()
  }

  /**
   The main result. However the bytes of valid client frames (CLOSE at most once and last) are cut into
   chunks, every chunk is consumed, the callback gets exactly the other frames' opcodes and unmasked
   payloads in order, and the connection is told to close exactly if there is a CLOSE.
   */
  lemma FramesInAnyChunks(fs: seq<Frame>, chunks: seq<seq<uint8>>)
    requires ClientFrames(fs) && CloseIsLast(fs)
    requires Concat(chunks) == EncodeAll(fs) && NoneEmpty(chunks)
    ensures var (r, stuck) := Serve(OPENED, chunks);
            && !stuck
            && r.delivered == Deliveries(fs)
            && r.closing == EndsWithClose(fs)
  {
    FeedFrames(OPENED, fs);
    ChunksDoNotMatter(OPENED, chunks);
    StuckExactly(OPENED, chunks);
    forall i: nat | i < |chunks| ensures !StuckBy(OPENED, chunks, i) {
      ConcatPrefix(chunks, i);
      assert |Concat(chunks[..i])| < |EncodeAll(fs)|;
      var n := FeedFramesUpTo(OPENED, fs, |Concat(chunks[..i])|);
      NotLateInFrames(fs, chunks, i + 1);
    }
    assert Deliveries(fs) == [] + Deliveries(fs);
  }

  lemma NotLateInFrames(fs: seq<Frame>, chunks: seq<seq<uint8>>, i: nat)
    requires ClientFrames(fs) && CloseIsLast(fs)
    requires Concat(chunks) == EncodeAll(fs) && NoneEmpty(chunks) && i <= |chunks|
    ensures Feed(OPENED, Concat(chunks[..i])).late == 0
  {
    if i == |chunks| {
      assert chunks[..i] == chunks;
      FeedFrames(OPENED, fs);
    } else {
      ConcatPrefix(chunks, i);
      var n := FeedFramesUpTo(OPENED, fs, |Concat(chunks[..i])|);
    }
  }

  lemma {:induction false} ConcatPrefix(chunks: seq<seq<uint8>>, i: nat)
    requires i < |chunks| && NoneEmpty(chunks)
    ensures |Concat(chunks[..i])| < |Concat(chunks)|
    ensures Concat(chunks)[..|Concat(chunks[..i])|] == Concat(chunks[..i])
    decreases |chunks|
  {
    if i > 0 {
      ConcatPrefix(chunks[1..], i - 1);
      assert chunks[..i][1..] == chunks[1..][..i - 1];
    } else {
      assert chunks[..0] == [];
    }
  }

  /** And it is told to close at the CLOSE's last byte, not before. */
  lemma ClosesWithItsLastByte(fs: seq<Frame>, k: nat)
    requires ClientFrames(fs) && CloseIsLast(fs) && k < |EncodeAll(fs)|
    ensures !Feed(OPENED, EncodeAll(fs)[..k]).closing
  {
    var n := FeedFramesUpTo(OPENED, fs, k);
  }
}
