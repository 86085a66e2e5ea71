/** Reading a stream of frames as section 5.2 of RFC 6455 lays them out, and what a peer reads of what is sent. */
module WsStream {
  import opened Bytes
  import opened WsFrame
  import opened WsMessage
  import opened WsRecognition
  import opened WsServer
  import ConnectionModule
  import SendQueueModule

  /** The size of the frame at the start, as soon as its header is there. */
  function FrameSize(bytes: seq<uint8>): Option<nat> {
    if |bytes| < 2 || |bytes| < HeaderEnd(bytes) then None
    else Some(HeaderEnd(bytes) + (if MaskBit(bytes[1]) != 0 then 4 else 0) + AnnouncedLength(bytes))
  }

  /** The frames of a stream; `None` if it is not a sequence of whole frames. */
  function Frames(bytes: seq<uint8>): Option<seq<Frame>>
    decreases |bytes|
  {
    if |bytes| == 0 then Some([])
    else
      var n := FrameSize(bytes).GetOr(0);
      if n == 0 || n > |bytes| || Decode(bytes[..n]).None? || Frames(bytes[n..]).None? then None
      else Some([Decode(bytes[..n]).value] + Frames(bytes[n..]).value)
  }

  lemma SizeOfEncoded(f: Frame, rest: seq<uint8>)
    requires f.Valid()
    ensures FrameSize(Encode(f) + rest) == Some(|Encode(f)|)
  {
    var bytes := Encode(f) + rest;
    HeadFields(f);
    match f.form
    case Short =>
    case Medium =>
      assert bytes[2..4] == Word16(|f.payload|);
      Word16Value(|f.payload|, bytes, 2);
    case Long =>
      assert bytes[2..10] == Word64(|f.payload|);
      Word64Value(|f.payload|, bytes, 2);
  }

  lemma FramesNext(f: Frame, rest: seq<uint8>)
    requires f.Valid() && Frames(rest).Some?
    ensures Frames(Encode(f) + rest) == Some([f] + Frames(rest).value)
  {
    SizeOfEncoded(f, rest);
    DecodeEncode(f);
    var bytes := Encode(f) + rest;
    assert bytes[..|Encode(f)|] == Encode(f) && bytes[|Encode(f)|..] == rest;
  }

  /** A stream of frames reads back as those frames: where each one ends can be told from its header. */
  lemma {:induction false} FramesOfParts(parts: seq<seq<uint8>>, fs: seq<Frame>)
    requires |parts| == |fs| && forall i :: 0 <= i < |fs| ==> fs[i].Valid() && parts[i] == Encode(fs[i])
    ensures Frames(Concat(parts)) == Some(fs)
    decreases |parts|
  {
    if |parts| > 0 {
      FramesOfParts(parts[1..], fs[1..]);
      FramesNext(fs[0], Concat(parts[1..]));
      assert fs == [fs[0]] + fs[1..];
    }
  }

  lemma FirstFrame(bytes: seq<uint8>) returns (n: nat, f: Frame)
    requires |bytes| > 0 && Frames(bytes).Some?
    ensures 0 < n <= |bytes| && IsEncoding(f, bytes[..n])
    ensures Frames(bytes[n..]).Some? && Frames(bytes).value == [f] + Frames(bytes[n..]).value
  {
    n := FrameSize(bytes).GetOr(0);
    f := Decode(bytes[..n]).value;
    EncodeDecode(bytes[..n]);
  }

  predicate IsEncoding(f: Frame, bytes: seq<uint8>) {
    f.Valid() && Encode(f) == bytes
  }

  /** Conversely a stream is nothing but the encodings of the frames it reads as. */
  lemma {:induction false} EncodingOfFrames(bytes: seq<uint8>)
    requires Frames(bytes).Some? && ClientFrames(Frames(bytes).value)
    ensures bytes == EncodeAll(Frames(bytes).value)
    decreases |bytes|
  {
    if |bytes| > 0 {
      var n, f := FirstFrame(bytes);
      var fs, rest := Frames(bytes).value, Frames(bytes[n..]).value;
      assert fs[0] == f && fs[1..] == rest;
      EncodingOfFrames(bytes[n..]);
      assert bytes == bytes[..n] + bytes[n..];
    }
  }

  /** What the standard reads in a stream of client frames, the server delivers, in whatever chunks it comes. */
  lemma ServedAsRead(chunks: seq<seq<uint8>>)
    requires NoneEmpty(chunks) && Frames(Concat(chunks)).Some?
    requires ClientFrames(Frames(Concat(chunks)).value) && CloseIsLast(Frames(Concat(chunks)).value)
    ensures
      var fs := Frames(Concat(chunks)).value;
      var (r, stuck) := Serve(OPENED, chunks);
      !stuck && r.delivered == Deliveries(fs) && r.closing == EndsWithClose(fs)
  {
    EncodingOfFrames(Concat(chunks));
    FramesInAnyChunks(Frames(Concat(chunks)).value, chunks);
  }

  // ----- what is sent -----

  /** What a message built for sending is to the standard. */
  function BuiltFrame(m: Delivery): Frame {
    Frame(true, m.opcode % 16, MinimalForm(|m.payload|), None, m.payload)
  }

  function BuiltFrames(ms: seq<Delivery>): (fs: seq<Frame>)
    ensures |fs| == |ms|
    ensures forall i :: 0 <= i < |ms| ==> fs[i] == BuiltFrame(ms[i])
  {
    if |ms| == 0 then [] else [BuiltFrame(ms[0])] + BuiltFrames(ms[1..])
  }

  lemma BuiltIsFrame(m: Delivery)
    requires |m.payload| < LONG_LIMIT
    ensures BuiltFrame(m).Valid() && BuiltContent(m.opcode, m.payload) == Encode(BuiltFrame(m))
  {}

  /** The messages in the queue were built from `ms`. */
  predicate BuiltFrom(pushed: seq<SendQueueModule.Msg>, ms: seq<Delivery>) {
    && |pushed| == |ms|
    && forall i :: 0 <= i < |ms| ==>
         |ms[i].payload| < LONG_LIMIT && pushed[i] == BuiltContent(ms[i].opcode, ms[i].payload)
  }

  /**
   From building to the wire: on any connection, whatever went through it before and waits on it still, and over
   every interleaving of threads, loop, partial sends and closing, what follows is read by the standard as the
   messages that were pushed, in that order.
   */
  lemma PeerReadsWhatWasPushed(start: SendQueueModule.Sender, events: seq<SendQueueModule.Event>, ms: seq<Delivery>)
    requires start.Valid() && start.q.pushed == []
    requires
      var r := SendQueueModule.Runs(start, events);
      r.Some? && r.value.Returned? && BuiltFrom(r.value.value.q.pushed, ms)
    ensures
      var t := SendQueueModule.Runs(start, events).value.value;
      var bytes := t.con.sent + t.con.queue.items + Concat(t.q.queue);
      && start.con.submitted <= bytes
      && Frames(bytes[|start.con.submitted|..]) == Some(BuiltFrames(ms))
  {
    var t := SendQueueModule.Runs(start, events).value.value;
    SendQueueModule.EveryByteInPushOrder(start, events);
    assert start.q.popped == [] && start.con.submitted == start.before + [];
    var fs := BuiltFrames(ms);
    forall i | 0 <= i < |fs| ensures fs[i].Valid() && t.q.pushed[i] == Encode(fs[i]) {
      BuiltIsFrame(ms[i]);
    }
    FramesOfParts(t.q.pushed, fs);
    assert (start.before + Concat(t.q.pushed))[|start.before|..] == Concat(t.q.pushed);
  }

  /** Such a start: a session on a connection that has sent its handshake, with any counter left from before. */
  lemma SessionsStartSo(con: ConnectionModule.Conn, counter: nat)
    requires con.Valid() && !con.closed
    ensures SendQueueModule.Sender(con.submitted, SendQueueModule.Quiet(counter), con).Valid()
  {
    assert con.submitted + [] == con.submitted;
  }
}
