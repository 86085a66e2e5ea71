/**
 The receiving side of a WebSocket message as a left fold over bytes, and what that fold recognises.
 The class in WebSocketMsg.dfy is proved to compute this fold, whatever chunks it is fed.
 */
module WsParser {
  import opened Bytes
  import opened Folds
  import opened WsFrame

  datatype State = ReadingHead | ReadingLen16 | ReadingLen64 | ReadingMask | ReadingPayload
                 | NewMsg | BuiltMsg | Error

  /**
   `buf` holds the bytes of an unfinished header field, `b0` the first header byte, `masked` the mask
   bit of the second, `body` the payload loaded so far: as received, in clear once the message is new.
   `surplus` counts bytes given to a message that was already complete; the class never does that.
   */
  datatype Msg = Msg(state: State, buf: seq<uint8>, b0: uint8, masked: bool, len: nat, key: Key, body: seq<uint8>,
                     surplus: nat)
  {
    /** Nothing this message is given can change it any more. */
    predicate Stopped() {
      state.NewMsg? || state.BuiltMsg? || state.Error?
    }
  }

  /** A message that has received nothing. */
  const FRESH := Msg(ReadingHead, [], 0, false, 0, [0, 0, 0, 0], [], 0)

  /** How many bytes a state collects in `buf` before it acts on them; 0 where it does not collect. */
  function Need(s: State): nat {
    match s
    case ReadingHead | ReadingLen16 => 2
    case ReadingLen64 => 8
    case ReadingMask => 4
    case ReadingPayload | NewMsg | BuiltMsg | Error => 0
  }

  /** What holds of every message between two calls of `Parse`. */
  predicate Resting(m: Msg) {
    && (if Need(m.state) > 0 then |m.buf| < Need(m.state) else m.buf == [])
    && (m.state == ReadingPayload ==> |m.body| < m.len)
    && (m.state == NewMsg || m.state == BuiltMsg ==> |m.body| == m.len)
  }

  /** `& ~(1ULL << 63)` */
  function ClearTopBit(n: nat): nat
    requires n < 2 * LONG_LIMIT
  {
    if n < LONG_LIMIT then n else n - LONG_LIMIT
  }

  /** Acts on the collected bytes of one header field. */
  function Complete(m: Msg, data: seq<uint8>): Msg
    requires |data| == Need(m.state) > 0
  {
    match m.state
    case ReadingHead =>
      if Reserved(data[0]) != 0 || !KnownOpcode(Opcode(data[0])) then
        m.(state := Error, buf := [])
      else
        var n := Length7(data[1]);
        var h := m.(b0 := data[0], masked := MaskBit(data[1]) != 0, buf := []);
        if n < 126 then h.(len := n, state := ReadingMask)
        else if n == 126 then h.(state := ReadingLen16)
        else h.(state := ReadingLen64)
    case ReadingLen16 => m.(len := Number16(data, 0), state := ReadingMask, buf := [])
    case ReadingLen64 => m.(len := ClearTopBit(Number64(data, 0)), state := ReadingMask, buf := [])
    case ReadingMask => m.(key := data, body := [], state := ReadingPayload, buf := [])
  }

  /** A complete payload is unmasked and the message handed over. */
  function Settle(m: Msg): Msg {
    if m.state == ReadingPayload && |m.body| == m.len
    then m.(body := if m.masked then ApplyMask(m.body, m.key) else m.body, state := NewMsg)
    else m
  }

  function Step(m: Msg, b: uint8): Msg {
    if m.state.Error? then m
    else if m.Stopped() then m.(surplus := m.surplus + 1)
    else if m.state == ReadingPayload then Settle(m.(body := m.body + [b]))
    else if |m.buf| + 1 == Need(m.state) then Settle(Complete(m, m.buf + [b]))
    else m.(buf := m.buf + [b])
  }

  function Run(m: Msg, bytes: seq<uint8>): Msg {
    Fold(Step, m, bytes)
  }

  lemma RunNext(m: Msg, bytes: seq<uint8>)
    requires |bytes| > 0
    ensures Run(m, bytes) == Run(Step(m, bytes[0]), bytes[1..])
  {}

  /** Every message reached from one at rest is at rest; in particular every one a connection ever holds. */
  lemma {:induction false} RunRests(m: Msg, bytes: seq<uint8>)
    requires Resting(m)
    ensures Resting(Run(m, bytes))
    decreases |bytes|
  {
    if |bytes| > 0 {
      RunNext(m, bytes);
      RunRests(Step(m, bytes[0]), bytes[1..]);
    }
  }

  lemma RunAppend(m: Msg, a: seq<uint8>, b: seq<uint8>)
    ensures Run(m, a + b) == Run(Run(m, a), b)
  {
    FoldAppend(Step, m, a, b);
  }

  lemma RunOne(m: Msg, b: uint8)
    ensures Run(m, [b]) == Step(m, b)
  {
    FoldOne(Step, m, b);
  }

  lemma {:induction false} RunStopped(m: Msg, bytes: seq<uint8>)
    requires m.Stopped()
    ensures Run(m, bytes) == if m.state == Error then m else m.(surplus := m.surplus + |bytes|)
    decreases |bytes|
  {
    if |bytes| > 0 {
      RunNext(m, bytes);
      RunStopped(Step(m, bytes[0]), bytes[1..]);
    }
  }

  lemma {:induction false} RunCollecting(m: Msg, bytes: seq<uint8>)
    requires |m.buf| + |bytes| < Need(m.state)
    ensures Run(m, bytes) == m.(buf := m.buf + bytes)
    decreases |bytes|
  {
    if |bytes| == 0 {
      assert m.buf + bytes == m.buf;
    } else {
      RunNext(m, bytes);
      RunCollecting(Step(m, bytes[0]), bytes[1..]);
      assert m.buf + [bytes[0]] + bytes[1..] == m.buf + bytes;
    }
  }

  lemma {:induction false} RunCompleting(m: Msg, bytes: seq<uint8>)
    requires |m.buf| < |m.buf| + |bytes| == Need(m.state)
    ensures Run(m, bytes) == Settle(Complete(m, m.buf + bytes))
    decreases |bytes|
  {
    if |bytes| == 1 {
      RunOne(m, bytes[0]);
      assert bytes == [bytes[0]];
    } else {
      RunNext(m, bytes);
      RunCompleting(Step(m, bytes[0]), bytes[1..]);
      assert m.buf + [bytes[0]] + bytes[1..] == m.buf + bytes;
      CompleteIgnoresBuf(m, m.buf + [bytes[0]], m.buf + bytes);
    }
  }

  lemma CompleteIgnoresBuf(m: Msg, buf: seq<uint8>, data: seq<uint8>)
    requires |data| == Need(m.state) > 0
    ensures Complete(m.(buf := buf), data) == Complete(m, data)
  {}

  lemma {:induction false} RunLoading(m: Msg, bytes: seq<uint8>)
    requires m.state == ReadingPayload && |m.body| < m.len && |m.body| + |bytes| <= m.len
    ensures Run(m, bytes) == Settle(m.(body := m.body + bytes))
    decreases |bytes|
  {
    if |bytes| == 0 {
      assert m.body + bytes == m.body;
    } else if |bytes| == 1 {
      RunOne(m, bytes[0]);
      assert bytes == [bytes[0]];
    } else {
      RunNext(m, bytes);
      RunLoading(Step(m, bytes[0]), bytes[1..]);
      assert m.body + [bytes[0]] + bytes[1..] == m.body + bytes;
    }
  }

  // ----- one `Parse` handler as a statement about the fold; `m0` began the pass, `m` the handler -----

  /** What the four collecting handlers do with `data`, which is all they need or else the whole chunk. */
  function Collect(m: Msg, data: seq<uint8>): Msg
    requires Need(m.state) > 0 && |m.buf| + |data| <= Need(m.state)
  {
    if |m.buf| + |data| < Need(m.state) then m.(buf := m.buf + data) else Complete(m, m.buf + data)
  }

  lemma CollectIsRun(m: Msg, data: seq<uint8>)
    requires Resting(m) && Need(m.state) > 0 && |m.buf| + |data| <= Need(m.state)
    ensures Run(m, data) == Settle(Collect(m, data))
  {
    if |m.buf| + |data| < Need(m.state) {
      RunCollecting(m, data);
    } else {
      RunCompleting(m, data);
    }
  }

  /** The payload handler; an empty payload is complete before it starts. */
  lemma LoadIsRun(m: Msg, data: seq<uint8>)
    requires m.state == ReadingPayload && |m.body| + |data| <= m.len
    ensures Run(Settle(m), data) == Settle(m.(body := m.body + data))
  {
    if |m.body| < m.len {
      RunLoading(m, data);
    } else {
      RunStopped(Settle(m), data);
      assert m.body + data == m.body;
    }
  }

  /** The order in which `Parse` tries the states. */
  function Stage(s: State): nat {
    match s
    case ReadingHead => 0
    case ReadingLen16 => 1
    case ReadingLen64 => 2
    case ReadingMask => 3
    case ReadingPayload => 4
    case NewMsg | BuiltMsg | Error => 5
  }

  lemma CollectAdvances(m: Msg, data: seq<uint8>)
    requires Resting(m) && Need(m.state) > 0 && |m.buf| + |data| <= Need(m.state)
    ensures var r := Collect(m, data);
            && !r.state.NewMsg? && !r.state.BuiltMsg? && Resting(Settle(r))
            && (if |m.buf| + |data| < Need(m.state) then r.state == m.state && Settle(r) == r
                else Stage(r.state) > Stage(m.state) && (r.state == Error ==> Settle(r) == r))
  {}

  // ----- what the fold recognises -----

  /** `eError` is entered on a bad head and on nothing else. */
  predicate BadHead(bytes: seq<uint8>) {
    |bytes| >= 2 && (Reserved(bytes[0]) != 0 || !KnownOpcode(Opcode(bytes[0])))
  }

  lemma {:induction false} ErrorOnlyFromHead(m: Msg, bytes: seq<uint8>)
    requires !m.state.ReadingHead? && !m.state.Error?
    ensures !Run(m, bytes).state.ReadingHead? && !Run(m, bytes).state.Error?
    decreases |bytes|
  {
    if |bytes| > 0 {
      RunNext(m, bytes);
      ErrorOnlyFromHead(Step(m, bytes[0]), bytes[1..]);
    }
  }

  lemma ErrorIffBadHead(bytes: seq<uint8>)
    ensures Run(FRESH, bytes).state == Error <==> BadHead(bytes)
  {
    if |bytes| < 2 {
      RunCollecting(FRESH, bytes);
    } else {
      var head, rest := bytes[..2], bytes[2..];
      assert bytes == head + rest;
      RunCompleting(FRESH, head);
      assert FRESH.buf + head == head;
      RunAppend(FRESH, head, rest);
      if BadHead(bytes) {
        RunStopped(Run(FRESH, head), rest);
      } else {
        ErrorOnlyFromHead(Run(FRESH, head), rest);
      }
    }
  }

  /** A client frame's bytes, cut where the parser changes state. */
  function LengthBytes(f: Frame): (h: seq<uint8>)
    requires f.Valid()
    ensures |h| == ExtendedSize(f.form)
  {
    LengthField(|f.payload|, f.form)
  }

  function BodyBytes(f: Frame): seq<uint8>
    requires f.FromClient()
  {
    ApplyMask(f.payload, f.mask.value)
  }

  lemma EncodeParts(f: Frame)
    requires f.FromClient()
    ensures Encode(f) == HeadOf(f) + (LengthBytes(f) + (f.mask.value + BodyBytes(f)))
  {
    if f.form.Short? {
      assert LengthBytes(f) + BodyOf(f) == BodyOf(f);
    }
  }

  /** The messages those parts lead to, whatever length form the client chose. */
  function AfterHead(f: Frame): Msg {
    FRESH.(b0 := if f.opcode < 16 then Head0(f.fin, f.opcode) else 0, masked := true,
           len := if f.form.Short? then |f.payload| else 0,
           state := match f.form case Short => ReadingMask case Medium => ReadingLen16 case Long => ReadingLen64)
  }

  function AfterLength(f: Frame): Msg {
    AfterHead(f).(len := |f.payload|, state := ReadingMask)
  }

  function AfterKey(f: Frame): Msg
    requires f.mask.Some?
  {
    AfterLength(f).(key := f.mask.value, state := ReadingPayload)
  }

  /** The received message: the frame's payload in clear. */
  function Received(f: Frame): Msg
    requires f.mask.Some?
  {
    AfterKey(f).(state := NewMsg, body := f.payload)
  }

  lemma RunHead(f: Frame)
    requires f.FromClient()
    ensures Run(FRESH, HeadOf(f)) == AfterHead(f)
  {
    RunCompleting(FRESH, HeadOf(f));
    assert FRESH.buf + HeadOf(f) == HeadOf(f);
  }

  lemma RunLength(f: Frame)
    requires f.FromClient()
    ensures Run(AfterHead(f), LengthBytes(f)) == AfterLength(f)
  {
    var m, ext := AfterHead(f), LengthBytes(f);
    if f.form.Short? {
      assert ext == [];
    } else {
      RunCompleting(m, ext);
      assert m.buf + ext == ext;
      if f.form.Medium? {
        Word16Value(|f.payload|, ext, 0);
      } else {
        Word64Value(|f.payload|, ext, 0);
      }
    }
  }

  lemma RunKey(f: Frame)
    requires f.FromClient()
    ensures Run(AfterLength(f), f.mask.value) == Settle(AfterKey(f))
  {
    var m := AfterLength(f);
    RunCompleting(m, f.mask.value);
    assert m.buf + f.mask.value == f.mask.value;
  }

  lemma RunBody(f: Frame)
    requires f.FromClient()
    ensures Run(Settle(AfterKey(f)), BodyBytes(f)) == Received(f)
  {
    var m := AfterKey(f);
    LoadIsRun(m, BodyBytes(f));
    assert m.body + BodyBytes(f) == BodyBytes(f);
    MaskTwice(f.payload, f.mask.value);
  }

  /** Sections 5.2 and 5.3: the bytes of one client frame are one message, payload unmasked. */
  lemma RunFrame(f: Frame)
    requires f.FromClient()
    ensures Run(FRESH, Encode(f)) == Received(f)
    ensures Received(f).state == NewMsg && Received(f).body == f.payload && Opcode(Received(f).b0) == f.opcode
  {
    ReceivedOpcode(f);
    EncodeParts(f);
    RunHead(f);
    RunAppend(FRESH, HeadOf(f), LengthBytes(f) + (f.mask.value + BodyBytes(f)));
    RunAfterHead(f);
  }

  lemma ReceivedOpcode(f: Frame)
    requires f.FromClient()
    ensures Opcode(Received(f).b0) == f.opcode
  {}

  lemma RunAfterHead(f: Frame)
    requires f.FromClient()
    ensures Run(AfterHead(f), LengthBytes(f) + (f.mask.value + BodyBytes(f))) == Received(f)
  {
    RunLength(f);
    RunAppend(AfterHead(f), LengthBytes(f), f.mask.value + BodyBytes(f));
    RunKey(f);
    RunAppend(AfterLength(f), f.mask.value, BodyBytes(f));
    RunBody(f);
  }

  /** No proper prefix of a client frame completes a message or is refused. */
  lemma RunPartialFrame(f: Frame, k: nat)
    requires f.FromClient() && k < |Encode(f)|
    ensures !Run(FRESH, Encode(f)[..k]).Stopped()
  {
    EncodeParts(f);
    var head, ext, key: seq<uint8>, body := HeadOf(f), LengthBytes(f), f.mask.value, BodyBytes(f);
    if k < 2 {
      RunCollecting(FRESH, Encode(f)[..k]);
    } else {
      RunHead(f);
      SplitTake(head, ext + (key + body), k);
      RunAppend(FRESH, head, (ext + (key + body))[..k - 2]);
      if k - 2 < |ext| {
        RunCollecting(AfterHead(f), (ext + (key + body))[..k - 2]);
      } else {
        RunLength(f);
        SplitTake(ext, key + body, k - 2);
        RunAppend(AfterHead(f), ext, (key + body)[..k - 2 - |ext|]);
        RunPartialBody(f, k - 2 - |ext|);
      }
    }
  }

  lemma RunPartialBody(f: Frame, k: nat)
    requires f.FromClient() && k < 4 + |f.payload|
    ensures !Run(AfterLength(f), (f.mask.value + BodyBytes(f))[..k]).Stopped()
  {
    var key: seq<uint8>, body := f.mask.value, BodyBytes(f);
    if k < 4 {
      RunCollecting(AfterLength(f), (key + body)[..k]);
    } else {
      RunKey(f);
      SplitTake(key, body, k);
      RunAppend(AfterLength(f), key, body[..k - 4]);
      LoadIsRun(AfterKey(f), body[..k - 4]);
    }
  }

  lemma SplitTake(a: seq<uint8>, b: seq<uint8>, k: nat)
    requires |a| <= k <= |a| + |b|
    ensures (a + b)[..k] == a + b[..k - |a|]
  {}
}
