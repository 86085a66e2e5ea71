/**
 Exactly which byte strings the parser takes for one message: those that sections 5.1, 5.2 and 5.5 of RFC 6455
 allow as a frame from a client, apart from the liberties that the code takes.
 */
module WsRecognition {
  import opened Bytes
  import opened Folds
  import opened WsFrame
  import opened WsParser

  /** One whole message and not a byte more. */
  predicate IsOneMessage(bytes: seq<uint8>) {
    Run(FRESH, bytes).state == NewMsg && Run(FRESH, bytes).surplus == 0
  }

  lemma CutAt(m: Msg, bytes: seq<uint8>, k: nat)
    requires k <= |bytes|
    ensures Run(m, bytes) == Run(Run(m, bytes[..k]), bytes[k..])
  {
    assert bytes == bytes[..k] + bytes[k..];
    RunAppend(m, bytes[..k], bytes[k..]);
  }

  /** A message that gets past a header field had all of its bytes. */
  lemma FieldIsThere(m: Msg, bytes: seq<uint8>)
    requires m.buf == [] && Need(m.state) > 0 && Run(m, bytes).state == NewMsg
    ensures Need(m.state) <= |bytes|
    ensures Run(m, bytes) == Run(Settle(Complete(m, bytes[..Need(m.state)])), bytes[Need(m.state)..])
  {
    var k := Need(m.state);
    if |bytes| < k {
      RunCollecting(m, bytes);
    } else {
      CutAt(m, bytes, k);
      RunCompleting(m, bytes[..k]);
      assert m.buf + bytes[..k] == bytes[..k];
    }
  }

  lemma PayloadIsThere(m: Msg, bytes: seq<uint8>)
    requires m.state == ReadingPayload && m.body == [] && m.surplus == 0
    requires Run(Settle(m), bytes).state == NewMsg && Run(Settle(m), bytes).surplus == 0
    ensures |bytes| == m.len && Run(Settle(m), bytes) == Settle(m.(body := bytes))
  {
    if |bytes| <= m.len {
      LoadIsRun(m, bytes);
      assert m.body + bytes == bytes;
    } else {
      var k := m.len;
      CutAt(Settle(m), bytes, k);
      LoadIsRun(m, bytes[..k]);
      assert m.body + bytes[..k] == bytes[..k];
      RunStopped(Settle(m.(body := bytes[..k])), bytes[k..]);
    }
  }

  /** What follows the length is a key and a payload of that length. */
  lemma KeyAndPayload(m: Msg, bytes: seq<uint8>)
    requires m.state == ReadingMask && m.buf == [] && m.surplus == 0
    requires Run(m, bytes).state == NewMsg && Run(m, bytes).surplus == 0
    ensures |bytes| == 4 + m.len
    ensures Run(m, bytes).body == if m.masked then ApplyMask(bytes[4..], bytes[..4]) else bytes[4..]
    ensures Run(m, bytes).b0 == m.b0
  {
    FieldIsThere(m, bytes);
    PayloadIsThere(m.(key := bytes[..4], body := [], state := ReadingPayload, buf := []), bytes[4..]);
  }

  /** The length as the parser reads it, and where the key begins. */
  function HeaderEnd(bytes: seq<uint8>): nat
    requires |bytes| >= 2
  {
    2 + ExtendedSize(FormOf(Length7(bytes[1])))
  }

  function AnnouncedLength(bytes: seq<uint8>): nat
    requires |bytes| >= 2 && HeaderEnd(bytes) <= |bytes|
  {
    match FormOf(Length7(bytes[1]))
    case Short => Length7(bytes[1])
    case Medium => Number16(bytes, 2)
    case Long => Number64(bytes, 2)
  }

  lemma AfterTheHead(bytes: seq<uint8>)
    requires IsOneMessage(bytes)
    ensures |bytes| >= 2 && !BadHead(bytes)
    ensures Run(FRESH, bytes) == Run(Complete(FRESH, bytes[..2]), bytes[2..])
  {
    FieldIsThere(FRESH, bytes);
    if BadHead(bytes) {
      RunStopped(Settle(Complete(FRESH, bytes[..2])), bytes[2..]);
    }
  }

  lemma KeyAndPayloadAreTaken(m: Msg, bytes: seq<uint8>)
    requires m.state == ReadingMask && m.buf == [] && m.surplus == 0 && |bytes| == 4 + m.len
    ensures Run(m, bytes).state == NewMsg && Run(m, bytes).surplus == 0
  {
    FieldIsTaken(m, bytes);
    var p := m.(key := bytes[..4], body := [], state := ReadingPayload, buf := []);
    LoadIsRun(p, bytes[4..]);
    assert p.body + bytes[4..] == bytes[4..];
  }

  lemma FieldIsTaken(m: Msg, bytes: seq<uint8>)
    requires m.buf == [] && 0 < Need(m.state) <= |bytes|
    ensures Run(m, bytes) == Run(Settle(Complete(m, bytes[..Need(m.state)])), bytes[Need(m.state)..])
  {
    var k := Need(m.state);
    CutAt(m, bytes, k);
    RunCompleting(m, bytes[..k]);
    assert m.buf + bytes[..k] == bytes[..k];
  }

  /** A good head, a key, and a payload of the announced length without its top bit. */
  predicate Shaped(bytes: seq<uint8>) {
    && |bytes| >= 2 && HeaderEnd(bytes) <= |bytes| && !BadHead(bytes)
    && |bytes| == HeaderEnd(bytes) + 4 + ClearTopBit(AnnouncedLength(bytes))
  }

  /** What the message of a shaped byte string holds. */
  predicate HoldsPayload(m: Msg, bytes: seq<uint8>)
    requires Shaped(bytes)
  {
    var k := HeaderEnd(bytes);
    && m.b0 == bytes[0]
    && m.body == if MaskBit(bytes[1]) != 0 then ApplyMask(bytes[k + 4..], bytes[k..k + 4]) else bytes[k + 4..]
  }

  lemma MessageIsShaped(bytes: seq<uint8>)
    requires IsOneMessage(bytes)
    ensures Shaped(bytes) && HoldsPayload(Run(FRESH, bytes), bytes)
  {
    AfterTheHead(bytes);
    match FormOf(Length7(bytes[1]))
    case Short =>
      KeyAndPayload(Complete(FRESH, bytes[..2]), bytes[2..]);
      assert bytes[2..][..4] == bytes[2..6] && bytes[2..][4..] == bytes[6..];
    case Medium => MediumIsShaped(bytes);
    case Long => LongIsShaped(bytes);
  }

  lemma MediumIsShaped(bytes: seq<uint8>)
    requires |bytes| >= 2 && !BadHead(bytes) && FormOf(Length7(bytes[1])).Medium? && IsOneMessage(bytes)
    requires Run(FRESH, bytes) == Run(Complete(FRESH, bytes[..2]), bytes[2..])
    ensures Shaped(bytes) && HoldsPayload(Run(FRESH, bytes), bytes)
  {
    var m, rest := Complete(FRESH, bytes[..2]), bytes[2..];
    FieldIsThere(m, rest);
    KeyAndPayload(Complete(m, rest[..2]), rest[2..]);
    assert Number16(rest[..2], 0) == Number16(bytes, 2);
    assert rest[2..] == bytes[4..];
    assert bytes[4..][..4] == bytes[4..8] && bytes[4..][4..] == bytes[8..];
  }

  lemma LongIsShaped(bytes: seq<uint8>)
    requires |bytes| >= 2 && !BadHead(bytes) && FormOf(Length7(bytes[1])).Long? && IsOneMessage(bytes)
    requires Run(FRESH, bytes) == Run(Complete(FRESH, bytes[..2]), bytes[2..])
    ensures Shaped(bytes) && HoldsPayload(Run(FRESH, bytes), bytes)
  {
    var m, rest := Complete(FRESH, bytes[..2]), bytes[2..];
    FieldIsThere(m, rest);
    KeyAndPayload(Complete(m, rest[..8]), rest[8..]);
    assert Number64(rest[..8], 0) == Number64(bytes, 2);
    assert rest[8..] == bytes[10..];
    assert bytes[10..][..4] == bytes[10..14] && bytes[10..][4..] == bytes[14..];
  }

  lemma ShapedIsMessage(bytes: seq<uint8>)
    requires Shaped(bytes)
    ensures IsOneMessage(bytes)
  {
    FieldIsTaken(FRESH, bytes);
    var m, rest := Complete(FRESH, bytes[..2]), bytes[2..];
    match FormOf(Length7(bytes[1])) {
      case Short =>
        KeyAndPayloadAreTaken(m, rest);
      case Medium =>
        FieldIsTaken(m, rest);
        assert Number16(rest[..2], 0) == Number16(bytes, 2);
        KeyAndPayloadAreTaken(Complete(m, rest[..2]), rest[2..]);
      case Long =>
        FieldIsTaken(m, rest);
        assert Number64(rest[..8], 0) == Number64(bytes, 2);
        KeyAndPayloadAreTaken(Complete(m, rest[..8]), rest[8..]);
    }
  }

  /** The parser's language, by the bytes alone, and what the message holds. */
  lemma MessageShape(bytes: seq<uint8>)
    ensures IsOneMessage(bytes) <==> Shaped(bytes)
    ensures Shaped(bytes) ==> HoldsPayload(Run(FRESH, bytes), bytes)
  {
    if IsOneMessage(bytes) {
      MessageIsShaped(bytes);
    }
    if Shaped(bytes) {
      ShapedIsMessage(bytes);
    }
  }

  /** The bytes are laid out as a masked frame whose opcode is known. */
  predicate IsMaskedFrame(bytes: seq<uint8>) {
    Decode(bytes).Some? && Decode(bytes).value.FromClient()
  }

  /** The standard allows the bytes as one frame from a client. */
  predicate IsClientFrame(bytes: seq<uint8>) {
    Decode(bytes).Some? && Decode(bytes).value.Lawful()
  }

  /** What is not laid out so: a frame without a mask still takes four bytes for one, and a length loses its top bit. */
  predicate Misread(bytes: seq<uint8>)
    requires |bytes| >= 2 && HeaderEnd(bytes) <= |bytes|
  {
    MaskBit(bytes[1]) == 0 || AnnouncedLength(bytes) >= LONG_LIMIT
  }

  /** What is laid out so and not allowed: a longer length form than needed, and control frames of other kinds. */
  predicate Unlawful(bytes: seq<uint8>)
    requires |bytes| >= 2 && HeaderEnd(bytes) <= |bytes|
  {
    || FormOf(Length7(bytes[1])) != MinimalForm(AnnouncedLength(bytes))
    || (Opcode(bytes[0]) >= 8 && (FinBit(bytes[0]) == 0 || AnnouncedLength(bytes) > 125))
  }

  /** The liberties of the parser. */
  predicate TakesLiberty(bytes: seq<uint8>)
    requires |bytes| >= 2 && HeaderEnd(bytes) <= |bytes|
  {
    Misread(bytes) || Unlawful(bytes)
  }

  /** The fields of a frame that is laid out so, in its bytes. */
  lemma DecodedFields(bytes: seq<uint8>)
    requires Decode(bytes).Some?
    ensures |bytes| >= 2 && HeaderEnd(bytes) <= |bytes|
    ensures
      var f := Decode(bytes).value;
      && f.opcode == Opcode(bytes[0]) && f.fin == (FinBit(bytes[0]) != 0) && f.mask.Some? == (MaskBit(bytes[1]) != 0)
      && f.form == FormOf(Length7(bytes[1])) && |f.payload| == AnnouncedLength(bytes) && Fits(|f.payload|, f.form)
  {
    match FormOf(Length7(bytes[1]))
    case Short => BodyBack(bytes[0], bytes[1], Short, Length7(bytes[1]), bytes[2..]);
    case Medium => BodyBack(bytes[0], bytes[1], Medium, Number16(bytes, 2), bytes[4..]);
    case Long => BodyBack(bytes[0], bytes[1], Long, Number64(bytes, 2), bytes[10..]);
  }

  /** The masked frames are the shaped byte strings that are not misread, and the parser reads them alike. */
  lemma TakesMaskedFrames(bytes: seq<uint8>)
    ensures IsMaskedFrame(bytes) <==> Shaped(bytes) && !Misread(bytes)
    ensures IsMaskedFrame(bytes) ==> Run(FRESH, bytes) == Received(Decode(bytes).value)
  {
    if Shaped(bytes) && !Misread(bytes) {
      Decodes(bytes);
    }
    if IsMaskedFrame(bytes) {
      EncodeDecode(bytes);
      RunFrame(Decode(bytes).value);
      DecodedFields(bytes);
      MessageIsShaped(bytes);
    }
  }

  /**
   The client frames of the standard are the shaped byte strings without a liberty, and the parser reads them
   alike.
   */
  lemma TakesExactlyClientFrames(bytes: seq<uint8>)
    ensures IsClientFrame(bytes) <==> Shaped(bytes) && !TakesLiberty(bytes)
    ensures IsClientFrame(bytes) ==> Run(FRESH, bytes) == Received(Decode(bytes).value)
  {
    TakesMaskedFrames(bytes);
    if IsMaskedFrame(bytes) {
      DecodedFields(bytes);
    }
  }

  /**
   Parser and standard agree on a byte string exactly if it does not take a liberty: every string of the shape that
   does is taken for a message though it is no client frame, and nothing else is read differently.
   */
  lemma AgreesExactly(bytes: seq<uint8>)
    ensures (IsOneMessage(bytes) <==> IsClientFrame(bytes)) <==> !(Shaped(bytes) && TakesLiberty(bytes))
    ensures IsClientFrame(bytes) ==> IsOneMessage(bytes)
  {
    MessageShape(bytes);
    TakesExactlyClientFrames(bytes);
  }

  /** An empty frame without a mask, with four bytes of whatever follows, is taken for one message. */
  lemma UnmaskedIsTaken(rest: Key)
    ensures
      var bytes := [0x81, 0] + rest;
      && IsOneMessage(bytes) && Decode(bytes) == None
      && Decode(bytes[..2]) == Some(Frame(true, OPCODE_TEXT, Short, None, []))
  {
    var bytes := [0x81, 0] + rest;
    assert bytes[..2] == [0x81, 0] && bytes[..2][2..] == [];
    ShapedIsMessage(bytes);
  }

  /** So is a frame of one byte that announces 2^63 + 1. */
  lemma TopBitIsTaken(key: Key, b: uint8)
    ensures
      var bytes := [0x82, 0xFF] + Word64(LONG_LIMIT + 1) + key + [b];
      IsOneMessage(bytes) && Decode(bytes) == None
  {
    var bytes := [0x82, 0xFF] + Word64(LONG_LIMIT + 1) + key + [b];
    assert bytes[2..10] == Word64(LONG_LIMIT + 1);
    Word64Value(LONG_LIMIT + 1, bytes, 2);
    ShapedIsMessage(bytes);
  }

  /** So is a frame of one byte whose length is given in two bytes. */
  lemma LongFormIsTaken(key: Key, b: uint8)
    ensures
      var bytes := [0x81, 0xFE, 0, 1] + key + [b];
      IsOneMessage(bytes) && IsMaskedFrame(bytes) && !IsClientFrame(bytes)
  {
    var bytes := [0x81, 0xFE, 0, 1] + key + [b];
    assert AnnouncedLength(bytes) == 1;
    ShapedIsMessage(bytes);
    TakesMaskedFrames(bytes);
    TakesExactlyClientFrames(bytes);
  }

  /** So is a PING that says it is a fragment, and one of 126 bytes. */
  lemma OddControlIsTaken(key: Key, payload: seq<uint8>)
    requires |payload| == 126
    ensures
      var fragment, long := [0x09, 0x80] + key, [0x89, 0xFE, 0, 126] + key + payload;
      && IsOneMessage(fragment) && IsMaskedFrame(fragment) && !IsClientFrame(fragment)
      && IsOneMessage(long) && IsMaskedFrame(long) && !IsClientFrame(long)
  {
    var fragment, long := [0x09, 0x80] + key, [0x89, 0xFE, 0, 126] + key + payload;
    assert AnnouncedLength(fragment) == 0 && AnnouncedLength(long) == 126;
    forall bytes | bytes == fragment || bytes == long
      ensures IsOneMessage(bytes) && IsMaskedFrame(bytes) && !IsClientFrame(bytes)
    {
      ShapedIsMessage(bytes);
      TakesMaskedFrames(bytes);
      TakesExactlyClientFrames(bytes);
    }
  }

  lemma Decodes(bytes: seq<uint8>)
    requires |bytes| >= 2 && HeaderEnd(bytes) <= |bytes| && !Misread(bytes) && !BadHead(bytes)
    requires |bytes| == HeaderEnd(bytes) + 4 + AnnouncedLength(bytes)
    ensures Decode(bytes).Some? && Decode(bytes).value.FromClient()
  {
  }

  lemma HeadBack(b0: uint8, b1: uint8)
    ensures Reserved(b0) == 0 ==> Head0(FinBit(b0) != 0, Opcode(b0)) == b0
    ensures Head1(MaskBit(b1) != 0, Length7(b1)) == b1
  {}

  lemma BodyBack(b0: uint8, b1: uint8, form: LengthForm, n: nat, rest: seq<uint8>)
    requires DecodeBody(b0, b1, form, n, rest).Some?
    ensures
      var f := DecodeBody(b0, b1, form, n, rest).value;
      && f.Valid() && BodyOf(f) == rest && |f.payload| == n && f.form == form
      && f.fin == (FinBit(b0) != 0) && f.opcode == Opcode(b0) && f.mask.Some? == (MaskBit(b1) != 0)
  {
    if MaskBit(b1) != 0 {
      MaskTwice(rest[4..], rest[..4]);
      assert rest == rest[..4] + rest[4..];
    }
  }

  lemma EncodeShort(bytes: seq<uint8>)
    requires Decode(bytes).Some? && FormOf(Length7(bytes[1])).Short?
    ensures Decode(bytes).value.Valid() && Encode(Decode(bytes).value) == bytes
  {
    HeadBack(bytes[0], bytes[1]);
    BodyBack(bytes[0], bytes[1], Short, Length7(bytes[1]), bytes[2..]);
    assert bytes == [bytes[0], bytes[1]] + bytes[2..];
  }

  lemma EncodeMedium(bytes: seq<uint8>)
    requires Decode(bytes).Some? && FormOf(Length7(bytes[1])).Medium?
    ensures Decode(bytes).value.Valid() && Encode(Decode(bytes).value) == bytes
  {
    HeadBack(bytes[0], bytes[1]);
    BodyBack(bytes[0], bytes[1], Medium, Number16(bytes, 2), bytes[4..]);
    Word16Bytes(bytes, 2);
    assert bytes == [bytes[0], bytes[1]] + (bytes[2..4] + bytes[4..]);
  }

  lemma EncodeLong(bytes: seq<uint8>)
    requires Decode(bytes).Some? && FormOf(Length7(bytes[1])).Long?
    ensures Decode(bytes).value.Valid() && Encode(Decode(bytes).value) == bytes
  {
    HeadBack(bytes[0], bytes[1]);
    BodyBack(bytes[0], bytes[1], Long, Number64(bytes, 2), bytes[10..]);
    Word64Bytes(bytes, 2);
    assert bytes == [bytes[0], bytes[1]] + (bytes[2..10] + bytes[10..]);
  }

  /** The layout of section 5.2 is one to one: encoding a decoded frame gives its bytes back. */
  lemma EncodeDecode(bytes: seq<uint8>)
    requires Decode(bytes).Some?
    ensures Decode(bytes).value.Valid() && Encode(Decode(bytes).value) == bytes
  {
    match FormOf(Length7(bytes[1]))
    case Short => EncodeShort(bytes);
    case Medium => EncodeMedium(bytes);
    case Long => EncodeLong(bytes);
  }
}
