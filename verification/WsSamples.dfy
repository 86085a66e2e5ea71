/** The examples of section 5.7 of RFC 6455: they fix the bits of the header, the byte orders and the masking. */
module WsSamples {
  import opened Bytes
  import opened WsFrame
  import opened WsServer

  /** "Hello" */
  const HELLO: seq<uint8> := [0x48, 0x65, 0x6C, 0x6C, 0x6F]
  const KEY: Key := [0x37, 0xFA, 0x21, 0x3D]
  const MASKED: seq<uint8> := [0x7F, 0x9F, 0x4D, 0x51, 0x58]

  lemma HelloBytes()
    ensures |HELLO| == 5 && HELLO[0] == 'H' as int && HELLO[1] == 'e' as int
    ensures HELLO[2] == HELLO[3] == 'l' as int && HELLO[4] == 'o' as int
  {}

  function Differ(a: nat, b: nat, p: nat): nat
    requires p > 0
  {
    if a / p % 2 == b / p % 2 then 0 else 1
  }

  lemma XorStep(a: nat, b: nat, k: nat)
    requires k > 0
    ensures XorBits(a, b, k) == 2 * XorBits(a / 2, b / 2, k - 1) + Differ(a, b, 1)
  {}

  lemma DifferHalf(a: nat, b: nat)
    ensures Differ(a / 2, b / 2, 1) == Differ(a, b, 2)
    ensures Differ(a / 2 / 2, b / 2 / 2, 1) == Differ(a, b, 4)
    ensures Differ(a / 2 / 2 / 2, b / 2 / 2 / 2, 1) == Differ(a, b, 8)
  {}

  lemma XorLow(a: nat, b: nat)
    ensures XorBits(a, b, 4) == Differ(a, b, 1) + 2 * Differ(a, b, 2) + 4 * Differ(a, b, 4) + 8 * Differ(a, b, 8)
  {
    var a1, b1 := a / 2, b / 2;
    var a2, b2 := a1 / 2, b1 / 2;
    var a3, b3 := a2 / 2, b2 / 2;
    XorStep(a, b, 4);
    XorStep(a1, b1, 3);
    XorStep(a2, b2, 2);
    XorStep(a3, b3, 1);
    assert XorBits(a3 / 2, b3 / 2, 0) == 0;
    DifferHalf(a, b);
  }

  lemma XorFour(a: nat, b: nat)
    ensures XorBits(a, b, 8) == XorBits(a, b, 4) + 16 * XorBits(a / 16, b / 16, 4)
  {
    var a1, b1 := a / 2, b / 2;
    var a2, b2 := a1 / 2, b1 / 2;
    var a3, b3 := a2 / 2, b2 / 2;
    assert a3 / 2 == a / 16 && b3 / 2 == b / 16;
    XorStep(a, b, 8);
    XorStep(a1, b1, 7);
    XorStep(a2, b2, 6);
    XorStep(a3, b3, 5);
    XorStep(a, b, 4);
    XorStep(a1, b1, 3);
    XorStep(a2, b2, 2);
    XorStep(a3, b3, 1);
    assert XorBits(a3 / 2, b3 / 2, 0) == 0;
  }

  lemma XorIs(a: uint8, b: uint8, low: nat, high: nat)
    requires low == Differ(a, b, 1) + 2 * Differ(a, b, 2) + 4 * Differ(a, b, 4) + 8 * Differ(a, b, 8)
    requires
      var c, d := a / 16, b / 16;
      high == Differ(c, d, 1) + 2 * Differ(c, d, 2) + 4 * Differ(c, d, 4) + 8 * Differ(c, d, 8)
    ensures Xor(a, b) == low + 16 * high
  {
    XorFour(a, b);
    XorLow(a, b);
    XorLow(a / 16, b / 16);
  }

  lemma HelloXors(data: seq<uint8>, key: Key)
    requires data == HELLO && key == KEY
    ensures Xor(data[0], key[0]) == 0x7F && Xor(data[1], key[1]) == 0x9F && Xor(data[2], key[2]) == 0x4D
    ensures Xor(data[3], key[3]) == 0x51 && Xor(data[4], key[0]) == 0x58
  {
    XorIs(data[0], key[0], 0xF, 0x7);
    XorIs(data[1], key[1], 0xF, 0x9);
    XorIs(data[2], key[2], 0xD, 0x4);
    XorIs(data[3], key[3], 0x1, 0x5);
    XorIs(data[4], key[0], 0x8, 0x5);
  }

  lemma MaskedByByte(data: seq<uint8>, key: Key, masked: seq<uint8>)
    requires |data| == |masked| == 5
    requires masked[0] == Xor(data[0], key[0]) && masked[1] == Xor(data[1], key[1])
    requires masked[2] == Xor(data[2], key[2]) && masked[3] == Xor(data[3], key[3]) && masked[4] == Xor(data[4], key[0])
    ensures ApplyMask(data, key) == masked
  {
    MaskedAt(data, key, 0);
    MaskedAt(data, key, 1);
    MaskedAt(data, key, 2);
    MaskedAt(data, key, 3);
    MaskedAt(data, key, 4);
    FiveEqual(ApplyMask(data, key), masked);
  }

  lemma FiveEqual(s: seq<uint8>, t: seq<uint8>)
    requires |s| == |t| == 5
    requires s[0] == t[0] && s[1] == t[1] && s[2] == t[2] && s[3] == t[3] && s[4] == t[4]
    ensures s == t
  {}

  lemma MaskedHello()
    ensures ApplyMask(HELLO, KEY) == MASKED
  {
    HelloXors(HELLO, KEY);
    MaskedByByte(HELLO, KEY, MASKED);
  }

  /** A text message without and with a mask, whole and in two fragments. */
  lemma TextSamples()
    ensures Encode(Frame(true, 1, Short, None, HELLO)) == [0x81, 0x05] + HELLO
    ensures Encode(Frame(true, 1, Short, Some(KEY), HELLO)) == [0x81, 0x85] + KEY + MASKED
    ensures Encode(Frame(false, 1, Short, None, HELLO[..3])) == [0x01, 0x03, 0x48, 0x65, 0x6C]
    ensures Encode(Frame(true, 0, Short, None, HELLO[3..])) == [0x80, 0x02, 0x6C, 0x6F]
  {
    MaskedHello();
  }

  /** A PING and the masked PONG that answers it. */
  lemma ControlSamples()
    ensures Encode(Frame(true, 9, Short, None, HELLO)) == [0x89, 0x05] + HELLO
    ensures Encode(Frame(true, 10, Short, Some(KEY), HELLO)) == [0x8A, 0x85] + KEY + MASKED
  {
    MaskedHello();
  }

  /** Binary messages of 256 bytes and of 64 kilobytes. */
  lemma BinarySamples(data: seq<uint8>)
    ensures |data| == 256 ==>
      Encode(Frame(true, 2, Medium, None, data)) == [0x82, 0x7E, 0x01, 0x00] + data
    ensures |data| == 0x1_0000 ==>
      Encode(Frame(true, 2, Long, None, data)) == [0x82, 0x7F, 0, 0, 0, 0, 0, 0x01, 0, 0] + data
  {}

  /** A server that is sent the masked text message and the masked PONG delivers both in clear, byte by byte or not. */
  lemma SamplesDelivered()
    ensures Feed(OPENED, [0x81, 0x85] + KEY + MASKED).delivered == [Delivery(1, HELLO)]
    ensures Feed(OPENED, [0x8A, 0x85] + KEY + MASKED).delivered == [Delivery(10, HELLO)]
  {
    TextSamples();
    ControlSamples();
    OneDelivered(Frame(true, 1, Short, Some(KEY), HELLO));
    OneDelivered(Frame(true, 10, Short, Some(KEY), HELLO));
  }

  lemma OneDelivered(f: Frame)
    requires f.FromClient() && f.opcode != OPCODE_CLOSE
    ensures Feed(OPENED, Encode(f)).delivered == [Delivery(f.opcode, f.payload)]
  {
    assert [f][1..] == [] && Encode(f) + [] == Encode(f);
    assert EncodeAll([f]) == Encode(f);
    OneFrame([f]);
    FeedFrames(OPENED, [f]);
    assert OPENED.delivered + Deliveries([f]) == Deliveries([f]);
  }
}
