/**
 The server's side of the WebSocket handshake (`WebSocketHandler::CheckHandShake`, `AcceptHandShake`): the
 accept value that section 4.2.2 of RFC 6455 asks for, from a fixed buffer on the stack.
 */
module Handshake {
  import Base64
  import Bytes
  import Sha1
  import Sha1Base64Module

  /** A byte string, as `std::string` is one. */
  type Text = seq<bv8>

  function Ascii(s: string): (t: Text)
    ensures |t| == |s|
    ensures forall i :: 0 <= i < |s| ==> t[i] == Code(s[i])
  {
    seq(|s|, i requires 0 <= i < |s| => Code(s[i]))
  }

  function Code(c: char): bv8 {
    if c < 128 as char then c as int as bv8 else 63
  }

  /** The bytes are the characters. */
  ghost predicate Spelled(t: Text, s: string) {
    |t| == |s| && forall i :: 0 <= i < |s| ==> t[i] as int == s[i] as int
  }

  predicate FourAt(t: Text, s: string, i: nat) {
    && i + 4 <= |t| == |s|
    && t[i] as int == s[i] as int && t[i + 1] as int == s[i + 1] as int
    && t[i + 2] as int == s[i + 2] as int && t[i + 3] as int == s[i + 3] as int
  }

  lemma SpelledTwelve(t: Text, s: string)
    requires |t| == |s| == 12 && FourAt(t, s, 0) && FourAt(t, s, 4) && FourAt(t, s, 8)
    ensures Spelled(t, s)
  {}

  lemma SpelledJoin(t: Text, s: string, u: Text, r: string)
    requires Spelled(t, s) && Spelled(u, r)
    ensures Spelled(t + u, s + r)
  {}

  lemma AsciiIsSpelled(s: string)
    requires forall i :: 0 <= i < |s| ==> s[i] < 128 as char
    ensures Spelled(Ascii(s), s)
  {
    forall i | 0 <= i < |s| ensures Ascii(s)[i] as int == s[i] as int {
      CodeIsCharacter(s[i]);
    }
  }

  lemma CodeIsCharacter(c: char)
    requires c < 128 as char
    ensures Code(c) as int == c as int
  {}

  /** The GUID of section 1.3 of RFC 6455, in three pieces. */
  const GUID0: Text := [0x32, 0x35, 0x38, 0x45, 0x41, 0x46, 0x41, 0x35, 0x2D, 0x45, 0x39, 0x31]
  const GUID1: Text := [0x34, 0x2D, 0x34, 0x37, 0x44, 0x41, 0x2D, 0x39, 0x35, 0x43, 0x41, 0x2D]
  const GUID2: Text := [0x43, 0x35, 0x41, 0x42, 0x30, 0x44, 0x43, 0x38, 0x35, 0x42, 0x31, 0x31]
  const GUID_TEXT: string := "258EAFA5-E91" + "4-47DA-95CA-" + "C5AB0DC85B11"

  function Guid(): (g: Text)
    ensures |g| == 36
  {
    GUID0 + GUID1 + GUID2
  }

  lemma GuidIsText()
    ensures Spelled(Guid(), GUID_TEXT)
  {
    SpelledTwelve(GUID0, "258EAFA5-E91");
    SpelledTwelve(GUID1, "4-47DA-95CA-");
    SpelledTwelve(GUID2, "C5AB0DC85B11");
    SpelledJoin(GUID0, "258EAFA5-E91", GUID1, "4-47DA-95CA-");
    SpelledJoin(GUID0 + GUID1, "258EAFA5-E91" + "4-47DA-95CA-", GUID2, "C5AB0DC85B11");
  }

  /** Section 4.2.2, step 5.4. */
  function AcceptValue(key: Text): Text
    requires |key| + 36 < Sha1.LENGTH_LIMIT
  {
    Base64.Encode(Sha1.Digest(key + Guid()))
  }

  /** The 128 bytes of the buffer, after the key and the GUID went over what was there. */
  function Buffer(stack: Text, key: Text): (b: Text)
    requires |stack| == 128 && |key| <= 128
    ensures |b| == 128
  {
    var b := key + stack[|key|..];
    b[..24] + Guid() + b[60..]
  }

  /** The 60 bytes that are hashed are the key and the GUID exactly for keys of the length the standard prescribes. */
  lemma HashesKeyAndGuidExactly(stack: Text, key: Text)
    requires |stack| == 128 && |key| <= 128
    ensures Buffer(stack, key)[..60] == key + Guid() <==> |key| == 24
  {
    if |key| == 24 {
      var b := key + stack[|key|..];
      assert b[..24] == key;
      assert Buffer(stack, key)[..60] == key + Guid();
    }
  }

  /** Sixty bytes are padded to the whole of the buffer. */
  lemma BufferIsJustLargeEnough()
    ensures Sha1.PaddedLength(24 + 36) == 128
  {}

  type Headers = map<string, Text>

  const KEY := "Sec-WebSocket-Key"

  /** The request asks for a WebSocket of version 13. */
  predicate CheckHandShake(headers: Headers) {
    && "Upgrade" in headers && headers["Upgrade"] == Ascii("websocket")
    && "Host" in headers
    && "Sec-WebSocket-Version" in headers && headers["Sec-WebSocket-Version"] == Ascii("13")
    && KEY in headers
  }

  /** The request of section 1.2 of RFC 6455 is accepted, whatever its key and its other headers. */
  lemma SampleRequest(key: Text, others: Headers)
    ensures CheckHandShake(others + map[
      "Host" := Ascii("server.example.com"), "Upgrade" := Ascii("websocket"), "Connection" := Ascii("Upgrade"),
      "Sec-WebSocket-Key" := key, "Sec-WebSocket-Version" := Ascii("13")])
  {}

  /** Each of the conditions counts: an accepted request is refused without any one of these. */
  lemma EveryConditionCounts(headers: Headers, other: Text)
    requires CheckHandShake(headers)
    ensures !CheckHandShake(headers - {"Upgrade"}) && !CheckHandShake(headers - {"Host"})
    ensures !CheckHandShake(headers - {"Sec-WebSocket-Version"}) && !CheckHandShake(headers - {"Sec-WebSocket-Key"})
    ensures CheckHandShake(headers["Upgrade" := other]) <==> other == Ascii("websocket")
    ensures CheckHandShake(headers["Sec-WebSocket-Version" := other]) <==> other == Ascii("13")
    ensures CheckHandShake(headers["Host" := other])
  {}

  datatype Response = Response(status: nat, closing: bool, headers: Headers)

  /** `std::string(const char *)`: the bytes before the first zero byte. */
  method ReadCString(a: array<bv8>, ghost n: nat) returns (s: Text)
    requires n < a.Length && a[n] == 0 && forall i :: 0 <= i < n ==> a[i] != 0
    ensures s == a[..n]
  {
    var i := 0;
    while a[i] != 0
      invariant i <= n
      decreases n - i
    {
      i := i + 1;
    }
    s := a[..i];
  }

  class WebSocketHandler {
    var mSecKey: Text
    var mAccKey: Text
    var mHandShakeResponse: Bytes.Option<Response>

    /**
     Answers a handshake. `stack` is what the buffer on the stack held before. A key of more than 128 bytes
     runs over the buffer, which is undefined and counts as a failed assert.
     */
    method AcceptHandShake(headers: Headers, stack: Text) returns (r: Bytes.Outcome<bool>)
      requires |stack| == 128
      modifies this
      ensures r == if CheckHandShake(headers) && |headers[KEY]| <= 128 then Bytes.Returned(true) else Bytes.Aborted
      ensures r.Returned? ==>
        && KEY in headers && mSecKey == headers[KEY] && |mSecKey| <= 128
        && mAccKey == Base64.Encode(Sha1.Digest(Buffer(stack, mSecKey)[..60]))
        && (|mSecKey| == 24 ==> mAccKey == AcceptValue(mSecKey))
        && mHandShakeResponse == Bytes.Some(Response(101, false, map[
             "Connection" := Ascii("Upgrade"), "Upgrade" := Ascii("websocket"), "Sec-WebSocket-Accept" := mAccKey]))
    {
      if !CheckHandShake(headers) {
        return Bytes.Aborted;
      }
      mSecKey := headers[KEY];
      if |mSecKey| > 128 {
        return Bytes.Aborted;
      }
      mAccKey := ComputeAccept(mSecKey, stack);
      HashesKeyAndGuidExactly(stack, mSecKey);
      mHandShakeResponse := Bytes.Some(Response(101, false, map[
        "Connection" := Ascii("Upgrade"), "Upgrade" := Ascii("websocket"), "Sec-WebSocket-Accept" := mAccKey]));
      return Bytes.Returned(true);
    }

    /** The buffers of `AcceptHandShake`. */
    static method ComputeAccept(key: Text, stack: Text) returns (accept: Text)
      requires |stack| == 128 && |key| <= 128
      ensures accept == Base64.Encode(Sha1.Digest(Buffer(stack, key)[..60]))
    {
      var wskey := new bv8[128](i requires 0 <= i < 128 => stack[i]);
      forall i | 0 <= i < |key| {
        wskey[i] := key[i];
      }
      var guid := Guid();
      forall i | 0 <= i < 36 {
        wskey[24 + i] := guid[i];
      }
      assert wskey[..60] == Buffer(stack, key)[..60];
      var accept_str := new bv8[128];
      BufferIsJustLargeEnough();
      ghost var text := Base64.Encode(Sha1.Digest(wskey[..60]));
      Base64.NoZero(Sha1.Digest(wskey[..60]), 0);
      var acc_n := Sha1Base64Module.Sha1Base64(wskey, 24 + 36, accept_str);
      accept_str[acc_n] := 0;
      assert forall i :: 0 <= i < 28 ==> accept_str[..28][i] != 0;
      accept := ReadCString(accept_str, 28);
    }
  }
}
