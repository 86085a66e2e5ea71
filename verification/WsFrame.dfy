/**
 WebSocket frames as section 5.2 of RFC 6455 lays them out, and the masking of section 5.3.
 This module is the standard's side of the story: nothing in it follows the C++ code.
 */
module WsFrame {
  import opened Bytes

  const OPCODE_CONT: uint8 := 0
  const OPCODE_TEXT: uint8 := 1
  const OPCODE_BINARY: uint8 := 2
  const OPCODE_CLOSE: uint8 := 8
  const OPCODE_PING: uint8 := 9
  const OPCODE_PONG: uint8 := 10

  const LONG_LIMIT: nat := 0x8000_0000_0000_0000

  function Opcode(b0: uint8): uint8 { b0 % 16 }
  function Reserved(b0: uint8): uint8 { b0 / 16 % 8 }
  function FinBit(b0: uint8): uint8 { b0 / 128 }
  function MaskBit(b1: uint8): uint8 { b1 / 128 }
  function Length7(b1: uint8): uint8 { b1 % 128 }

  function Head0(fin: bool, opcode: uint8): uint8
    requires opcode < 16
  {
    (if fin then 128 else 0) + opcode
  }

  function Head1(masked: bool, code: uint8): uint8
    requires code < 128
  {
    (if masked then 128 else 0) + code
  }

  predicate KnownOpcode(op: uint8) {
    || op == OPCODE_CONT || op == OPCODE_TEXT || op == OPCODE_BINARY
    || op == OPCODE_CLOSE || op == OPCODE_PING || op == OPCODE_PONG
  }

  /** The three encodings of a payload length. */
  datatype LengthForm = Short | Medium | Long

  function MinimalForm(n: nat): LengthForm {
    if n < 126 then Short else if n < 0x1_0000 then Medium else Long
  }

  lemma KnownOpcodes(op: uint8)
    ensures KnownOpcode(op) <==> op == 0 || op == 1 || op == 2 || op == 8 || op == 9 || op == 10
  {}

  /** Section 5.2: the minimal number of bytes is used to encode the length. */
  lemma MinimalFormIsMinimal(n: nat, form: LengthForm)
    requires Fits(n, form)
    ensures Fits(n, MinimalForm(n)) && ExtendedSize(MinimalForm(n)) <= ExtendedSize(form)
    ensures ExtendedSize(form) == ExtendedSize(MinimalForm(n)) ==> form == MinimalForm(n)
  {}

  predicate Fits(n: nat, form: LengthForm) {
    match form
    case Short => n < 126
    case Medium => n < 0x1_0000
    case Long => n < LONG_LIMIT
  }

  function ExtendedSize(form: LengthForm): nat {
    match form
    case Short => 0
    case Medium => 2
    case Long => 8
  }

  /** The bytes of the extended length. */
  function LengthField(n: nat, form: LengthForm): (s: seq<uint8>)
    requires n < 0x1_0000_0000_0000_0000 && (form.Medium? ==> n < 0x1_0000)
    ensures |s| == ExtendedSize(form)
  {
    match form
    case Short => []
    case Medium => Word16(n)
    case Long => Word64(n)
  }

  /** The seven-bit length field. */
  function LengthCode(n: nat, form: LengthForm): (b: uint8)
    requires form.Short? ==> n < 126
    ensures b < 128
  {
    match form
    case Short => n
    case Medium => 126
    case Long => 127
  }

  /** A masking key. */
  type Key = k: seq<uint8> | |k| == 4 witness [0, 0, 0, 0]

  datatype Frame = Frame(fin: bool, opcode: uint8, form: LengthForm, mask: Option<Key>, payload: seq<uint8>)
  {
    predicate Valid() {
      && opcode < 16
      && Fits(|payload|, form)
    }

    /** A masked frame whose opcode is known, in any length form that can hold the length. */
    predicate FromClient() {
      Valid() && mask.Some? && KnownOpcode(opcode)
    }

    /**
     What a client may send: besides the mask (section 5.1), the length takes the minimal number of bytes (section
     5.2), and a control frame is not fragmented and has 125 bytes at most (section 5.5).
     */
    predicate Lawful() {
      FromClient() && form == MinimalForm(|payload|) && (opcode >= 8 ==> fin && |payload| <= 125)
    }
  }

  /** Section 5.3: byte i is combined with byte i mod 4 of the masking key; its own inverse. */
  function ApplyMask(data: seq<uint8>, key: Key): (r: seq<uint8>)
    ensures |r| == |data|
    decreases |data|
  {
    var n := |data| - 1;
    if |data| == 0 then [] else ApplyMask(data[..n], key) + [Xor(data[n], key[n % 4])]
  }

  lemma {:induction false} MaskedAt(data: seq<uint8>, key: Key, i: nat)
    requires i < |data|
    ensures ApplyMask(data, key)[i] == Xor(data[i], key[i % 4])
    decreases |data|
  {
    var n := |data| - 1;
    if i < n {
      MaskedAt(data[..n], key, i);
    }
  }

  lemma MaskTwice(data: seq<uint8>, key: Key)
    ensures ApplyMask(ApplyMask(data, key), key) == data
  {
    forall i | 0 <= i < |data| ensures ApplyMask(ApplyMask(data, key), key)[i] == data[i] {
      MaskedAt(data, key, i);
      MaskedAt(ApplyMask(data, key), key, i);
      XorTwice(data[i], key[i % 4]);
    }
  }

  /** What follows the length: the masking key, if any, and the payload. */
  function BodyOf(f: Frame): seq<uint8> {
    if f.mask.Some? then f.mask.value + ApplyMask(f.payload, f.mask.value) else f.payload
  }

  /** The first two bytes. */
  function HeadOf(f: Frame): (h: seq<uint8>)
    requires f.Valid()
    ensures |h| == 2
  {
    [Head0(f.fin, f.opcode), Head1(f.mask.Some?, LengthCode(|f.payload|, f.form))]
  }

  function Encode(f: Frame): (bytes: seq<uint8>)
    requires f.Valid()
  {
    match f.form
    case Short => HeadOf(f) + BodyOf(f)
    case Medium => HeadOf(f) + (Word16(|f.payload|) + BodyOf(f))
    case Long => HeadOf(f) + (Word64(|f.payload|) + BodyOf(f))
  }

  function FormOf(code: uint8): LengthForm {
    if code == 126 then Medium else if code == 127 then Long else Short
  }

  /** Reads exactly one frame; `None` if the bytes are not one whole frame with clear reserved bits. */
  function Decode(bytes: seq<uint8>): Option<Frame> {
    if |bytes| < 2 || Reserved(bytes[0]) != 0 then None else
    var code := Length7(bytes[1]);
    match FormOf(code)
    case Short => DecodeBody(bytes[0], bytes[1], Short, code, bytes[2..])
    case Medium => if |bytes| < 4 then None else DecodeBody(bytes[0], bytes[1], Medium, Number16(bytes, 2), bytes[4..])
    case Long => if |bytes| < 10 then None else DecodeBody(bytes[0], bytes[1], Long, Number64(bytes, 2), bytes[10..])
  }

  function DecodeBody(b0: uint8, b1: uint8, form: LengthForm, n: nat, rest: seq<uint8>): Option<Frame> {
    var fin := FinBit(b0) != 0;
    if !Fits(n, form) then None
    else if MaskBit(b1) != 0 then
      if |rest| != 4 + n then None
      else Some(Frame(fin, Opcode(b0), form, Some(rest[..4]), ApplyMask(rest[4..], rest[..4])))
    else
      if |rest| != n then None else Some(Frame(fin, Opcode(b0), form, None, rest))
  }

  lemma DecodeBodyOf(f: Frame)
    requires f.Valid()
    ensures DecodeBody(Head0(f.fin, f.opcode), Head1(f.mask.Some?, LengthCode(|f.payload|, f.form)),
                       f.form, |f.payload|, BodyOf(f)) == Some(f)
  {
    if f.mask.Some? {
      var key := f.mask.value;
      assert BodyOf(f)[..4] == key && BodyOf(f)[4..] == ApplyMask(f.payload, key);
      MaskTwice(f.payload, key);
    }
  }

  /** The layout loses nothing: decoding a frame's bytes gives the frame back. */
  lemma DecodeEncode(f: Frame)
    requires f.Valid()
    ensures Decode(Encode(f)) == Some(f)
  {
    EncodeFields(f, Encode(f));
    DecodeFields(f, Encode(f));
  }

  /** Where the fields of a frame stand in its bytes. */
  predicate HasFields(f: Frame, bytes: seq<uint8>)
    requires f.Valid()
  {
    && |bytes| >= 2 + ExtendedSize(f.form)
    && bytes[0] == Head0(f.fin, f.opcode)
    && bytes[1] == Head1(f.mask.Some?, LengthCode(|f.payload|, f.form))
    && match f.form {
         case Short => bytes[2..] == BodyOf(f)
         case Medium => Number16(bytes, 2) == |f.payload| && bytes[4..] == BodyOf(f)
         case Long => Number64(bytes, 2) == |f.payload| && bytes[10..] == BodyOf(f)
       }
  }

  lemma EncodeFields(f: Frame, bytes: seq<uint8>)
    requires f.Valid() && bytes == Encode(f)
    ensures HasFields(f, bytes)
  {
    match f.form
    case Short =>
    case Medium => Word16Value(|f.payload|, bytes, 2);
    case Long => Word64Value(|f.payload|, bytes, 2);
  }

  lemma DecodeFields(f: Frame, bytes: seq<uint8>)
    requires f.Valid() && HasFields(f, bytes)
    ensures Decode(bytes) == Some(f)
  {
    HeadFields(f);
    DecodeBodyOf(f);
  }

  lemma HeadFields(f: Frame)
    requires f.Valid()
    ensures var code := LengthCode(|f.payload|, f.form);
            && Reserved(Head0(f.fin, f.opcode)) == 0
            && Length7(Head1(f.mask.Some?, code)) == code
            && FormOf(code) == f.form
  {}
}
