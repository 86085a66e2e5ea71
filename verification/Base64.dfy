/** `Base64Encode` and `Base64Decode`: bit accumulators in a 32-bit `int`, against section 4 of RFC 4648. */
module Base64 {

  const PAD: bv8 := 61

  /** Table 1 of RFC 4648. */
  function Letter(v: bv8): bv8 {
    if v < 26 then 65 + v
    else if v < 52 then 71 + v
    else if v < 62 then v - 4
    else if v == 62 then 43 else 47
  }

  const UPPER: string := "ABCDEFGHIJKLMNOPQRSTUVWXYZ"
  const LOWER: string := "abcdefghijklmnopqrstuvwxyz"
  const OTHERS: string := "0123456789+/"
  /** `_base64_` */
  const ALPHABET: string := UPPER + LOWER + OTHERS

  lemma AlphabetLength()
    ensures |ALPHABET| == 64
  {}

  lemma AlphabetIsTable(v: bv8)
    requires v < 64
    ensures |ALPHABET| == 64 && ALPHABET[v as int] as int == Letter(v) as int
  {
    AlphabetLength();
    assert v as int < 64;
  }

  /** The padding is the character that section 4 of RFC 4648 gives for it, which is no letter. */
  lemma PadIsEquals(v: bv8)
    requires v < 64
    ensures PAD as int == '=' as int && Letter(v) != PAD
  {}

  /** The table backwards; `NO_VALUE` for what is not in it. */
  const NO_VALUE: bv8 := 255

  function Value(c: bv8): bv8 {
    if 65 <= c < 91 then c - 65
    else if 97 <= c < 123 then c - 71
    else if 48 <= c < 58 then c + 4
    else if c == 43 then 62 else if c == 47 then 63 else NO_VALUE
  }

  lemma ValueOfLetter(v: bv8)
    requires v < 64
    ensures Value(Letter(v)) == v
  {}

  /** The four values of three bytes. */
  function Value0(a: bv8): bv8 { a >> 2 }
  function Value1(a: bv8, b: bv8): bv8 { ((a & 3) << 4) | (b >> 4) }
  function Value2(b: bv8, c: bv8): bv8 { ((b & 15) << 2) | (c >> 6) }
  function Value3(c: bv8): bv8 { c & 63 }

  /** The three bytes of four values. */
  function Byte0(v0: bv8, v1: bv8): bv8 { (v0 << 2) | (v1 >> 4) }
  function Byte1(v1: bv8, v2: bv8): bv8 { ((v1 & 15) << 4) | (v2 >> 2) }
  function Byte2(v2: bv8, v3: bv8): bv8 { ((v2 & 3) << 6) | v3 }

  lemma Regroup(a: bv8, b: bv8, c: bv8)
    ensures Byte0(Value0(a), Value1(a, b)) == a
    ensures Byte1(Value1(a, b), Value2(b, c)) == b
    ensures Byte2(Value2(b, c), Value3(c)) == c
    ensures Value0(a) < 64 && Value1(a, b) < 64 && Value2(b, c) < 64 && Value3(c) < 64
  {}

  /** The encoding of the bytes from index `i` on: groups of three, the last one with zero bits and padding. */
  function EncodeFrom(bs: seq<bv8>, i: nat): seq<bv8>
    requires i <= |bs|
    decreases |bs| - i
  {
    if |bs| == i then []
    else if |bs| == i + 1 then
      [Letter(Value0(bs[i])), Letter(Value1(bs[i], 0)), PAD, PAD]
    else if |bs| == i + 2 then
      [Letter(Value0(bs[i])), Letter(Value1(bs[i], bs[i + 1])), Letter(Value2(bs[i + 1], 0)), PAD]
    else
      Group(bs[i], bs[i + 1], bs[i + 2]) + EncodeFrom(bs, i + 3)
  }

  function Group(a: bv8, b: bv8, c: bv8): seq<bv8> {
    [Letter(Value0(a)), Letter(Value1(a, b)), Letter(Value2(b, c)), Letter(Value3(c))]
  }

  function Encode(bs: seq<bv8>): seq<bv8> {
    EncodeFrom(bs, 0)
  }

  lemma {:induction false} EncodedLength(bs: seq<bv8>, i: nat)
    requires i <= |bs|
    ensures |EncodeFrom(bs, i)| == (|bs| - i + 2) / 3 * 4
    decreases |bs| - i
  {
    if i + 2 < |bs| {
      EncodedLength(bs, i + 3);
    }
  }

  /** How many letters of the alphabet stand from index `i` on. */
  function LettersAt(text: seq<bv8>, i: nat): (n: nat)
    requires i <= |text|
    ensures i + n <= |text|
    decreases |text| - i
  {
    if i == |text| || Value(text[i]) == NO_VALUE then 0 else 1 + LettersAt(text, i + 1)
  }

  /** Four letters stand for three bytes, three for two, two for one, and one for none. */
  function DecodeFrom(text: seq<bv8>, i: nat): seq<bv8>
    requires i <= |text|
    decreases |text| - i
  {
    var n := LettersAt(text, i);
    if n < 2 then []
    else if n == 2 then [First(text, i)]
    else if n == 3 then [First(text, i), Second(text, i)]
    else [First(text, i), Second(text, i), Third(text, i)] + DecodeFrom(text, i + 4)
  }

  function First(text: seq<bv8>, i: nat): bv8
    requires i + 1 < |text|
  {
    Byte0(Value(text[i]), Value(text[i + 1]))
  }

  function Second(text: seq<bv8>, i: nat): bv8
    requires i + 2 < |text|
  {
    Byte1(Value(text[i + 1]), Value(text[i + 2]))
  }

  function Third(text: seq<bv8>, i: nat): bv8
    requires i + 3 < |text|
  {
    Byte2(Value(text[i + 2]), Value(text[i + 3]))
  }

  function Decode(text: seq<bv8>): seq<bv8> {
    DecodeFrom(text, 0)
  }

  // ----- the round trip -----

  lemma FourLetters(text: seq<bv8>, j: nat)
    requires j + 4 <= |text|
    requires Value(text[j]) != NO_VALUE && Value(text[j + 1]) != NO_VALUE
    requires Value(text[j + 2]) != NO_VALUE && Value(text[j + 3]) != NO_VALUE
    ensures LettersAt(text, j) == 4 + LettersAt(text, j + 4)
  {
    assert LettersAt(text, j + 2) == 2 + LettersAt(text, j + 4);
  }

  lemma FewLetters(text: seq<bv8>, j: nat, n: nat)
    requires 2 <= n <= 3 && j + n < |text| && Value(text[j + n]) == NO_VALUE
    requires Value(text[j]) != NO_VALUE && Value(text[j + 1]) != NO_VALUE && (n == 3 ==> Value(text[j + 2]) != NO_VALUE)
    ensures LettersAt(text, j) == n
  {
    assert LettersAt(text, j + n) == 0;
    assert LettersAt(text, j + n - 1) == 1;
  }

  lemma DecodeGroup(text: seq<bv8>, j: nat, a: bv8, b: bv8, c: bv8, more: seq<bv8>)
    requires j <= |text| && text[j..] == Group(a, b, c) + more
    ensures j + 4 <= |text| && text[j + 4..] == more && DecodeFrom(text, j) == [a, b, c] + DecodeFrom(text, j + 4)
  {
    var rest := text[j..];
    assert text[j] == rest[0] && text[j + 1] == rest[1] && text[j + 2] == rest[2] && text[j + 3] == rest[3];
    assert text[j + 4..] == rest[4..];
    Regroup(a, b, c);
    ValueOfLetter(Value0(a));
    ValueOfLetter(Value1(a, b));
    ValueOfLetter(Value2(b, c));
    ValueOfLetter(Value3(c));
    FourLetters(text, j);
  }

  lemma DecodeLast(text: seq<bv8>, j: nat, a: bv8, b: bv8, n: nat)
    requires n == 1 || n == 2
    requires j <= |text| && text[j..] ==
      if n == 1 then [Letter(Value0(a)), Letter(Value1(a, 0)), PAD, PAD]
      else [Letter(Value0(a)), Letter(Value1(a, b)), Letter(Value2(b, 0)), PAD]
    ensures DecodeFrom(text, j) == if n == 1 then [a] else [a, b]
  {
    var rest := text[j..];
    assert text[j] == rest[0] && text[j + 1] == rest[1] && text[j + 2] == rest[2] && text[j + 3] == rest[3];
    var b1 := if n == 1 then 0 else b;
    Regroup(a, b1, 0);
    ValueOfLetter(Value0(a));
    ValueOfLetter(Value1(a, b1));
    ValueOfLetter(Value2(b1, 0));
    FewLetters(text, j, n + 1);
  }

  lemma {:induction false} DecodeEncodeFrom(bs: seq<bv8>, i: nat, text: seq<bv8>, j: nat)
    requires i <= |bs| && j <= |text| && text[j..] == EncodeFrom(bs, i)
    ensures DecodeFrom(text, j) == bs[i..]
    decreases |bs| - i
  {
    if |bs| == i {
      assert LettersAt(text, j) == 0;
    } else if |bs| == i + 1 {
      DecodeLast(text, j, bs[i], 0, 1);
    } else if |bs| == i + 2 {
      DecodeLast(text, j, bs[i], bs[i + 1], 2);
    } else {
      DecodeGroup(text, j, bs[i], bs[i + 1], bs[i + 2], EncodeFrom(bs, i + 3));
      DecodeEncodeFrom(bs, i + 3, text, j + 4);
    }
  }

  /** Decoding gives the bytes back, and three bytes or part of three make four letters. */
  lemma DecodeEncode(bs: seq<bv8>)
    ensures Decode(Encode(bs)) == bs
    ensures |Encode(bs)| == (|bs| + 2) / 3 * 4
  {
    assert Encode(bs)[0..] == Encode(bs) && bs[0..] == bs;
    DecodeEncodeFrom(bs, 0, Encode(bs), 0);
    EncodedLength(bs, 0);
  }

  /** How much padding a text ends in, and that there is none before. */
  ghost predicate Padded(text: seq<bv8>, n: nat) {
    && n <= 2 && |text| >= 4 && (text[|text| - 1] == PAD <==> n > 0) && (text[|text| - 2] == PAD <==> n == 2)
    && forall k :: 0 <= k < |text| - 2 ==> text[k] != PAD
  }

  lemma LettersAreNoPadding(a: bv8, b: bv8, c: bv8)
    ensures Letter(Value0(a)) != PAD && Letter(Value1(a, b)) != PAD
    ensures Letter(Value2(b, c)) != PAD && Letter(Value3(c)) != PAD
  {
    Regroup(a, b, c);
    PadIsEquals(Value0(a));
    PadIsEquals(Value1(a, b));
    PadIsEquals(Value2(b, c));
    PadIsEquals(Value3(c));
  }

  lemma PaddedBehind(g: seq<bv8>, text: seq<bv8>, n: nat)
    requires Padded(text, n) && forall k :: 0 <= k < |g| ==> g[k] != PAD
    ensures Padded(g + text, n)
  {}

  /** The text ends in padding exactly if the last group is not full: twice for one byte, once for two. */
  lemma {:induction false} PaddingTells(bs: seq<bv8>, i: nat)
    requires i < |bs|
    ensures Padded(EncodeFrom(bs, i), if (|bs| - i) % 3 == 0 then 0 else 3 - (|bs| - i) % 3)
    decreases |bs| - i
  {
    var b, c := if i + 1 < |bs| then bs[i + 1] else 0, if i + 2 < |bs| then bs[i + 2] else 0;
    LettersAreNoPadding(bs[i], b, c);
    if i + 3 < |bs| {
      PaddingTells(bs, i + 3);
      PaddedBehind(Group(bs[i], b, c), EncodeFrom(bs, i + 3), if (|bs| - i) % 3 == 0 then 0 else 3 - (|bs| - i) % 3);
    }
  }

  /** No letter is a zero byte, so the text is a C string. */
  lemma {:induction false} NoZero(bs: seq<bv8>, i: nat)
    requires i <= |bs|
    ensures forall k :: 0 <= k < |EncodeFrom(bs, i)| ==> EncodeFrom(bs, i)[k] != 0
    decreases |bs| - i
  {
    if i + 2 < |bs| {
      NoZero(bs, i + 3);
    }
  }

  // ----- the bit accumulator -----

  /** `val >> n` on a 32-bit `int` in two's complement, for the even shifts that occur; keeps the sign. */
  function Sar(val: bv32, n: nat): bv32
    requires n == 0 || n == 2 || n == 4 || n == 6
  {
    if val < 0x8000_0000 then Shr(val, n) else !Shr(!val, n)
  }

  function Shr(val: bv32, n: nat): bv32 {
    if n == 0 then val else if n == 2 then val >> 2 else if n == 4 then val >> 4 else val >> 6
  }

  /** `(val >> n) & 0x3F`. */
  function Window(val: bv32, n: nat): bv8
    requires n == 0 || n == 2 || n == 4 || n == 6
  {
    (Sar(val, n) & 0x3F) as bv8
  }

  /** `(val << 8) + c`. */
  function Take(val: bv32, c: bv8): bv32 {
    (val << 8) + (c as bv32)
  }

  /** The low byte of the accumulator. */
  predicate Holds(val: bv32, prev: bv8) {
    val & 0xFF == prev as bv32
  }

  /** Whatever has been shifted out at the top, the windows show the last two bytes. */
  lemma TakenHolds(val: bv32, c: bv8)
    ensures Holds(Take(val, c), c)
  {}

  lemma Window0(val: bv32, c: bv8)
    ensures Window(Take(val, c), 0) == Value3(c)
  {}

  lemma Window2(val: bv32, c: bv8)
    ensures Window(Take(val, c), 2) == Value0(c)
  {}

  lemma Window4(val: bv32, prev: bv8, c: bv8)
    requires Holds(val, prev)
    ensures Window(Take(val, c), 4) == Value1(prev, c)
  {}

  lemma Window6(val: bv32, prev: bv8, c: bv8)
    requires Holds(val, prev)
    ensures Window(Take(val, c), 6) == Value2(prev, c)
  {}

  // ----- the encoder -----

  /** The letters that the byte after `p` others of its group adds. */
  function Adds(p: nat, prev: bv8, c: bv8): seq<bv8> {
    if p == 0 then [Letter(Value0(c))]
    else if p == 1 then [Letter(Value1(prev, c))]
    else [Letter(Value2(prev, c)), Letter(Value3(c))]
  }

  /** The letters that the first `p` bytes of the group at `g` have added. */
  function Begun(bs: seq<bv8>, g: nat, p: nat): seq<bv8>
    requires g + p <= |bs|
  {
    if p == 0 then []
    else if p == 1 then [Letter(Value0(bs[g]))]
    else [Letter(Value0(bs[g])), Letter(Value1(bs[g], bs[g + 1]))]
  }

  /** Before byte `g + p`: whole groups in `done`, the group that `p` bytes have begun behind it. */
  ghost predicate Encoding(bs: seq<bv8>, g: nat, p: nat, done: seq<bv8>, out: seq<bv8>) {
    && g + p <= |bs| && p < 3
    && |done| % 4 == 0 && out == done + Begun(bs, g, p)
    && Encode(bs) == done + EncodeFrom(bs, g)
  }

  lemma EncodeStep(bs: seq<bv8>, g: nat, p: nat, done: seq<bv8>, out: seq<bv8>, prev: bv8)
    requires Encoding(bs, g, p, done, out) && g + p < |bs| && (p > 0 ==> prev == bs[g + p - 1])
    ensures
      var more := out + Adds(p, prev, bs[g + p]);
      if p < 2 then Encoding(bs, g, p + 1, done, more) else Encoding(bs, g + 3, 0, more, more)
  {
    if p == 2 {
      assert Begun(bs, g, 2) + Adds(2, bs[g + 1], bs[g + 2]) == Group(bs[g], bs[g + 1], bs[g + 2]);
    }
  }

  /** What is left to add at the end of the bytes. */
  lemma EncodeEnds(bs: seq<bv8>, g: nat, p: nat, done: seq<bv8>, out: seq<bv8>)
    requires Encoding(bs, g, p, done, out) && g + p == |bs|
    ensures p == 0 ==> Encode(bs) == out && |out| % 4 == 0
    ensures p == 1 ==> Encode(bs) == out + [Letter(Value1(bs[g], 0))] + [PAD, PAD] && |out| % 4 == 1
    ensures p == 2 ==> Encode(bs) == out + [Letter(Value2(bs[g + 1], 0))] + [PAD] && |out| % 4 == 2
  {
    assert done + [] == done;
  }

  /** The inner loop of the encoder, which pushes one letter or two. */
  method PushLetters(text: seq<bv8>, val: bv32, bits: int, ghost was: bv32, ghost p: nat, ghost prev: bv8, ghost c: bv8)
    returns (out: seq<bv8>, valb: int)
    requires p < 3 && bits == 2 + 2 * p && Holds(was, prev) && val == Take(was, c)
    ensures out == text + Adds(p, prev, c) && valb == if p == 2 then -6 else bits - 6
  {
    Window0(was, c);
    Window2(was, c);
    Window4(was, prev, c);
    Window6(was, prev, c);
    out, valb := text, bits;
    while valb >= 0
      invariant valb == bits || valb == bits - 6 || (p == 2 && valb == -6)
      invariant valb == bits ==> out == text
      invariant p == 2 && valb == 0 ==> out == text + [Letter(Value2(prev, c))]
      invariant valb < 0 ==> out == text + Adds(p, prev, c)
    {
      out := out + [Letter(Window(val, valb))];
      valb := valb - 6;
    }
  }

  method PushPadding(text: seq<bv8>) returns (out: seq<bv8>)
    ensures |out| == (|text| + 3) / 4 * 4 && out[..|text|] == text
    ensures forall k :: |text| <= k < |out| ==> out[k] == PAD
  {
    out := text;
    while |out| % 4 != 0
      invariant |text| <= |out| <= (|text| + 3) / 4 * 4 && out[..|text|] == text
      invariant forall k :: |text| <= k < |out| ==> out[k] == PAD
      decreases (|text| + 3) / 4 * 4 - |out|
    {
      out := out + [PAD];
    }
  }

  /** One byte: `g + p` is where it stands. */
  method TakeByte(
      c: bv8, soFar: seq<bv8>, was: bv32, bits: int,
      ghost input: seq<bv8>, ghost g: nat, ghost p: nat, ghost done: seq<bv8>, ghost prev: bv8)
    returns (out: seq<bv8>, val: bv32, valb: int)
    requires Encoding(input, g, p, done, soFar) && g + p < |input| && c == input[g + p]
    requires bits == -6 + 2 * p && Holds(was, prev) && (p > 0 ==> prev == input[g + p - 1])
    ensures if p < 2 then Encoding(input, g, p + 1, done, out) else Encoding(input, g + 3, 0, out, out)
    ensures Holds(val, c) && valb == if p == 2 then -6 else -4 + 2 * p
  {
    val := Take(was, c);
    EncodeStep(input, g, p, done, soFar, prev);
    out, valb := PushLetters(soFar, val, bits + 8, was, p, prev, c);
    TakenHolds(was, c);
  }

  method Base64Encode(input: seq<bv8>) returns (out: seq<bv8>)
    ensures out == Encode(input)
  {
    out := [];
    var val: bv32, valb := 0, -6;
    ghost var g, p, done, prev: bv8 := 0, 0, [], 0;
    var i := 0;
    while i < |input|
      invariant i == g + p && Encoding(input, g, p, done, out) && valb == -6 + 2 * p
      invariant Holds(val, prev) && (p > 0 ==> prev == input[i - 1])
    {
      var c := input[i];
      out, val, valb := TakeByte(c, out, val, valb, input, g, p, done, prev);
      g, p, done := if p == 2 then g + 3 else g, if p == 2 then 0 else p + 1, if p == 2 then out else done;
      prev := c;
      i := i + 1;
    }
    ghost var before := out;
    out := PushLast(out, val, valb, p, prev);
    ghost var text := out;
    out := PushPadding(out);
    EncodeDone(input, g, p, done, before, prev, text, out);
  }

  lemma EncodeDone(
      bs: seq<bv8>, g: nat, p: nat, done: seq<bv8>, before: seq<bv8>, prev: bv8, text: seq<bv8>, out: seq<bv8>)
    requires Encoding(bs, g, p, done, before) && g + p == |bs| && (p > 0 ==> prev == bs[g + p - 1])
    requires text == before + if p == 0 then [] else [Letter(if p == 1 then Value1(prev, 0) else Value2(prev, 0))]
    requires |out| == (|text| + 3) / 4 * 4 && out[..|text|] == text
    requires forall k :: |text| <= k < |out| ==> out[k] == PAD
    ensures out == Encode(bs)
  {
    EncodeEnds(bs, g, p, done, before);
    assert out == text + out[|text|..];
    if p == 1 {
      assert out[|text|..] == [PAD, PAD];
    } else if p == 2 {
      assert out[|text|..] == [PAD];
    }
  }

  /** The begun letter at the end. */
  method PushLast(text: seq<bv8>, val: bv32, valb: int, ghost p: nat, ghost prev: bv8) returns (out: seq<bv8>)
    requires p < 3 && valb == -6 + 2 * p && Holds(val, prev)
    ensures out == text + if p == 0 then [] else [Letter(if p == 1 then Value1(prev, 0) else Value2(prev, 0))]
  {
    out := text;
    if valb > -6 {
      LastWindows(val, prev);
      out := out + [Letter(Window(val << 8, valb + 8))];
    }
  }

  lemma LastWindows(val: bv32, prev: bv8)
    requires Holds(val, prev)
    ensures Window(val << 8, 4) == Value1(prev, 0) && Window(val << 8, 6) == Value2(prev, 0)
  {
    Window4(val, prev, 0);
    Window6(val, prev, 0);
  }

  // ----- the decoder -----

  /** `(val >> n) & 0xFF`. */
  function ByteWindow(val: bv32, n: nat): bv8
    requires n == 0 || n == 2 || n == 4
  {
    (Sar(val, n) & 0xFF) as bv8
  }

  /** `(val << 6) + T[c]`. */
  function TakeValue(val: bv32, v: bv8): bv32 {
    (val << 6) + (v as bv32)
  }

  predicate HoldsValue(val: bv32, prev: bv8) {
    val & 0x3F == prev as bv32
  }

  lemma TakenHoldsValue(val: bv32, v: bv8)
    requires v < 64
    ensures HoldsValue(TakeValue(val, v), v)
  {}

  lemma ByteWindow4(val: bv32, prev: bv8, v: bv8)
    requires HoldsValue(val, prev) && v < 64
    ensures ByteWindow(TakeValue(val, v), 4) == Byte0(prev, v)
  {}

  lemma ByteWindow2(val: bv32, prev: bv8, v: bv8)
    requires HoldsValue(val, prev) && v < 64
    ensures ByteWindow(TakeValue(val, v), 2) == Byte1(prev, v)
  {}

  lemma ByteWindow0(val: bv32, prev: bv8, v: bv8)
    requires HoldsValue(val, prev) && v < 64
    ensures ByteWindow(TakeValue(val, v), 0) == Byte2(prev, v)
  {}

  /** `Value` is the table backwards: exactly the letters have a value, and it is theirs. */
  lemma ValueIsTable(c: bv8)
    ensures Value(c) == NO_VALUE || (Value(c) < 64 && Letter(Value(c)) == c)
    ensures Value(c) == NO_VALUE <==> forall v: bv8 :: v < 64 ==> Letter(v) != c
  {
    forall v: bv8 | v < 64 ensures Value(Letter(v)) == v {
      ValueOfLetter(v);
    }
  }

  /** The bytes that the first `p` letters of the group at `g` have given. */
  function Given(text: seq<bv8>, g: nat, p: nat): seq<bv8>
    requires g + p <= |text|
  {
    if p < 2 then []
    else if p == 2 then [First(text, g)]
    else [First(text, g), Second(text, g)]
  }

  /** The byte, if any, that a letter gives after `p` others of its group, the last of them of value `prev`. */
  function Gives(p: nat, prev: bv8, v: bv8): seq<bv8> {
    if p == 0 then []
    else if p == 1 then [Byte0(prev, v)]
    else if p == 2 then [Byte1(prev, v)]
    else [Byte2(prev, v)]
  }

  /** Before letter `g + p`: what whole groups gave in `done`, what the begun one gave behind it. */
  ghost predicate Decoding(text: seq<bv8>, g: nat, p: nat, done: seq<bv8>, out: seq<bv8>) {
    && g + p <= |text| && p < 4
    && out == done + Given(text, g, p) && Decode(text) == done + DecodeFrom(text, g)
    && LettersAt(text, g) == p + LettersAt(text, g + p)
  }

  lemma DecodeStep(text: seq<bv8>, g: nat, p: nat, done: seq<bv8>, out: seq<bv8>, prev: bv8)
    requires Decoding(text, g, p, done, out) && g + p < |text| && Value(text[g + p]) != NO_VALUE
    requires p > 0 ==> prev == Value(text[g + p - 1])
    ensures
      var more := out + Gives(p, prev, Value(text[g + p]));
      if p < 3 then Decoding(text, g, p + 1, done, more) else Decoding(text, g + 4, 0, more, more)
  {
    if p == 3 {
      var more := out + Gives(p, prev, Value(text[g + p]));
      assert more == done + [First(text, g), Second(text, g), Third(text, g)];
    }
  }

  lemma DecodeEnds(text: seq<bv8>, g: nat, p: nat, done: seq<bv8>, out: seq<bv8>)
    requires Decoding(text, g, p, done, out) && (g + p < |text| ==> Value(text[g + p]) == NO_VALUE)
    ensures Decode(text) == out
  {}

  method PushByte(text: seq<bv8>, val: bv32, bits: int, ghost was: bv32, ghost p: nat, ghost prev: bv8, ghost v: bv8)
    returns (out: seq<bv8>, valb: int)
    requires p < 4 && bits == (if p == 0 then -2 else 6 - 2 * p)
    requires HoldsValue(was, prev) && v < 64 && val == TakeValue(was, v)
    ensures out == text + Gives(p, prev, v) && valb == if p == 0 then -2 else if p == 3 then -8 else -2 - 2 * p
  {
    ByteWindow4(was, prev, v);
    ByteWindow2(was, prev, v);
    ByteWindow0(was, prev, v);
    out, valb := text, bits;
    if valb >= 0 {
      out := out + [ByteWindow(val, valb)];
      valb := valb - 8;
    }
  }

  /** One letter: `g + p` is where it stands. */
  method TakeLetter(
      v: bv8, soFar: seq<bv8>, was: bv32, bits: int,
      ghost text: seq<bv8>, ghost g: nat, ghost p: nat, ghost done: seq<bv8>, ghost prev: bv8)
    returns (out: seq<bv8>, val: bv32, valb: int)
    requires Decoding(text, g, p, done, soFar) && g + p < |text| && v == Value(text[g + p]) != NO_VALUE
    requires bits == (if p == 0 then -8 else -2 * p) && HoldsValue(was, prev)
    requires p > 0 ==> prev == Value(text[g + p - 1])
    ensures if p < 3 then Decoding(text, g, p + 1, done, out) else Decoding(text, g + 4, 0, out, out)
    ensures HoldsValue(val, v) && valb == if p == 3 then -8 else -2 - 2 * p
  {
    ValueIsTable(text[g + p]);
    DecodeStep(text, g, p, done, soFar, prev);
    val := TakeValue(was, v);
    out, valb := PushByte(soFar, val, bits + 6, was, p, prev, v);
    TakenHoldsValue(was, v);
  }

  method Base64Decode(text: seq<bv8>) returns (out: seq<bv8>)
    ensures out == Decode(text)
  {
    out := [];
    var val: bv32, valb := 0, -8;
    ghost var g, p, done, prev: bv8 := 0, 0, [], 0;
    var i := 0;
    while i < |text|
      invariant i == g + p && Decoding(text, g, p, done, out) && valb == if p == 0 then -8 else -2 * p
      invariant HoldsValue(val, prev) && (p > 0 ==> prev == Value(text[i - 1]))
    {
      var v := Value(text[i]);
      if v == NO_VALUE {
        break;
      }
      out, val, valb := TakeLetter(v, out, val, valb, text, g, p, done, prev);
      g, p, done := if p == 3 then g + 4 else g, if p == 3 then 0 else p + 1, if p == 3 then out else done;
      prev := v;
      i := i + 1;
    }
    DecodeEnds(text, g, p, done, out);
  }
}
