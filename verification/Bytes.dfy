/** Bytes as numbers, their exclusive or, and the big-endian integers of the wire formats. */
module Bytes {
  type uint8 = x: int | 0 <= x < 0x100

  datatype Option<+T> = None | Some(value: T)
  {
    function GetOr(default: T): T {
      if None? then default else value
    }
  }

  /** What a call does when it may trip one of the source's `assert`s. */
  datatype Outcome<+T> = Returned(value: T) | Aborted

  function Zeros(n: nat): (r: seq<uint8>)
    ensures |r| == n
    ensures forall i :: 0 <= i < n ==> r[i] == 0
  {
    if n == 0 then [] else [0] + Zeros(n - 1)
  }

  function Pow2(k: nat): nat {
    if k == 0 then 1 else 2 * Pow2(k - 1)
  }

  /** Bitwise exclusive or of the `k` low-order bits. */
  function XorBits(a: nat, b: nat, k: nat): nat
    decreases a, b, k
  {
    if k == 0 then 0 else 2 * XorBits(a / 2, b / 2, k - 1) + (if a % 2 == b % 2 then 0 else 1)
  }

  function Xor(a: uint8, b: uint8): uint8 {
    XorBound(a, b, 8);
    XorBits(a, b, 8)
  }

  lemma {:induction false} XorBound(a: nat, b: nat, k: nat)
    ensures XorBits(a, b, k) < Pow2(k)
    ensures Pow2(8) == 256
    decreases k
  {
    assert Pow2(4) == 16;
    if k > 0 {
      XorBound(a / 2, b / 2, k - 1);
    }
  }

  lemma {:induction false} XorBitsTwice(a: nat, b: nat, k: nat)
    requires a < Pow2(k)
    ensures XorBits(XorBits(a, b, k), b, k) == a
    decreases k
  {
    if k > 0 {
      XorBitsTwice(a / 2, b / 2, k - 1);
      Halves(XorBits(a / 2, b / 2, k - 1), if a % 2 == b % 2 then 0 else 1);
    }
  }

  lemma Halves(x: nat, bit: nat)
    requires bit < 2
    ensures (2 * x + bit) / 2 == x && (2 * x + bit) % 2 == bit
  {}

  /** Bit `i` of a number. */
  function Bit(a: nat, i: nat): (bit: nat)
    ensures bit < 2
    decreases i, a
  {
    if i == 0 then a % 2 else Bit(a / 2, i - 1)
  }

  lemma {:induction false} XorBit(a: nat, b: nat, k: nat, i: nat)
    requires i < k
    ensures Bit(XorBits(a, b, k), i) == if Bit(a, i) == Bit(b, i) then 0 else 1
    decreases k
  {
    var rest, bit := XorBits(a / 2, b / 2, k - 1), if a % 2 == b % 2 then 0 else 1;
    Halves(rest, bit);
    if i > 0 {
      XorBit(a / 2, b / 2, k - 1, i - 1);
    }
  }

  /** Every bit of the exclusive or of two bytes is set exactly if they differ in it. */
  lemma XorIsExclusiveOr(a: uint8, b: uint8, i: nat)
    requires i < 8
    ensures Bit(Xor(a, b), i) == 1 <==> Bit(a, i) != Bit(b, i)
  {
    XorBit(a, b, 8, i);
  }

  lemma XorTwice(a: uint8, key: uint8)
    ensures Xor(Xor(a, key), key) == a
  {
    XorBound(0, 0, 8);
    XorBitsTwice(a, key, 8);
  }

  /** htobe16, htobe32, htobe64: the bytes of a number, most significant first. */
  function Word16(n: nat): (s: seq<uint8>)
    requires n < 0x1_0000
    ensures |s| == 2
  {
    [n / 0x100, n % 0x100]
  }

  function Word32(n: nat): (s: seq<uint8>)
    requires n < 0x1_0000_0000
    ensures |s| == 4
  {
    Word16(n / 0x1_0000) + Word16(n % 0x1_0000)
  }

  function Word64(n: nat): (s: seq<uint8>)
    requires n < 0x1_0000_0000_0000_0000
    ensures |s| == 8
  {
    Word32(n / 0x1_0000_0000) + Word32(n % 0x1_0000_0000)
  }

  /** be16toh, be32toh, be64toh: the number whose bytes start at index `i`. */
  function Number16(s: seq<uint8>, i: nat): (n: nat)
    requires i + 2 <= |s|
    ensures n < 0x1_0000
  {
    (s[i] as int) * 0x100 + s[i + 1]
  }

  function Number32(s: seq<uint8>, i: nat): (n: nat)
    requires i + 4 <= |s|
    ensures n < 0x1_0000_0000
  {
    Number16(s, i) * 0x1_0000 + Number16(s, i + 2)
  }

  function Number64(s: seq<uint8>, i: nat): (n: nat)
    requires i + 8 <= |s|
    ensures n < 0x1_0000_0000_0000_0000
  {
    Number32(s, i) * 0x1_0000_0000 + Number32(s, i + 4)
  }

  lemma Word16Value(n: nat, s: seq<uint8>, i: nat)
    requires n < 0x1_0000 && i + 2 <= |s| && s[i..i + 2] == Word16(n)
    ensures Number16(s, i) == n
  {
    assert s[i] == Word16(n)[0] && s[i + 1] == Word16(n)[1];
  }

  lemma Word32Value(n: nat, s: seq<uint8>, i: nat)
    requires n < 0x1_0000_0000 && i + 4 <= |s| && s[i..i + 4] == Word32(n)
    ensures Number32(s, i) == n
  {
    var hi, lo := Word16(n / 0x1_0000), Word16(n % 0x1_0000);
    assert s[i..i + 4][..2] == hi && s[i..i + 4][2..] == lo;
    Word16Value(n / 0x1_0000, s, i);
    Word16Value(n % 0x1_0000, s, i + 2);
  }

  lemma Word64Value(n: nat, s: seq<uint8>, i: nat)
    requires n < 0x1_0000_0000_0000_0000 && i + 8 <= |s| && s[i..i + 8] == Word64(n)
    ensures Number64(s, i) == n
  {
    var hi, lo := Word32(n / 0x1_0000_0000), Word32(n % 0x1_0000_0000);
    assert s[i..i + 8][..4] == hi && s[i..i + 8][4..] == lo;
    Word32Value(n / 0x1_0000_0000, s, i);
    Word32Value(n % 0x1_0000_0000, s, i + 4);
  }

  /** A field's value determines its bytes. */
  lemma Word16Bytes(s: seq<uint8>, i: nat)
    requires i + 2 <= |s|
    ensures s[i..i + 2] == Word16(Number16(s, i))
  {}

  lemma Word32Bytes(s: seq<uint8>, i: nat)
    requires i + 4 <= |s|
    ensures s[i..i + 4] == Word32(Number32(s, i))
  {
    var hi, lo := Number16(s, i), Number16(s, i + 2);
    Word16Bytes(s, i);
    Word16Bytes(s, i + 2);
    assert Number32(s, i) / 0x1_0000 == hi && Number32(s, i) % 0x1_0000 == lo;
    assert s[i..i + 4] == s[i..i + 2] + s[i + 2..i + 4];
  }

  lemma Word64Bytes(s: seq<uint8>, i: nat)
    requires i + 8 <= |s|
    ensures s[i..i + 8] == Word64(Number64(s, i))
  {
    var hi, lo := Number32(s, i), Number32(s, i + 4);
    Word32Bytes(s, i);
    Word32Bytes(s, i + 4);
    assert Number64(s, i) / 0x1_0000_0000 == hi && Number64(s, i) % 0x1_0000_0000 == lo;
    assert s[i..i + 8] == s[i..i + 4] + s[i + 4..i + 8];
  }

  /** Concatenation of a list of byte strings. */
  function Concat(parts: seq<seq<uint8>>): seq<uint8> {
    if |parts| == 0 then [] else parts[0] + Concat(parts[1..])
  }

  lemma {:induction false} ConcatAppend(parts: seq<seq<uint8>>, last: seq<uint8>)
    ensures Concat(parts + [last]) == Concat(parts) + last
  {
    if parts == [] {
      assert [last] == [last] + [];
    } else {
      ConcatAppend(parts[1..], last);
      assert (parts + [last])[1..] == parts[1..] + [last];
    }
  }

  lemma {:induction false} ConcatSplit(a: seq<seq<uint8>>, b: seq<seq<uint8>>)
    ensures Concat(a + b) == Concat(a) + Concat(b)
    decreases |a|
  {
    if |a| == 0 {
      assert a + b == b;
    } else {
      var first, rest := a[0], a[1..];
      assert (a + b)[0] == first && (a + b)[1..] == rest + b;
      ConcatSplit(rest, b);
      JoinedThree(first, Concat(rest), Concat(b));
    }
  }

  lemma JoinedThree(a: seq<uint8>, b: seq<uint8>, c: seq<uint8>)
    ensures a + (b + c) == a + b + c
  {}
}
