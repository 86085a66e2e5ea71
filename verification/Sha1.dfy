/** SHA-1 as RFC 3174 defines it: padding (section 4), functions and constants (section 5), method 1 (section 6.1). */
module Sha1 {

  datatype Regs = Regs(a: bv32, b: bv32, c: bv32, d: bv32, e: bv32)

  const INITIAL: Regs := Regs(0x6745_2301, 0xEFCD_AB89, 0x98BA_DCFE, 0x1032_5476, 0xC3D2_E1F0)

  /** The circular left shift; the algorithm shifts by 1, 5 and 30. */
  function RollLeft(x: bv32, bits: nat): bv32 {
    if bits == 1 then (x << 1) | (x >> 31)
    else if bits == 5 then (x << 5) | (x >> 27)
    else (x << 30) | (x >> 2)
  }

  function F(t: nat, b: bv32, c: bv32, d: bv32): bv32 {
    if t < 20 then (b & c) | (!b & d)
    else if t < 40 then b ^ c ^ d
    else if t < 60 then (b & c) | (b & d) | (c & d)
    else b ^ c ^ d
  }

  function K(t: nat): bv32 {
    if t < 20 then 0x5A82_7999 else if t < 40 then 0x6ED9_EBA1 else if t < 60 then 0x8F1B_BCDC else 0xCA62_C1D6
  }

  /** The constants are the square roots of 2, 3, 5 and 10 in units of 2^-30, rounded down. */
  lemma ConstantsAreRoots(t: nat)
    requires t < 80
    ensures
      var n, k := if t < 20 then 2 else if t < 40 then 3 else if t < 60 then 5 else 10, K(t) as int;
      k * k <= n * 0x1000_0000_0000_0000 < (k + 1) * (k + 1)
  {}

  /** In every bit the function chooses between `c` and `d` by `b`, */
  lemma FirstFunctionChooses(t: nat, b: bv32, c: bv32, d: bv32)
    requires t < 20
    ensures F(t, b, c, d) & b == c & b
    ensures F(t, b, c, d) & !b == d & !b
  {
    Chooses(b, c, d);
  }

  lemma Chooses(b: bv32, c: bv32, d: bv32)
    ensures ((b & c) | (!b & d)) & b == c & b
    ensures ((b & c) | (!b & d)) & !b == d & !b
  {}

  /** or takes the majority: what `b` and `c` agree on, and `d` where they do not. */
  lemma ThirdFunctionTakesMajority(t: nat, b: bv32, c: bv32, d: bv32)
    requires 40 <= t < 60
    ensures F(t, b, c, d) & !(b ^ c) == b & !(b ^ c)
    ensures F(t, b, c, d) & (b ^ c) == d & (b ^ c)
  {
    TakesMajority(b, c, d);
  }

  lemma TakesMajority(b: bv32, c: bv32, d: bv32)
    ensures ((b & c) | (b & d) | (c & d)) & !(b ^ c) == b & !(b ^ c)
    ensures ((b & c) | (b & d) | (c & d)) & (b ^ c) == d & (b ^ c)
  {}

  /** No bit is lost in a circular shift: a bit that is shifted out comes in at the other end. */
  lemma ShiftsAreCircular(x: bv32)
    ensures RollLeft(x, 1) == (x << 1) | (x >> 31)
    ensures RollLeft(x, 5) == (x << 5) | (x >> 27)
    ensures RollLeft(x, 30) == (x << 30) | (x >> 2)
  {}

  function Mix(w3: bv32, w8: bv32, w14: bv32, w16: bv32): bv32 {
    RollLeft(w3 ^ w8 ^ w14 ^ w16, 1)
  }

  /** The first `n` words of a schedule: the block's sixteen, then each from four before it. */
  function Extend<T>(mix: (T, T, T, T) -> T, block: seq<T>, n: nat): (w: seq<T>)
    requires |block| == 16 <= n
    ensures |w| == n
    decreases n, |block|
  {
    if n == 16 then block
    else
      var w := Extend(mix, block, n - 1);
      w + [mix(w[n - 4], w[n - 9], w[n - 15], w[n - 17])]
  }

  function Schedule(block: seq<bv32>): (w: seq<bv32>)
    requires |block| == 16
    ensures |w| == 80
  {
    Extend(Mix, block, 80)
  }

  /** One round, given the values of the round's function and constant. */
  function Shift(f: bv32, k: bv32, w: bv32, a: bv32, b: bv32, c: bv32, d: bv32, e: bv32): Regs {
    Regs(Sum(RollLeft(a, 5), f, e, w, k), a, RollLeft(b, 30), c, d)
  }

  /** Addition modulo 2^32. */
  function Add(x: bv32, y: bv32): bv32 {
    x + y
  }

  function Sum(a: bv32, f: bv32, e: bv32, w: bv32, k: bv32): bv32 {
    a + f + e + w + k
  }

  function Round(t: nat, w: bv32, r: Regs): Regs {
    Shift(F(t, r.b, r.c, r.d), K(t), w, r.a, r.b, r.c, r.d, r.e)
  }

  /** The registers after the rounds 0 to t - 1. */
  function Rounds(r: Regs, w: seq<bv32>, t: nat): Regs
    requires t <= |w|
    decreases t, |w|
  {
    if t == 0 then r else Round(t - 1, w[t - 1], Rounds(r, w, t - 1))
  }

  function Plus(x: Regs, y: Regs): Regs {
    Regs(Add(x.a, y.a), Add(x.b, y.b), Add(x.c, y.c), Add(x.d, y.d), Add(x.e, y.e))
  }

  function Block(h: Regs, block: seq<bv32>): Regs
    requires |block| == 16
  {
    Plus(h, Rounds(h, Schedule(block), 80))
  }

  /** The big-endian word at index `i`. */
  function Word(s: seq<bv8>, i: nat): bv32
    requires i + 4 <= |s|
  {
    BigEndian(s[i], s[i + 1], s[i + 2], s[i + 3])
  }

  function BigEndian(b0: bv8, b1: bv8, b2: bv8, b3: bv8): bv32 {
    ((b0 as bv32) << 24) | ((b1 as bv32) << 16) | ((b2 as bv32) << 8) | (b3 as bv32)
  }

  /** The sixteen words of the block that starts at index `i`. */
  function BlockAt(s: seq<bv8>, i: nat): (w: seq<bv32>)
    requires i + 64 <= |s|
    ensures |w| == 16
    ensures forall k :: 0 <= k < 16 ==> w[k] == Word(s, i + 4 * k)
  {
    WordsAt(s, i, 16)
  }

  function WordsAt(s: seq<bv8>, i: nat, n: nat): (w: seq<bv32>)
    requires i + 4 * n <= |s|
    ensures |w| == n
    ensures forall k :: 0 <= k < n ==> w[k] == Word(s, i + 4 * k)
    decreases n, |s|
  {
    if n == 0 then [] else WordsAt(s, i, n - 1) + [Word(s, i + 4 * (n - 1))]
  }

  /** The chaining value after `n` blocks. */
  function Chain(s: seq<bv8>, n: nat): Regs
    requires 64 * n <= |s|
    decreases n, |s|
  {
    if n == 0 then INITIAL else Block(Chain(s, n - 1), BlockAt(s, 64 * (n - 1)))
  }

  /** The length of a padded message: the least multiple of 64 with room for the bit and the length. */
  function PaddedLength(n: nat): nat {
    (n + 72) / 64 * 64
  }

  lemma PaddedLengthIsLeast(n: nat)
    ensures PaddedLength(n) % 64 == 0 && n + 9 <= PaddedLength(n) <= n + 72
    ensures forall m: nat :: m % 64 == 0 && n + 9 <= m ==> PaddedLength(n) <= m
    ensures PaddedLength(n) == n + 72 <==> n % 64 == 56
  {}

  const LENGTH_LIMIT: nat := 0x2000_0000_0000_0000

  /** The bytes of a word, the most significant one first. */
  function Byte(w: bv32, k: nat): bv8 {
    if k == 0 then (w >> 24) as bv8
    else if k == 1 then ((w >> 16) & 0xFF) as bv8
    else if k == 2 then ((w >> 8) & 0xFF) as bv8
    else (w & 0xFF) as bv8
  }

  function WordBytes(w: bv32): seq<bv8> {
    [Byte(w, 0), Byte(w, 1), Byte(w, 2), Byte(w, 3)]
  }

  /** Byte `i` of the padded message: a one bit, zeros, and the number of bits as a 64-bit integer. */
  function PaddedByte(m: seq<bv8>, i: nat): bv8
    requires |m| < LENGTH_LIMIT && i < PaddedLength(|m|)
  {
    var n := PaddedLength(|m|);
    if i < |m| then m[i]
    else if i == |m| then 0x80
    else if i < n - 8 then 0
    else if i < n - 4 then WordBytes(High(8 * |m|))[i - (n - 8)]
    else WordBytes(Low(8 * |m|))[i - (n - 4)]
  }

  /** The halves of a 64-bit number. */
  function High(n: nat): bv32
    requires n < 0x1_0000_0000_0000_0000
  {
    (n / 0x1_0000_0000) as bv32
  }

  function Low(n: nat): bv32 {
    (n % 0x1_0000_0000) as bv32
  }

  function PadTo(m: seq<bv8>, n: nat): (s: seq<bv8>)
    requires |m| < LENGTH_LIMIT && n <= PaddedLength(|m|)
    ensures |s| == n
    ensures forall i :: 0 <= i < n ==> s[i] == PaddedByte(m, i)
  {
    if n == 0 then [] else PadTo(m, n - 1) + [PaddedByte(m, n - 1)]
  }

  function Pad(m: seq<bv8>): seq<bv8>
    requires |m| < LENGTH_LIMIT
  {
    PadTo(m, PaddedLength(|m|))
  }

  function RegsBytes(h: Regs): (d: seq<bv8>)
    ensures |d| == 20
  {
    [Byte(h.a, 0), Byte(h.a, 1), Byte(h.a, 2), Byte(h.a, 3),
     Byte(h.b, 0), Byte(h.b, 1), Byte(h.b, 2), Byte(h.b, 3),
     Byte(h.c, 0), Byte(h.c, 1), Byte(h.c, 2), Byte(h.c, 3),
     Byte(h.d, 0), Byte(h.d, 1), Byte(h.d, 2), Byte(h.d, 3),
     Byte(h.e, 0), Byte(h.e, 1), Byte(h.e, 2), Byte(h.e, 3)]
  }

  function Digest(m: seq<bv8>): (d: seq<bv8>)
    requires |m| < LENGTH_LIMIT
    ensures |d| == 20
  {
    RegsBytes(Chain(Pad(m), PaddedLength(|m|) / 64))
  }
}
