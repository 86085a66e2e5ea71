/**
 `Sha1Base64`: SHA-1 on the caller's buffer, which is padded, byte-swapped and used as the word schedule in
 place, followed by its own Base64 tail. Words are stored the little-endian way, as on the hosts it is for.
 */
module Sha1Base64Module {
  import opened Sha1
  import Base64

  // ----- words in the buffer -----

  /** The native word that starts at index `i`. */
  function Load(a: array<bv8>, i: nat): bv32
    requires i + 4 <= a.Length
    reads a
  {
    BigEndian(a[i + 3], a[i + 2], a[i + 1], a[i])
  }

  lemma BytesOfWord(w: bv32)
    ensures BigEndian(WordBytes(w)[0], WordBytes(w)[1], WordBytes(w)[2], WordBytes(w)[3]) == w
  {}

  method Store(a: array<bv8>, i: nat, w: bv32)
    requires i + 4 <= a.Length
    modifies a
    ensures Load(a, i) == w && Reversed(a, i, WordBytes(w), 0)
    ensures forall k :: 0 <= k < a.Length && (k < i || i + 4 <= k) ==> a[k] == old(a[k])
  {
    a[i], a[i + 1], a[i + 2], a[i + 3] :=
      (w & 0xFF) as bv8, ((w >> 8) & 0xFF) as bv8, ((w >> 16) & 0xFF) as bv8, (w >> 24) as bv8;
    BytesOfWord(w);
  }

  /** The four bytes at `i` are those of `s` at `j`, the other way round. */
  ghost predicate Reversed(a: array<bv8>, i: nat, s: seq<bv8>, j: nat)
    requires i + 4 <= a.Length && j + 4 <= |s|
    reads a
  {
    a[i] == s[j + 3] && a[i + 1] == s[j + 2] && a[i + 2] == s[j + 1] && a[i + 3] == s[j]
  }

  /** From `from` to `to` the buffer holds the words of `s` in native order. */
  ghost predicate Swapped(a: array<bv8>, s: seq<bv8>, from: nat, to: nat)
    requires to <= |s| && to <= a.Length
    reads a
  {
    forall i :: from <= i && i + 4 <= to && i % 4 == 0 ==> Reversed(a, i, s, i)
  }

  lemma SwappedWord(a: array<bv8>, s: seq<bv8>, from: nat, to: nat, i: nat)
    requires to <= |s| && to <= a.Length && Swapped(a, s, from, to)
    requires from <= i && i + 4 <= to && i % 4 == 0
    ensures Load(a, i) == Word(s, i)
  {
    assert Reversed(a, i, s, i);
  }

  // ----- padding -----

  lemma PaddingSize(n: nat)
    ensures n + 1 + (64 - (n + 1 + 8) % 64) % 64 == PaddedLength(n) - 8
  {}

  /** Writes the bit and the zeros. */
  method PadInPlace(a: array<bv8>, in_len: nat) returns (total_len: nat)
    requires in_len < LENGTH_LIMIT && PaddedLength(in_len) <= a.Length
    modifies a
    ensures total_len == PaddedLength(in_len) - 8
    ensures forall i :: 0 <= i < total_len ==> a[i] == PaddedByte(old(a[..in_len]), i)
  {
    total_len := in_len;
    a[total_len] := 0x80;
    total_len := total_len + 1;
    var padding_size := (64 - (total_len + 8) % 64) % 64;
    PaddingSize(in_len);
    while padding_size > 0
      invariant 0 <= padding_size && in_len < total_len
      invariant total_len + padding_size == PaddedLength(in_len) - 8
      invariant forall i :: 0 <= i < total_len ==> a[i] == PaddedByte(old(a[..in_len]), i)
    {
      padding_size := padding_size - 1;
      a[total_len] := 0;
      total_len := total_len + 1;
    }
  }

  /** `be32toh` on every word. */
  method SwapWords(a: array<bv8>, total_len: nat)
    requires total_len <= a.Length && total_len % 4 == 0
    modifies a
    ensures Swapped(a, old(a[..]), 0, total_len)
    ensures forall i :: total_len <= i < a.Length ==> a[i] == old(a[i])
  {
    ghost var s := a[..];
    var i := 0;
    while i < total_len
      invariant i <= total_len && i % 4 == 0
      invariant Swapped(a, s, 0, i)
      invariant forall k :: i <= k < a.Length ==> a[k] == s[k]
    {
      SwapWord(a, i, s);
      i := i + 4;
    }
  }

  method SwapWord(a: array<bv8>, i: nat, ghost s: seq<bv8>)
    requires i + 4 <= a.Length == |s| && i % 4 == 0 && Swapped(a, s, 0, i)
    requires forall k :: i <= k < a.Length ==> a[k] == s[k]
    modifies a
    ensures Swapped(a, s, 0, i + 4)
    ensures forall k :: i + 4 <= k < a.Length ==> a[k] == s[k]
  {
    a[i], a[i + 1], a[i + 2], a[i + 3] := a[i + 3], a[i + 2], a[i + 1], a[i];
    forall k: nat | k + 4 <= i + 4 && k % 4 == 0 ensures Reversed(a, k, s, k) {
      if k < i {
        assert k + 4 <= i && old(Reversed(a, k, s, k));
      }
    }
  }

  lemma LengthWords(n: nat)
    requires n < LENGTH_LIMIT
    ensures 0 <= n / 0x2000_0000 < 0x1_0000_0000
    ensures (n / 0x2000_0000) as bv32 == High(8 * n)
  {
    assert n / 0x2000_0000 == 8 * n / 0x1_0000_0000;
  }

  lemma ReversedAs(a: array<bv8>, i: nat, u: seq<bv8>, s: seq<bv8>, j: nat)
    requires i + 4 <= a.Length && |u| == 4 && j + 4 <= |s| && s[j..j + 4] == u && Reversed(a, i, u, 0)
    ensures Reversed(a, i, s, j)
  {
    var v := s[j..j + 4];
    assert s[j] == v[0] && s[j + 1] == v[1] && s[j + 2] == v[2] && s[j + 3] == v[3];
  }

  /** The number of bits, as two native words behind the others. */
  method StoreLength(a: array<bv8>, in_len: nat, total_len: nat, ghost s: seq<bv8>)
    requires in_len < LENGTH_LIMIT && total_len + 8 <= a.Length && total_len <= |s| && Swapped(a, s, 0, total_len)
    modifies a
    ensures Swapped(a, s, 0, total_len)
    ensures Reversed(a, total_len, WordBytes(High(8 * in_len)), 0)
    ensures Reversed(a, total_len + 4, WordBytes(Low(8 * in_len)), 0)
  {
    LengthWords(in_len);
    Store(a, total_len, (in_len / 0x2000_0000) as bv32);
    Store(a, total_len + 4, (8 * in_len % 0x1_0000_0000) as bv32);
    forall i: nat | i + 4 <= total_len && i % 4 == 0 ensures Reversed(a, i, s, i) {
      assert old(Reversed(a, i, s, i));
    }
  }

  /** Two buffers' worth of words, then the two words of the length. */
  lemma Joined(a: array<bv8>, s: seq<bv8>, padded: seq<bv8>, t: nat)
    requires t % 4 == 0 && t + 8 == |s| <= a.Length == |padded|
    requires Swapped(a, padded, 0, t) && forall i :: 0 <= i < t ==> padded[i] == s[i]
    requires Reversed(a, t, s, t) && Reversed(a, t + 4, s, t + 4)
    ensures Swapped(a, s, 0, t + 8)
  {
    forall i: nat | i + 4 <= t + 8 && i % 4 == 0 ensures Reversed(a, i, s, i) {
      if i + 4 <= t {
        assert Reversed(a, i, padded, i);
      } else {
        assert i == t || i == t + 4;
      }
    }
  }

  lemma PadEnds(m: seq<bv8>, s: seq<bv8>, t: nat)
    requires |m| < LENGTH_LIMIT && s == Pad(m) && t + 8 == PaddedLength(|m|)
    ensures s[t..t + 4] == WordBytes(High(8 * |m|)) && s[t + 4..t + 8] == WordBytes(Low(8 * |m|))
    ensures t % 4 == 0
  {
    AlignedEnd(|m|);
    var high, low := WordBytes(High(8 * |m|)), WordBytes(Low(8 * |m|));
    forall k | 0 <= k < 4 ensures high[k] == s[t + k] && low[k] == s[t + 4 + k] {
      LengthByte(m, k);
    }
    Slices(s, t, high, low);
  }

  lemma AlignedEnd(n: nat)
    ensures (PaddedLength(n) - 8) % 4 == 0
  {}

  lemma Slices(s: seq<bv8>, t: nat, high: seq<bv8>, low: seq<bv8>)
    requires t + 8 == |s| && |high| == |low| == 4
    requires forall k :: 0 <= k < 4 ==> high[k] == s[t + k] && low[k] == s[t + 4 + k]
    ensures s[t..t + 4] == high && s[t + 4..t + 8] == low
  {}

  lemma LengthByte(m: seq<bv8>, k: nat)
    requires |m| < LENGTH_LIMIT && k < 4
    ensures PaddedByte(m, PaddedLength(|m|) - 8 + k) == WordBytes(High(8 * |m|))[k]
    ensures PaddedByte(m, PaddedLength(|m|) - 4 + k) == WordBytes(Low(8 * |m|))[k]
  {}

  /** The whole preparation: the padded message with its words in native order. */
  method Prepare(a: array<bv8>, in_len: nat) returns (total_len: nat)
    requires in_len < LENGTH_LIMIT && PaddedLength(in_len) <= a.Length
    modifies a
    ensures total_len + 8 == PaddedLength(in_len)
    ensures Swapped(a, Pad(old(a[..in_len])), 0, total_len + 8)
  {
    ghost var m := a[..in_len];
    total_len := PadInPlace(a, in_len);
    ghost var padded := a[..];
    ghost var s := Pad(m);
    PadEnds(m, s, total_len);
    SwapWords(a, total_len);
    AppendLength(a, in_len, total_len, padded, s);
  }

  /** The part of `Prepare` after the words of the message. */
  method AppendLength(a: array<bv8>, in_len: nat, total_len: nat, ghost padded: seq<bv8>, ghost s: seq<bv8>)
    requires in_len < LENGTH_LIMIT && total_len % 4 == 0 && |s| == total_len + 8 <= a.Length == |padded|
    requires Swapped(a, padded, 0, total_len) && forall i :: 0 <= i < total_len ==> padded[i] == s[i]
    requires s[total_len..total_len + 4] == WordBytes(High(8 * in_len))
    requires s[total_len + 4..total_len + 8] == WordBytes(Low(8 * in_len))
    modifies a
    ensures Swapped(a, s, 0, total_len + 8)
  {
    StoreLength(a, in_len, total_len, padded);
    ReversedAs(a, total_len, WordBytes(High(8 * in_len)), s, total_len);
    ReversedAs(a, total_len + 4, WordBytes(Low(8 * in_len)), s, total_len + 4);
    Joined(a, s, padded, total_len);
  }

  // ----- the registers -----

  /** Five registers `h`, whose names have moved on by `j` places. */
  function Named(h: seq<bv32>, j: nat): Regs
    requires |h| == 5
  {
    Regs(h[j % 5], h[(j + 1) % 5], h[(j + 2) % 5], h[(j + 3) % 5], h[(j + 4) % 5])
  }

  /** The round functions as the code writes them. */
  function FastF(i: nat, b: bv32, c: bv32, d: bv32): bv32 {
    if i < 40 then if i < 20 then (b & (c ^ d)) ^ d else b ^ c ^ d
    else if i < 60 then ((b | c) & d) | (b & c) else b ^ c ^ d
  }

  lemma Ch(b: bv32, c: bv32, d: bv32)
    ensures (b & (c ^ d)) ^ d == (b & c) | (!b & d)
  {}

  lemma Maj(b: bv32, c: bv32, d: bv32)
    ensures ((b | c) & d) | (b & c) == (b & c) | (b & d) | (c & d)
  {}

  lemma FastFIsF(i: nat, b: bv32, c: bv32, d: bv32)
    ensures FastF(i, b, c, d) == F(i, b, c, d)
  {
    Ch(b, c, d);
    Maj(b, c, d);
  }

  /** A round updates two registers where they are; the names move on by four places, which is one back. */
  method RoundInPlace(h: seq<bv32>, i: nat, j: nat, w: bv32) returns (r: seq<bv32>)
    requires |h| == 5
    ensures |r| == 5 && Named(r, j + 4) == Round(i, w, Named(h, j))
  {
    var a, b, c, d, e := j % 5, (j + 1) % 5, (j + 2) % 5, (j + 3) % 5, (j + 4) % 5;
    var f := FastF(i, h[b], h[c], h[d]);
    FastFIsF(i, h[b], h[c], h[d]);
    Renamed(j);
    r := Update(h, a, b, c, d, e, f, K(i), w);
  }

  method Update(h: seq<bv32>, a: nat, b: nat, c: nat, d: nat, e: nat, f: bv32, k: bv32, w: bv32) returns (r: seq<bv32>)
    requires |h| == 5 && a < 5 && b < 5 && c < 5 && d < 5 && e < 5
    requires a != b && a != e && b != e && c != b && c != e && d != b && d != e
    ensures |r| == 5 && Regs(r[e], r[a], r[b], r[c], r[d]) == Shift(f, k, w, h[a], h[b], h[c], h[d], h[e])
  {
    var e1 := Added(h[e], f, k, w, RollLeft(h[a], 5));
    var b1 := RollLeft(h[b], 30);
    r := h[e := e1];
    r := r[b := b1];
  }

  /** `e += f + k; e += w + a`. */
  method Added(e: bv32, f: bv32, k: bv32, w: bv32, a: bv32) returns (r: bv32)
    ensures r == Sum(a, f, e, w, k)
  {
    r := e;
    r := Add(r, Add(f, k));
    r := Add(r, Add(w, a));
    Reorder(e, f, k, w, a);
  }

  lemma Reorder(e: bv32, f: bv32, k: bv32, w: bv32, a: bv32)
    ensures Add(Add(e, Add(f, k)), Add(w, a)) == Sum(a, f, e, w, k)
  {
    ReorderPlain(e, f, k, w, a);
    assert Add(f, k) == f + k && Add(w, a) == w + a;
    assert Add(e, f + k) == e + (f + k);
  }

  lemma ReorderPlain(e: bv32, f: bv32, k: bv32, w: bv32, a: bv32)
    ensures Add(e + (f + k), w + a) == Sum(a, f, e, w, k)
  {}

  lemma Renamed(j: nat)
    ensures (j + 4 + 1) % 5 == j % 5 && (j + 4 + 2) % 5 == (j + 1) % 5
    ensures (j + 4 + 3) % 5 == (j + 2) % 5 && (j + 4 + 4) % 5 == (j + 3) % 5
    ensures j % 5 != (j + 1) % 5 && j % 5 != (j + 4) % 5 && (j + 1) % 5 != (j + 4) % 5
    ensures (j + 2) % 5 != (j + 1) % 5 && (j + 2) % 5 != (j + 4) % 5
    ensures (j + 3) % 5 != (j + 1) % 5 && (j + 3) % 5 != (j + 4) % 5
  {
    var q, r := j / 5, j % 5;
    ModFive(q, r, 1);
    ModFive(q, r, 2);
    ModFive(q, r, 3);
    ModFive(q, r, 4);
    ModFive(q, r, 5);
    ModFive(q, r, 6);
    ModFive(q, r, 7);
    ModFive(q, r, 8);
  }

  lemma ModFive(q: nat, r: nat, c: nat)
    ensures (5 * q + r + c) % 5 == (r + c) % 5
  {
    assert 5 * q + r + c == 5 * (q + (r + c) / 5) + (r + c) % 5;
  }

  // ----- the schedule -----

  /** Sixteen cells hold the last sixteen words of the schedule before word `i`, word t in cell t mod 16. */
  ghost predicate Ring<T>(cells: seq<T>, w: seq<T>, i: nat)
    requires |cells| == 16 && i <= |w|
  {
    forall t :: 0 <= t < i && i <= t + 16 ==> cells[t % 16] == w[t]
  }

  lemma {:induction false} ExtendTake<T>(mix: (T, T, T, T) -> T, block: seq<T>, n: nat, m: nat)
    requires |block| == 16 <= n <= m
    ensures Extend(mix, block, m)[..n] == Extend(mix, block, n)
    decreases m
  {
    if n < m {
      ExtendTake(mix, block, n, m - 1);
      assert Extend(mix, block, m)[..m - 1] == Extend(mix, block, m - 1);
      assert Extend(mix, block, m)[..n] == Extend(mix, block, m)[..m - 1][..n];
    }
  }

  lemma ExtendWord<T>(mix: (T, T, T, T) -> T, block: seq<T>, m: nat, t: nat)
    requires |block| == 16 <= t < m
    ensures
      var w := Extend(mix, block, m);
      w[t] == mix(w[t - 3], w[t - 8], w[t - 14], w[t - 16])
  {
    ExtendTake(mix, block, t + 1, m);
    var w, v := Extend(mix, block, m), Extend(mix, block, t + 1);
    assert w[..t + 1] == v;
    assert v[..t] == Extend(mix, block, t);
  }

  /** Step b of section 6.1 of RFC 3174, for every block. */
  lemma ScheduleIsMixed(block: seq<bv32>, t: nat)
    requires |block| == 16 <= t < 80
    ensures
      var w := Schedule(block);
      var x := w[t - 3] ^ w[t - 8] ^ w[t - 14] ^ w[t - 16];
      w[t] == (x << 1) | (x >> 31) && w[..16] == block
  {
    ExtendWord(Mix, block, 80, t);
    ExtendTake(Mix, block, 16, 80);
  }

  lemma RingStarts<T>(mix: (T, T, T, T) -> T, block: seq<T>, m: nat)
    requires |block| == 16 <= m
    ensures Ring(block, Extend(mix, block, m), 16)
    ensures forall t :: 0 <= t < 16 ==> Extend(mix, block, m)[t] == block[t]
  {
    ExtendTake(mix, block, 16, m);
    assert Extend(mix, block, m)[..16] == block;
  }

  /** The word that goes into cell `i & 15` is word i of the schedule. */
  lemma RingStep<T>(mix: (T, T, T, T) -> T, block: seq<T>, m: nat, cells: seq<T>, i: nat)
    requires |block| == |cells| == 16 <= i < m && Ring(cells, Extend(mix, block, m), i)
    ensures
      var next := mix(cells[(i + 13) % 16], cells[(i + 8) % 16], cells[(i + 2) % 16], cells[i % 16]);
      next == Extend(mix, block, m)[i] && Ring(cells[i % 16 := next], Extend(mix, block, m), i + 1)
  {
    var w := Extend(mix, block, m);
    ExtendWord(mix, block, m, i);
    Cell(cells, w, i, i - 3, i + 13);
    Cell(cells, w, i, i - 8, i + 8);
    Cell(cells, w, i, i - 14, i + 2);
    Cell(cells, w, i, i - 16, i);
    RingPut(cells, w, i);
  }

  lemma Cell<T>(cells: seq<T>, w: seq<T>, i: nat, t: nat, k: nat)
    requires |cells| == 16 && i <= |w| && Ring(cells, w, i) && t < i <= t + 16 && k == t + 16
    ensures cells[k % 16] == w[t]
  {
    assert k % 16 == t % 16;
  }

  lemma RingPut<T>(cells: seq<T>, w: seq<T>, i: nat)
    requires |cells| == 16 && i < |w| && Ring(cells, w, i)
    ensures Ring(cells[i % 16 := w[i]], w, i + 1)
  {
    forall t | 0 <= t < i + 1 && i + 1 <= t + 16 ensures cells[i % 16 := w[i]][t % 16] == w[t] {
      if t < i {
        assert t % 16 != i % 16;
      }
    }
  }

  // ----- a block -----

  /** The sixteen words from `base` on. */
  ghost predicate HasCells(a: array<bv8>, base: nat, cells: seq<bv32>)
    requires base + 64 <= a.Length && |cells| == 16
    reads a
  {
    forall k :: 0 <= k < 16 ==> Load(a, base + 4 * k) == cells[k]
  }

  method SetCell(a: array<bv8>, base: nat, k: nat, w: bv32, ghost cells: seq<bv32>)
    requires base + 64 <= a.Length && k < 16 == |cells| && HasCells(a, base, cells)
    modifies a
    ensures HasCells(a, base, cells[k := w])
    ensures forall i :: 0 <= i < a.Length && (i < base || base + 64 <= i) ==> a[i] == old(a[i])
  {
    Store(a, base + 4 * k, w);
    forall l | 0 <= l < 16 ensures Load(a, base + 4 * l) == cells[k := w][l] {
      assert old(Load(a, base + 4 * l)) == cells[l];
    }
  }

  function First(i: nat): nat {
    if i < 16 then 16 else i
  }

  /** Word i of the schedule: read, or first computed into the cell of word i - 16. */
  method NextWord(a: array<bv8>, base: nat, i: nat, ghost block: seq<bv32>, ghost cells: seq<bv32>)
    returns (w: bv32, ghost next: seq<bv32>)
    requires base + 64 <= a.Length && |block| == |cells| == 16 && i < 80
    requires HasCells(a, base, cells) && Ring(cells, Schedule(block), First(i))
    modifies a
    ensures |next| == 16 && HasCells(a, base, next) && Ring(next, Schedule(block), First(i + 1))
    ensures w == Schedule(block)[i]
    ensures forall k :: 0 <= k < a.Length && (k < base || base + 64 <= k) ==> a[k] == old(a[k])
  {
    next := cells;
    if i >= 16 {
      w := Mix(Load(a, base + 4 * ((i + 13) % 16)), Load(a, base + 4 * ((i + 8) % 16)),
               Load(a, base + 4 * ((i + 2) % 16)), Load(a, base + 4 * (i % 16)));
      assert w == Mix(cells[(i + 13) % 16], cells[(i + 8) % 16], cells[(i + 2) % 16], cells[i % 16]);
      RingStep(Mix, block, 80, cells, i);
      SetCell(a, base, i % 16, w, cells);
      next := cells[i % 16 := w];
    } else {
      w := Load(a, base + 4 * (i % 16));
      assert cells[i % 16] == Schedule(block)[i];
    }
  }

  /** After `i` rounds: the registers, under the names they then have, and the cells of the schedule. */
  ghost predicate Reached(
      a: array<bv8>, base: nat, start: Regs, block: seq<bv32>, h: seq<bv32>, cells: seq<bv32>, i: nat)
    requires base + 64 <= a.Length && |block| == 16 && i <= 80
    reads a
  {
    && |h| == 5 && |cells| == 16
    && HasCells(a, base, cells) && Ring(cells, Schedule(block), First(i))
    && Named(h, 4 * i) == Rounds(start, Schedule(block), i)
  }

  method OneRound(a: array<bv8>, base: nat, h: seq<bv32>, i: nat, j: nat,
                  ghost start: Regs, ghost block: seq<bv32>, ghost cells: seq<bv32>)
    returns (r: seq<bv32>, ghost next: seq<bv32>)
    requires base + 64 <= a.Length && |block| == 16 && i < 80 && j == 4 * i
    requires Reached(a, base, start, block, h, cells, i)
    modifies a
    ensures Reached(a, base, start, block, r, next, i + 1)
    ensures forall k :: 0 <= k < a.Length && (k < base || base + 64 <= k) ==> a[k] == old(a[k])
  {
    var w;
    w, next := NextWord(a, base, i, block, cells);
    r := RoundInPlace(h, i, j, w);
  }

  /** One block, with the words of the block as the cells of the schedule. */
  method ProcessBlock(a: array<bv8>, base: nat, h0: seq<bv32>, ghost block: seq<bv32>) returns (r: seq<bv32>)
    requires base + 64 <= a.Length && |block| == 16 && |h0| == 5 && HasCells(a, base, block)
    modifies a
    ensures |r| == 5 && Named(r, 0) == Block(Named(h0, 0), block)
    ensures forall k :: 0 <= k < a.Length && (k < base || base + 64 <= k) ==> a[k] == old(a[k])
  {
    var h := h0;
    ghost var start, cells := Named(h0, 0), block;
    RingStarts(Mix, block, 80);
    var i, j := 0, 0;
    while i < 80
      invariant i <= 80 && j == 4 * i && Reached(a, base, start, block, h, cells, i)
      invariant forall k :: 0 <= k < a.Length && (k < base || base + 64 <= k) ==> a[k] == old(a[k])
    {
      h, cells := OneRound(a, base, h, i, j, start, block, cells);
      i, j := i + 1, j + 4;
    }
    r := AddRegisters(h0, h, j);
  }

  /** After eighty rounds the names are back where they began. */
  method AddRegisters(h0: seq<bv32>, h: seq<bv32>, ghost j: nat) returns (r: seq<bv32>)
    requires |h0| == |h| == 5 && j % 5 == 0
    ensures |r| == 5 && Named(r, 0) == Plus(Named(h0, 0), Named(h, j))
  {
    r := h0;
    var i := 0;
    while i < 5
      invariant i <= 5 == |r|
      invariant forall k :: 0 <= k < i ==> r[k] == Add(h0[k], h[k])
      invariant forall k :: i <= k < 5 ==> r[k] == h0[k]
    {
      r := r[i := Add(r[i], h[i])];
      i := i + 1;
    }
    Realigned(h0, 0);
    Realigned(h, j);
    Realigned(r, 0);
  }

  lemma Realigned(h: seq<bv32>, j: nat)
    requires |h| == 5 && j % 5 == 0
    ensures Named(h, j) == Regs(h[0], h[1], h[2], h[3], h[4])
  {}

  // ----- the message -----

  lemma BlockIsThere(a: array<bv8>, s: seq<bv8>, at: nat)
    requires |s| <= a.Length && at + 64 <= |s| && at % 4 == 0 && Swapped(a, s, at, |s|)
    ensures HasCells(a, at, BlockAt(s, at))
  {
    forall k | 0 <= k < 16 ensures Load(a, at + 4 * k) == BlockAt(s, at)[k] {
      SwappedWord(a, s, at, |s|, at + 4 * k);
    }
  }

  /** The blocks one after the other, each on the sum of those before. */
  method ProcessBlocks(a: array<bv8>, total: nat, ghost s: seq<bv8>) returns (h0: seq<bv32>)
    requires total == |s| <= a.Length && total % 64 == 0 && Swapped(a, s, 0, total)
    modifies a
    ensures |h0| == 5 && Named(h0, 0) == Chain(s, total / 64)
  {
    h0 := [0x6745_2301, 0xEFCD_AB89, 0x98BA_DCFE, 0x1032_5476, 0xC3D2_E1F0];
    Realigned(h0, 0);
    var at := 0;
    ghost var n := 0;
    while at < total
      invariant at == 64 * n <= total && |h0| == 5
      invariant Swapped(a, s, at, total) && Named(h0, 0) == Chain(s, n)
    {
      h0 := OneBlock(a, at, n, h0, s);
      at := at + 64;
      n := n + 1;
    }
  }

  lemma Aligned(at: nat, n: nat)
    requires at == 64 * n
    ensures at % 4 == 0
  {
    assert at == 4 * (16 * n);
  }

  method OneBlock(a: array<bv8>, at: nat, ghost n: nat, h0: seq<bv32>, ghost s: seq<bv8>) returns (r: seq<bv32>)
    requires |s| <= a.Length && at + 64 <= |s| && at == 64 * n && |h0| == 5 && Swapped(a, s, at, |s|)
    modifies a
    ensures |r| == 5 && Named(r, 0) == Block(Named(h0, 0), BlockAt(s, at))
    ensures Swapped(a, s, at + 64, |s|)
  {
    Aligned(at, n);
    BlockIsThere(a, s, at);
    r := ProcessBlock(a, at, h0, BlockAt(s, at));
    forall i | at + 64 <= i && i + 4 <= |s| && i % 4 == 0 ensures Reversed(a, i, s, i) {
      assert old(Reversed(a, i, s, i));
    }
  }

  // ----- the Base64 tail -----

  /** The letters of the four six-bit groups in the low 24 bits. */
  function Quad(t: bv32): (s: seq<bv8>)
    ensures |s| == 4
  {
    [Base64.Letter(((t >> 18) & 63) as bv8), Base64.Letter(((t >> 12) & 63) as bv8),
     Base64.Letter(((t >> 6) & 63) as bv8), Base64.Letter((t & 63) as bv8)]
  }

  /** The low 24 bits of `t` are three bytes. */
  predicate Holds3(t: bv32, a: bv8, b: bv8, c: bv8) {
    Byte(t, 1) == a && Byte(t, 2) == b && Byte(t, 3) == c
  }

  lemma QuadIsGroup(t: bv32, a: bv8, b: bv8, c: bv8)
    requires Holds3(t, a, b, c)
    ensures Quad(t) == Base64.Group(a, b, c)
  {}

  /** The digest in seven pieces of 24 bits, the last one of 16 and zeros. */
  function Triples(h: seq<bv32>): (t: seq<bv32>)
    requires |h| == 5
    ensures |t| == 7
  {
    [h[0] >> 8, (h[0] << 16) | (h[1] >> 16), (h[1] << 8) | (h[2] >> 24), h[2],
     h[3] >> 8, (h[3] << 16) | (h[4] >> 16), h[4] << 8]
  }

  lemma TopBytes(x: bv32)
    ensures Holds3(x >> 8, Byte(x, 0), Byte(x, 1), Byte(x, 2))
  {}

  lemma OneAndTwo(x: bv32, y: bv32)
    ensures Holds3((x << 16) | (y >> 16), Byte(x, 3), Byte(y, 0), Byte(y, 1))
  {}

  lemma TwoAndOne(x: bv32, y: bv32)
    ensures Holds3((x << 8) | (y >> 24), Byte(x, 2), Byte(x, 3), Byte(y, 0))
  {}

  lemma LastBytes(x: bv32)
    ensures Holds3(x << 8, Byte(x, 2), Byte(x, 3), 0)
  {}

  /** Bytes of the digest, from the four-byte words to the three-byte pieces. */
  lemma Triple0(h: seq<bv32>, d: seq<bv8>)
    requires |h| == 5 && d == RegsBytes(Regs(h[0], h[1], h[2], h[3], h[4]))
    ensures Holds3(Triples(h)[0], d[0], d[1], d[2])
  {
    TopBytes(h[0]);
  }

  lemma Triple1(h: seq<bv32>, d: seq<bv8>)
    requires |h| == 5 && d == RegsBytes(Regs(h[0], h[1], h[2], h[3], h[4]))
    ensures Holds3(Triples(h)[1], d[3], d[4], d[5])
  {
    OneAndTwo(h[0], h[1]);
  }

  lemma Triple2(h: seq<bv32>, d: seq<bv8>)
    requires |h| == 5 && d == RegsBytes(Regs(h[0], h[1], h[2], h[3], h[4]))
    ensures Holds3(Triples(h)[2], d[6], d[7], d[8])
  {
    TwoAndOne(h[1], h[2]);
  }

  lemma Triple3(h: seq<bv32>, d: seq<bv8>)
    requires |h| == 5 && d == RegsBytes(Regs(h[0], h[1], h[2], h[3], h[4]))
    ensures Holds3(Triples(h)[3], d[9], d[10], d[11])
  {}

  lemma Triple4(h: seq<bv32>, d: seq<bv8>)
    requires |h| == 5 && d == RegsBytes(Regs(h[0], h[1], h[2], h[3], h[4]))
    ensures Holds3(Triples(h)[4], d[12], d[13], d[14])
  {
    TopBytes(h[3]);
  }

  lemma Triple5(h: seq<bv32>, d: seq<bv8>)
    requires |h| == 5 && d == RegsBytes(Regs(h[0], h[1], h[2], h[3], h[4]))
    ensures Holds3(Triples(h)[5], d[15], d[16], d[17])
  {
    OneAndTwo(h[3], h[4]);
  }

  lemma Triple6(h: seq<bv32>, d: seq<bv8>)
    requires |h| == 5 && d == RegsBytes(Regs(h[0], h[1], h[2], h[3], h[4]))
    ensures Holds3(Triples(h)[6], d[18], d[19], 0)
  {
    LastBytes(h[4]);
  }

  /** The pieces hold the digest and a zero byte. */
  ghost predicate Pieces(triples: seq<bv32>, d: seq<bv8>) {
    && |triples| == 7 && |d| == 21
    && Holds3(triples[0], d[0], d[1], d[2]) && Holds3(triples[1], d[3], d[4], d[5])
    && Holds3(triples[2], d[6], d[7], d[8]) && Holds3(triples[3], d[9], d[10], d[11])
    && Holds3(triples[4], d[12], d[13], d[14]) && Holds3(triples[5], d[15], d[16], d[17])
    && Holds3(triples[6], d[18], d[19], d[20])
  }

  lemma PieceAt(triples: seq<bv32>, d: seq<bv8>, k: nat)
    requires Pieces(triples, d) && k < 7
    ensures Holds3(triples[k], d[3 * k], d[3 * k + 1], d[3 * k + 2])
  {
    assert k == 0 || k == 1 || k == 2 || k == 3 || k == 4 || k == 5 || k == 6;
  }

  lemma TriplesArePieces(h: seq<bv32>, d: seq<bv8>)
    requires |h| == 5 && d == RegsBytes(Regs(h[0], h[1], h[2], h[3], h[4]))
    ensures Pieces(Triples(h), d + [0])
  {
    Triple0(h, d);
    Triple1(h, d);
    Triple2(h, d);
    Triple3(h, d);
    Triple4(h, d);
    Triple5(h, d);
    Triple6(h, d);
    SamePieces(Triples(h), d);
  }

  lemma SamePieces(triples: seq<bv32>, d: seq<bv8>)
    requires |triples| == 7 && |d| == 20
    requires Holds3(triples[0], d[0], d[1], d[2]) && Holds3(triples[1], d[3], d[4], d[5])
    requires Holds3(triples[2], d[6], d[7], d[8]) && Holds3(triples[3], d[9], d[10], d[11])
    requires Holds3(triples[4], d[12], d[13], d[14]) && Holds3(triples[5], d[15], d[16], d[17])
    requires Holds3(triples[6], d[18], d[19], 0)
    ensures Pieces(triples, d + [0])
  {}

  /** The four letters at index `i`. */
  ghost predicate QuadAt(q: seq<bv8>, i: nat, s: seq<bv8>) {
    i + 4 <= |q| && |s| == 4 && q[i] == s[0] && q[i + 1] == s[1] && q[i + 2] == s[2] && q[i + 3] == s[3]
  }

  ghost predicate GroupAt(q: seq<bv8>, d: seq<bv8>, k: nat)
    requires 3 * k + 3 <= |d|
  {
    QuadAt(q, 4 * k, Base64.Group(d[3 * k], d[3 * k + 1], d[3 * k + 2]))
  }

  /** The encoding of twenty bytes: six groups, and two bytes with padding. */
  lemma EncodedDigest(d: seq<bv8>, q: seq<bv8>)
    requires |d| == 20 && |q| == 28
    requires forall k :: 0 <= k < 6 ==> GroupAt(q, d, k)
    requires QuadAt(q, 24, Base64.Group(d[18], d[19], 0)[3 := Base64.PAD])
    ensures q == Base64.Encode(d)
  {
    assert q[24..] == Base64.EncodeFrom(d, 18);
    EncodedRest(d, q, 6);
    assert q[0..] == q;
  }

  lemma {:induction false} EncodedRest(d: seq<bv8>, q: seq<bv8>, k: nat)
    requires |d| == 20 && |q| == 28 && k <= 6
    requires forall k :: 0 <= k < 6 ==> GroupAt(q, d, k)
    requires q[4 * k..] == Base64.EncodeFrom(d, 3 * k)
    ensures q[0..] == Base64.EncodeFrom(d, 0)
    decreases k
  {
    if k > 0 {
      var l := k - 1;
      var g := Base64.Group(d[3 * l], d[3 * l + 1], d[3 * l + 2]);
      assert GroupAt(q, d, l);
      assert q[4 * l..] == g + q[4 * k..];
      EncodedRest(d, q, l);
    }
  }

  method PutQuad(out: array<bv8>, i: nat, t: bv32, ghost a: bv8, ghost b: bv8, ghost c: bv8)
    requires i + 4 <= 28 <= out.Length && Holds3(t, a, b, c)
    modifies out
    ensures QuadAt(out[..28], i, Base64.Group(a, b, c))
    ensures forall k :: 0 <= k < out.Length && (k < i || i + 4 <= k) ==> out[k] == old(out[k])
  {
    var q := Quad(t);
    QuadIsGroup(t, a, b, c);
    out[i], out[i + 1], out[i + 2], out[i + 3] := q[0], q[1], q[2], q[3];
  }

  /** The groups before the `n`th stand in the text. */
  ghost predicate GroupsUpTo(q: seq<bv8>, d: seq<bv8>, n: nat)
    requires 3 * n <= |d|
  {
    forall k :: 0 <= k < n ==> GroupAt(q, d, k)
  }

  method PutPiece(out: array<bv8>, triples: seq<bv32>, i: nat, ghost d: seq<bv8>)
    requires Pieces(triples, d) && 28 <= out.Length && i < 7 && GroupsUpTo(out[..28], d, i)
    modifies out
    ensures GroupsUpTo(out[..28], d, i + 1)
    ensures forall k :: 28 <= k < out.Length ==> out[k] == old(out[k])
  {
    ghost var before := out[..28];
    PieceAt(triples, d, i);
    PutQuad(out, i * 4, triples[i], d[3 * i], d[3 * i + 1], d[3 * i + 2]);
    OneGroupMore(before, out[..28], d, i);
  }

  lemma OneGroupMore(q: seq<bv8>, r: seq<bv8>, d: seq<bv8>, i: nat)
    requires |q| == |r| == 28 && 3 * i + 3 <= |d| && 4 * i + 4 <= 28
    requires GroupsUpTo(q, d, i) && GroupAt(r, d, i) && forall k :: 0 <= k < 4 * i ==> r[k] == q[k]
    ensures GroupsUpTo(r, d, i + 1)
  {
    forall k | 0 <= k < i ensures GroupAt(r, d, k) {
      assert GroupAt(q, d, k);
    }
  }

  /** The loop of the tail. */
  method PutQuads(triples: seq<bv32>, out: array<bv8>, ghost d: seq<bv8>)
    requires Pieces(triples, d) && 28 <= out.Length
    modifies out
    ensures GroupsUpTo(out[..28], d, 7)
    ensures forall k :: 28 <= k < out.Length ==> out[k] == old(out[k])
  {
    var i := 0;
    while i < 7
      invariant i <= 7 && GroupsUpTo(out[..28], d, i)
      invariant forall k :: 28 <= k < out.Length ==> out[k] == old(out[k])
    {
      PutPiece(out, triples, i, d);
      i := i + 1;
    }
  }

  lemma LastLetter(d: seq<bv8>, e: seq<bv8>, q: seq<bv8>, r: seq<bv8>)
    requires |d| == 20 && e == d + [0] && |q| == 28 && r == q[27 := Base64.PAD]
    requires GroupsUpTo(q, e, 7)
    ensures r == Base64.Encode(d)
  {
    forall k | 0 <= k < 6 ensures GroupAt(r, d, k) {
      assert GroupAt(q, e, k);
    }
    var k := 6;
    assert GroupAt(q, e, k);
    EncodedDigest(d, r);
  }

  /** The letters of the digest `d`, whose pieces are given. */
  method EncodePieces(triples: seq<bv32>, out: array<bv8>, ghost d: seq<bv8>)
    requires 28 <= out.Length && |d| == 20 && Pieces(triples, d + [0])
    modifies out
    ensures out[..28] == Base64.Encode(d)
    ensures forall k :: 28 <= k < out.Length ==> out[k] == old(out[k])
  {
    PutQuads(triples, out, d + [0]);
    ghost var q := out[..28];
    out[27] := Base64.PAD;
    LastLetter(d, d + [0], q, out[..28]);
  }

  /**
   The whole: leaves the Base64 text of the message's SHA-1 digest in `out`. The buffer has to have room for
   the padded message, up to 72 bytes more than the message (the source's comment says 64).
   */
  method Sha1Base64(a: array<bv8>, in_len: nat, out: array<bv8>) returns (n: nat)
    requires a != out && in_len < LENGTH_LIMIT && PaddedLength(in_len) <= a.Length && 28 <= out.Length
    modifies a, out
    ensures n == 28 && out[..n] == Base64.Encode(Digest(old(a[..in_len])))
    ensures forall k :: n <= k < out.Length ==> out[k] == old(out[k])
  {
    ghost var s := Pad(a[..in_len]);
    PaddedLengthIsLeast(in_len);
    var total_len := Prepare(a, in_len);
    var h0 := ProcessBlocks(a, total_len + 8, s);
    Realigned(h0, 0);
    TriplesArePieces(h0, Digest(old(a[..in_len])));
    EncodePieces(Triples(h0), out, Digest(old(a[..in_len])));
    n := 28;
  }
}
