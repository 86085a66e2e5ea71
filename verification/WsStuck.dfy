/** On which bytes the server does not return from `OnWsMessage`, for streams that begin as they should. */
module WsStuck {
  import opened Bytes
  import opened WsFrame
  import opened WsParser
  import opened WsServer

  /** Within a stream of client frames no head is refused. */
  lemma NotRefusedWithin(fs: seq<Frame>, k: nat)
    requires ClientFrames(fs) && CloseIsLast(fs) && k <= |EncodeAll(fs)|
    ensures Feed(OPENED, EncodeAll(fs)[..k]).msg.state != Error && Feed(OPENED, EncodeAll(fs)[..k]).late == 0
  {
    if k < |EncodeAll(fs)| {
      var n := FeedFramesUpTo(OPENED, fs, k);
    } else {
      assert EncodeAll(fs)[..k] == EncodeAll(fs);
      FeedFrames(OPENED, fs);
    }
  }

  /** The bytes that the chunks before number `i` have brought. */
  function BroughtBefore(chunks: seq<seq<uint8>>, i: nat): nat
    requires i <= |chunks|
  {
    |Concat(chunks[..i])|
  }

  // ----- bytes after a CLOSE -----

  lemma TakeSum(e: seq<uint8>, rest: seq<uint8>, k: nat)
    requires k <= |e| + |rest|
    ensures k <= |e| ==> (e + rest)[..k] == e[..k]
    ensures k > |e| ==> (e + rest)[..k] == e + rest[..k - |e|]
  {}

  lemma FeedAfterClose(fs: seq<Frame>, rest: seq<uint8>)
    requires ClientFrames(fs) && CloseIsLast(fs) && EndsWithClose(fs)
    ensures
      var r := Feed(OPENED, EncodeAll(fs) + rest);
      r.msg.state == NewMsg && r.closing && r.late == |rest|
  {
    FeedFrames(OPENED, fs);
    FeedAppend(OPENED, EncodeAll(fs), rest);
    FeedStopped(Feed(OPENED, EncodeAll(fs)), rest);
  }

  /** At any byte of such a stream: closing from the CLOSE's last byte on, and late are the bytes behind it. */
  lemma ClosingAt(fs: seq<Frame>, rest: seq<uint8>, k: nat)
    requires ClientFrames(fs) && CloseIsLast(fs) && EndsWithClose(fs) && k <= |EncodeAll(fs)| + |rest|
    ensures
      var r, n := Feed(OPENED, (EncodeAll(fs) + rest)[..k]), |EncodeAll(fs)|;
      r.msg.state != Error && (r.closing <==> k >= n) && r.late == if k > n then k - n else 0
  {
    var n := |EncodeAll(fs)|;
    TakeSum(EncodeAll(fs), rest, k);
    if k < n {
      var _ := FeedFramesUpTo(OPENED, fs, k);
    } else {
      FeedAfterClose(fs, rest[..k - n]);
      assert EncodeAll(fs) + rest[..0] == EncodeAll(fs);
    }
  }

  lemma BroughtGrows(chunks: seq<seq<uint8>>, i: nat)
    requires i < |chunks| && NoneEmpty(chunks)
    ensures BroughtBefore(chunks, i) < BroughtBefore(chunks, i + 1) <= |Concat(chunks)|
    ensures Concat(chunks)[..BroughtBefore(chunks, i)] == Concat(chunks[..i])
    ensures Concat(chunks)[..BroughtBefore(chunks, i + 1)] == Concat(chunks[..i + 1])
  {
    ConcatPrefix(chunks, i);
    assert chunks[..i + 1][..i] == chunks[..i];
    ConcatPrefix(chunks[..i + 1], i);
    if i + 1 < |chunks| {
      ConcatPrefix(chunks, i + 1);
    } else {
      assert chunks[..i + 1] == chunks;
    }
  }

  /** Chunk `i` brings byte `n` and one behind it. */
  predicate Crosses(chunks: seq<seq<uint8>>, n: nat, i: nat)
    requires i < |chunks|
  {
    BroughtBefore(chunks, i) < n < BroughtBefore(chunks, i + 1)
  }

  lemma StuckByCrossing(fs: seq<Frame>, rest: seq<uint8>, chunks: seq<seq<uint8>>, i: nat)
    requires ClientFrames(fs) && CloseIsLast(fs) && EndsWithClose(fs)
    requires Concat(chunks) == EncodeAll(fs) + rest && NoneEmpty(chunks) && i < |chunks|
    ensures StuckBy(OPENED, chunks, i) <==> Crosses(chunks, |EncodeAll(fs)|, i)
  {
    BroughtGrows(chunks, i);
    ClosingAt(fs, rest, BroughtBefore(chunks, i));
    ClosingAt(fs, rest, BroughtBefore(chunks, i + 1));
  }

  lemma {:induction false} BroughtIsMonotone(chunks: seq<seq<uint8>>, i: nat, j: nat)
    requires i <= j <= |chunks| && NoneEmpty(chunks)
    ensures BroughtBefore(chunks, i) <= BroughtBefore(chunks, j)
    decreases j
  {
    if i < j {
      BroughtGrows(chunks, j - 1);
      BroughtIsMonotone(chunks, i, j - 1);
    }
  }

  /** Whatever lies inside the stream is crossed by a chunk, or a chunk begins there. */
  lemma {:induction false} CrossedOrBegins(chunks: seq<seq<uint8>>, n: nat, j: nat) returns (i: nat)
    requires j <= |chunks| && NoneEmpty(chunks) && 0 < n < BroughtBefore(chunks, j)
    ensures i < |chunks| && (Crosses(chunks, n, i) || BroughtBefore(chunks, i) == n)
    decreases j
  {
    assert chunks[..0] == [];
    i := j - 1;
    if n < BroughtBefore(chunks, i) {
      i := CrossedOrBegins(chunks, n, i);
    }
  }

  /**
   After frames that end with a CLOSE the handler is stuck if and only if any byte follows and no chunk begins
   there: behind a chunk that ends with the CLOSE the connection is closed, and nothing more is read.
   */
  lemma StuckAfterClose(fs: seq<Frame>, rest: seq<uint8>, chunks: seq<seq<uint8>>)
    requires ClientFrames(fs) && CloseIsLast(fs) && EndsWithClose(fs)
    requires Concat(chunks) == EncodeAll(fs) + rest && NoneEmpty(chunks)
    ensures Serve(OPENED, chunks).1 <==>
              rest != [] && !exists i: nat :: i < |chunks| && BroughtBefore(chunks, i) == |EncodeAll(fs)|
  {
    var n := |EncodeAll(fs)|;
    StuckExactly(OPENED, chunks);
    if i: nat :| i < |chunks| && StuckBy(OPENED, chunks, i) {
      StuckByCrossing(fs, rest, chunks, i);
      BroughtGrows(chunks, i);
      forall j: nat | j < |chunks| ensures BroughtBefore(chunks, j) != n {
        if j <= i {
          BroughtIsMonotone(chunks, j, i);
        } else {
          BroughtIsMonotone(chunks, i + 1, j);
        }
      }
    }
    if rest != [] {
      ClosingAt(fs, [], 0);
      assert chunks[..|chunks|] == chunks && BroughtBefore(chunks, |chunks|) == n + |rest|;
      var i := CrossedOrBegins(chunks, n, |chunks|);
      StuckByCrossing(fs, rest, chunks, i);
    }
  }

  // ----- a head that is refused -----

  lemma RunBadHead(bad: seq<uint8>)
    requires BadHead(bad)
    ensures Run(FRESH, bad).state == Error && Run(FRESH, bad).surplus == 0
  {
    var head, rest := bad[..2], bad[2..];
    assert bad == head + rest;
    RunCompleting(FRESH, head);
    assert FRESH.buf + head == head;
    RunAppend(FRESH, head, rest);
    RunStopped(Run(FRESH, head), rest);
  }

  /** The refusal comes with the second byte. */
  lemma FeedBadHead(s: Session, bad: seq<uint8>, j: nat)
    requires s.msg == FRESH && BadHead(bad) && j <= |bad|
    ensures Feed(s, bad[..j]).late == s.late
    ensures Feed(s, bad[..j]).msg.state == Error <==> j >= 2
  {
    var part := bad[..j];
    if j >= 2 {
      RunBadHead(part);
    } else {
      RunCollecting(FRESH, part);
    }
    FeedIsRun(s, part);
  }

  lemma FeedAfterFrames(fs: seq<Frame>, bad: seq<uint8>, j: nat)
    requires ClientFrames(fs) && CloseIsLast(fs) && !EndsWithClose(fs) && BadHead(bad) && j <= |bad|
    ensures
      var r := Feed(OPENED, EncodeAll(fs) + bad[..j]);
      r.late == 0 && (r.msg.state == Error <==> j >= 2)
  {
    FeedFrames(OPENED, fs);
    FeedAppend(OPENED, EncodeAll(fs), bad[..j]);
    FeedBadHead(Feed(OPENED, EncodeAll(fs)), bad, j);
  }

  lemma RefusedAt(fs: seq<Frame>, bad: seq<uint8>, k: nat)
    requires ClientFrames(fs) && CloseIsLast(fs) && !EndsWithClose(fs) && BadHead(bad)
    requires k <= |EncodeAll(fs)| + |bad|
    ensures
      var r := Feed(OPENED, (EncodeAll(fs) + bad)[..k]);
      r.late == 0 && (r.msg.state == Error <==> k >= |EncodeAll(fs)| + 2)
  {
    TakeSum(EncodeAll(fs), bad, k);
    if k <= |EncodeAll(fs)| {
      NotRefusedWithin(fs, k);
    } else {
      FeedAfterFrames(fs, bad, k - |EncodeAll(fs)|);
    }
  }

  /** After frames without a CLOSE: stuck if and only if a chunk begins behind the second byte of a refused head. */
  lemma StuckAfterBadHead(fs: seq<Frame>, bad: seq<uint8>, chunks: seq<seq<uint8>>)
    requires ClientFrames(fs) && CloseIsLast(fs) && !EndsWithClose(fs) && BadHead(bad)
    requires Concat(chunks) == EncodeAll(fs) + bad && NoneEmpty(chunks)
    ensures Serve(OPENED, chunks).1 <==>
              exists i: nat :: i < |chunks| && BroughtBefore(chunks, i) >= |EncodeAll(fs)| + 2
  {
    StuckExactly(OPENED, chunks);
    forall i: nat | i < |chunks|
      ensures StuckBy(OPENED, chunks, i) <==> BroughtBefore(chunks, i) >= |EncodeAll(fs)| + 2
    {
      BroughtGrows(chunks, i);
      RefusedAt(fs, bad, BroughtBefore(chunks, i));
      RefusedAt(fs, bad, BroughtBefore(chunks, i + 1));
    }
  }

  // ----- inputs -----

  lemma Chunks(a: seq<uint8>, b: seq<uint8>)
    ensures Concat([a]) == a && Concat([a, b]) == a + b
    ensures BroughtBefore([a], 0) == 0 && BroughtBefore([a, b], 1) == |a|
  {
    assert [a][..0] == [] && [a, b][..1] == [a];
    assert [a][1..] == [] && [a, b][1..] == [b] && [b][1..] == [];
    assert Concat([b]) == b;
  }

  lemma EmptyClose() returns (f: Frame)
    ensures f.FromClient() && EncodeAll([f]) == [0x88, 0x80, 0, 0, 0, 0]
    ensures CloseIsLast([f]) && EndsWithClose([f])
  {
    f := Frame(true, OPCODE_CLOSE, Short, Some([0, 0, 0, 0]), []);
    assert Encode(f) == [0x88, 0x80, 0, 0, 0, 0];
    assert [f][1..] == [];
  }

  /** One byte behind an empty CLOSE frame. */
  lemma OneByteAfterClose(b: uint8)
    ensures Serve(OPENED, [[0x88, 0x80, 0, 0, 0, 0, b]]).1
  {
    var f := EmptyClose();
    var chunk := EncodeAll([f]) + [b];
    Chunks(chunk, []);
    StuckAfterClose([f], [b], [chunk]);
    assert chunk == [0x88, 0x80, 0, 0, 0, 0, b];
  }

  /** In a chunk of its own the same byte is not read at all. */
  lemma ChunkAfterClose(b: uint8)
    ensures !Serve(OPENED, [[0x88, 0x80, 0, 0, 0, 0], [b]]).1
  {
    var f := EmptyClose();
    Chunks(EncodeAll([f]), [b]);
    StuckAfterClose([f], [b], [EncodeAll([f]), [b]]);
  }

  /** A chunk behind the one with the reserved opcode 3. */
  lemma OneChunkAfterBadHead(b: uint8)
    ensures Serve(OPENED, [[0x83, 0x80], [b]]).1
  {
    var bad: seq<uint8> := [0x83, 0x80, b];
    Chunks([0x83, 0x80], [b]);
    assert EncodeAll([]) + bad == bad;
    StuckAfterBadHead([], bad, [[0x83, 0x80], [b]]);
  }
}
