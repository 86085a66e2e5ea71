/** The C++ class `WebSocketMsg`: incremental parsing of received messages, building of messages to send. */
module WsMessage {
  import opened Bytes
  import opened Folds
  import opened WsFrame
  import opened WsParser

  /** `std::vector::resize`: new elements are zero. */
  function Resize(s: seq<uint8>, n: nat): (r: seq<uint8>)
    ensures |r| == n
  {
    if n <= |s| then s[..n] else s + Zeros(n - |s|)
  }

  /** The C++ code counts payload bytes in a `uint64_t`. */
  const SIZE_LIMIT: nat := 0x1_0000_0000_0000_0000

  /** The header `SetPayloadLen` lays out: minimal length form, first byte and mask bit as given. */
  function HeaderOf(b0: uint8, masked: bool, n: nat): (h: seq<uint8>)
    requires n < SIZE_LIMIT
    ensures |h| == HeaderSize(n)
  {
    [b0, Head1(masked, LengthCode(n, MinimalForm(n)))] + LengthField(n, MinimalForm(n))
  }

  /** The header says that `n` bytes of payload follow, in the minimal length form. */
  predicate Announces(content: seq<uint8>, n: nat)
    requires |content| >= HeaderSize(n)
  {
    match MinimalForm(n)
    case Short => Length7(content[1]) == n
    case Medium => Length7(content[1]) == 126 && Number16(content, 2) == n
    case Long => Length7(content[1]) == 127 && Number64(content, 2) == n
  }

  function HeaderSize(n: nat): nat {
    2 + ExtendedSize(MinimalForm(n))
  }

  /** The content of a message built for sending. */
  function BuiltContent(opcode: uint8, payload: seq<uint8>): seq<uint8>
    requires |payload| < SIZE_LIMIT
  {
    HeaderOf(Head0(true, opcode % 16), false, |payload|) + payload
  }

  function PreSendContent(content: seq<uint8>, opcode: uint8): seq<uint8>
    requires |content| >= 2
  {
    content[0 := Head0(true, opcode % 16)][1 := content[1] % 128]
  }

  predicate LengthUnknown(s: State) {
    s.ReadingHead? || s.ReadingLen16? || s.ReadingLen64? || s.Error?
  }

  class WebSocketMsg {
    var mState: State
    var mLoadedLen: nat
    var mBufData: seq<uint8>
    var mHeadLen: nat
    var mPayloadLen: nat
    var mMask: Key
    var mContent: seq<uint8>

    /** The vector holds a header for the payload length and the payload area, once that length is known. */
    ghost predicate Laid()
      reads this
    {
      if LengthUnknown(mState) then |mContent| == 2
      else
        && mPayloadLen < SIZE_LIMIT
        && mHeadLen == HeaderSize(mPayloadLen)
        && |mContent| == mHeadLen + mPayloadLen
        && Announces(mContent, mPayloadLen)
        && (mState == ReadingPayload ==> mLoadedLen <= mPayloadLen)
    }

    ghost function Body(): seq<uint8>
      requires Laid()
      reads this
    {
      if mState == ReadingPayload then mContent[mHeadLen..mHeadLen + mLoadedLen]
      else if LengthUnknown(mState) || mState == ReadingMask then []
      else mContent[mHeadLen..]
    }

    ghost function View(): Msg
      requires Laid()
      reads this
    {
      Msg(mState, mBufData, mContent[0], MaskBit(mContent[1]) != 0, mPayloadLen, mMask, Body(), 0)
    }

    ghost predicate Valid()
      reads this
    {
      Laid() && Resting(View())
    }

    /** For receiving. The length and mask fields, which C++ leaves uninitialised, start at zero. */
    constructor ()
      ensures Laid() && View() == FRESH
    {
      mState, mLoadedLen, mBufData := ReadingHead, 0, [];
      mHeadLen, mPayloadLen, mMask, mContent := 0, 0, [0, 0, 0, 0], [0, 0];
    }

    /** For sending. Without a payload the message carries `n` zero bytes. */
    constructor Build(opcode: uint8, payload: Option<seq<uint8>>, n: nat)
      requires payload.Some? ==> |payload.value| == n
      requires n < SIZE_LIMIT
      ensures Valid() && mState == BuiltMsg
      ensures mContent == BuiltContent(opcode, payload.GetOr(Zeros(n)))
    {
      mState, mLoadedLen, mBufData := BuiltMsg, 0, [];
      mHeadLen, mPayloadLen, mMask := 0, 0, [0, 0, 0, 0];
      mContent := [Head0(true, opcode % 16), 0];
      new;
      Assemble(opcode, payload, n);
    }

    method Assemble(opcode: uint8, payload: Option<seq<uint8>>, n: nat)
      requires payload.Some? ==> |payload.value| == n
      requires mState == BuiltMsg && mBufData == [] && mContent == [Head0(true, opcode % 16), 0] && n < SIZE_LIMIT
      modifies `mHeadLen, `mPayloadLen, `mContent
      ensures Valid() && mContent == BuiltContent(opcode, payload.GetOr(Zeros(n)))
    {
      Fill(payload, n);
      ContentDetermined(mContent, opcode, payload.GetOr(Zeros(n)));
    }

    method Fill(payload: Option<seq<uint8>>, n: nat)
      requires payload.Some? ==> |payload.value| == n
      requires |mContent| == 2 && n < SIZE_LIMIT
      modifies `mHeadLen, `mPayloadLen, `mContent
      ensures mHeadLen == HeaderSize(n) && mPayloadLen == n && |mContent| == mHeadLen + n
      ensures mContent[0] == old(mContent[0]) && MaskBit(mContent[1]) == MaskBit(old(mContent[1]))
      ensures Announces(mContent, n) && mContent[mHeadLen..] == payload.GetOr(Zeros(n))
    {
      SetPayloadLen(n);
      if payload.Some? {
        ghost var sized := mContent;
        mContent := mContent[..mHeadLen] + payload.value;
        SameHeader(sized, mContent, mHeadLen, n);
      }
    }

    method SetPayloadLen(n: nat)
      requires |mContent| == 2 && n < SIZE_LIMIT
      modifies `mHeadLen, `mPayloadLen, `mContent
      ensures mHeadLen == HeaderSize(n) && mPayloadLen == n && |mContent| == mHeadLen + n
      ensures mContent[0] == old(mContent[0]) && MaskBit(mContent[1]) == MaskBit(old(mContent[1]))
      ensures Announces(mContent, n) && mContent[mHeadLen..] == Zeros(n)
    {
      mHeadLen := 2;
      mPayloadLen := n;
      var code: uint8 := 127;
      if n < 126 {
        code := n;
      } else if n < 0x1_0000 {
        code := 126;
        mHeadLen := mHeadLen + 2;
      } else {
        mHeadLen := mHeadLen + 8;
      }
      assert code == LengthCode(n, MinimalForm(n)) && mHeadLen == HeaderSize(n);
      ghost var s := mContent;
      mContent := mContent[1 := MaskBit(mContent[1]) * 128 + code];
      mContent := Resize(mContent, mHeadLen + n);
      ghost var c := mContent;
      Coded(s, code, mHeadLen + n);
      if Length7(mContent[1]) == 126 {
        mContent := mContent[..2] + Word16(n) + mContent[4..];
      } else if Length7(mContent[1]) == 127 {
        mContent := mContent[..2] + Word64(n) + mContent[10..];
      }
      HeaderLaid(c, mContent, n);
    }

    /**
     Collects until `n` bytes are there. `data` is what the C++ code leaves between `begin` and `end`;
     `None` is its null pointer. In every resting state |mBufData| < n, so the error branch is dead.
     */
    method GetData(n: nat, chunk: seq<uint8>, begin: nat) returns (next: Option<nat>, data: seq<uint8>)
      requires begin <= |chunk|
      modifies `mState, `mBufData
      ensures n <= old(|mBufData|) ==> next == None && mBufData == [] && mState == Error
      ensures n > old(|mBufData|) ==>
        var need := n - old(|mBufData|);
        && mState == old(mState)
        && if |chunk| - begin < need then
             next == None && mBufData == old(mBufData) + chunk[begin..]
           else
             && next == Some(begin + need)
             && data == old(mBufData) + chunk[begin..begin + need]
    {
      var have := |chunk| - begin;
      var need := n - |mBufData|;
      data := [];
      if need <= 0 {
        mBufData := [];
        mState := Error;
        return None, [];
      }
      if have < need {
        mBufData := mBufData + chunk[begin..begin + have];
        return None, [];
      }
      next := Some(begin + need);
      if mBufData != [] {
        mBufData := mBufData + chunk[begin..begin + need];
        data := mBufData;
      } else {
        data := chunk[begin..begin + need];
      }
    }

    /** `GetData` as the handlers use it: a field that is not complete ends the pass. */
    method Gather(n: nat, chunk: seq<uint8>, begin: nat, ghost p: Pass) returns (next: Option<nat>, data: seq<uint8>)
      requires Valid() && n == Need(mState) > 0 && Underway(p, View(), chunk, begin)
      modifies `mState, `mBufData
      ensures mState == old(mState) && Laid() && View().(buf := old(mBufData)) == old(View())
      ensures next.None? ==> Reached(p, Stage(mState) + 1, View(), chunk, None)
      ensures next.Some? ==> IsField(old(View()), chunk, begin, next.value, data)
    {
      ghost var m := View();
      next, data := GetData(n, chunk, begin);
      if next == None {
        CollectStep(p, m, View(), chunk, begin, next);
      }
    }

    method OnReadingHead(chunk: seq<uint8>, begin: nat, ghost p: Pass) returns (next: Option<nat>)
      requires Valid() && mState == ReadingHead && Underway(p, View(), chunk, begin)
      modifies this
      ensures Laid() && Reached(p, 1, View(), chunk, next)
    {
      var data;
      ghost var m := View();
      next, data := Gather(2, chunk, begin, p);
      if next == None {
        return;
      }
      if Reserved(data[0]) != 0 || !IsOpcodeValide(data[0]) {
        mState := Error;
        mBufData := [];
        FieldDone(p, m, View(), chunk, begin, None, data);
        return None;
      }
      CompleteIgnoresBuf(m, mBufData, data);
      TakeHead(data);
      FieldDone(p, m, View(), chunk, begin, next, data);
    }

    method TakeHead(data: seq<uint8>)
      requires Laid() && mState == ReadingHead && |data| == 2
      requires Reserved(data[0]) == 0 && IsOpcodeValide(data[0])
      modifies this
      ensures Laid() && View() == Complete(old(View()), data)
    {
      mContent := data + mContent[2..];
      var n := Length7(data[1]);
      if n < 126 {
        SetPayloadLen(n);
        mState := ReadingMask;
      } else if n == 126 {
        mState := ReadingLen16;
      } else {
        mState := ReadingLen64;
      }
      mBufData := [];
    }

    method TakeLength(n: nat)
      requires Laid() && LengthUnknown(mState) && n < SIZE_LIMIT
      modifies this
      ensures Laid() && View() == old(View()).(state := ReadingMask, buf := [], len := n)
    {
      SetPayloadLen(n);
      mState := ReadingMask;
      mBufData := [];
    }

    method OnReadingLen16(chunk: seq<uint8>, begin: nat, ghost p: Pass) returns (next: Option<nat>)
      requires Valid() && mState == ReadingLen16 && Underway(p, View(), chunk, begin)
      modifies this
      ensures Laid() && Reached(p, 2, View(), chunk, next)
    {
      var data;
      ghost var m := View();
      next, data := Gather(2, chunk, begin, p);
      if next == None {
        return;
      }
      CompleteIgnoresBuf(m, mBufData, data);
      TakeLength(Number16(data, 0));
      FieldDone(p, m, View(), chunk, begin, next, data);
    }

    method OnReadingLen64(chunk: seq<uint8>, begin: nat, ghost p: Pass) returns (next: Option<nat>)
      requires Valid() && mState == ReadingLen64 && Underway(p, View(), chunk, begin)
      modifies this
      ensures Laid() && Reached(p, 3, View(), chunk, next)
    {
      var data;
      ghost var m := View();
      next, data := Gather(8, chunk, begin, p);
      if next == None {
        return;
      }
      CompleteIgnoresBuf(m, mBufData, data);
      TakeLength(ClearTopBit(Number64(data, 0)));
      FieldDone(p, m, View(), chunk, begin, next, data);
    }

    method OnReadingMask(chunk: seq<uint8>, begin: nat, ghost p: Pass) returns (next: Option<nat>)
      requires Valid() && mState == ReadingMask && Underway(p, View(), chunk, begin)
      modifies this
      ensures Laid() && Reached(p, 4, View(), chunk, next)
    {
      var data;
      ghost var m := View();
      next, data := Gather(4, chunk, begin, p);
      if next == None {
        return;
      }
      CompleteIgnoresBuf(m, mBufData, data);
      TakeMask(data);
      FieldDone(p, m, View(), chunk, begin, next, data);
    }

    method TakeMask(data: seq<uint8>)
      requires Laid() && mState == ReadingMask && |data| == 4
      modifies this
      ensures Laid() && View() == Complete(old(View()), data)
    {
      mMask := data;
      mLoadedLen := 0;
      mState := ReadingPayload;
      mBufData := [];
    }

    method OnReadingPayload(chunk: seq<uint8>, begin: nat, ghost p: Pass) returns (next: Option<nat>)
      requires Laid() && mState == ReadingPayload && Underway(p, View(), chunk, begin)
      modifies this
      ensures Laid() && Reached(p, 5, View(), chunk, next)
    {
      var have := |chunk| - begin;
      var need := mPayloadLen - mLoadedLen;
      var n := if need > have then have else need;
      ghost var m := View();
      LoadPayload(chunk, begin, n);
      next := None;
      if n == need {
        FinishPayload();
        next := Some(begin + n);
      }
      LoadStep(p, m, View(), chunk, begin, n);
    }

    method FinishPayload()
      requires Laid() && mState == ReadingPayload && mLoadedLen == mPayloadLen
      modifies this
      ensures Laid() && View() == Settle(old(View()))
    {
      ghost var m := View();
      UnMaskPayload();
      WholeBody(mContent, mHeadLen);
      mState := NewMsg;
      SettleComplete(m);
    }

    /** Copies `n` bytes of the chunk behind the payload loaded so far. */
    method LoadPayload(chunk: seq<uint8>, begin: nat, n: nat)
      requires Laid() && mState == ReadingPayload && begin + n <= |chunk| && mLoadedLen + n <= mPayloadLen
      modifies `mContent, `mLoadedLen
      ensures Laid() && View() == old(View()).(body := old(View()).body + chunk[begin..begin + n])
      ensures mLoadedLen == old(mLoadedLen) + n
    {
      mContent := MemCopy(mContent, mHeadLen + mLoadedLen, chunk, begin, n);
      LoadedBody(old(mContent), mContent, mHeadLen, mLoadedLen, chunk, begin, n);
      SameHeader(old(mContent), mContent, mHeadLen, mPayloadLen);
      mLoadedLen := mLoadedLen + n;
    }

    method UnMaskPayload()
      requires Laid() && mState == ReadingPayload && mLoadedLen == mPayloadLen
      modifies `mContent
      ensures Laid() && View() == old(View()).(body := Settle(old(View())).body)
    {
      ghost var was := mContent;
      WholeBody(mContent, mHeadLen);
      XorPayload();
      SameHeader(was, mContent, mHeadLen, mPayloadLen);
      WholeBody(mContent, mHeadLen);
    }

    method XorPayload()
      requires 2 <= mHeadLen && mPayloadLen + mHeadLen == |mContent|
      modifies `mContent
      ensures |mContent| == old(|mContent|) && mContent[..mHeadLen] == old(mContent[..mHeadLen])
      ensures mContent[mHeadLen..] == if MaskBit(old(mContent[1])) != 0 then ApplyMask(old(mContent[mHeadLen..]), mMask)
                                      else old(mContent[mHeadLen..])
    {
      if MaskBit(mContent[1]) == 0 {
        return;
      }
      ghost var head, masked := mContent[..mHeadLen], mContent[mHeadLen..];
      ghost var plain := ApplyMask(masked, mMask);
      var i := 0;
      while i < mPayloadLen
        invariant i <= mPayloadLen
        invariant mContent == head + plain[..i] + masked[i..]
      {
        PatchNext(head, plain, masked, i);
        MaskedAt(masked, mMask, i);
        XorAt(i);
        i := i + 1;
      }
      AllPatched(mContent, head, plain, masked);
    }

    method XorAt(i: nat)
      requires mHeadLen + i < |mContent|
      modifies `mContent
      ensures mContent == old(mContent)[mHeadLen + i := Xor(old(mContent)[mHeadLen + i], mMask[i % 4])]
    {
      mContent := mContent[mHeadLen + i := Xor(mContent[mHeadLen + i], mMask[i % 4])];
    }

    /** The first part of a pass: the head. */
    method ParseHead(chunk: seq<uint8>, begin: nat, ghost p: Pass) returns (next: Option<nat>)
      requires Valid() && p == Pass(View(), begin) && begin < |chunk|
      modifies this
      ensures Laid() && Reached(p, 1, View(), chunk, next)
    {
      PassBegins(p, chunk);
      next := Some(begin);
      if mState == ReadingHead {
        next := OnReadingHead(chunk, begin, p);
      }
    }

    /** The second part of a pass: the extended length. */
    method ParseLength(chunk: seq<uint8>, begin: Option<nat>, ghost p: Pass) returns (next: Option<nat>)
      requires Laid() && Reached(p, 1, View(), chunk, begin)
      modifies this
      ensures Laid() && Reached(p, 3, View(), chunk, next)
    {
      next := begin;
      if next.Some? && mState == ReadingLen16 {
        next := OnReadingLen16(chunk, next.value, p);
      }
      if next.Some? && mState == ReadingLen64 {
        next := OnReadingLen64(chunk, next.value, p);
      }
    }

    /** The rest of a pass: the masking key and the payload. */
    method ParseBody(chunk: seq<uint8>, begin: Option<nat>, ghost p: Pass) returns (next: Option<nat>)
      requires Laid() && Reached(p, 3, View(), chunk, begin)
      modifies this
      ensures Laid() && Reached(p, 5, View(), chunk, next)
    {
      next := begin;
      if next.Some? && mState == ReadingMask {
        next := OnReadingMask(chunk, next.value, p);
      }
      if next.Some? && mState == ReadingPayload {
        next := OnReadingPayload(chunk, next.value, p);
      }
    }

    /** One pass of the loop in `Parse`; `leave` says whether the pass ends in a `break`. */
    method ParsePass(chunk: seq<uint8>, begin: nat) returns (next: Option<nat>, leave: bool)
      requires Valid() && begin < |chunk|
      modifies this
      ensures leave <==> old(mState) != BuiltMsg
      ensures Valid() && Passed(Pass(old(View()), begin), View(), chunk, next)
    {
      ghost var p := Pass(View(), begin);
      next := ParseHead(chunk, begin, p);
      next := ParseLength(chunk, next, p);
      next := ParseBody(chunk, next, p);
      PassEnds(p, View(), chunk, next);
      leave := next.None? || mState == NewMsg || mState == Error;
    }

    /**
     The fold of everything up to `next`, or of the whole chunk when `next` is the null pointer.
     A built message never gets here: the C++ loop would repeat an idle pass for ever (`ParsePass`).
     That the metric decreases says the body runs at most once.
     */
    method Parse(chunk: seq<uint8>, begin: nat) returns (next: Option<nat>)
      requires Valid() && mState != BuiltMsg && begin < |chunk|
      modifies this
      ensures Valid() && mState != BuiltMsg
      ensures Passed(Pass(old(View()), begin), View(), chunk, next)
    {
      next := Some(begin);
      var left := false;
      while !left && next.Some? && next.value < |chunk|
        invariant Valid() && mState != BuiltMsg
        invariant if left then Passed(Pass(old(View()), begin), View(), chunk, next)
                  else next == Some(begin) && View() == old(View())
        decreases !left
      {
        next, left := ParsePass(chunk, next.value);
        BuiltOnlyByBuilding(old(View()), Taken(chunk, begin, next));
      }
    }

    /** The bytes of a completed message. */
    lemma NewContent()
      requires Laid() && (mState == NewMsg || mState == BuiltMsg)
      ensures mContent == HeaderOf(mContent[0], View().masked, View().len) + View().body
    {
      HeaderDetermined(mContent, mPayloadLen);
      assert mContent == mContent[..mHeadLen] + mContent[mHeadLen..];
    }

    method PreSend(opcode: uint8)
      requires |mContent| >= 2
      modifies `mContent
      ensures mContent == PreSendContent(old(mContent), opcode)
    {
      mContent := mContent[0 := Head0(true, opcode % 16)];
      mContent := mContent[1 := mContent[1] % 128];
    }
  }

  /** Replacing the next byte moves the seam between the bytes done and the bytes to do. */
  lemma PatchNext(head: seq<uint8>, done: seq<uint8>, todo: seq<uint8>, i: nat)
    requires i < |done| == |todo|
    ensures (head + done[..i] + todo[i..])[|head| + i] == todo[i]
    ensures (head + done[..i] + todo[i..])[|head| + i := done[i]] == head + done[..i + 1] + todo[i + 1..]
  {}

  /** The first two bytes of a header that is being laid out. */
  lemma Coded(s: seq<uint8>, code: uint8, size: nat)
    requires |s| == 2 && code < 128 && 2 <= size
    ensures
      var b1 := MaskBit(s[1]) * 128 + code;
      && b1 < 256 && MaskBit(b1) == MaskBit(s[1]) && Length7(b1) == code
      && Resize(s[1 := b1], size) == [s[0], b1] + Zeros(size - 2)
  {
    assert s[1 := MaskBit(s[1]) * 128 + code] == [s[0], MaskBit(s[1]) * 128 + code];
  }

  /** The length field is written over zeros. */
  lemma HeaderLaid(c: seq<uint8>, t: seq<uint8>, n: nat)
    requires n < SIZE_LIMIT && |c| == HeaderSize(n) + n && c[2..] == Zeros(|c| - 2)
    requires Length7(c[1]) == LengthCode(n, MinimalForm(n))
    requires if MinimalForm(n) == Short then t == c
             else t == c[..2] + LengthField(n, MinimalForm(n)) + c[HeaderSize(n)..]
    ensures |t| == |c| && t[0] == c[0] && t[1] == c[1] && Announces(t, n) && t[HeaderSize(n)..] == Zeros(n)
  {
    var field := LengthField(n, MinimalForm(n));
    assert forall i :: HeaderSize(n) <= i < |c| ==> c[i] == c[2..][i - 2] == 0;
    if MinimalForm(n) != Short {
      assert t[2..HeaderSize(n)] == field;
      if MinimalForm(n) == Medium {
        Word16Value(n, t, 2);
      } else {
        Word64Value(n, t, 2);
      }
    }
  }

  lemma AllPatched(s: seq<uint8>, head: seq<uint8>, done: seq<uint8>, todo: seq<uint8>)
    requires |done| == |todo| && s == head + done[..|done|] + todo[|done|..]
    ensures s[..|head|] == head && s[|head|..] == done
  {}

  lemma SameHeader(s: seq<uint8>, t: seq<uint8>, head: nat, n: nat)
    requires head == HeaderSize(n) && head <= |s| && head <= |t| && t[..head] == s[..head]
    ensures t[0] == s[0] && t[1] == s[1]
    ensures Announces(s, n) <==> Announces(t, n)
  {
    assert forall i | 0 <= i < head :: t[i] == t[..head][i] == s[..head][i] == s[i];
  }

  /** What the header announces determines its bytes. */
  lemma HeaderDetermined(content: seq<uint8>, n: nat)
    requires n < SIZE_LIMIT && |content| >= HeaderSize(n) && Announces(content, n)
    ensures content[..HeaderSize(n)] == HeaderOf(content[0], MaskBit(content[1]) != 0, n)
  {
    if MinimalForm(n).Medium? {
      Word16Bytes(content, 2);
    } else if MinimalForm(n).Long? {
      Word64Bytes(content, 2);
    }
  }

  lemma ContentDetermined(content: seq<uint8>, opcode: uint8, payload: seq<uint8>)
    requires |payload| < SIZE_LIMIT && |content| == HeaderSize(|payload|) + |payload| && Announces(content, |payload|)
    requires content[0] == Head0(true, opcode % 16) && MaskBit(content[1]) == 0
    requires content[HeaderSize(|payload|)..] == payload
    ensures content == BuiltContent(opcode, payload)
  {
    var head := HeaderSize(|payload|);
    HeaderDetermined(content, |payload|);
    assert content == content[..head] + content[head..];
  }

  /** memcpy from `src` at `from` into `dst` at `at`. */
  method MemCopy(dst: seq<uint8>, at: nat, src: seq<uint8>, from: nat, n: nat) returns (r: seq<uint8>)
    requires at + n <= |dst| && from + n <= |src|
    ensures |r| == |dst| && r[..at] == dst[..at] && r[at..at + n] == src[from..from + n]
  {
    r := dst[..at] + src[from..from + n] + dst[at + n..];
  }

  lemma LoadedBody(s: seq<uint8>, t: seq<uint8>, head: nat, loaded: nat, src: seq<uint8>, from: nat, n: nat)
    requires head + loaded + n <= |t| && |s| == |t| && from + n <= |src|
    requires t[..head + loaded] == s[..head + loaded]
    requires t[head + loaded..head + loaded + n] == src[from..from + n]
    ensures t[..head] == s[..head]
    ensures t[head..head + (loaded + n)] == s[head..head + loaded] + src[from..from + n]
  {
    assert t[..head] == t[..head + loaded][..head];
    assert t[head..head + loaded] == t[..head + loaded][head..] == s[head..head + loaded];
    assert t[head..head + (loaded + n)] == t[head..head + loaded] + t[head + loaded..head + loaded + n];
  }

  lemma SettleComplete(m: Msg)
    requires m.state == ReadingPayload && |m.body| == m.len
    ensures Settle(m) == m.(body := Settle(m).body, state := NewMsg)
  {}

  lemma WholeBody(s: seq<uint8>, head: nat)
    requires head <= |s|
    ensures s[head..|s|] == s[head..]
  {}

  // ----- positions in a chunk; `None` is the C++ null pointer, which drops the rest of the chunk -----

  predicate InChunk(chunk: seq<uint8>, begin: nat, next: Option<nat>) {
    begin <= |chunk| && (next.Some? ==> begin <= next.value <= |chunk|)
  }

  function Taken(chunk: seq<uint8>, begin: nat, next: Option<nat>): seq<uint8>
    requires InChunk(chunk, begin, next)
  {
    if next.Some? then chunk[begin..next.value] else chunk[begin..]
  }

  /** How much of a chunk's `rest` a collecting handler takes. */
  function Share(m: Msg, rest: nat): (n: nat)
    requires |m.buf| < Need(m.state)
    ensures n <= rest && |m.buf| + n <= Need(m.state)
  {
    var need := Need(m.state) - |m.buf|;
    if rest < need then rest else need
  }

  /**
   A handler's contract: `r` is the fold of the bytes it took from `cur` on. It takes the whole rest when
   it waits for more or refuses the head; otherwise a later state's handler, or none, takes over.
   */
  ghost predicate Stepped(m: Msg, r: Msg, chunk: seq<uint8>, cur: nat, next: Option<nat>) {
    if next.None? then
      cur <= |chunk| && Run(Settle(m), chunk[cur..]) == r && Resting(r) && !r.state.NewMsg? && !r.state.BuiltMsg?
    else
      && cur <= next.value <= |chunk|
      && Run(Settle(m), chunk[cur..next.value]) == Settle(r)
      && Shaped(r) && Stage(r.state) > Stage(m.state) && !r.state.BuiltMsg? && !r.state.Error?
      && (next.value > cur || !Resting(m))
  }

  /** Between two handlers: at rest, but for a payload that is complete and not yet settled. */
  predicate Shaped(m: Msg) {
    if m.state == ReadingPayload then m.buf == [] && |m.body| <= m.len else Resting(m)
  }

  lemma CollectStep(p: Pass, m: Msg, r: Msg, chunk: seq<uint8>, cur: nat, next: Option<nat>)
    requires Resting(m) && Need(m.state) > 0 && Underway(p, m, chunk, cur)
    requires var n := Share(m, |chunk| - cur);
             && r == Collect(m, chunk[cur..cur + n])
             && next == if |m.buf| + n < Need(m.state) || r.state == Error then None else Some(cur + n)
    ensures Reached(p, Stage(m.state) + 1, r, chunk, next)
  {
    CollectStepped(m, r, chunk, cur, next);
    Advance(p, m, r, chunk, cur, next);
  }

  /** The bytes from `begin` on complete the field that `m` is reading, which is `data`. */
  ghost predicate IsField(m: Msg, chunk: seq<uint8>, begin: nat, next: nat, data: seq<uint8>) {
    && |m.buf| < Need(m.state) == |data| && begin + (Need(m.state) - |m.buf|) == next <= |chunk|
    && data == m.buf + chunk[begin..next]
  }

  lemma FieldDone(
      p: Pass, m: Msg, r: Msg, chunk: seq<uint8>, begin: nat, next: Option<nat>, data: seq<uint8>)
    requires Resting(m) && Need(m.state) > 0 && Underway(p, m, chunk, begin)
    requires IsField(m, chunk, begin, begin + (Need(m.state) - |m.buf|), data) && r == Complete(m, data)
    requires next == if r.state == Error then None else Some(begin + (Need(m.state) - |m.buf|))
    ensures Reached(p, Stage(m.state) + 1, r, chunk, next)
  {
    FieldCollected(m, chunk, begin, begin + (Need(m.state) - |m.buf|), data);
    CollectStep(p, m, r, chunk, begin, next);
  }

  lemma FieldCollected(m: Msg, chunk: seq<uint8>, begin: nat, next: nat, data: seq<uint8>)
    requires IsField(m, chunk, begin, next, data)
    ensures Share(m, |chunk| - begin) == next - begin && Collect(m, chunk[begin..next]) == Complete(m, data)
  {}

  lemma CollectStepped(m: Msg, r: Msg, chunk: seq<uint8>, cur: nat, next: Option<nat>)
    requires Resting(m) && Need(m.state) > 0 && cur <= |chunk|
    requires var n := Share(m, |chunk| - cur);
             && r == Collect(m, chunk[cur..cur + n])
             && next == if |m.buf| + n < Need(m.state) || r.state == Error then None else Some(cur + n)
    ensures Stepped(m, r, chunk, cur, next)
  {
    var n := Share(m, |chunk| - cur);
    SettleAtRest(m);
    if next.None? {
      CollectWaits(m, r, chunk, cur, n);
    } else {
      CollectGoesOn(m, r, chunk, cur, n);
    }
  }

  /** A field is not complete, or it is refused. */
  lemma CollectWaits(m: Msg, r: Msg, chunk: seq<uint8>, cur: nat, n: nat)
    requires Resting(m) && Need(m.state) > 0 && cur + n <= |chunk| && |m.buf| + n <= Need(m.state)
    requires r == Collect(m, chunk[cur..cur + n])
    requires r.state == Error || (cur + n == |chunk| && |m.buf| + n < Need(m.state))
    ensures Run(m, chunk[cur..]) == r && Resting(r) && !r.state.NewMsg? && !r.state.BuiltMsg?
  {
    var data := chunk[cur..cur + n];
    CollectAdvances(m, data);
    CollectIsRun(m, data);
    assert Settle(r) == r;
    WholeRest(m, r, chunk, cur, n);
  }

  /** A field is complete. */
  lemma CollectGoesOn(m: Msg, r: Msg, chunk: seq<uint8>, cur: nat, n: nat)
    requires Resting(m) && Need(m.state) > 0 && cur + n <= |chunk| && |m.buf| + n == Need(m.state)
    requires r == Collect(m, chunk[cur..cur + n]) && r.state != Error
    ensures Run(m, chunk[cur..cur + n]) == Settle(r) && Shaped(r)
    ensures Stage(r.state) > Stage(m.state) && !r.state.BuiltMsg? && n > 0
  {
    var data := chunk[cur..cur + n];
    CollectAdvances(m, data);
    CollectIsRun(m, data);
    ShapedIfSettled(r);
  }

  lemma ShapedIfSettled(r: Msg)
    requires Resting(Settle(r)) && !r.state.NewMsg?
    ensures Shaped(r)
  {}

  lemma WholeRest(m: Msg, r: Msg, chunk: seq<uint8>, cur: nat, n: nat)
    requires cur + n <= |chunk| && Run(m, chunk[cur..cur + n]) == r
    requires r.state == Error || cur + n == |chunk|
    ensures Run(m, chunk[cur..]) == r
  {
    if r.state == Error {
      RunRefused(m, r, chunk, cur, cur + n);
    } else {
      assert chunk[cur..] == chunk[cur..cur + n];
    }
  }

  lemma SettleAtRest(m: Msg)
    requires Resting(m)
    ensures Settle(m) == m
  {}

  lemma LoadStep(p: Pass, m: Msg, r: Msg, chunk: seq<uint8>, cur: nat, n: nat)
    requires m.state == ReadingPayload && Underway(p, m, chunk, cur)
    requires n == if m.len - |m.body| > |chunk| - cur then |chunk| - cur else m.len - |m.body|
    requires r == Settle(m.(body := m.body + chunk[cur..cur + n]))
    ensures Reached(p, Stage(m.state) + 1, r, chunk, if n == m.len - |m.body| then Some(cur + n) else None)
  {
    LoadStepped(m, r, chunk, cur, n);
    Advance(p, m, r, chunk, cur, if n == m.len - |m.body| then Some(cur + n) else None);
  }

  lemma LoadStepped(m: Msg, r: Msg, chunk: seq<uint8>, cur: nat, n: nat)
    requires m.state == ReadingPayload && m.buf == [] && |m.body| <= m.len && cur <= |chunk|
    requires n == if m.len - |m.body| > |chunk| - cur then |chunk| - cur else m.len - |m.body|
    requires r == Settle(m.(body := m.body + chunk[cur..cur + n]))
    ensures Stepped(m, r, chunk, cur, if n == m.len - |m.body| then Some(cur + n) else None)
  {
    LoadIsRun(m, chunk[cur..cur + n]);
    if n < m.len - |m.body| {
      assert chunk[cur..] == chunk[cur..cur + n];
    }
  }

  /** A pass of `Parse` over a chunk: the message it began with, and where. */
  datatype Pass = Pass(first: Msg, start: nat)

  /** The end of a pass: `r` is the fold of the bytes taken, and a position comes back only from a stopped message. */
  ghost predicate Passed(p: Pass, r: Msg, chunk: seq<uint8>, next: Option<nat>) {
    && InChunk(chunk, p.start, next)
    && r == Run(p.first, Taken(chunk, p.start, next))
    && (next.Some? ==> if p.first.Stopped() then next.value == p.start else next.value > p.start && r.state.NewMsg?)
    && (next.None? ==> !r.state.NewMsg? && !p.first.Stopped())
  }

  /** Between two handlers of a pass, at position `cur`. */
  ghost predicate Underway(p: Pass, m: Msg, chunk: seq<uint8>, cur: nat) {
    && p.start <= cur <= |chunk|
    && Run(p.first, chunk[p.start..cur]) == Settle(m)
    && Shaped(m)
    && (if cur == p.start then m == p.first && Resting(m) else !p.first.Stopped())
  }

  /** The first `stages` handlers are done: the pass is over, or a later state's handler takes over. */
  ghost predicate Reached(p: Pass, stages: nat, r: Msg, chunk: seq<uint8>, next: Option<nat>) {
    if next.None? then Resting(r) && Passed(p, r, chunk, next)
    else
      && Underway(p, r, chunk, next.value)
      && Stage(r.state) >= stages
      && (r != p.first ==> !r.state.BuiltMsg? && !r.state.Error?)
  }

  lemma PassBegins(p: Pass, chunk: seq<uint8>)
    requires p.start <= |chunk| && Resting(p.first)
    ensures Underway(p, p.first, chunk, p.start)
  {
    FoldStretch(Step, p.first, chunk, p.start, p.start, p.start);
  }

  lemma PassEnds(p: Pass, m: Msg, chunk: seq<uint8>, next: Option<nat>)
    requires Reached(p, 5, m, chunk, next)
    ensures Resting(m) && Passed(p, m, chunk, next)
    ensures next.Some? && m != p.first ==> m.state == NewMsg
    ensures next.None? ==> !p.first.Stopped()
    ensures next.Some? && p.first.Stopped() ==> m == p.first
  {
    if next.Some? && p.first.Stopped() {
      assert next.value == p.start;
    }
  }

  /** One handler further along a chunk. */
  lemma Advance(p: Pass, m: Msg, r: Msg, chunk: seq<uint8>, cur: nat, next: Option<nat>)
    requires Underway(p, m, chunk, cur) && !m.Stopped() && Stepped(m, r, chunk, cur, next)
    ensures Reached(p, Stage(m.state) + 1, r, chunk, next)
  {
    var end := if next.None? then |chunk| else next.value;
    FoldStretch(Step, p.first, chunk, p.start, cur, end);
  }

  lemma RunRefused(m: Msg, r: Msg, chunk: seq<uint8>, begin: nat, cur: nat)
    requires begin <= cur <= |chunk| && Run(m, chunk[begin..cur]) == r && r.state == Error
    ensures Run(m, chunk[begin..]) == r
  {
    FoldStretch(Step, m, chunk, begin, cur, |chunk|);
    RunStopped(r, chunk[cur..]);
  }

  /** The lookup in `gEWsOpcodeToStringMap`, whose keys are the known opcodes and UNKNOWN (11). */
  predicate IsOpcodeValide(b0: uint8)
    ensures IsOpcodeValide(b0) <==> KnownOpcode(Opcode(b0))
  {
    Opcode(b0) in {0, 1, 2, 8, 9, 10, 11} && Opcode(b0) != 11
  }

  lemma {:induction false} BuiltOnlyByBuilding(m: Msg, bytes: seq<uint8>)
    requires m.state != BuiltMsg
    ensures Run(m, bytes).state != BuiltMsg
    decreases |bytes|
  {
    if |bytes| > 0 {
      RunNext(m, bytes);
      BuiltOnlyByBuilding(Step(m, bytes[0]), bytes[1..]);
    }
  }

  // ----- building, and echoing a received message -----

  /** Built bytes are a standard frame with the minimal length form, unless the length does not fit 63 bits. */
  lemma BuiltDecodes(opcode: uint8, payload: seq<uint8>)
    requires |payload| < SIZE_LIMIT
    ensures Decode(BuiltContent(opcode, payload)) ==
            if |payload| < LONG_LIMIT
            then Some(Frame(true, opcode % 16, MinimalForm(|payload|), None, payload))
            else None
  {
    var n := |payload|;
    var bytes := BuiltContent(opcode, payload);
    if n < LONG_LIMIT {
      var f := Frame(true, opcode % 16, MinimalForm(n), None, payload);
      assert bytes == Encode(f);
      DecodeEncode(f);
    } else {
      assert bytes[1] == 127;
      assert bytes[2..10] == Word64(n);
      Word64Value(n, bytes, 2);
    }
  }

  /** No frame with this opcode and payload that a server may send has a shorter encoding than the built one. */
  lemma BuiltIsShortest(opcode: uint8, f: Frame)
    requires f.Valid() && f.mask.None? && f.opcode == opcode % 16
    ensures |BuiltContent(opcode, f.payload)| <= |Encode(f)|
    ensures |BuiltContent(opcode, f.payload)| == |Encode(f)| && f.fin ==> BuiltContent(opcode, f.payload) == Encode(f)
  {
    MinimalFormIsMinimal(|f.payload|, f.form);
  }

  /** However a client framed a payload, `PreSend` makes of the received content the one a fresh build makes. */
  lemma PreSendEqualsBuild(m: WebSocketMsg, f: Frame, opcode: uint8)
    requires f.FromClient() && |f.payload| < SIZE_LIMIT && m.Laid() && m.View() == Run(FRESH, Encode(f))
    ensures PreSendContent(m.mContent, opcode) == BuiltContent(opcode, f.payload)
  {
    RunFrame(f);
    m.NewContent();
    PreSendHeader(m.mContent, m.mContent[0], f.payload, opcode);
  }

  lemma PreSendHeader(content: seq<uint8>, b0: uint8, payload: seq<uint8>, opcode: uint8)
    requires |payload| < SIZE_LIMIT && content == HeaderOf(b0, true, |payload|) + payload
    ensures PreSendContent(content, opcode) == BuiltContent(opcode, payload)
  {}
}
