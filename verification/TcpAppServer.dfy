/** `TcpAppServer`: the table of sessions, in which a session can be replaced when its protocol is upgraded. */
module TcpAppServerModule {
  import opened Bytes
  import opened PollEventHandlerModule
  import opened SendQueueModule
  import opened SlotTable
  import Loop = EventLoopModule

  // ----- the table as a value -----

  /** Another session in the same place. */
  function Replaced<T>(s: Slots<T>, i: nat, x: T): Slots<T>
    requires i < |s.items|
  {
    s.(items := s.items[i := Some(x)])
  }

  lemma ReplaceKeepsTidyExactly<T>(s: Slots<T>, i: nat, was: T, x: T)
    requires Tidy(s) && At(s, i, was)
    ensures Tidy(Replaced(s, i, x)) <==> x == was || !On(s, x)
    ensures At(Replaced(s, i, x), i, x) && Live(Replaced(s, i, x)) == Live(s)
    ensures forall k, y :: k != i && At(s, k, y) ==> At(Replaced(s, i, x), k, y)
  {
    var u := Replaced(s, i, x);
    if x == was {
      assert u.items == s.items;
    } else if On(s, x) {
      assert At(s, Place(s, x), x);
      assert Twins(u, Place(s, x), i);
    } else {
      NotAt(s, x);
      forall k, l | Twins(u, k, l) ensures k == l {
        if k != i && l != i {
          assert Twins(s, k, l);
        }
      }
    }
  }

  datatype Op<T> = Add(x: T) | Release(x: T) | Replace(was: T, x: T)

  /** What an operation is meant for: to add what is not in the table, to release or replace what is. */
  ghost predicate Possible<T>(s: Slots<T>, op: Op<T>) {
    match op
    case Add(x) => !On(s, x)
    case Release(x) => On(s, x)
    case Replace(was, x) => On(s, was) && !On(s, x)
  }

  ghost function Do<T>(s: Slots<T>, op: Op<T>): (u: Slots<T>)
    requires Tidy(s) && Possible(s, op)
    ensures Tidy(u)
  {
    match op
    case Add(x) =>
      InsertKeepsValidExactly(s, x);
      Insert(s, x)
    case Release(x) =>
      ClearKeepsValid(s, Place(s, x), x);
      Clear(s, Place(s, x))
    case Replace(was, x) =>
      ReplaceKeepsTidyExactly(s, Place(s, was), was, x);
      Replaced(s, Place(s, was), x)
  }

  /** The table after the operations; `None` if one of them is not possible in its turn. */
  ghost function After<T>(ops: seq<Op<T>>): (r: Option<Slots<T>>)
    ensures r.Some? ==> Tidy(r.value)
    decreases |ops|
  {
    if |ops| == 0 then Some(Slots([], []))
    else
      match After(ops[..|ops| - 1])
      case None => None
      case Some(s) => if Possible(s, ops[|ops| - 1]) then Some(Do(s, ops[|ops| - 1])) else None
  }

  ghost function Peak<T>(ops: seq<Op<T>>): int
    requires After(ops).Some?
    decreases |ops|
  {
    if |ops| == 0 then 0
    else
      var before, now := Peak(ops[..|ops| - 1]), Live(After(ops).value);
      if now > before then now else before
  }

  /** Over every run holes are reused: there are never more places than there were sessions at one time. */
  lemma {:induction false} HolesAreReused<T>(ops: seq<Op<T>>)
    requires After(ops).Some?
    ensures |After(ops).value.items| == Peak(ops)
    decreases |ops|
  {
    if |ops| > 0 {
      var last := |ops| - 1;
      HolesAreReused(ops[..last]);
      PlacesGrow(After(ops[..last]).value, ops[last]);
    }
  }

  lemma PlacesGrow<T>(s: Slots<T>, op: Op<T>)
    requires Tidy(s) && Possible(s, op) && Live(s) <= |s.items|
    ensures
      var u := Do(s, op);
      && Live(u) <= |u.items|
      && |u.items| == if Live(u) > |s.items| then Live(u) else |s.items|
  {
    if op.Add? {
      FreeIsFree(s);
      InsertKeepsFree(s, op.x);
    }
  }

  /** No operation moves a session that it is not about. */
  lemma OthersStay<T>(s: Slots<T>, op: Op<T>, y: T)
    requires Tidy(s) && Possible(s, op) && On(s, y)
    requires (op.Release? ==> op.x != y) && (op.Replace? ==> op.was != y)
    ensures On(Do(s, op), y) && Place(Do(s, op), y) == Place(s, y)
  {
    var u, i := Do(s, op), Place(s, y);
    match op {
      case Add(x) => InsertKeepsValidExactly(s, x);
      case Release(x) => ClearKeepsValid(s, Place(s, x), x);
      case Replace(was, x) => ReplaceKeepsTidyExactly(s, Place(s, was), was, x);
    }
    assert At(u, i, y);
    PlaceIs(u, i, y);
  }

  // ----- the classes -----

  class Handler {
    var mIdx: nat
    var mWakeUpper: WakeUpper?

    constructor (wakeUpper: WakeUpper?)
      ensures mWakeUpper == wakeUpper
    {
      mIdx := 0;
      mWakeUpper := wakeUpper;
    }
  }

  ghost function HandlersIn(items: seq<Option<Handler>>): set<Handler> {
    set i | 0 <= i < |items| && items[i].Some? :: items[i].value
  }

  ghost predicate AllWired(items: seq<Option<Handler>>)
    reads HandlersIn(items)`mWakeUpper
  {
    && (forall i :: 0 <= i < |items| && items[i].Some? ==> items[i].value.mWakeUpper != null)
    && (forall i, j :: 0 <= i < j < |items| && items[i].Some? && items[j].Some? ==>
          items[i].value.mWakeUpper != items[j].value.mWakeUpper)
  }

  lemma PutWired(items: seq<Option<Handler>>, idx: nat, ptr: Handler)
    requires AllWired(items) && idx <= |items| && ptr.mWakeUpper != null
    requires forall h :: h in HandlersIn(items) ==> h.mWakeUpper != ptr.mWakeUpper
    ensures AllWired(Put(items, idx, Some(ptr)))
  {
    assert forall i :: 0 <= i < |items| && items[i].Some? ==> items[i].value in HandlersIn(items);
  }

  class TcpAppServer {
    const mLoop: Loop.PollLoop    // of mServer
    var mHandlers: seq<Option<Handler>>
    var mHoles: seq<nat>

    ghost function View(): Slots<Handler>
      reads this
    {
      Slots(mHandlers, mHoles)
    }

    ghost function Members(): set<Handler>
      reads this
    {
      HandlersIn(mHandlers)
    }

    /** The holes are the empty places, and every session knows its place. */
    ghost predicate Sound()
      reads this, Members()`mIdx
    {
      Tidy(View()) && forall i :: 0 <= i < |mHandlers| && mHandlers[i].Some? ==> mHandlers[i].value.mIdx == i
    }

    /** Every session can be woken, each by its own wake-upper. */
    ghost predicate Wired()
      reads this, Members()`mWakeUpper
    {
      AllWired(mHandlers)
    }

    ghost function WakeUppers(): set<WakeUpper?>
      reads this, Members()`mWakeUpper
    {
      set h | h in Members() :: h.mWakeUpper
    }

    constructor (loop: Loop.PollLoop)
      ensures Sound() && Wired() && View() == Slots([], []) && mLoop == loop
    {
      mLoop, mHandlers, mHoles := loop, [], [];
    }

    method GetFreeHandlerIdx() returns (idx: nat)
      requires Tidy(View())
      modifies this
      ensures idx == FreeIdx(old(View())) <= |old(mHandlers)|
      ensures mHandlers == Put(old(mHandlers), idx, None)
      ensures mHoles == if old(mHoles) == [] then [] else old(mHoles)[..|old(mHoles)| - 1]
    {
      FreeIsFree(View());
      if mHoles == [] {
        idx := |mHandlers|;
        mHandlers := mHandlers + [None];
      } else {
        idx := mHoles[|mHoles| - 1];
        mHoles := mHoles[..|mHoles| - 1];
        mHandlers := mHandlers[idx := None];
      }
    }

    /** Keeps the table sound exactly for a session that is not in it yet. */
    method AddHandler(ptr: Handler)
      requires Sound()
      modifies this, ptr`mIdx
      ensures View() == Insert(old(View()), ptr) && ptr.mIdx == FreeIdx(old(View()))
      ensures Sound() <==> !On(old(View()), ptr)
      ensures old(Wired()) && ptr.mWakeUpper != null && ptr.mWakeUpper !in old(WakeUppers()) ==> Wired()
    {
      ghost var slots := View();
      InsertKeepsValidExactly(slots, ptr);
      EnterNew(ptr);
      if old(Wired()) && ptr.mWakeUpper != null && ptr.mWakeUpper !in old(WakeUppers()) {
        assert AllWired(slots.items);
        PutWired(slots.items, ptr.mIdx, ptr);
      }
    }

    /** Everything but the wake-uppers. */
    method EnterNew(ptr: Handler)
      requires Sound()
      modifies this, ptr`mIdx
      ensures View() == Insert(old(View()), ptr) && ptr.mIdx == FreeIdx(old(View()))
      ensures Sound() <==> !On(old(View()), ptr)
    {
      ghost var slots := View();
      InsertKeepsValidExactly(slots, ptr);
      Enter(ptr);
      if !On(slots, ptr) {
        NotAt(slots, ptr);
      }
    }

    method Enter(ptr: Handler)
      requires Tidy(View())
      modifies this, ptr`mIdx
      ensures View() == Insert(old(View()), ptr) && ptr.mIdx == FreeIdx(old(View()))
    {
      ghost var slots := View();
      FreeIsFree(slots);
      var idx := GetFreeHandlerIdx();
      ptr.mIdx := idx;
      mHandlers := mHandlers[idx := Some(ptr)];
      assert mHandlers == Put(slots.items, idx, Some(ptr));
    }

    /** The session has a wake-upper, and that is on the loop. */
    ghost predicate Wakeable(ptr: Handler)
      reads ptr, mLoop
    {
      ptr.mWakeUpper != null && On(mLoop.View().slots, ptr.mWakeUpper.mEventHandler)
    }

    /**
     Trips an assert exactly if the session is not in the table or its wake-upper not on the loop. An index past
     the end of the table, which the code does not check for, counts as a failed assert, and so does a session
     without a wake-upper.
     */
    method ReleaseHandler(ptr: Handler) returns (r: Outcome<bool>)
      requires Sound() && mLoop.Sound()
      modifies this, ptr`mWakeUpper, mLoop
      modifies (if ptr.mWakeUpper == null then {} else {ptr.mWakeUpper.mEventHandler})`mLoopIdx
      ensures r == if On(old(View()), ptr) && old(Wakeable(ptr)) then Returned(true) else Aborted
      ensures r.Returned? ==> On(old(View()), ptr) && View() == Clear(old(View()), Place(old(View()), ptr))
      ensures r.Returned? ==>
        && old(Wakeable(ptr)) && mLoop.Sound()
        && var t, waker := old(mLoop.View()), old(ptr.mWakeUpper).mEventHandler;
        mLoop.View() == Loop.UnApply(t, Place(t.slots, waker)) && waker.mLoopIdx == -1
      ensures r.Returned? ==> Sound() && ptr.mWakeUpper == null && (old(Wired()) ==> Wired())
    {
      ghost var slots := View();
      assert On(slots, ptr) ==> Place(slots, ptr) == ptr.mIdx;
      if !(ptr.mIdx < |mHandlers| && mHandlers[ptr.mIdx] == Some(ptr)) {
        return Aborted;
      }
      assert At(slots, ptr.mIdx, ptr);
      if ptr.mWakeUpper == null {
        return Aborted;
      }
      PlaceIs(slots, ptr.mIdx, ptr);
      r := mLoop.UnApplyHandlerOnLoop(ptr.mWakeUpper.mEventHandler);
      if r.Aborted? {
        return;
      }
      Forget(ptr);
    }

    /** The end of `ReleaseHandler`: the wake-upper goes, and the place is a hole. */
    method Forget(ptr: Handler)
      requires Sound() && At(View(), ptr.mIdx, ptr)
      modifies this, ptr`mWakeUpper
      ensures View() == Clear(old(View()), ptr.mIdx) && ptr.mWakeUpper == null
      ensures Sound() && (old(Wired()) ==> Wired())
    {
      ClearKeepsValid(View(), ptr.mIdx, ptr);
      ptr.mWakeUpper := null;
      mHandlers := mHandlers[ptr.mIdx := None];
      mHoles := mHoles + [ptr.mIdx];
    }

    /** Puts `ptr` in the place of `ori` and hands it the wake-upper; nobody else is moved. */
    method ReplaceHandler(ori: Handler, ptr: Handler) returns (r: Outcome<bool>)
      requires Sound()
      modifies this, ori`mWakeUpper, ptr`mWakeUpper, ptr`mIdx
      ensures r == if On(old(View()), ori) then Returned(true) else Aborted
      ensures r.Returned? ==> On(old(View()), ori) && View() == Replaced(old(View()), Place(old(View()), ori), ptr)
      ensures r.Returned? ==> ptr.mWakeUpper == old(ori.mWakeUpper) && (ptr != ori ==> ori.mWakeUpper == null)
      ensures r.Returned? ==> (Sound() <==> ptr == ori || !On(old(View()), ptr))
      ensures r.Returned? && Sound() && old(Wired()) ==> Wired()
    {
      ghost var slots := View();
      assert On(slots, ori) ==> Place(slots, ori) == ori.mIdx;
      if !(ori.mIdx < |mHandlers| && mHandlers[ori.mIdx] == Some(ori)) {
        return Aborted;
      }
      assert At(slots, ori.mIdx, ori);
      var idx := ori.mIdx;
      ReplaceKeepsTidyExactly(slots, idx, ori, ptr);
      var moved := ori.mWakeUpper;
      ori.mWakeUpper := null;
      ptr.mWakeUpper := moved;
      ptr.mIdx := idx;
      mHandlers := mHandlers[idx := Some(ptr)];
      if ptr != ori && !On(slots, ptr) {
        NotAt(slots, ptr);
      }
      return Returned(true);
    }
  }
}
