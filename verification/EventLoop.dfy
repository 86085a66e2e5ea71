/**
 `EventLoop` and `PollLoop`: the table of event handlers with its list of idle places and the parallel list
 that `poll` reads, changed by callbacks while the loop goes through it.
 */
module EventLoopModule {
  import opened Bytes
  import opened PollEventHandlerModule
  import opened SlotTable

  type Handler = PollEventHandler

  // ----- the table as a value -----

  /** The handlers in their places, and the entries for `poll`. */
  datatype Table = Table(slots: Slots<Handler>, fds: seq<PollFd>)

  /** Both lists have one entry for every place; an empty place has no descriptor. */
  ghost predicate Valid(t: Table) {
    && Tidy(t.slots) && |t.slots.items| == |t.fds|
    && forall i :: 0 <= i < |t.fds| ==>
         if t.slots.items[i].Some? then t.fds[i].fd == t.slots.items[i].value.mFd >= 0 else t.fds[i].fd < 0
  }

  function Apply(t: Table, h: Handler, fd: PollFd): Table
    requires FreeIdx(t.slots) <= |t.slots.items| == |t.fds|
  {
    Table(Insert(t.slots, h), Put(t.fds, FreeIdx(t.slots), fd))
  }

  const NO_FD := PollFd(-1, NO_EVENTS, NO_EVENTS)

  function UnApply(t: Table, i: nat): Table
    requires i < |t.slots.items| == |t.fds|
  {
    Table(Clear(t.slots, i), t.fds[i := NO_FD])
  }

  /** Applying a handler keeps the table sound exactly if it has a descriptor and is not on the loop yet. */
  lemma ApplyKeepsValidExactly(t: Table, h: Handler, fd: PollFd)
    requires Valid(t) && fd.fd == h.mFd
    ensures FreeIdx(t.slots) <= |t.slots.items|
    ensures Valid(Apply(t, h, fd)) <==> h.mFd >= 0 && !On(t.slots, h)
  {
    FreeIsFree(t.slots);
    InsertKeepsValidExactly(t.slots, h);
    assert Apply(t, h, fd).fds[FreeIdx(t.slots)] == fd;
  }

  lemma UnApplyKeepsValid(t: Table, i: nat, h: Handler)
    requires Valid(t) && At(t.slots, i, h)
    ensures Valid(UnApply(t, i)) && !On(UnApply(t, i).slots, h)
  {
    ClearKeepsValid(t.slots, i, h);
  }

  // ----- runs -----

  /** What is done to the loop: a free handler with a descriptor is added (others are not), or one is removed. */
  datatype Op = Add(h: Handler, events: Events, revents: Events) | Remove(h: Handler)

  const EMPTY := Table(Slots([], []), [])

  ghost function Exec(t: Table, op: Op): (r: Outcome<Table>)
    requires Valid(t)
    ensures r.Returned? ==> Valid(r.value) && |t.fds| <= |r.value.fds| <= |t.fds| + 1
  {
    match op
    case Add(h, events, revents) =>
      ApplyKeepsValidExactly(t, h, PollFd(h.mFd, events, revents));
      if On(t.slots, h) || h.mFd < 0 then Returned(t)
      else Returned(Apply(t, h, PollFd(h.mFd, events, revents)))
    case Remove(h) =>
      if !On(t.slots, h) then Aborted
      else
        UnApplyKeepsValid(t, Place(t.slots, h), h);
        Returned(UnApply(t, Place(t.slots, h)))
  }

  ghost function ExecAll(t: Table, ops: seq<Op>): (r: Outcome<Table>)
    requires Valid(t)
    ensures r.Returned? ==> Valid(r.value) && |t.fds| <= |r.value.fds| <= |t.fds| + |ops|
    decreases |ops|
  {
    if |ops| == 0 then Returned(t)
    else
      match ExecAll(t, ops[..|ops| - 1])
      case Aborted => Aborted
      case Returned(u) => Exec(u, ops[|ops| - 1])
  }

  /** The most handlers that were on the loop at one time. */
  ghost function Peak(ops: seq<Op>): int
    requires ExecAll(EMPTY, ops).Returned?
    decreases |ops|
  {
    if |ops| == 0 then 0
    else
      var before, now := Peak(ops[..|ops| - 1]), Live(ExecAll(EMPTY, ops).value.slots);
      if now > before then now else before
  }

  /** Over every run places are reused: there are never more of them than there were handlers at one time. */
  lemma {:induction false} PlacesAreNotLost(ops: seq<Op>)
    requires ExecAll(EMPTY, ops).Returned?
    ensures |ExecAll(EMPTY, ops).value.fds| == Peak(ops)
    decreases |ops|
  {
    if |ops| > 0 {
      var last := |ops| - 1;
      PlacesAreNotLost(ops[..last]);
      PlacesGrow(ExecAll(EMPTY, ops[..last]).value, ops[last]);
    }
  }

  lemma PlacesGrow(t: Table, op: Op)
    requires Valid(t) && Exec(t, op).Returned? && Live(t.slots) <= |t.fds|
    ensures
      var u := Exec(t, op).value;
      && Live(u.slots) <= |u.fds|
      && |u.fds| == if Live(u.slots) > |t.fds| then Live(u.slots) else |t.fds|
  {
    if op.Add? {
      FreeIsFree(t.slots);
      InsertKeepsFree(t.slots, op.h);
    }
  }

  // ----- a pass of the loop -----

  function Count(scripts: seq<seq<Op>>): nat {
    if |scripts| == 0 then 0 else |scripts[0]| + Count(scripts[1..])
  }

  function Script(scripts: seq<seq<Op>>): seq<Op> {
    if |scripts| == 0 then [] else scripts[0]
  }

  function Rest(scripts: seq<seq<Op>>): (r: seq<seq<Op>>)
    ensures Count(scripts) == |Script(scripts)| + Count(r)
  {
    if |scripts| == 0 then scripts else scripts[1..]
  }

  /** A handler is told what is ready. */
  datatype Told = Told(h: Handler, revents: Events)

  datatype Pass = Pass(table: Table, visited: seq<Told>)

  /** What the handler in place `i` is told. */
  function TellAt(t: Table, i: nat): Told
    requires i < |t.fds| == |t.slots.items| && t.slots.items[i].Some?
  {
    Told(t.slots.items[i].value, t.fds[i].revents)
  }

  /** From place `i` on: every handler found is told, and its callbacks do what the next script says. */
  ghost function PassFrom(t: Table, i: nat, scripts: seq<seq<Op>>, visited: seq<Told>): (r: Outcome<Pass>)
    requires Valid(t) && i <= |t.fds|
    ensures r.Returned? ==> Valid(r.value.table)
    decreases Count(scripts) + |t.fds| - i
  {
    if i == |t.fds| then Returned(Pass(t, visited))
    else if t.slots.items[i].None? then PassFrom(t, i + 1, scripts, visited)
    else
      match ExecAll(t, Script(scripts))
      case Aborted => Aborted
      case Returned(u) => PassFrom(u, i + 1, Rest(scripts), visited + [TellAt(t, i)])
  }

  ghost predicate AbortsAt(t: Table, ops: seq<Op>, k: nat)
    requires Valid(t) && k < |ops|
  {
    var before := ExecAll(t, ops[..k]);
    before.Returned? && ops[k].Remove? && !On(before.value.slots, ops[k].h)
  }

  lemma AbortsInPrefix(t: Table, ops: seq<Op>, k: nat)
    requires Valid(t) && k < |ops| - 1
    ensures AbortsAt(t, ops, k) <==> AbortsAt(t, ops[..|ops| - 1], k)
  {
    assert ops[..|ops| - 1][..k] == ops[..k];
  }

  lemma AbortsAtLast(t: Table, ops: seq<Op>)
    requires Valid(t) && |ops| > 0
    ensures ExecAll(t, ops).Aborted? <==> ExecAll(t, ops[..|ops| - 1]).Aborted? || AbortsAt(t, ops, |ops| - 1)
  {}

  ghost predicate AbortsSomewhere(t: Table, ops: seq<Op>)
    requires Valid(t)
  {
    exists k: nat :: k < |ops| && AbortsAt(t, ops, k)
  }

  lemma AbortsSomewhereIn(t: Table, ops: seq<Op>)
    requires Valid(t) && |ops| > 0
    ensures AbortsSomewhere(t, ops) <==> AbortsSomewhere(t, ops[..|ops| - 1]) || AbortsAt(t, ops, |ops| - 1)
  {
    var last := |ops| - 1;
    if AbortsSomewhere(t, ops) && !AbortsAt(t, ops, last) {
      var k: nat :| k < |ops| && AbortsAt(t, ops, k);
      AbortsInPrefix(t, ops, k);
    }
    if AbortsSomewhere(t, ops[..last]) {
      var k: nat :| k < last && AbortsAt(t, ops[..last], k);
      AbortsInPrefix(t, ops, k);
    }
  }

  /** Only the removal of a handler that is not on the loop trips an assert. */
  lemma {:induction false} AbortsExactly(t: Table, ops: seq<Op>)
    requires Valid(t)
    ensures ExecAll(t, ops).Aborted? <==> AbortsSomewhere(t, ops)
    decreases |ops|
  {
    if |ops| > 0 {
      AbortsExactly(t, ops[..|ops| - 1]);
      AbortsAtLast(t, ops);
      AbortsSomewhereIn(t, ops);
    }
  }

  /** The handlers from place `i` on, each with what its entry says. */
  function AllFrom(t: Table, i: nat): seq<Told>
    requires i <= |t.slots.items| == |t.fds|
    decreases |t.slots.items| - i
  {
    if i == |t.slots.items| then []
    else (if t.slots.items[i].Some? then [TellAt(t, i)] else []) + AllFrom(t, i + 1)
  }

  lemma QuietStep(t: Table, i: nat, visited: seq<Told>)
    requires Valid(t) && i < |t.fds| && t.slots.items[i].Some?
    ensures PassFrom(t, i, [], visited) == PassFrom(t, i + 1, [], visited + [TellAt(t, i)])
  {
    assert ExecAll(t, Script([])) == Returned(t);
  }

  /** A pass in which callbacks leave the loop alone tells every handler once, in order, what its entry says. */
  lemma {:induction false} QuietPass(t: Table, i: nat, visited: seq<Told>)
    requires Valid(t) && i <= |t.fds|
    ensures PassFrom(t, i, [], visited) == Returned(Pass(t, visited + AllFrom(t, i)))
    decreases |t.fds| - i
  {
    if i == |t.fds| {
      assert visited + [] == visited;
    } else if t.slots.items[i].None? {
      QuietPass(t, i + 1, visited);
      assert [] + AllFrom(t, i + 1) == AllFrom(t, i + 1);
    } else {
      var told := TellAt(t, i);
      QuietStep(t, i, visited);
      QuietPass(t, i + 1, visited + [told]);
      assert visited + [told] + AllFrom(t, i + 1) == visited + ([told] + AllFrom(t, i + 1));
    }
  }

  function ReadyAt(ready: seq<Events>, i: nat): Events {
    if i < |ready| then ready[i] else NO_EVENTS
  }

  function PolledFd(fd: PollFd, ready: Events): PollFd {
    fd.(revents := Revents(fd.events, ready))
  }

  function PolledFds(fds: seq<PollFd>, ready: seq<Events>): (r: seq<PollFd>)
    ensures |r| == |fds|
    ensures forall k :: 0 <= k < |fds| ==> r[k] == PolledFd(fds[k], ReadyAt(ready, k))
    decreases |fds|
  {
    if |fds| == 0 then []
    else
      var last := |fds| - 1;
      PolledFds(fds[..last], ready) + [PolledFd(fds[last], ReadyAt(ready, last))]
  }

  function Polled(t: Table, ready: seq<Events>): (u: Table)
    ensures Valid(t) ==> Valid(u)
  {
    t.(fds := PolledFds(t.fds, ready))
  }

  // ----- what the loop polls a handler for -----

  /** What `poll` is asked about a handler: nothing if it is not on the loop. */
  ghost function Asked(t: Table, h: Handler): Option<Events>
    requires Valid(t)
  {
    if On(t.slots, h) then Some(t.fds[Place(t.slots, h)].events) else None
  }

  /** The events that the handler had when it was last placed, if it was not removed since. */
  ghost function LastPlaced(start: Option<Events>, ops: seq<Op>, h: Handler): Option<Events>
    decreases |ops|
  {
    if |ops| == 0 then start
    else
      var before := LastPlaced(start, ops[..|ops| - 1], h);
      match ops[|ops| - 1]
      case Add(g, events, _) => if g == h && before.None? && h.mFd >= 0 then Some(events) else before
      case Remove(g) => if g == h then None else before
  }

  lemma EntryAt(t: Table, i: nat, h: Handler)
    requires Valid(t) && At(t.slots, i, h)
    ensures On(t.slots, h) && Place(t.slots, h) == i && Asked(t, h) == Some(t.fds[i].events)
  {
    PlaceIs(t.slots, i, h);
  }

  /** An operation about another handler leaves a handler's entry alone, and so does placing it again. */
  lemma EntryStays(t: Table, op: Op, i: nat, h: Handler)
    requires Valid(t) && At(t.slots, i, h) && op != Remove(h) && Exec(t, op).Returned?
    ensures var u := Exec(t, op).value; At(u.slots, i, h) && u.fds[i] == t.fds[i]
  {
    match op {
      case Add(g, events, revents) =>
        FreeIsFree(t.slots);
        InsertKeepsValidExactly(t.slots, g);
      case Remove(g) =>
        ClearKeepsValid(t.slots, Place(t.slots, g), g);
    }
  }

  lemma AskedAfter(t: Table, op: Op, h: Handler)
    requires Valid(t) && Exec(t, op).Returned?
    ensures Asked(Exec(t, op).value, h) == LastPlaced(Asked(t, h), [op], h)
  {
    var u := Exec(t, op).value;
    assert LastPlaced(Asked(t, h), [op][..0], h) == Asked(t, h);
    if On(t.slots, h) && op != Remove(h) {
      EntryStays(t, op, Place(t.slots, h), h);
      EntryAt(u, Place(t.slots, h), h);
    } else if On(t.slots, h) {
      UnApplyKeepsValid(t, Place(t.slots, h), h);
    } else if op.Add? && op.h == h {
      ApplyKeepsValidExactly(t, h, PollFd(h.mFd, op.events, op.revents));
      if h.mFd >= 0 {
        InsertKeepsValidExactly(t.slots, h);
        EntryAt(u, FreeIdx(t.slots), h);
      }
    } else {
      StaysOff(t, op, h);
    }
  }

  lemma StaysOff(t: Table, op: Op, h: Handler)
    requires Valid(t) && !On(t.slots, h) && op.h != h && Exec(t, op).Returned?
    ensures !On(Exec(t, op).value.slots, h)
  {
    var u := Exec(t, op).value;
    forall i ensures !At(u.slots, i, h) {
      assert !At(t.slots, i, h);
    }
  }

  /** Over every run, `poll` is asked what the handler wanted when it was placed, whatever it wants now. */
  lemma {:induction false} AskedIsLastPlaced(t: Table, ops: seq<Op>, h: Handler)
    requires Valid(t) && ExecAll(t, ops).Returned?
    ensures Asked(ExecAll(t, ops).value, h) == LastPlaced(Asked(t, h), ops, h)
    decreases |ops|
  {
    if |ops| > 0 {
      var last := |ops| - 1;
      AskedIsLastPlaced(t, ops[..last], h);
      AskedAfter(ExecAll(t, ops[..last]).value, ops[last], h);
      assert LastPlaced(Asked(ExecAll(t, ops[..last]).value, h), [ops[last]][..0], h)
          == LastPlaced(Asked(t, h), ops[..last], h);
    }
  }

  /** `poll` changes no question, and answers only what was asked. */
  lemma PollAnswersWhatIsAsked(t: Table, ready: seq<Events>, h: Handler)
    requires Valid(t)
    ensures Asked(Polled(t, ready), h) == Asked(t, h)
    ensures On(t.slots, h) ==>
      var i := Place(t.slots, h);
      Polled(t, ready).fds[i] == PollFd(h.mFd, Asked(t, h).value, Revents(Asked(t, h).value, ReadyAt(ready, i)))
  {}

  lemma {:induction false} ExecAllAppend(t: Table, ops: seq<Op>, more: seq<Op>)
    requires Valid(t) && ExecAll(t, ops).Returned?
    ensures ExecAll(t, ops + more) == ExecAll(ExecAll(t, ops).value, more)
    decreases |more|
  {
    if |more| == 0 {
      assert ops + more == ops;
    } else {
      var last := |more| - 1;
      ExecAllAppend(t, ops, more[..last]);
      assert (ops + more)[..|ops + more| - 1] == ops + more[..last];
    }
  }

  lemma {:induction false} EntryStaysInRun(t: Table, ops: seq<Op>, i: nat, h: Handler)
    requires Valid(t) && At(t.slots, i, h) && Remove(h) !in ops && ExecAll(t, ops).Returned?
    ensures var u := ExecAll(t, ops).value; At(u.slots, i, h) && u.fds[i] == t.fds[i]
    decreases |ops|
  {
    if |ops| > 0 {
      var last := |ops| - 1;
      EntryStaysInRun(t, ops[..last], i, h);
      EntryStays(ExecAll(t, ops[..last]).value, ops[last], i, h);
    }
  }

  /** What callbacks have done to the loop when a pass that is at place `i` comes to place `end`. */
  ghost function Executed(t: Table, i: nat, scripts: seq<seq<Op>>, end: nat): seq<Op>
    requires Valid(t) && i <= |t.fds|
    decreases Count(scripts) + |t.fds| - i
  {
    if i == |t.fds| || i >= end then []
    else if t.slots.items[i].None? then Executed(t, i + 1, scripts, end)
    else
      match ExecAll(t, Script(scripts))
      case Aborted => []
      case Returned(u) => Script(scripts) + Executed(u, i + 1, Rest(scripts), end)
  }

  /** A pass that comes to an end has come to every place, with the table as callbacks have left it until then. */
  lemma {:induction false} PassComesTo(t: Table, i: nat, scripts: seq<seq<Op>>, visited: seq<Told>, end: nat)
    returns (u: Table, rest: seq<seq<Op>>, before: seq<Told>)
    requires Valid(t) && i <= end <= |t.fds| && PassFrom(t, i, scripts, visited).Returned?
    ensures Valid(u) && ExecAll(t, Executed(t, i, scripts, end)) == Returned(u) && end <= |u.fds|
    ensures PassFrom(u, end, rest, before) == PassFrom(t, i, scripts, visited)
    decreases Count(scripts) + |t.fds| - i
  {
    if i == end {
      u, rest, before := t, scripts, visited;
    } else if t.slots.items[i].None? {
      u, rest, before := PassComesTo(t, i + 1, scripts, visited, end);
    } else {
      var s := ExecAll(t, Script(scripts)).value;
      u, rest, before := PassComesTo(s, i + 1, Rest(scripts), visited + [TellAt(t, i)], end);
      ExecAllAppend(t, Script(scripts), Executed(s, i + 1, Rest(scripts), end));
    }
  }

  /** The table after a pass is the one after all that its callbacks did. */
  lemma {:induction false} PassExecutes(t: Table, i: nat, scripts: seq<seq<Op>>, visited: seq<Told>, end: nat)
    requires Valid(t) && i <= |t.fds| && |t.fds| + Count(scripts) <= end
    requires PassFrom(t, i, scripts, visited).Returned?
    ensures ExecAll(t, Executed(t, i, scripts, end)) == Returned(PassFrom(t, i, scripts, visited).value.table)
    decreases Count(scripts) + |t.fds| - i
  {
    if i < |t.fds| {
      if t.slots.items[i].None? {
        PassExecutes(t, i + 1, scripts, visited, end);
      } else {
        var s := ExecAll(t, Script(scripts)).value;
        PassExecutes(s, i + 1, Rest(scripts), visited + [TellAt(t, i)], end);
        ExecAllAppend(t, Script(scripts), Executed(s, i + 1, Rest(scripts), end));
      }
    }
  }

  lemma PassTells(t: Table, i: nat, scripts: seq<seq<Op>>, visited: seq<Told>) returns (u: Table)
    requires Valid(t) && i < |t.fds| && t.slots.items[i].Some? && PassFrom(t, i, scripts, visited).Returned?
    ensures Valid(u) && ExecAll(t, Script(scripts)) == Returned(u) && i < |u.fds|
    ensures Count(Rest(scripts)) + |u.fds| - i - 1 < Count(scripts) + |t.fds| - i
    ensures var told := visited + [TellAt(t, i)];
      PassFrom(t, i, scripts, visited) == PassFrom(u, i + 1, Rest(scripts), told)
  {
    u := ExecAll(t, Script(scripts)).value;
  }

  lemma PrefixOfPrefix<X>(s: seq<X>, x: X, r: seq<X>)
    requires s + [x] <= r
    ensures s <= r && x in r
  {
    assert r[|s|] == (s + [x])[|s|];
    assert s == (s + [x])[..|s|] == r[..|s|];
  }

  lemma {:induction false} VisitedIsKept(t: Table, i: nat, scripts: seq<seq<Op>>, visited: seq<Told>)
    requires Valid(t) && i <= |t.fds| && PassFrom(t, i, scripts, visited).Returned?
    ensures visited <= PassFrom(t, i, scripts, visited).value.visited
    decreases Count(scripts) + |t.fds| - i
  {
    if i < |t.fds| {
      if t.slots.items[i].None? {
        VisitedIsKept(t, i + 1, scripts, visited);
      } else {
        var u := PassTells(t, i, scripts, visited);
        VisitedIsKept(u, i + 1, Rest(scripts), visited + [TellAt(t, i)]);
        PrefixOfPrefix(visited, TellAt(t, i), PassFrom(t, i, scripts, visited).value.visited);
      }
    }
  }

  lemma ToldAtItsPlace(t: Table, i: nat, scripts: seq<seq<Op>>, visited: seq<Told>, h: Handler)
    requires Valid(t) && At(t.slots, i, h) && PassFrom(t, i, scripts, visited).Returned?
    ensures Told(h, t.fds[i].revents) in PassFrom(t, i, scripts, visited).value.visited
  {
    var u := PassTells(t, i, scripts, visited);
    VisitedIsKept(u, i + 1, Rest(scripts), visited + [TellAt(t, i)]);
    PrefixOfPrefix(visited, TellAt(t, i), PassFrom(t, i, scripts, visited).value.visited);
  }

  /**
   A pass tells every handler that was on the loop when `poll` returned, unless a callback has removed it before
   its turn; and what it is told is what `poll` said about what it wanted when it was placed.
   */
  lemma ToldUnlessRemoved(t: Table, ready: seq<Events>, scripts: seq<seq<Op>>, h: Handler) returns (u: Table)
    requires Valid(t) && On(t.slots, h) && PassFrom(Polled(t, ready), 0, scripts, []).Returned?
    requires Remove(h) !in Executed(Polled(t, ready), 0, scripts, Place(t.slots, h))
    ensures
      var i, events := Place(t.slots, h), Asked(t, h).value;
      Told(h, Revents(events, ReadyAt(ready, i))) in PassFrom(Polled(t, ready), 0, scripts, []).value.visited
    ensures
      var i, events := Place(t.slots, h), Asked(t, h).value;
      && ExecAll(Polled(t, ready), Executed(Polled(t, ready), 0, scripts, i)) == Returned(u)
      && At(u.slots, i, h) && i < |u.fds| && u.fds[i] == PollFd(h.mFd, events, Revents(events, ReadyAt(ready, i)))
  {
    var start, i := Polled(t, ready), Place(t.slots, h);
    PollAnswersWhatIsAsked(t, ready, h);
    var rest, before;
    u, rest, before := PassComesTo(start, 0, scripts, [], i);
    EntryStaysInRun(start, Executed(start, 0, scripts, i), i, h);
    ToldAtItsPlace(u, i, rest, before, h);
  }

  // ----- the class -----

  class PollLoop {
    var mHandlerList: seq<Option<Handler>>
    var mIdleIdx: seq<nat>
    var mPollFdList: seq<PollFd>

    ghost function View(): Table
      reads this
    {
      Table(Slots(mHandlerList, mIdleIdx), mPollFdList)
    }

    ghost function Members(): set<Handler>
      reads this
    {
      set i | 0 <= i < |mHandlerList| && mHandlerList[i].Some? :: mHandlerList[i].value
    }

    /** The table is sound, and every handler on it knows its place. */
    ghost predicate Sound()
      reads this, Members()`mLoopIdx
    {
      Valid(View()) && Placed()
    }

    ghost predicate Placed()
      reads this, Members()`mLoopIdx
    {
      forall i :: 0 <= i < |mHandlerList| && mHandlerList[i].Some? ==> mHandlerList[i].value.mLoopIdx == i
    }

    constructor ()
      ensures Sound() && View() == EMPTY
    {
      mHandlerList, mIdleIdx, mPollFdList := [], [], [];
    }

    method Add(h: Handler) returns (idx: nat)
      requires Valid(View())
      modifies `mHandlerList, `mIdleIdx
      ensures idx == FreeIdx(old(View()).slots) <= |old(mHandlerList)|
      ensures View().slots == Insert(old(View()).slots, h) && At(View().slots, idx, h)
    {
      FreeIsFree(View().slots);
      if mIdleIdx == [] {
        mHandlerList := mHandlerList + [Some(h)];
        return |mHandlerList| - 1;
      }
      idx := mIdleIdx[|mIdleIdx| - 1];
      mIdleIdx := mIdleIdx[..|mIdleIdx| - 1];
      mHandlerList := mHandlerList[idx := Some(h)];
    }

    method Register(idx: nat)
      requires idx < |mHandlerList| && mHandlerList[idx].Some? && idx <= |mPollFdList|
      modifies `mPollFdList
      ensures mPollFdList == Put(old(mPollFdList), idx, mHandlerList[idx].value.GetPollFd())
    {
      if idx == |mPollFdList| {
        mPollFdList := mPollFdList + [mHandlerList[idx].value.GetPollFd()];
      } else {
        mPollFdList := mPollFdList[idx := mHandlerList[idx].value.GetPollFd()];
      }
    }

    /** Keeps the loop sound exactly for a handler that has a descriptor and is not on it yet. */
    method ApplyHandlerOnLoop(h: Handler)
      requires Sound()
      modifies this, h`mLoopIdx
      ensures View() == Apply(old(View()), h, h.GetPollFd())
      ensures h.mLoopIdx == FreeIdx(old(View()).slots)
      ensures Sound() <==> h.mFd >= 0 && !On(old(View()).slots, h)
    {
      ApplyKeepsValidExactly(View(), h, h.GetPollFd());
      ghost var slots := View().slots;
      var idx := Add(h);
      Register(idx);
      h.mLoopIdx := idx;
      forall i | 0 <= i < |mHandlerList| && mHandlerList[i].Some? && !On(slots, h)
        ensures mHandlerList[i].value.mLoopIdx == i
      {
        assert i != idx ==> At(slots, i, mHandlerList[i].value);
      }
    }

    method UnRegister(h: Handler) returns (r: Outcome<bool>)
      modifies `mPollFdList
      ensures r == if 0 <= h.mLoopIdx < |old(mPollFdList)| && old(mPollFdList)[h.mLoopIdx].fd == h.mFd
                   then Returned(true) else Aborted
      ensures |mPollFdList| == |old(mPollFdList)|
      ensures r.Returned? ==>
        0 <= h.mLoopIdx < |old(mPollFdList)| && mPollFdList == old(mPollFdList)[h.mLoopIdx := NO_FD]
    {
      var idx := h.mLoopIdx;
      if !(idx >= 0 && idx < |mPollFdList|) {
        return Aborted;
      }
      if !(mPollFdList[idx].fd == h.mFd) {
        return Aborted;
      }
      mPollFdList := mPollFdList[idx := PollFd(-1, NO_EVENTS, NO_EVENTS)];
      return Returned(true);
    }

    method RemoveHandler(h: Handler) returns (r: Outcome<bool>)
      modifies `mHandlerList, `mIdleIdx
      ensures r == if 0 <= h.mLoopIdx < |old(mHandlerList)| && old(mHandlerList)[h.mLoopIdx] == Some(h)
                   then Returned(true) else Aborted
      ensures r.Returned? ==> 0 <= h.mLoopIdx < |old(mHandlerList)|
      ensures r.Returned? ==>
        mHandlerList == old(mHandlerList)[h.mLoopIdx := None] && mIdleIdx == old(mIdleIdx) + [h.mLoopIdx]
    {
      var idx := h.mLoopIdx;
      if !(idx >= 0 && idx < |mHandlerList|) {
        return Aborted;
      }
      if !(mHandlerList[idx] == Some(h)) {
        return Aborted;
      }
      mHandlerList := mHandlerList[idx := None];
      mIdleIdx := mIdleIdx + [idx];
      return Returned(true);
    }

    /** Trips an assert exactly if the handler is not on this loop. */
    method UnApplyHandlerOnLoop(h: Handler) returns (r: Outcome<bool>)
      requires Sound()
      modifies this, h`mLoopIdx
      ensures r == if On(old(View()).slots, h) then Returned(true) else Aborted
      ensures r.Returned? ==> On(old(View()).slots, h) && View() == UnApply(old(View()), Place(old(View()).slots, h))
      ensures r.Returned? ==> Sound() && h.mLoopIdx == -1
    {
      ghost var t := View();
      assert On(t.slots, h) ==> Place(t.slots, h) == h.mLoopIdx;
      r := UnRegister(h);
      if r.Aborted? {
        return;
      }
      r := RemoveHandler(h);
      if r.Aborted? {
        return;
      }
      assert At(t.slots, h.mLoopIdx, h);
      UnApplyKeepsValid(t, Place(t.slots, h), h);
      h.mLoopIdx := -1;
    }

    /** What a callback does to the loop. `all` are the handlers that callbacks may touch. */
    method Callback(op: Op, ghost all: set<Handler>) returns (r: Outcome<bool>)
      requires Sound() && op.h in all && Members() <= all
      modifies this, all
      ensures r.Returned? ==> Members() <= all
      ensures r.Aborted? <==> Exec(old(View()), op).Aborted?
      ensures r.Returned? ==> Sound() && Exec(old(View()), op) == Returned(View())
    {
      match op
      case Add(h, events, revents) =>
        assert On(View().slots, h) <==> exists i :: 0 <= i < |mHandlerList| && mHandlerList[i] == Some(h) by {
          assert forall i :: 0 <= i < |mHandlerList| && mHandlerList[i] == Some(h) ==> At(View().slots, i, h);
        }
        if Some(h) in mHandlerList || h.mFd < 0 {
          return Returned(true);
        }
        h.events, h.revents := events, revents;
        ApplyHandlerOnLoop(h);
        return Returned(true);
      case Remove(h) =>
        r := UnApplyHandlerOnLoop(h);
    }

    /** `HandleEvents`, as far as the loop is concerned: its assert, and what its callbacks do to the loop. */
    method HandleEvents(h: Handler, fd: PollFd, script: seq<Op>, ghost all: set<Handler>)
      returns (r: Outcome<bool>, ghost told: Events)
      requires Sound() && h in all && Members() <= all && ScriptIn(script, all)
      modifies this, all
      ensures r.Returned? ==> Members() <= all
      ensures r.Aborted? <==> h.mFd != fd.fd || ExecAll(old(View()), script).Aborted?
      ensures r.Returned? ==> Sound() && ExecAll(old(View()), script) == Returned(View())
      ensures r.Returned? ==> told == fd.revents && (script == [] ==> h.revents == fd.revents)
    {
      if !(h.mFd == fd.fd) {
        return Aborted, NO_EVENTS;
      }
      h.revents := fd.revents;
      told := h.revents;
      var k := 0;
      while k < |script|
        invariant k == 0 ==> h.revents == told
        invariant k <= |script| && Sound() && Members() <= all && ExecAll(old(View()), script[..k]) == Returned(View())
      {
        assert script[..k + 1][..k] == script[..k];
        r := Callback(script[k], all);
        if r.Aborted? {
          AbortStays(old(View()), script, k + 1);
          return;
        }
        k := k + 1;
      }
      assert script[..k] == script;
      r := Returned(true);
    }

    /** `poll`: what is ready, as far as it was asked for. */
    method Poll(ready: seq<Events>)
      requires Sound()
      modifies `mPollFdList
      ensures Sound() && View() == Polled(old(View()), ready)
    {
      ghost var fds := mPollFdList;
      var i := 0;
      while i < |mPollFdList|
        invariant i <= |mPollFdList| == |fds|
        invariant forall k :: 0 <= k < |fds| ==>
                    mPollFdList[k] == if k < i then PolledFd(fds[k], ReadyAt(ready, k)) else fds[k]
      {
        mPollFdList := mPollFdList[i := PolledFd(mPollFdList[i], ReadyAt(ready, i))];
        i := i + 1;
      }
      assert mPollFdList == Polled(old(View()), ready).fds;
    }

    /** One place of the list. */
    method Visit(i: nat, scripts: seq<seq<Op>>, ghost visited: seq<Told>, ghost all: set<Handler>)
      returns (r: Outcome<bool>, rest: seq<seq<Op>>, ghost more: seq<Told>)
      requires Sound() && Members() <= all && i < |mPollFdList| && ScriptsIn(scripts, all)
      modifies this, all
      ensures r.Aborted? ==> PassFrom(old(View()), i, scripts, visited).Aborted?
      ensures r.Returned? ==> Sound() && Members() <= all && i < |mPollFdList| && ScriptsIn(rest, all)
      ensures r.Returned? ==> PassFrom(old(View()), i, scripts, visited) == PassFrom(View(), i + 1, rest, more)
      ensures r.Returned? ==> Count(rest) + |mPollFdList| <= Count(scripts) + |old(mPollFdList)|
    {
      r, rest, more := Returned(true), scripts, visited;
      if mPollFdList[i].fd < 0 {
        mHandlerList := mHandlerList[i := None];
        assert mHandlerList == old(mHandlerList);
      } else {
        var h := mHandlerList[i].value;
        ghost var told;
        r, told := HandleEvents(h, mPollFdList[i], Script(scripts), all);
        rest := Rest(scripts);
        more := visited + [Told(h, told)];
      }
    }

    /**
     One pass, while callbacks add and remove handlers: no place without a handler is used, the assert on the
     descriptor never fails, and every handler is told what the pass over the table as a value says.
     */
    method LoopOnce(ready: seq<Events>, scripts: seq<seq<Op>>, ghost all: set<Handler>)
      returns (r: Outcome<bool>, ghost visited: seq<Told>)
      requires Sound() && Members() <= all && ScriptsIn(scripts, all)
      modifies this, all
      ensures r.Aborted? <==> PassFrom(Polled(old(View()), ready), 0, scripts, []).Aborted?
      ensures r.Returned? ==> Sound()
      ensures r.Returned? ==> PassFrom(Polled(old(View()), ready), 0, scripts, []) == Returned(Pass(View(), visited))
    {
      visited := [];
      Poll(ready);
      ghost var pass := PassFrom(View(), 0, scripts, []);
      var i, rest := 0, scripts;
      while i < |mPollFdList|
        invariant Sound() && Members() <= all && i <= |mPollFdList| && ScriptsIn(rest, all)
        invariant pass == PassFrom(View(), i, rest, visited)
        decreases Count(rest) + |mPollFdList| - i
      {
        r, rest, visited := Visit(i, rest, visited, all);
        if r.Aborted? {
          return;
        }
        i := i + 1;
      }
      r := Returned(true);
    }
  }

  ghost predicate ScriptsIn(scripts: seq<seq<Op>>, all: set<Handler>) {
    forall k :: 0 <= k < |scripts| ==> ScriptIn(scripts[k], all)
  }

  ghost predicate ScriptIn(script: seq<Op>, all: set<Handler>) {
    forall k :: 0 <= k < |script| ==> script[k].h in all
  }

  lemma {:induction false} AbortStays(t: Table, ops: seq<Op>, k: nat)
    requires Valid(t) && k <= |ops| && ExecAll(t, ops[..k]).Aborted?
    ensures ExecAll(t, ops).Aborted?
    decreases |ops|
  {
    if k == |ops| {
      assert ops[..k] == ops;
    } else {
      assert ops[..|ops| - 1][..k] == ops[..k];
      AbortStays(t, ops[..|ops| - 1], k);
    }
  }
}
