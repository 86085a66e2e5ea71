/**
 The time wheel of `TcpServer` as a value: `n` slots of connections, of which the last is for those that have
 just been active and the first for those whose time is up. A tick asks the connections of the first slot to
 close and makes it the last.
 */
module TimeWheel {
  import opened Bytes

  type Slots<T> = seq<seq<T>>

  datatype Wheel<T> = Wheel(slots: Slots<T>, closing: set<T>)

  /** Position `i` of slot `r` is taken. */
  predicate In<T>(slots: Slots<T>, r: int, i: int) {
    0 <= r < |slots| && 0 <= i < |slots[r]|
  }

  ghost predicate Same<T>(slots: Slots<T>, r: int, i: int, s: int, j: int) {
    In(slots, r, i) && In(slots, s, j) && slots[r][i] == slots[s][j]
  }

  lemma SamePlace<T>(slots: Slots<T>, r: int, i: int, s: int, j: int)
    requires Distinct(slots) && In(slots, r, i) && In(slots, s, j) && slots[r][i] == slots[s][j]
    ensures r == s && i == j
  {
    assert Same(slots, r, i, s, j);
  }

  /** No connection is in two places. */
  ghost predicate Distinct<T>(slots: Slots<T>) {
    forall r, i, s, j :: Same(slots, r, i, s, j) ==> r == s && i == j
  }

  ghost predicate Holds<T>(slots: Slots<T>, t: T) {
    exists r, i :: In(slots, r, i) && slots[r][i] == t
  }

  function Total<T>(slots: Slots<T>): nat {
    if |slots| == 0 then 0 else |slots[0]| + Total(slots[1..])
  }

  function Without<T>(s: seq<T>, i: nat): (r: seq<T>)
    requires i < |s|
    ensures |r| == |s| - 1
    ensures forall k {:trigger r[k]} :: 0 <= k < |r| ==> r[k] == if k < i then s[k] else s[k + 1]
  {
    s[..i] + s[i + 1..]
  }

  function RemoveAt<T>(slots: Slots<T>, r: nat, i: nat): Slots<T>
    requires In(slots, r, i)
  {
    slots[r := Without(slots[r], i)]
  }

  /** Puts a connection at the end of the last slot. */
  function Enter<T>(slots: Slots<T>, t: T): Slots<T>
    requires |slots| > 0
  {
    var n := |slots| - 1;
    slots[n := slots[n] + [t]]
  }

  function Refresh<T>(slots: Slots<T>, r: nat, i: nat): Slots<T>
    requires In(slots, r, i)
  {
    Enter(RemoveAt(slots, r, i), slots[r][i])
  }

  function Turned<T>(slots: Slots<T>): Slots<T>
    requires |slots| > 0
  {
    slots[1..] + [slots[0]]
  }

  function Elements<T>(s: seq<T>): set<T> {
    set i | 0 <= i < |s| :: s[i]
  }

  // ----- counting -----

  lemma {:induction false} TotalUpdate<T>(slots: Slots<T>, r: nat, s: seq<T>)
    requires r < |slots|
    ensures Total(slots[r := s]) == Total(slots) - |slots[r]| + |s|
    decreases |slots|
  {
    if r == 0 {
      assert slots[r := s][1..] == slots[1..];
    } else {
      assert slots[r := s][1..] == slots[1..][r - 1 := s];
      TotalUpdate(slots[1..], r - 1, s);
    }
  }

  lemma {:induction false} TotalAppend<T>(slots: Slots<T>, s: seq<T>)
    ensures Total(slots + [s]) == Total(slots) + |s|
    decreases |slots|
  {
    if |slots| == 0 {
      assert (slots + [s])[1..] == [];
    } else {
      assert (slots + [s])[1..] == slots[1..] + [s];
      TotalAppend(slots[1..], s);
    }
  }

  lemma TotalTurned<T>(slots: Slots<T>)
    requires |slots| > 0
    ensures Total(Turned(slots)) == Total(slots)
  {
    TotalAppend(slots[1..], slots[0]);
  }

  lemma TotalEnter<T>(slots: Slots<T>, t: T)
    requires |slots| > 0
    ensures Total(Enter(slots, t)) == Total(slots) + 1
  {
    TotalUpdate(slots, |slots| - 1, slots[|slots| - 1] + [t]);
  }

  lemma TotalRemoveAt<T>(slots: Slots<T>, r: nat, i: nat)
    requires In(slots, r, i)
    ensures Total(RemoveAt(slots, r, i)) == Total(slots) - 1
  {
    TotalUpdate(slots, r, Without(slots[r], i));
  }

  // ----- where connections come from -----

  lemma EnterOrigin<T>(slots: Slots<T>, t: T, r: int, i: int)
    requires |slots| > 0 && In(Enter(slots, t), r, i)
    ensures
      || (In(slots, r, i) && Enter(slots, t)[r][i] == slots[r][i])
      || (r == |slots| - 1 && Enter(slots, t)[r][i] == t)
  {}

  lemma RemoveAtOrigin<T>(slots: Slots<T>, r0: int, i0: int, r: int, i: int)
    requires In(slots, r0, i0) && In(RemoveAt(slots, r0, i0), r, i)
    ensures
      var j := if r == r0 && i >= i0 then i + 1 else i;
      In(slots, r, j) && RemoveAt(slots, r0, i0)[r][i] == slots[r][j] && (r != r0 || j != i0)
  {}

  lemma TurnedOrigin<T>(slots: Slots<T>, r: int, i: int)
    requires |slots| > 0 && In(Turned(slots), r, i)
    ensures
      var q := if r == |slots| - 1 then 0 else r + 1;
      In(slots, q, i) && Turned(slots)[r][i] == slots[q][i]
  {}

  lemma DistinctEnter<T>(slots: Slots<T>, t: T)
    requires |slots| > 0 && Distinct(slots) && !Holds(slots, t)
    ensures Distinct(Enter(slots, t))
  {
    var e := Enter(slots, t);
    forall r, i, s, j | Same(e, r, i, s, j) ensures r == s && i == j {
      EnterOrigin(slots, t, r, i);
      EnterOrigin(slots, t, s, j);
      if In(slots, r, i) && In(slots, s, j) && slots[r][i] == slots[s][j] {
        SamePlace(slots, r, i, s, j);
      }
    }
  }

  lemma DistinctRemoveAt<T>(slots: Slots<T>, r0: int, i0: int)
    requires In(slots, r0, i0) && Distinct(slots)
    ensures Distinct(RemoveAt(slots, r0, i0)) && !Holds(RemoveAt(slots, r0, i0), slots[r0][i0])
  {
    var e := RemoveAt(slots, r0, i0);
    forall r, i, s, j | Same(e, r, i, s, j) ensures r == s && i == j {
      RemoveAtOrigin(slots, r0, i0, r, i);
      RemoveAtOrigin(slots, r0, i0, s, j);
      SamePlace(slots, r, if r == r0 && i >= i0 then i + 1 else i, s, if s == r0 && j >= i0 then j + 1 else j);
    }
    forall r, i | In(e, r, i) ensures e[r][i] != slots[r0][i0] {
      RemoveAtOrigin(slots, r0, i0, r, i);
      var j := if r == r0 && i >= i0 then i + 1 else i;
      assert Same(slots, r, j, r0, i0) ==> r == r0 && j == i0;
    }
  }

  lemma DistinctRefresh<T>(slots: Slots<T>, r0: int, i0: int)
    requires In(slots, r0, i0) && Distinct(slots)
    ensures Distinct(Refresh(slots, r0, i0))
  {
    DistinctRemoveAt(slots, r0, i0);
    DistinctEnter(RemoveAt(slots, r0, i0), slots[r0][i0]);
  }

  lemma DistinctTurned<T>(slots: Slots<T>)
    requires |slots| > 0 && Distinct(slots)
    ensures Distinct(Turned(slots))
  {
    var e := Turned(slots);
    forall r, i, s, j | Same(e, r, i, s, j) ensures r == s && i == j {
      TurnedOrigin(slots, r, i);
      TurnedOrigin(slots, s, j);
      var n := |slots| - 1;
      SamePlace(slots, if r == n then 0 else r + 1, i, if s == n then 0 else s + 1, j);
    }
  }

  // ----- runs -----

  datatype Event<T> =
    | Accept(t: T)    // a new connection
    | Message(t: T)   // a message on a connection
    | Ask(t: T)       // a connection is asked to close for another reason
    | Close(t: T)     // a connection that was asked to is closed
    | Tick

  ghost predicate Possible<T>(w: Wheel<T>, e: Event<T>) {
    match e
    case Accept(t) => !Holds(w.slots, t)
    case Message(t) => Holds(w.slots, t)
    case Ask(t) => Holds(w.slots, t)
    case Close(t) => t in w.closing
    case Tick => true
  }

  ghost predicate Valid<T>(w: Wheel<T>, max: int) {
    && |w.slots| > 0 && Distinct(w.slots)
    && (forall t :: t in w.closing ==> Holds(w.slots, t))
    && Total(w.slots) <= if max < 0 then 0 else max
  }

  /** A connection beyond the `max` allowed is turned away. */
  function Accepted<T>(w: Wheel<T>, max: int, t: T): Wheel<T>
    requires |w.slots| > 0
  {
    if Total(w.slots) >= max then w else w.(slots := Enter(w.slots, t))
  }

  function Ticked<T>(w: Wheel<T>): Wheel<T>
    requires |w.slots| > 0
  {
    Wheel(Turned(w.slots), w.closing + Elements(w.slots[0]))
  }

  ghost function Place<T>(slots: Slots<T>, t: T): (p: (int, int))
    requires Holds(slots, t)
    ensures In(slots, p.0, p.1) && slots[p.0][p.1] == t
  {
    var r, i :| In(slots, r, i) && slots[r][i] == t;
    (r, i)
  }

  lemma PlaceIs<T>(slots: Slots<T>, r: int, i: int)
    requires Distinct(slots) && In(slots, r, i)
    ensures Holds(slots, slots[r][i]) && Place(slots, slots[r][i]) == (r, i)
  {
    HoldsAt(slots, r, i);
    var p := Place(slots, slots[r][i]);
    SamePlace(slots, p.0, p.1, r, i);
  }

  ghost function Do<T>(w: Wheel<T>, max: int, e: Event<T>): Wheel<T>
    requires Valid(w, max) && Possible(w, e)
  {
    match e
    case Accept(t) => Accepted(w, max, t)
    case Message(t) => (var p := Place(w.slots, t); w.(slots := Refresh(w.slots, p.0, p.1)))
    case Ask(t) => w.(closing := w.closing + {t})
    case Close(t) => (var p := Place(w.slots, t); Wheel(RemoveAt(w.slots, p.0, p.1), w.closing - {t}))
    case Tick => Ticked(w)
  }

  lemma HoldsAt<T>(slots: Slots<T>, r: int, i: int)
    requires In(slots, r, i)
    ensures Holds(slots, slots[r][i])
  {}

  lemma EnterHolds<T>(slots: Slots<T>, t: T, u: T)
    requires |slots| > 0
    ensures Holds(Enter(slots, t), u) <==> Holds(slots, u) || u == t
  {
    var e, n := Enter(slots, t), |slots| - 1;
    if r, i :| In(slots, r, i) && slots[r][i] == u {
      assert In(e, r, i) && e[r][i] == u;
    }
    assert In(e, n, |slots[n]|) && e[n][|slots[n]|] == t;
  }

  lemma RemoveAtHolds<T>(slots: Slots<T>, r0: int, i0: int, u: T)
    requires In(slots, r0, i0) && Distinct(slots)
    ensures Holds(RemoveAt(slots, r0, i0), u) <==> Holds(slots, u) && u != slots[r0][i0]
  {
    var e := RemoveAt(slots, r0, i0);
    DistinctRemoveAt(slots, r0, i0);
    if r, i :| In(slots, r, i) && slots[r][i] == u && u != slots[r0][i0] {
      var j := if r == r0 && i > i0 then i - 1 else i;
      assert In(e, r, j) && e[r][j] == u;
    }
    if r, i :| In(e, r, i) && e[r][i] == u {
      RemoveAtOrigin(slots, r0, i0, r, i);
    }
  }

  lemma TurnedHolds<T>(slots: Slots<T>, u: T)
    requires |slots| > 0
    ensures Holds(Turned(slots), u) <==> Holds(slots, u)
  {
    var e := Turned(slots);
    if r, i :| In(slots, r, i) && slots[r][i] == u {
      var q := if r == 0 then |slots| - 1 else r - 1;
      assert In(e, q, i) && e[q][i] == u;
    }
  }

  lemma StepKeepsValid<T>(w: Wheel<T>, max: int, e: Event<T>)
    requires Valid(w, max) && Possible(w, e)
    ensures Valid(Do(w, max, e), max) && |Do(w, max, e).slots| == |w.slots|
  {
    match e
    case Accept(t) =>
      DistinctEnter(w.slots, t);
      TotalEnter(w.slots, t);
      forall u ensures Holds(Enter(w.slots, t), u) <==> Holds(w.slots, u) || u == t {
        EnterHolds(w.slots, t, u);
      }
    case Message(t) =>
      var p := Place(w.slots, t);
      RefreshKeeps(w.slots, p.0, p.1);
    case Ask(t) =>
    case Close(t) =>
      var p := Place(w.slots, t);
      DistinctRemoveAt(w.slots, p.0, p.1);
      TotalRemoveAt(w.slots, p.0, p.1);
      forall u ensures Holds(RemoveAt(w.slots, p.0, p.1), u) <==> Holds(w.slots, u) && u != t {
        RemoveAtHolds(w.slots, p.0, p.1, u);
      }
    case Tick =>
      DistinctTurned(w.slots);
      TotalTurned(w.slots);
      forall u ensures Holds(Turned(w.slots), u) <==> Holds(w.slots, u) {
        TurnedHolds(w.slots, u);
      }
      forall u | u in Elements(w.slots[0]) ensures Holds(w.slots, u) {
        var i :| 0 <= i < |w.slots[0]| && w.slots[0][i] == u;
        HoldsAt(w.slots, 0, i);
      }
  }

  lemma RefreshKeeps<T>(slots: Slots<T>, r: int, i: int)
    requires In(slots, r, i) && Distinct(slots)
    ensures Distinct(Refresh(slots, r, i)) && Total(Refresh(slots, r, i)) == Total(slots)
    ensures forall u :: Holds(Refresh(slots, r, i), u) <==> Holds(slots, u)
  {
    var rest, t := RemoveAt(slots, r, i), slots[r][i];
    DistinctRefresh(slots, r, i);
    TotalRemoveAt(slots, r, i);
    TotalEnter(rest, t);
    HoldsAt(slots, r, i);
    forall u ensures Holds(Enter(rest, t), u) <==> Holds(slots, u) {
      RemoveAtHolds(slots, r, i, u);
      EnterHolds(rest, t, u);
    }
  }

  function Empty<T>(n: nat): (slots: Slots<T>)
    ensures |slots| == n && forall r :: 0 <= r < n ==> slots[r] == []
    ensures Total(slots) == 0
    decreases n
  {
    if n == 0 then [] else [[]] + Empty(n - 1)
  }

  /** The wheel after the events; `None` if an event could not happen. */
  ghost function Runs<T>(start: Wheel<T>, max: int, events: seq<Event<T>>): (w: Option<Wheel<T>>)
    requires Valid(start, max)
    ensures w.Some? ==> Valid(w.value, max) && |w.value.slots| == |start.slots|
    decreases |events|
  {
    if |events| == 0 then Some(start)
    else
      var e := events[|events| - 1];
      match Runs(start, max, events[..|events| - 1])
      case None => None
      case Some(w) =>
        if !Possible(w, e) then None
        else
          StepKeepsValid(w, max, e);
          Some(Do(w, max, e))
  }

  /** The same from `n` empty slots. */
  ghost function After<T>(n: nat, max: int, events: seq<Event<T>>): (w: Option<Wheel<T>>)
    requires n > 0
    ensures w.Some? ==> Valid(w.value, max) && |w.value.slots| == n
  {
    Runs(Wheel(Empty<T>(n), {}), max, events)
  }

  /** How many ticks ago the last sign of life of `t` was, if it was `k` ticks ago before the events. */
  function AgeAfter<T(==)>(k: nat, events: seq<Event<T>>, t: T): nat
    decreases |events|
  {
    if |events| == 0 then k else NextAge(events[|events| - 1], t, AgeAfter(k, events[..|events| - 1], t))
  }

  /** The ticks since the last sign of life of `t`: its acceptance or a message. */
  function TicksSince<T(==)>(events: seq<Event<T>>, t: T): nat {
    AgeAfter(0, events, t)
  }

  function NextAge<T(==)>(e: Event<T>, t: T, k: nat): nat {
    if e == Tick then k + 1
    else if e == Accept(t) || e == Message(t) then 0
    else k
  }

  /** If `t` has not been asked to close, then it is in slot n - 1 - k. */
  ghost predicate SitsAt<T>(w: Wheel<T>, t: T, k: nat) {
    forall r, i :: In(w.slots, r, i) && w.slots[r][i] == t && t !in w.closing ==> r + k == |w.slots| - 1
  }

  lemma StepMovesOn<T>(w: Wheel<T>, max: int, e: Event<T>, t: T, k: nat)
    requires Valid(w, max) && Possible(w, e) && SitsAt(w, t, k)
    ensures SitsAt(Do(w, max, e), t, NextAge(e, t, k))
  {
    var v, n := Do(w, max, e), |w.slots|;
    forall r, i | In(v.slots, r, i) && v.slots[r][i] == t && t !in v.closing
      ensures r + NextAge(e, t, k) == n - 1
    {
      match e
      case Accept(u) =>
        if Total(w.slots) < max {
          EnterOrigin(w.slots, u, r, i);
        }
      case Message(u) =>
        var p := Place(w.slots, u);
        var rest := RemoveAt(w.slots, p.0, p.1);
        DistinctRemoveAt(w.slots, p.0, p.1);
        EnterOrigin(rest, u, r, i);
        if In(rest, r, i) && rest[r][i] == t {
          RemoveAtOrigin(w.slots, p.0, p.1, r, i);
        }
      case Ask(u) =>
      case Close(u) =>
        var p := Place(w.slots, u);
        DistinctRemoveAt(w.slots, p.0, p.1);
        RemoveAtOrigin(w.slots, p.0, p.1, r, i);
      case Tick =>
        TurnedOrigin(w.slots, r, i);
    }
  }

  lemma {:induction false} AgesInRuns<T>(start: Wheel<T>, max: int, events: seq<Event<T>>, t: T, k: nat)
    requires Valid(start, max) && SitsAt(start, t, k) && Runs(start, max, events).Some?
    ensures SitsAt(Runs(start, max, events).value, t, AgeAfter(k, events, t))
    decreases |events|
  {
    if |events| > 0 {
      var last := |events| - 1;
      AgesInRuns(start, max, events[..last], t, k);
      StepMovesOn(Runs(start, max, events[..last]).value, max, events[last], t, AgeAfter(k, events[..last], t));
    }
  }

  /**
   In every run a connection that has not been asked to close and had k ticks since its last activity sits in
   slot n - 1 - k.
   */
  lemma SlotIsAge<T>(n: nat, max: int, events: seq<Event<T>>, t: T)
    requires n > 0 && After(n, max, events).Some?
    ensures SitsAt(After(n, max, events).value, t, TicksSince(events, t))
  {
    AgesInRuns(Wheel(Empty<T>(n), {}), max, events, t, 0);
  }

  /** A tick marks what is in the first slot, and so what is of the greatest age. */
  lemma TickMarksTheOldest<T>(w: Wheel<T>, t: T, k: nat)
    requires |w.slots| > 0 && Holds(w.slots, t) && t !in w.closing && SitsAt(w, t, k)
    ensures t in Ticked(w).closing <==> k + 1 == |w.slots|
    ensures k < |w.slots|
  {
    var r, i :| In(w.slots, r, i) && w.slots[r][i] == t;
    if t in Elements(w.slots[0]) {
      var j :| 0 <= j < |w.slots[0]| && w.slots[0][j] == t;
      assert In(w.slots, 0, j);
    }
  }

  /** A tick marks a connection exactly when it is the n-th one without a sign of life. */
  lemma EvictedAtTheNthTick<T>(n: nat, max: int, events: seq<Event<T>>, t: T)
    requires n > 0 && After(n, max, events).Some?
    requires Holds(After(n, max, events).value.slots, t) && t !in After(n, max, events).value.closing
    ensures t in Ticked(After(n, max, events).value).closing <==> TicksSince(events, t) + 1 == n
    ensures TicksSince(events, t) < n
  {
    SlotIsAge(n, max, events, t);
    TickMarksTheOldest(After(n, max, events).value, t, TicksSince(events, t));
  }

  /** A sign of life makes a connection the last of the last slot and of age 0; every tick adds one. */
  lemma ActiveIsLast<T>(slots: Slots<T>, t: T, r: int, i: int)
    requires |slots| > 0
    ensures Enter(slots, t)[|slots| - 1] == slots[|slots| - 1] + [t]
    ensures In(slots, r, i) ==>
      var last := Refresh(slots, r, i)[|slots| - 1];
      last != [] && last[|last| - 1] == slots[r][i]
  {}

  lemma AgeCounts<T>(events: seq<Event<T>>, t: T)
    ensures TicksSince(events + [Tick], t) == TicksSince(events, t) + 1
    ensures TicksSince(events + [Accept(t)], t) == TicksSince(events + [Message(t)], t) == 0
  {
    assert (events + [Tick])[..|events|] == events;
    assert (events + [Accept(t)])[..|events|] == events && (events + [Message(t)])[..|events|] == events;
  }

  function Ticks<T>(k: nat): (events: seq<Event<T>>)
    ensures |events| == k
  {
    if k == 0 then [] else Ticks(k - 1) + [Tick]
  }

  lemma FirstAccepted<T>(n: nat, max: int, t: T)
    requires n > 0 && max > 0
    ensures
      var w := After(n, max, [Accept(t)]);
      w.Some? && Holds(w.value.slots, t) && t !in w.value.closing
  {
    var w: Wheel<T> := Wheel(Empty(n), {});
    assert [Accept(t)][..0] == [] && Runs(w, max, [Accept(t)][..0]) == Some(w);
    assert Possible(w, Accept(t)) && Do(w, max, Accept(t)) == w.(slots := Enter(w.slots, t));
    EnterHolds(w.slots, t, t);
  }

  lemma OneTickMore<T>(n: nat, max: int, events: seq<Event<T>>, t: T)
    requires n > 0 && After(n, max, events).Some? && TicksSince(events, t) + 1 < n
    requires Holds(After(n, max, events).value.slots, t) && t !in After(n, max, events).value.closing
    ensures
      var w := After(n, max, events + [Tick]);
      w.Some? && Holds(w.value.slots, t) && t !in w.value.closing
  {
    EvictedAtTheNthTick(n, max, events, t);
    assert (events + [Tick])[..|events|] == events;
    TurnedHolds(After(n, max, events).value.slots, t);
  }

  lemma {:induction false} SilentIsHeld<T>(n: nat, max: int, t: T, k: nat)
    requires k < n && max > 0
    ensures
      var w := After(n, max, [Accept(t)] + Ticks<T>(k));
      w.Some? && Holds(w.value.slots, t) && t !in w.value.closing
    decreases k
  {
    if k == 0 {
      FirstAccepted(n, max, t);
      assert [Accept(t)] + Ticks<T>(0) == [Accept(t)];
    } else {
      SilentIsHeld(n, max, t, k - 1);
      SilentAge(t, k - 1);
      OneTickMore(n, max, [Accept(t)] + Ticks<T>(k - 1), t);
      assert [Accept(t)] + Ticks<T>(k) == [Accept(t)] + Ticks<T>(k - 1) + [Tick];
    }
  }

  /** A connection that is accepted and then silent is marked by the n-th tick, and not by one before. */
  lemma SilentRun<T>(n: nat, max: int, t: T, k: nat)
    requires k < n && max > 0
    ensures
      var w := After(n, max, [Accept(t)] + Ticks<T>(k));
      w.Some? && t !in w.value.closing && (t in Ticked(w.value).closing <==> k + 1 == n)
  {
    SilentIsHeld(n, max, t, k);
    SilentAge(t, k);
    EvictedAtTheNthTick(n, max, [Accept(t)] + Ticks<T>(k), t);
  }

  lemma {:induction false} SilentAge<T>(t: T, k: nat)
    ensures TicksSince([Accept(t)] + Ticks<T>(k), t) == k
    decreases k
  {
    var none: seq<Event<T>> := [];
    if k == 0 {
      AgeCounts(none, t);
      assert [Accept(t)] + Ticks<T>(0) == none + [Accept(t)];
    } else {
      SilentAge(t, k - 1);
      AgeCounts([Accept(t)] + Ticks<T>(k - 1), t);
      assert [Accept(t)] + Ticks<T>(k) == [Accept(t)] + Ticks<T>(k - 1) + [Tick];
    }
  }

  // ----- setting the time-out while there are connections -----

  /** The new slots come behind the old ones. */
  function Extended<T>(w: Wheel<T>, more: nat): Wheel<T> {
    w.(slots := w.slots + Empty(more))
  }

  lemma {:induction false} TotalExtended<T>(slots: Slots<T>, more: nat)
    ensures Total(slots + Empty(more)) == Total(slots)
    decreases more
  {
    if more == 0 {
      assert slots + Empty<T>(0) == slots;
    } else {
      assert slots + Empty<T>(more) == (slots + [[]]) + Empty(more - 1);
      TotalExtended(slots + [[]], more - 1);
      TotalAppend(slots, []);
    }
  }

  lemma SameIn<T>(slots: Slots<T>, more: nat, r: int, i: int)
    ensures In(slots + Empty(more), r, i) <==> In(slots, r, i)
    ensures In(slots, r, i) ==> (slots + Empty(more))[r][i] == slots[r][i]
  {}

  lemma ExtendedKeepsValid<T>(w: Wheel<T>, max: int, more: nat)
    requires Valid(w, max)
    ensures Valid(Extended(w, more), max)
    ensures forall t :: Holds(Extended(w, more).slots, t) <==> Holds(w.slots, t)
  {
    TotalExtended(w.slots, more);
    forall r, i ensures In(w.slots + Empty(more), r, i) <==> In(w.slots, r, i) {
      SameIn(w.slots, more, r, i);
    }
    forall t ensures Holds(Extended(w, more).slots, t) <==> Holds(w.slots, t) {
      if r, i :| In(w.slots, r, i) && w.slots[r][i] == t {
        SameIn(w.slots, more, r, i);
      }
    }
    forall r, i, s, j | Same(Extended(w, more).slots, r, i, s, j) ensures r == s && i == j {
      SamePlace(w.slots, r, i, s, j);
    }
  }

  /** The wheel after the events that follow its extension. */
  ghost function AfterExtended<T>(w: Wheel<T>, more: nat, max: int, events: seq<Event<T>>): (v: Option<Wheel<T>>)
    requires Valid(w, max)
    ensures v.Some? ==> Valid(v.value, max) && |v.value.slots| == |w.slots| + more
  {
    ExtendedKeepsValid(w, max, more);
    Runs(Extended(w, more), max, events)
  }

  /**
   A connection that is held when the wheel is extended counts as that many ticks older from then on. One in the
   first slot, as every connection is in a wheel with one slot, is as old as can be: the
   first tick marks it, unless it gives a sign of life between the extension and that tick.
   */
  lemma ExtensionAges<T>(w: Wheel<T>, more: nat, max: int, events: seq<Event<T>>, t: T, k: nat)
    requires Valid(w, max) && SitsAt(w, t, k) && AfterExtended(w, more, max, events).Some?
    requires
      var v := AfterExtended(w, more, max, events).value;
      Holds(v.slots, t) && t !in v.closing
    ensures
      var v := AfterExtended(w, more, max, events).value;
      && (t in Ticked(v).closing <==> AgeAfter(k + more, events, t) + 1 == |w.slots| + more)
      && (k + 1 == |w.slots| && more > 0 && Tick !in events ==>
            (t in Ticked(v).closing <==> Accept(t) !in events && Message(t) !in events))
  {
    var e := Extended(w, more);
    ExtendedKeepsValid(w, max, more);
    forall r, i | In(e.slots, r, i) && e.slots[r][i] == t && t !in e.closing ensures r + k + more == |e.slots| - 1 {
      SameIn(w.slots, more, r, i);
    }
    AgesInRuns(e, max, events, t, k + more);
    TickMarksTheOldest(Runs(e, max, events).value, t, AgeAfter(k + more, events, t));
    if Tick !in events && k + more > 0 {
      AgeWithoutTicks(k + more, events, t);
    }
  }

  lemma {:induction false} AgeWithoutTicks<T>(k: nat, events: seq<Event<T>>, t: T)
    requires k > 0 && Tick !in events
    ensures AgeAfter(k, events, t) == if Accept(t) in events || Message(t) in events then 0 else k
    decreases |events|
  {
    if |events| > 0 {
      var last := |events| - 1;
      AgeWithoutTicks(k, events[..last], t);
      assert events == events[..last] + [events[last]];
    }
  }
}
