/** Any run of `DataQueue` operations, by the effects that DataQueue.dfy proves of the methods. */
module QueueRuns {
  import opened Bytes
  import opened DataQueueModule

  /**
   The operations. `AcceptBack` comes with the cells it finds, and a smaller `c` than there are elements makes
   `AdjustCapacity` what `Rearrange` is. A run that leaves the elements in a buffer without a free cell behind
   them, where the representation is lost, is not followed further: it counts as aborted.
   */
  datatype Op<T> =
    | PushBack(e: T) | PushFront(e: T) | PushBackAll(es: seq<T>) | AcceptBack(es: seq<T>)
    | PopFront | PopFrontN(n: int) | DropFront(n: int) | PopBack | Clear | AdjustCapacity(c: int)

  /** A new queue. */
  function Fresh<T>(): Queue<T> {
    Queue(4, 0, [], 0, 0)
  }

  function Apply<T>(q: Queue<T>, op: Op<T>): Outcome<Queue<T>>
    requires q.Valid()
  {
    match op
    case PushBack(e) => Returned(q.PushBack(e))
    case PushFront(e) => Returned(q.PushFront(e))
    case PushBackAll(es) => if q.PushBackAllAborts(es) then Aborted else Returned(q.PushBackAll(es))
    case AcceptBack(es) =>
      if es == [] then Returned(q)
      else if |q.items| + |es| > q.cap then Aborted
      else Returned(q.With(q.begin, q.items + es))
    case PopFront => Returned(if q.items == [] then q else q.DropFront(1))
    case PopFrontN(n) => if 0 < n <= |q.items| then Returned(q.DropFront(n)) else Aborted
    case DropFront(n) =>
      if n == 0 then Returned(q) else if 0 < n <= |q.items| then Returned(q.DropFront(n)) else Aborted
    case PopBack => Returned(if q.items == [] then q else q.PopBack())
    case Clear => Returned(q.With(0, []))
    case AdjustCapacity(c) =>
      var n := if c < |q.items| then q.cap else c;
      if q.begin == 0 && n == q.cap then Returned(q)
      else if |q.items| < n then Returned(q.Grown(n))
      else Aborted
  }

  /** The same operations on a plain sequence, which knows no capacity and so aborts for fewer reasons. */
  function ApplySeq<T>(s: seq<T>, op: Op<T>): Outcome<seq<T>> {
    match op
    case PushBack(e) => Returned(s + [e])
    case PushFront(e) => Returned([e] + s)
    case PushBackAll(es) => Returned(s + es)
    case AcceptBack(es) => Returned(s + es)
    case PopFront => Returned(if s == [] then s else s[1..])
    case PopFrontN(n) => if 0 < n <= |s| then Returned(s[n..]) else Aborted
    case DropFront(n) => if 0 <= n <= |s| then Returned(s[n..]) else Aborted
    case PopBack => Returned(if s == [] then s else s[..|s| - 1])
    case Clear => Returned([])
    case AdjustCapacity(_) => Returned(s)
  }

  /** The aborts that come from the buffer and not from the sequence. */
  predicate BufferAborts<T>(q: Queue<T>, op: Op<T>) {
    match op
    case PushBackAll(es) => es == [] || (|q.items| + |es| == q.cap && q.begin != 0)
    case AcceptBack(es) => es != [] && |q.items| + |es| > q.cap
    case AdjustCapacity(c) =>
      if c < |q.items| || c == q.cap then q.begin != 0 && q.Full() else c == |q.items|
    case _ => false
  }

  /** Total copying is bounded by the capacity, and the capacity by twice the largest size (or 4). */
  predicate Amortised<T>(q: Queue<T>) {
    q.Valid() && q.copied <= q.cap && (q.cap <= 4 || q.cap <= 2 * q.peak)
  }

  lemma StepRefines<T>(q: Queue<T>, op: Op<T>)
    requires q.Valid()
    ensures Apply(q, op).Aborted? <==> BufferAborts(q, op) || ApplySeq(q.items, op).Aborted?
    ensures Apply(q, op).Returned? ==>
      Apply(q, op).value.Valid() && ApplySeq(q.items, op) == Returned(Apply(q, op).value.items)
  {
    if op.DropFront? && op.n == 0 {
      assert q.items[0..] == q.items;
    }
    if op.AcceptBack? && op.es == [] {
      assert q.items + op.es == q.items;
    }
  }

  lemma StepAmortised<T>(q: Queue<T>, op: Op<T>)
    requires Amortised(q) && !op.AdjustCapacity?
    ensures Apply(q, op).Returned? ==> Amortised(Apply(q, op).value)
  {
    StepRefines(q, op);
  }

  function Run<T>(q: Queue<T>, ops: seq<Op<T>>): Outcome<Queue<T>>
    requires q.Valid()
    decreases |ops|
  {
    if |ops| == 0 then Returned(q)
    else
      StepRefines(q, ops[0]);
      match Apply(q, ops[0])
      case Aborted => Aborted
      case Returned(r) => Run(r, ops[1..])
  }

  function RunSeq<T>(s: seq<T>, ops: seq<Op<T>>): Outcome<seq<T>>
    decreases |ops|
  {
    if |ops| == 0 then Returned(s)
    else
      match ApplySeq(s, ops[0])
      case Aborted => Aborted
      case Returned(r) => RunSeq(r, ops[1..])
  }

  /** Until it aborts, a queue is the plain sequence, through every wrap, growth, exact fill and emptying. */
  lemma {:induction false} RunRefines<T>(q: Queue<T>, ops: seq<Op<T>>)
    requires q.Valid()
    ensures Run(q, ops).Returned? ==>
      Run(q, ops).value.Valid() && RunSeq(q.items, ops) == Returned(Run(q, ops).value.items)
    decreases |ops|
  {
    if |ops| > 0 {
      StepRefines(q, ops[0]);
      if Apply(q, ops[0]).Returned? {
        RunRefines(Apply(q, ops[0]).value, ops[1..]);
      }
    }
  }

  lemma {:induction false} RunAmortised<T>(q: Queue<T>, ops: seq<Op<T>>)
    requires Amortised(q) && forall i :: 0 <= i < |ops| ==> !ops[i].AdjustCapacity?
    ensures Run(q, ops).Returned? ==> Amortised(Run(q, ops).value)
    decreases |ops|
  {
    if |ops| > 0 {
      StepAmortised(q, ops[0]);
      if Apply(q, ops[0]).Returned? {
        RunAmortised(Apply(q, ops[0]).value, ops[1..]);
      }
    }
  }

  /** Growth is amortised over every run from a new queue in which nobody sets the capacity. */
  lemma GrowthIsAmortised<T>(ops: seq<Op<T>>)
    requires forall i :: 0 <= i < |ops| ==> !ops[i].AdjustCapacity?
    ensures Run(Fresh<T>(), ops).Returned? ==>
      var q := Run(Fresh<T>(), ops).value;
      q.copied <= q.cap && q.cap <= if 2 * q.peak > 4 then 2 * q.peak else 4
  {
    RunAmortised(Fresh<T>(), ops);
  }

  /** The assert in pushing several elements can fail: three in, one out, two more. */
  lemma PushBackAllCanAbort(e: int)
    ensures Run(Fresh<int>(), [PushBackAll([e, e, e]), DropFront(1), PushBackAll([e, e])]) == Aborted
  {
    var push3, drop1, push2 := PushBackAll([e, e, e]), DropFront(1), PushBackAll([e, e]);
    var q := Apply(Apply(Fresh<int>(), push3).value, drop1).value;
    assert q.begin == 1 && |q.items| == 2 && q.cap == 4;
    var ops := [push3, drop1, push2];
    assert ops[1..] == [drop1, push2] && [drop1, push2][1..] == [push2];
    assert Run(q, [push2]) == Aborted;
    assert Run(Apply(Fresh<int>(), push3).value, [drop1, push2]) == Aborted;
  }
}
