/**
 `DataQueue`: a double-ended queue in a ring buffer that is reallocated when it is full. An `assert` of the
 C++ code that fails is the outcome `Aborted`.
 */
module DataQueueModule {
  import opened Bytes

  /**
   What a queue is to its user, and where it stands: capacity, offset of the first element, elements in
   order; `copied` counts elements moved by reallocation so far, `peak` is the largest size so far.
   */
  datatype Queue<T> = Queue(cap: nat, begin: nat, items: seq<T>, copied: nat, peak: nat)
  {
    predicate Valid() {
      && 0 < cap && begin < cap && |items| <= cap && |items| <= peak
      && (items == [] ==> begin == 0)
    }

    predicate Full() { |items| == cap }

    /** Moves the elements to the start of a new buffer. */
    function Grown(c: nat): Queue<T> {
      this.(cap := c, begin := 0, copied := copied + |items|)
    }

    function With(b: nat, s: seq<T>): Queue<T> {
      this.(begin := if s == [] then 0 else b, items := s, peak := if |s| > peak then |s| else peak)
    }

    /** The offset `n` places after the first element. */
    function At(n: nat): nat
      requires n <= cap && begin < cap
    {
      Wrap(begin + n, cap)
    }

    function PushBack(e: T): Queue<T> {
      var q := if Full() then Grown(2 * cap) else this;
      q.With(q.begin, items + [e])
    }

    function PushFront(e: T): Queue<T>
      requires Valid()
    {
      var q := if Full() then Grown(2 * cap) else this;
      q.With(if q.begin == 0 then q.cap - 1 else q.begin - 1, [e] + items)
    }

    /** When pushing several elements trips the assert: they fill the buffer exactly and have to fold. */
    predicate PushBackAllAborts(es: seq<T>) {
      es == [] || (|items| + |es| == cap && begin != 0)
    }

    function PushBackAll(es: seq<T>): Queue<T> {
      var q := if |items| + |es| > cap then Grown(2 * (|items| + |es|)) else this;
      q.With(q.begin, items + es)
    }

    function DropFront(n: nat): Queue<T>
      requires Valid() && n <= |items|
    {
      With(At(n), items[n..])
    }

    function PopBack(): Queue<T>
      requires items != []
    {
      With(begin, items[..|items| - 1])
    }
  }

  function Wrap(i: nat, cap: nat): nat {
    if i < cap then i else i - cap
  }

  /** The `n` cells of a ring from offset `from` on. */
  ghost function Cells<T>(ring: seq<T>, from: nat, n: nat): (s: seq<T>)
    requires from + n <= 2 * |ring|
    ensures |s| == n
    ensures forall i :: 0 <= i < n ==> s[i] == ring[Wrap(from + i, |ring|)]
    decreases n
  {
    if n == 0 then [] else Cells(ring, from, n - 1) + [ring[Wrap(from + n - 1, |ring|)]]
  }

  class DataQueue<T(0)> {
    var data: array<T>         // mStorBegin .. mStorEnd
    var mBegin: nat            // offset from mStorBegin
    var mEnd: Option<nat>      // offset from mStorBegin; None is the null pointer
    ghost var items: seq<T>    // the elements in order
    ghost var copied: nat
    ghost var peak: nat

    /**
     The elements are where the offsets say. Right after a reallocation that leaves no free cell, `mEnd` has not
     wrapped.
     */
    ghost predicate Laid()
      reads this, data
    {
      && |items| <= data.Length
      && (if items == [] then mBegin == 0 && mEnd == None
          else mBegin < data.Length && mEnd.Some? &&
               (mEnd.value == Wrap(mBegin + |items|, data.Length) || (mBegin == 0 && mEnd.value == |items|)))
      && forall i :: 0 <= i < |items| ==> items[i] == data[Wrap(mBegin + i, data.Length)]
    }

    /** The representation invariant: a non-null `mEnd` is an offset inside the buffer. */
    ghost predicate Valid()
      reads this, data
    {
      Laid() && 0 < data.Length && (mEnd.Some? ==> mEnd.value < data.Length) && |items| <= peak
    }

    ghost function View(): (q: Queue<T>)
      reads this, data
      ensures Valid() ==> q.Valid()
    {
      Queue(data.Length, mBegin, items, copied, peak)
    }

    constructor ()
      ensures Valid() && fresh(data) && View() == Queue(4, 0, [], 0, 0)
    {
      data := new T[4];
      mBegin, mEnd, items, copied, peak := 0, None, [], 0, 0;
    }

    // ----- queries -----

    function Capacity(): (n: nat)
      reads this
      ensures n == data.Length
    {
      data.Length
    }

    function Size(): (n: nat)
      requires Laid()
      reads this, data
      ensures n == |items|
    {
      match mEnd
      case None => 0
      case Some(e) => if mBegin < e then e - mBegin else (data.Length - mBegin) + e
    }

    function Available(): (n: nat)
      requires Laid()
      reads this, data
      ensures n + |items| == data.Length
    {
      Capacity() - Size()
    }

    predicate Empty()
      requires Laid()
      reads this, data
      ensures Empty() <==> items == []
    {
      mEnd == None
    }

    predicate Full()
      requires Valid()
      reads this, data
      ensures Full() <==> |items| == data.Length
    {
      mEnd == Some(mBegin)
    }

    /** The elements reach the end of the buffer and would go on, or go on, at its start. */
    predicate Folded()
      requires Valid()
      reads this, data
      ensures Folded() <==> mBegin > 0 && mBegin + |items| >= data.Length
    {
      if Empty() then false
      else if Full() then mBegin > 0
      else mEnd.value < mBegin
    }

    function FoldedHead(): (n: nat)
      requires Valid()
      reads this, data
      ensures Folded() ==> 0 < n <= |items| && mBegin + n <= data.Length && data[mBegin..mBegin + n] == items[..n]
      ensures !Folded() ==> n == 0
    {
      if Folded() then data.Length - mBegin else 0
    }

    function FoldedTail(): (n: nat)
      requires Valid()
      reads this, data
      ensures Folded() ==> n <= data.Length && FoldedHead() + n == |items| && data[..n] == items[FoldedHead()..]
      ensures !Folded() ==> n == 0
    {
      if Folded() then mEnd.value else 0
    }

    /** The free cells that follow the elements without a break. */
    function FreeTail(): (n: nat)
      requires Valid()
      reads this, data
      ensures n <= data.Length - |items|
      ensures n == if Folded() || items == [] then data.Length - |items| else data.Length - mBegin - |items|
    {
      if Empty() then Capacity()
      else if Full() then 0
      else if Folded() then mBegin - mEnd.value
      else data.Length - mEnd.value
    }

    /** The free cells before the elements. */
    function FreeHead(): (n: nat)
      requires Valid()
      reads this, data
      ensures n + FreeTail() == data.Length - |items|
    {
      if Full() then 0 else if Folded() then 0 else mBegin
    }

    // ----- capacity -----

    method Clear()
      requires Laid()
      modifies this
      ensures data == old(data) && (0 < data.Length ==> Valid())
      ensures Laid() && View() == old(View()).With(0, [])
    {
      mBegin, mEnd, items := 0, None, [];
    }

    /** memcpy into a buffer. */
    static method CopyIn(dst: array<T>, at: nat, src: seq<T>)
      requires at + |src| <= dst.Length
      modifies dst
      ensures forall k :: 0 <= k < dst.Length ==>
                dst[k] == if at <= k < at + |src| then src[k - at] else old(dst[k])
    {
      var i := 0;
      while i < |src|
        invariant i <= |src|
        invariant forall k :: 0 <= k < dst.Length ==> dst[k] == if at <= k < at + i then src[k - at] else old(dst[k])
      {
        dst[at + i] := src[i];
        i := i + 1;
      }
    }

    /** The new buffer breaks the invariant exactly when it has no free cell (and is not the empty one). */
    method Realloc(c: nat)
      requires Valid() && |items| <= c
      modifies this
      ensures fresh(data) && Laid() && View() == old(View()).Grown(c)
      ensures Valid() <==> |items| < c
    {
      var s := Size();
      var tmp := new T[c];
      if mEnd != None {
        CopyTo(tmp);
      }
      data := tmp;
      mBegin := 0;
      mEnd := if s == 0 then None else Some(s);
      copied := copied + s;
    }

    /** Copies the elements in order to the start of a large enough buffer. */
    method CopyTo(tmp: array<T>)
      requires Valid() && items != [] && |items| <= tmp.Length && tmp != data
      modifies tmp
      ensures tmp[..|items|] == items
    {
      if mBegin < mEnd.value {
        CopyIn(tmp, 0, data[mBegin..mEnd.value]);
      } else {
        var s1 := data.Length - mBegin;
        CopyIn(tmp, 0, data[mBegin..]);
        CopyIn(tmp, s1, data[..Size() - s1]);
      }
      assert forall i :: 0 <= i < |items| ==> tmp[i] == items[i];
    }

    method Rearrange()
      requires Valid()
      modifies this
      ensures data == old(data) || fresh(data)
      ensures Laid() && View() == if old(mBegin) == 0 then old(View()) else old(View()).Grown(old(data.Length))
      ensures Valid() <==> old(mBegin) == 0 || !old(View()).Full()
    {
      if mBegin == 0 {
        return;
      }
      Realloc(Capacity());
    }

    /**
     Never loses an element. The result says whether the capacity is now `c`; the invariant is lost
     exactly when the elements are moved to a buffer they fill.
     */
    method AdjustCapacity(c: int) returns (ok: bool)
      requires Valid()
      modifies this
      ensures data == old(data) || fresh(data)
      ensures Laid() && items == old(items)
      ensures ok <==> c >= |old(items)|
      ensures data.Length == if ok then c else old(data.Length)
      ensures View() == if old(mBegin) != 0 || (ok && c != old(data.Length))
                        then old(View()).Grown(data.Length) else old(View())
      ensures Valid() <==> (old(mBegin) == 0 && data.Length == old(data.Length)) || |old(items)| < data.Length
    {
      var s := Size();
      if c < s {
        Rearrange();
        return false;
      }
      if c == Capacity() {
        Rearrange();
        return true;
      }
      Realloc(c);
      return true;
    }

    // ----- the front -----

    method PushFront(e: T) returns (ok: bool)
      requires Valid()
      modifies this, data
      ensures data == old(data) || fresh(data)
      ensures ok && Valid() && View() == old(View()).PushFront(e)
    {
      if Full() {
        var _ := AdjustCapacity(2 * Capacity());
      }
      AddFront(e);
      return true;
    }

    method AddFront(e: T)
      requires Valid() && |items| < data.Length
      modifies this, data
      ensures Valid() && data == old(data)
      ensures
        var begin := if old(mBegin) == 0 then data.Length - 1 else old(mBegin) - 1;
        View() == old(View()).With(begin, [e] + old(items))
    {
      if Empty() {
        mEnd := Some(mBegin);
      }
      mBegin := if mBegin == 0 then data.Length - 1 else mBegin - 1;
      data[mBegin] := e;
      items := [e] + items;
      peak := if |items| > peak then |items| else peak;
    }

    method PopFront() returns (r: Option<T>)
      requires Valid()
      modifies this
      ensures Valid() && data == old(data)
      ensures if old(items) == [] then r == None && View() == old(View())
              else r == Some(old(items)[0]) && View() == old(View()).DropFront(1)
    {
      if Empty() {
        return None;
      }
      r := Some(data[mBegin]);
      mBegin := mBegin + 1;
      if mBegin == data.Length {
        mBegin := 0;
      }
      if mEnd == Some(mBegin) {
        mBegin, mEnd := 0, None;
      }
      items := items[1..];
      return;
    }

    /** Takes the first `n` elements; aborts unless there are that many and at least one is asked for. */
    method PopFrontN(n: int) returns (r: Outcome<seq<T>>)
      requires Valid()
      modifies this
      ensures data == old(data)
      ensures r == if 0 < n <= |old(items)| then Returned(old(items)[..n]) else Aborted
      ensures r.Returned? ==> Valid() && View() == old(View()).DropFront(n)
    {
      if !(n > 0 && n <= Size()) {
        return Aborted;
      }
      var buf := CopyOut(mBegin, n, 0);
      var dropped := DropFront(n);
      return Returned(buf);
    }

    /** memcpy out of the ring: `n` elements from the cell `begin`, which holds the element number `i`. */
    method CopyOut(begin: nat, n: nat, ghost i: nat) returns (buf: seq<T>)
      requires Valid() && i < |items| && i + n <= |items| && begin == Wrap(mBegin + i, data.Length)
      ensures buf == items[i..i + n]
    {
      var at, left := begin, n;
      buf := [];
      if at >= mEnd.value {
        var s1 := data.Length - at;
        s1 := if s1 < left then s1 else left;
        buf := data[at..at + s1];
        assert forall k :: 0 <= k < s1 ==> buf[k] == items[i + k];
        left := left - s1;
        at := at + s1;
        if at == data.Length {
          at := 0;
        }
      }
      if left > 0 {
        var more := data[at..at + left];
        assert forall k :: 0 <= k < left ==> more[k] == items[i + (n - left) + k];
        buf := buf + more;
      }
      assert forall k :: 0 <= k < n ==> buf[k] == items[i + k];
    }

    method DropFront(n: int) returns (r: Outcome<bool>)
      requires Valid()
      modifies this
      ensures data == old(data)
      ensures r == if 0 <= n <= |old(items)| then Returned(true) else Aborted
      ensures r.Returned? ==> Valid() && View() == old(View()).DropFront(n)
    {
      if n == 0 {
        return Returned(true);
      }
      if !(n > 0 && n <= Size()) {
        return Aborted;
      }
      r := Advance(n);
      if mEnd == Some(mBegin) {
        mBegin, mEnd := 0, None;
      }
      items := items[n..];
    }

    /** Moves `mBegin` on by `n` elements; the assert on the way never fails. */
    method Advance(n: nat) returns (r: Outcome<bool>)
      requires Valid() && 0 < n <= |items|
      modifies `mBegin
      ensures r == Returned(true) && mBegin == Wrap(old(mBegin) + n, data.Length)
    {
      var left := n;
      if mBegin >= mEnd.value {
        var s1 := data.Length - mBegin;
        s1 := if s1 < left then s1 else left;
        left := left - s1;
        mBegin := mBegin + s1;
        if mBegin == data.Length {
          mBegin := 0;
        }
      }
      if left > 0 {
        var s2 := mEnd.value - mBegin;
        if s2 < left {
          return Aborted;
        }
        mBegin := mBegin + left;
      }
      return Returned(true);
    }

    // ----- the back -----

    method PushBack(e: T) returns (ok: bool)
      requires Valid()
      modifies this, data
      ensures data == old(data) || fresh(data)
      ensures ok && Valid() && View() == old(View()).PushBack(e)
    {
      if Full() {
        var _ := AdjustCapacity(2 * Capacity());
      }
      AddBack(e);
      return true;
    }

    method AddBack(e: T)
      requires Valid() && |items| < data.Length
      modifies this, data
      ensures Valid() && data == old(data) && View() == old(View()).With(old(mBegin), old(items) + [e])
    {
      if Empty() {
        mEnd := Some(mBegin);
      }
      data[mEnd.value] := e;
      mEnd := Some(mEnd.value + 1);
      if mEnd.value == data.Length {
        mEnd := Some(0);
      }
      Extend([e]);
    }

    /** Appends all of `buf` or aborts; `PushBackAllAborts` says exactly when. */
    method PushBackAll(buf: seq<T>) returns (r: Outcome<bool>)
      requires Valid()
      modifies this, data
      ensures data == old(data) || fresh(data)
      ensures r == if old(View()).PushBackAllAborts(buf) then Aborted else Returned(true)
      ensures r.Returned? ==> Valid() && View() == old(View()).PushBackAll(buf)
    {
      if !(|buf| > 0) {
        return Aborted;
      }
      var c := Capacity();
      var s := Size();
      if s + |buf| > c {
        var _ := AdjustCapacity(2 * (s + |buf|));
      }
      r := Append(buf);
    }

    /** The part of `PushBackAll` after the capacity is large enough. */
    method Append(buf: seq<T>) returns (r: Outcome<bool>)
      requires Valid() && 0 < |buf| && |items| + |buf| <= data.Length
      modifies this, data
      ensures data == old(data)
      ensures r == if |old(items)| + |buf| == data.Length && old(mBegin) != 0 then Aborted else Returned(true)
      ensures r.Returned? ==> Valid() && View() == old(View()).With(old(mBegin), old(items) + buf)
    {
      if Empty() {
        mEnd := Some(mBegin);
      }
      var done := AppendFirst(buf);
      if done < |buf| {
        var s2 := mBegin - mEnd.value;
        if s2 <= |buf| - done {
          return Aborted;
        }
        AppendRest(buf, done);
      }
      Extend(buf);
      return Returned(true);
    }

    /** The elements, and behind them `more`, lie in the cells from `mBegin` on. */
    ghost predicate Lie(more: seq<T>)
      requires |items| + |more| <= data.Length && mBegin < data.Length
      reads this, data
    {
      && (forall i :: 0 <= i < |items| ==> items[i] == data[Wrap(mBegin + i, data.Length)])
      && (forall i :: 0 <= i < |more| ==> more[i] == data[Wrap(mBegin + (|items| + i), data.Length)])
    }

    /** Copies what fits before the end of the buffer. */
    method AppendFirst(buf: seq<T>) returns (done: nat)
      requires 0 < |buf| && |items| + |buf| <= data.Length && mBegin < data.Length
      requires Lie([]) && mEnd == Some(Wrap(mBegin + |items|, data.Length))
      modifies `mEnd, data
      ensures done <= |buf| && Lie(buf[..done]) && mEnd == Some(Wrap(mBegin + |items| + done, data.Length))
      ensures done < |buf| ==> mBegin + |items| + done >= data.Length
      ensures done == |buf| ==> mBegin + |items| + |buf| <= data.Length
    {
      done := 0;
      if mBegin <= mEnd.value {
        var s1 := data.Length - mEnd.value;
        s1 := if s1 < |buf| then s1 else |buf|;
        CopyIn(data, mEnd.value, buf[..s1]);
        done := s1;
        mEnd := Some(mEnd.value + s1);
        if mEnd.value == data.Length {
          mEnd := Some(0);
        }
      }
    }

    /** Copies the rest to the free cells before the first element. */
    method AppendRest(buf: seq<T>, done: nat)
      requires done < |buf| && |items| + |buf| < data.Length && mBegin < data.Length <= mBegin + |items| + done
      requires Lie(buf[..done]) && mEnd == Some(Wrap(mBegin + |items| + done, data.Length))
      modifies `mEnd, data
      ensures Lie(buf) && mEnd == Some(Wrap(mBegin + |items| + |buf|, data.Length))
    {
      CopyIn(data, mEnd.value, buf[done..]);
      mEnd := Some(mEnd.value + |buf| - done);
      assert forall i :: 0 <= i < done ==> buf[i] == buf[..done][i];
    }

    /** The cells already hold `more` behind the elements, and `mEnd` points past them. */
    ghost method Extend(more: seq<T>)
      requires more != [] && |items| + |more| <= data.Length && mBegin < data.Length
      requires mEnd == Some(Wrap(mBegin + |items| + |more|, data.Length))
      requires Lie(more)
      modifies `items, `peak
      ensures Valid() && items == old(items) + more && peak == if |items| > old(peak) then |items| else old(peak)
    {
      items := items + more;
      peak := if |items| > peak then |items| else peak;
    }

    /** Whatever the next `n` cells hold becomes elements. */
    ghost method ExtendBy(n: nat)
      requires 0 < n && |items| + n <= data.Length && mBegin < data.Length
      requires mEnd == Some(Wrap(mBegin + |items| + n, data.Length))
      requires forall i :: 0 <= i < |items| ==> items[i] == data[Wrap(mBegin + i, data.Length)]
      modifies `items, `peak
      ensures Valid() && |items| == |old(items)| + n && items[..|old(items)|] == old(items)
      ensures peak == if |items| > old(peak) then |items| else old(peak)
    {
      Extend(Cells(data[..], mBegin + |items|, n));
    }

    /** Takes the `n` cells behind the last element as elements; which they are is in the invariant. */
    method AcceptBack(n: int) returns (r: Outcome<bool>)
      requires Valid()
      modifies this
      ensures data == old(data)
      ensures r == if 0 <= n <= data.Length - |old(items)| then Returned(true) else Aborted
      ensures r.Returned? ==>
        && Valid()
        && n <= data.Length - |old(items)|
        && |items| == |old(items)| + n && items[..|old(items)|] == old(items)
        && View() == old(View()).With(old(mBegin), items)
    {
      if n == 0 {
        return Returned(true);
      }
      if !(n > 0 && n <= Available()) {
        return Aborted;
      }
      var left := n;
      if Empty() {
        mEnd := Some(mBegin);
      }
      if mEnd.value >= mBegin {
        var s1 := data.Length - mEnd.value;
        s1 := if s1 < left then s1 else left;
        left := left - s1;
        mEnd := Some(mEnd.value + s1);
        if mEnd.value == data.Length {
          mEnd := Some(0);
        }
      }
      if left > 0 {
        var s2 := mBegin - mEnd.value;
        if s2 < left {
          return Aborted;
        }
        mEnd := Some(mEnd.value + left);
      }
      ExtendBy(n);
      return Returned(true);
    }

    method PopBack() returns (r: Option<T>)
      requires Valid()
      modifies this
      ensures Valid() && data == old(data)
      ensures if old(items) == [] then r == None && View() == old(View())
              else r == Some(old(items)[|old(items)| - 1]) && View() == old(View()).PopBack()
    {
      if Empty() {
        return None;
      }
      mEnd := Some(if mEnd.value == 0 then data.Length - 1 else mEnd.value - 1);
      r := Some(data[mEnd.value]);
      if mEnd == Some(mBegin) {
        mBegin, mEnd := 0, None;
      }
      items := items[..|items| - 1];
      return;
    }

    // ----- looking without taking -----

    method PeekFront() returns (r: Option<T>)
      requires Valid()
      ensures r == if items == [] then None else Some(items[0])
    {
      if Empty() {
        return None;
      }
      return Some(data[mBegin]);
    }

    /** `__Offset__`: the cell of the element `offset` places from the front. */
    function Offset(offset: nat): (r: Option<nat>)
      requires Valid()
      reads this, data
      ensures offset < |items| ==> r == Some(Wrap(mBegin + offset, data.Length))
      ensures offset >= |items| ==> r == None
      ensures offset < |items| ==> r.Some? && r.value < data.Length && data[r.value] == items[offset]
    {
      if Empty() || offset >= Size() then None
      else if mBegin + offset >= data.Length then Some(mBegin + offset - data.Length)
      else Some(mBegin + offset)
    }

    method PeekFrontAt(offset: nat) returns (r: Option<T>)
      requires Valid()
      ensures r == if offset < |items| then Some(items[offset]) else None
    {
      var ptr := Offset(offset);
      if ptr == None {
        return None;
      }
      return Some(data[ptr.value]);
    }

    /**
     The sum with a negative `n` is unsigned in the code: below zero it wraps to more than any size. With a negative
     `n` that passes, a copy of that many elements, which is undefined, counts as a failed assert.
     */
    method PeekFrontN(n: int, offset: nat) returns (r: Outcome<Option<seq<T>>>)
      requires Valid()
      ensures r.Aborted? <==> 0 <= offset + n < offset < |items| && mBegin + offset < data.Length <= mBegin + |items|
      ensures r.Returned? && 0 <= n && offset < |items| && offset + n <= |items| ==>
                r.value == Some(items[offset..offset + n])
      ensures r.Returned? && 0 <= offset + n < offset < |items| ==> r.value == Some([])
      ensures offset >= |items| || offset + n < 0 || offset + n > |items| ==> r == Returned(None)
    {
      var ptr := Offset(offset);
      if ptr == None || n + offset < 0 || n + offset > Size() {
        return Returned(None);
      }
      if n < 0 {
        return if ptr.value >= mEnd.value then Aborted else Returned(Some([]));
      }
      var buf := CopyOut(ptr.value, n, offset);
      return Returned(Some(buf));
    }

    method PeekBack() returns (r: Option<T>)
      requires Valid()
      ensures r == if items == [] then None else Some(items[|items| - 1])
    {
      if Empty() {
        return None;
      }
      return Some(data[if mEnd.value == 0 then data.Length - 1 else mEnd.value - 1]);
    }
  }

  /** Four elements around the end of the buffer: `Rearrange` moves them to a buffer without a free cell. */
  method RearrangeCanBreak<T(0)>(e: T) returns (q: DataQueue<T>)
    ensures q.Laid() && q.items == [e, e, e, e] && q.mBegin == 0 && q.mEnd == Some(q.data.Length) && !q.Valid()
  {
    q := new DataQueue<T>();
    var k := 0;
    while k < 4
      invariant k <= 4 && q.Valid() && q.mBegin == 0 && q.data.Length == 4 && fresh(q) && fresh(q.data)
      invariant q.items == [e, e, e, e][..k]
    {
      var _ := q.PushBack(e);
      k := k + 1;
    }
    var _ := q.PopFront();
    var _ := q.PushBack(e);
    q.Rearrange();
  }
}
