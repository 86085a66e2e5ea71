/**
 A table of places with a stack of the free ones: a new entry takes the place that was freed last, or a new
 place at the end if none is free.
 */
module SlotTable {
  import opened Bytes

  datatype Slots<T> = Slots(items: seq<Option<T>>, free: seq<nat>)

  predicate At<T(==)>(s: Slots<T>, i: int, x: T) {
    0 <= i < |s.items| && s.items[i] == Some(x)
  }

  ghost predicate On<T>(s: Slots<T>, x: T) {
    exists i :: At(s, i, x)
  }

  /** The free places are exactly the empty ones, each listed once. */
  ghost predicate FreeIsEmpty<T>(s: Slots<T>) {
    && (forall k :: 0 <= k < |s.free| ==> s.free[k] < |s.items| && s.items[s.free[k]].None?)
    && (forall k, l :: 0 <= k < l < |s.free| ==> s.free[k] != s.free[l])
    && (forall i :: 0 <= i < |s.items| && s.items[i].None? ==> i in s.free)
  }

  ghost predicate Twins<T>(s: Slots<T>, i: int, j: int) {
    0 <= i < |s.items| && 0 <= j < |s.items| && s.items[i].Some? && s.items[i] == s.items[j]
  }

  /** Nothing has two places. */
  ghost predicate Single<T>(s: Slots<T>) {
    forall i, j :: Twins(s, i, j) ==> i == j
  }

  ghost predicate Tidy<T>(s: Slots<T>) {
    FreeIsEmpty(s) && Single(s)
  }

  function FreeIdx<T>(s: Slots<T>): nat {
    if |s.free| == 0 then |s.items| else s.free[|s.free| - 1]
  }

  /** Replaces an element or appends one. */
  function Put<E>(s: seq<E>, i: nat, x: E): (r: seq<E>)
    requires i <= |s|
    ensures |r| == if i == |s| then |s| + 1 else |s|
    ensures forall k :: 0 <= k < |r| ==> r[k] == if k == i then x else s[k]
  {
    if i == |s| then s + [x] else s[i := x]
  }

  function Insert<T>(s: Slots<T>, x: T): Slots<T>
    requires FreeIdx(s) <= |s.items|
  {
    Slots(Put(s.items, FreeIdx(s), Some(x)), if |s.free| == 0 then [] else s.free[..|s.free| - 1])
  }

  function Clear<T>(s: Slots<T>, i: nat): Slots<T>
    requires i < |s.items|
  {
    Slots(s.items[i := None], s.free + [i])
  }

  ghost function Place<T>(s: Slots<T>, x: T): (i: nat)
    requires On(s, x)
    ensures At(s, i, x)
  {
    var i :| At(s, i, x);
    i
  }

  lemma PlaceIs<T>(s: Slots<T>, i: int, x: T)
    requires Single(s) && At(s, i, x)
    ensures On(s, x) && Place(s, x) == i
  {
    assert Twins(s, Place(s, x), i);
  }

  lemma NotAt<T>(s: Slots<T>, x: T)
    requires !On(s, x)
    ensures forall k :: 0 <= k < |s.items| ==> s.items[k] != Some(x)
  {
    forall k | 0 <= k < |s.items| ensures s.items[k] != Some(x) {
      assert !At(s, k, x);
    }
  }

  /** How many are in the table. */
  function Live<T>(s: Slots<T>): int {
    |s.items| - |s.free|
  }

  lemma FreeIsFree<T>(s: Slots<T>)
    requires Tidy(s)
    ensures FreeIdx(s) <= |s.items|
    ensures FreeIdx(s) < |s.items| ==> s.items[FreeIdx(s)].None?
  {}

  lemma InsertKeepsFree<T>(s: Slots<T>, x: T)
    requires Tidy(s) && FreeIdx(s) <= |s.items|
    ensures FreeIsEmpty(Insert(s, x)) && Live(Insert(s, x)) == Live(s) + 1
  {
    var u := Insert(s, x);
    forall i | 0 <= i < |u.items| && u.items[i].None? ensures i in u.free {
      assert i in s.free;
      var k :| 0 <= k < |s.free| && s.free[k] == i;
      assert u.free[k] == i;
    }
  }

  /** Inserting keeps the table sound exactly for what is not in it yet. */
  lemma InsertKeepsValidExactly<T>(s: Slots<T>, x: T)
    requires Tidy(s)
    ensures FreeIdx(s) <= |s.items|
    ensures At(Insert(s, x), FreeIdx(s), x)
    ensures Tidy(Insert(s, x)) <==> !On(s, x)
    ensures forall i, y :: At(s, i, y) ==> At(Insert(s, x), i, y)
  {
    FreeIsFree(s);
    InsertKeepsFree(s, x);
    var u, i := Insert(s, x), FreeIdx(s);
    if On(s, x) {
      assert Twins(u, Place(s, x), i) && Place(s, x) != i;
    } else {
      NotAt(s, x);
      forall k, l | Twins(u, k, l) ensures k == l {
        if k != i && l != i {
          assert Twins(s, k, l);
        }
      }
    }
  }

  /** The place given back last is the first to be taken, and taking it leaves the others as they were. */
  lemma LastFreedFirst<T>(s: Slots<T>, i: nat, x: T)
    requires i < |s.items|
    ensures FreeIdx(Clear(s, i)) == i && At(Insert(Clear(s, i), x), i, x)
    ensures Insert(Clear(s, i), x).free == s.free
  {}

  lemma ClearKeepsValid<T>(s: Slots<T>, i: nat, x: T)
    requires Tidy(s) && At(s, i, x)
    ensures Tidy(Clear(s, i)) && !On(Clear(s, i), x) && Live(Clear(s, i)) == Live(s) - 1
    ensures forall k, y :: k != i && At(s, k, y) ==> At(Clear(s, i), k, y)
  {
    var u := Clear(s, i);
    forall j | 0 <= j < |u.items| && u.items[j].None? ensures j in u.free {
      if j == i {
        assert u.free[|s.free|] == i;
      } else {
        var k :| 0 <= k < |s.free| && s.free[k] == j;
        assert u.free[k] == j;
      }
    }
    forall k, l | Twins(u, k, l) ensures k == l {
      assert Twins(s, k, l);
    }
    forall k ensures !At(u, k, x) {
      assert At(u, k, x) ==> Twins(s, k, i);
    }
  }
}
