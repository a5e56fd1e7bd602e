/** Insertion-ordered tables as an engine keeps them: a row put in again replaces the one
    in its slot, a new one goes behind those of its rank. */
module Tables {
  import opened Wrappers

  /** What a row is found by. Rows that stand alone are never the same as another; a
      lower rank is listed first, whenever it is put in. */
  datatype Slot<I> = Alone | Shared(id: I, rank: nat)

  function Rank<I>(slot: Slot<I>): nat {
    if slot.Alone? then 0 else slot.rank
  }

  predicate Same<I(==)>(a: Slot<I>, b: Slot<I>) {
    a.Shared? && a == b
  }

  function Put<T, I(==)>(rows: seq<T>, row: T, slot: T -> Slot<I>): (out: seq<T>)
    ensures forall r :: r in out ==> r == row || r in rows
  {
    if rows == [] then [row]
    else if Same(slot(rows[0]), slot(row)) then [row] + rows[1..]
    else if Rank(slot(row)) < Rank(slot(rows[0])) then [row] + rows
    else [rows[0]] + Put(rows[1..], row, slot)
  }

  /** The rows put in one after the other. */
  function PutAll<T, I(==)>(rows: seq<T>, more: seq<T>, slot: T -> Slot<I>): (out: seq<T>)
    ensures forall r :: r in out ==> r in rows || r in more
    decreases |more|
  {
    if more == [] then rows
    else
      var n := |more| - 1;
      Put(PutAll(rows, more[..n], slot), more[n], slot)
  }

  function Built<T, I(==)>(rows: seq<T>, slot: T -> Slot<I>): (out: seq<T>)
    ensures forall r :: r in out ==> r in rows
  {
    PutAll([], rows, slot)
  }

  // ---- what a table is ----

  /** `a` may be listed before `b`. */
  predicate Precedes<T, I(==)>(a: T, b: T, slot: T -> Slot<I>) {
    !Same(slot(a), slot(b)) && Rank(slot(a)) <= Rank(slot(b))
  }

  /** No slot is taken twice and no lower rank comes after a higher one. */
  predicate InOrder<T, I(==)>(rows: seq<T>, slot: T -> Slot<I>) {
    forall i, j :: 0 <= i < j < |rows| ==> Precedes(rows[i], rows[j], slot)
  }

  predicate Heads<T, I(==)>(a: T, rows: seq<T>, slot: T -> Slot<I>) {
    forall j :: 0 <= j < |rows| ==> Precedes(a, rows[j], slot)
  }

  lemma InOrderStep<T, I>(a: T, rows: seq<T>, slot: T -> Slot<I>)
    ensures InOrder([a] + rows, slot) <==> Heads(a, rows, slot) && InOrder(rows, slot)
  {
    var all := [a] + rows;
    assert forall j :: 0 <= j < |rows| ==> all[j + 1] == rows[j];
    if InOrder(all, slot) {
      forall j | 0 <= j < |rows| ensures Precedes(a, rows[j], slot) {
        assert Precedes(all[0], all[j + 1], slot);
      }
      forall i, j | 0 <= i < j < |rows| ensures Precedes(rows[i], rows[j], slot) {
        assert Precedes(all[i + 1], all[j + 1], slot);
      }
    }
  }

  lemma {:induction false} PutKeepsOrder<T(!new), I(!new)>(rows: seq<T>, row: T, slot: T -> Slot<I>)
    requires InOrder(rows, slot)
    ensures InOrder(Put(rows, row, slot), slot)
  {
    if rows == [] {
    } else {
      var head, tail := rows[0], rows[1..];
      assert rows == [head] + tail;
      InOrderStep(head, tail, slot);
      if Same(slot(head), slot(row)) {
        InOrderStep(row, tail, slot);
      } else if Rank(slot(row)) < Rank(slot(head)) {
        InOrderStep(row, rows, slot);
      } else {
        PutKeepsOrder(tail, row, slot);
        var rest := Put(tail, row, slot);
        forall j | 0 <= j < |rest| ensures Precedes(head, rest[j], slot) {
          assert rest[j] in rest;
          if rest[j] != row {
            var k :| 0 <= k < |tail| && tail[k] == rest[j];
            assert Precedes(head, tail[k], slot);
          }
        }
        InOrderStep(head, rest, slot);
      }
    }
  }

  lemma {:induction false} PutAllKeepsOrder<T(!new), I(!new)>(rows: seq<T>, more: seq<T>, slot: T -> Slot<I>)
    requires InOrder(rows, slot)
    ensures InOrder(PutAll(rows, more, slot), slot)
    decreases |more|
  {
    if more != [] {
      var n := |more| - 1;
      PutAllKeepsOrder(rows, more[..n], slot);
      PutKeepsOrder(PutAll(rows, more[..n], slot), more[n], slot);
    }
  }

  lemma {:induction false} PutIsNoLonger<T, I>(rows: seq<T>, row: T, slot: T -> Slot<I>)
    ensures |Put(rows, row, slot)| <= |rows| + 1
  {
    if rows != [] {
      PutIsNoLonger(rows[1..], row, slot);
    }
  }

  lemma {:induction false} BuiltIsNoLonger<T, I>(rows: seq<T>, slot: T -> Slot<I>)
    ensures |Built(rows, slot)| <= |rows|
    decreases |rows|
  {
    if rows != [] {
      var n := |rows| - 1;
      BuiltIsNoLonger(rows[..n], slot);
      PutIsNoLonger(Built(rows[..n], slot), rows[n], slot);
    }
  }

  lemma {:induction false} PutLast<T, I>(rows: seq<T>, row: T, slot: T -> Slot<I>)
    requires forall i :: 0 <= i < |rows| ==> Precedes(rows[i], row, slot)
    ensures Put(rows, row, slot) == rows + [row]
  {
    if rows != [] {
      PutLast(rows[1..], row, slot);
      assert rows == [rows[0]] + rows[1..];
    }
  }

  /** Rows that are in order are put in as they stand. */
  lemma {:induction false} OrderedIsBuilt<T(!new), I(!new)>(rows: seq<T>, slot: T -> Slot<I>)
    requires InOrder(rows, slot)
    ensures Built(rows, slot) == rows
    decreases |rows|
  {
    if rows != [] {
      var n := |rows| - 1;
      OrderedIsBuilt(rows[..n], slot);
      PutLast(rows[..n], rows[n], slot);
      assert rows == rows[..n] + [rows[n]];
    }
  }

  lemma BuiltOfTwo<T, I>(a: T, b: T, slot: T -> Slot<I>)
    requires Same(slot(a), slot(b))
    ensures Built([a, b], slot) == [b]
  {
    assert [a, b][..1] == [a] && [a][..0] == [];
    assert PutAll([], [a], slot) == Put([], a, slot) == [a];
    assert PutAll([], [a, b], slot) == Put([a], b, slot);
    assert [a][1..] == [];
  }

  /** A table rebuilt from rows that fill the same slots is the one wanted exactly when
      they are its rows and it is in order. */
  lemma RebuiltIff<T(!new), I(!new)>(rows: seq<T>, wanted: seq<T>, slot: T -> Slot<I>)
    requires |rows| == |wanted| && forall i :: 0 <= i < |rows| ==> slot(rows[i]) == slot(wanted[i])
    ensures Built(rows, slot) == wanted <==> rows == wanted && InOrder(wanted, slot)
  {
    if Built(rows, slot) == wanted {
      PutAllKeepsOrder([], rows, slot);
      forall i, j | 0 <= i < j < |rows| ensures Precedes(rows[i], rows[j], slot) {
        assert Precedes(wanted[i], wanted[j], slot);
      }
      OrderedIsBuilt(rows, slot);
    }
    if rows == wanted && InOrder(wanted, slot) {
      OrderedIsBuilt(rows, slot);
    }
  }

  lemma {:induction false} PutAllTwice<T, I>(rows: seq<T>, a: seq<T>, b: seq<T>, slot: T -> Slot<I>)
    ensures PutAll(PutAll(rows, a, slot), b, slot) == PutAll(rows, a + b, slot)
    decreases |b|
  {
    if b == [] {
      assert a + b == a;
    } else {
      var n := |b| - 1;
      PutAllTwice(rows, a, b[..n], slot);
      assert (a + b)[..|a + b| - 1] == a + b[..n];
    }
  }

  // ---- where a row goes and which one stays, when all ranks are one ----

  function Slots<T, I>(rows: seq<T>, slot: T -> Slot<I>): (ids: seq<Slot<I>>)
    ensures |ids| == |rows|
  {
    if rows == [] then [] else [slot(rows[0])] + Slots(rows[1..], slot)
  }

  /** The list without whatever has been in it before. */
  function Firsts<S(==)>(s: seq<S>): seq<S> {
    if s == [] then []
    else Firsts(s[..|s| - 1]) + if s[|s| - 1] in s[..|s| - 1] then [] else [s[|s| - 1]]
  }

  /** The first row in the slot, and the last. */
  function Find<T, I(==)>(rows: seq<T>, at: Slot<I>, slot: T -> Slot<I>): Option<T> {
    if rows == [] then None else if slot(rows[0]) == at then Some(rows[0]) else Find(rows[1..], at, slot)
  }

  function FindLast<T, I(==)>(rows: seq<T>, at: Slot<I>, slot: T -> Slot<I>): Option<T> {
    if rows == [] then None
    else if slot(rows[|rows| - 1]) == at then Some(rows[|rows| - 1])
    else FindLast(rows[..|rows| - 1], at, slot)
  }

  /** Every row can be found again, and none goes before another. */
  predicate Level<T, I>(rows: seq<T>, slot: T -> Slot<I>) {
    forall i :: 0 <= i < |rows| ==> slot(rows[i]).Shared? && slot(rows[i]).rank == 0
  }

  lemma {:induction false} PutSlots<T(!new), I(!new)>(rows: seq<T>, row: T, slot: T -> Slot<I>)
    requires Level(rows, slot) && slot(row).Shared? && slot(row).rank == 0
    ensures Level(Put(rows, row, slot), slot)
    ensures Slots(Put(rows, row, slot), slot) ==
            Slots(rows, slot) + if slot(row) in Slots(rows, slot) then [] else [slot(row)]
    ensures forall at :: Find(Put(rows, row, slot), at, slot) ==
                         if at == slot(row) then Some(row) else Find(rows, at, slot)
  {
    if rows != [] {
      var head, tail := rows[0], rows[1..];
      if Same(slot(head), slot(row)) {
        assert ([row] + tail)[1..] == tail;
      } else {
        PutSlots(tail, row, slot);
        assert ([head] + Put(tail, row, slot))[1..] == Put(tail, row, slot);
      }
    }
  }

  lemma {:induction false} SlotsOfFront<T, I>(rows: seq<T>, n: nat, slot: T -> Slot<I>)
    requires n <= |rows|
    ensures Slots(rows[..n], slot) == Slots(rows, slot)[..n]
  {
    if n > 0 {
      SlotsOfFront(rows[1..], n - 1, slot);
      assert rows[..n][1..] == rows[1..][..n - 1];
    }
  }

  lemma {:induction false} SlotAt<T, I>(rows: seq<T>, i: nat, slot: T -> Slot<I>)
    requires i < |rows|
    ensures Slots(rows, slot)[i] == slot(rows[i])
  {
    if i > 0 {
      SlotAt(rows[1..], i - 1, slot);
    }
  }

  lemma {:induction false} SameMembersAsFirsts<S>(s: seq<S>)
    ensures forall x :: x in Firsts(s) <==> x in s
  {
    if s != [] {
      var front := s[..|s| - 1];
      SameMembersAsFirsts(front);
      assert s == front + [s[|s| - 1]];
    }
  }

  /** A table has its slots in the order in which they were first filled, each with the
      row that was put there last. */
  lemma {:induction false} FirstPlaceLastRow<T(!new), I(!new)>(rows: seq<T>, slot: T -> Slot<I>)
    requires Level(rows, slot)
    ensures Level(Built(rows, slot), slot)
    ensures Slots(Built(rows, slot), slot) == Firsts(Slots(rows, slot))
    ensures forall at :: Find(Built(rows, slot), at, slot) == FindLast(rows, at, slot)
    decreases |rows|
  {
    if rows != [] {
      var n := |rows| - 1;
      FirstPlaceLastRow(rows[..n], slot);
      PutSlots(Built(rows[..n], slot), rows[n], slot);
      SlotsOfFront(rows, n, slot);
      SlotAt(rows, n, slot);
      SameMembersAsFirsts(Slots(rows[..n], slot));
    }
  }
}
