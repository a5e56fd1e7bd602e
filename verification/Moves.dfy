/** What the cursor walk leaves in place, in terms of the old and the new key
    list alone, and what each benchmark shape therefore costs. */
module Moves {
  import opened Wrappers

  ghost predicate Ahead<Key(!new)>(old_: seq<Key>, a: Key, b: Key) {
    exists i, j :: 0 <= i < j < |old_| && old_[i] == a && old_[j] == b
  }

  /** Row `i` of `want` is left where it is: it survives, and every surviving row
      that was ahead of it is ahead of it still. */
  ghost predicate Stays<Key(!new)>(old_: seq<Key>, want: seq<Key>, i: nat)
    requires i < |want|
  {
    want[i] in old_ && forall a :: a in want && Ahead(old_, a, want[i]) ==> a in want[..i]
  }

  ghost function Moved<Key(!new)>(old_: seq<Key>, want: seq<Key>, n: nat): set<nat>
    requires n <= |want|
  {
    set i: nat | i < n && !Stays(old_, want, i)
  }

  ghost function MoveCount<Key(!new)>(old_: seq<Key>, want: seq<Key>): nat {
    |Moved(old_, want, |want|)|
  }

  ghost function Staying<Key(!new)>(old_: seq<Key>, want: seq<Key>): set<nat> {
    set i: nat | i < |want| && Stays(old_, want, i)
  }

  /** The rows at these places of `want` come in the order they came in `old_`. */
  ghost predicate KeepsOrder<Key(!new)>(old_: seq<Key>, want: seq<Key>, places: set<nat>) {
    && (forall i :: i in places ==> i < |want| && want[i] in old_)
    && (forall i, j :: i in places && j in places && i < j ==> Ahead(old_, want[i], want[j]))
  }

  function Below(n: nat): (s: set<nat>)
    ensures forall i: nat :: i in s <==> i < n
    ensures |s| == n
  {
    if n == 0 then {} else Below(n - 1) + {n - 1}
  }

  /** The rows left in place are an increasing subsequence of the old positions,
      and the rest are moved: a walk moves at least as many rows as a longest
      such subsequence leaves over. */
  lemma StayingKeepsOrder<Key(!new)>(old_: seq<Key>, want: seq<Key>)
    requires Distinct(old_) && Distinct(want)
    ensures KeepsOrder(old_, want, Staying(old_, want))
    ensures |Staying(old_, want)| + MoveCount(old_, want) == |want|
  {
    var staying := Staying(old_, want);
    forall i, j | i in staying && j in staying && i < j ensures Ahead(old_, want[i], want[j]) {
      StayingAhead(old_, want, i, j);
    }
    StayingOrMoved(old_, want);
  }

  lemma StayingAhead<Key(!new)>(old_: seq<Key>, want: seq<Key>, i: nat, j: nat)
    requires Distinct(old_) && Distinct(want) && i < j < |want| && Stays(old_, want, i) && Stays(old_, want, j)
    ensures Ahead(old_, want[i], want[j])
  {
    var a :| 0 <= a < |old_| && old_[a] == want[i];
    var b :| 0 <= b < |old_| && old_[b] == want[j];
    assert want[j] !in want[..i];
    assert !Ahead(old_, want[j], want[i]);
    assert a < b;
  }

  lemma StayingOrMoved<Key(!new)>(old_: seq<Key>, want: seq<Key>)
    ensures |Staying(old_, want)| + MoveCount(old_, want) == |want|
  {
    var staying, moved := Staying(old_, want), Moved(old_, want, |want|);
    assert Below(|want|) == staying + moved && staying !! moved;
  }

  lemma MovesAtLeast<Key(!new)>(old_: seq<Key>, want: seq<Key>, longest: nat)
    requires Distinct(old_) && Distinct(want)
    requires forall places :: KeepsOrder(old_, want, places) ==> |places| <= longest
    ensures MoveCount(old_, want) + longest >= |want|
  {
    StayingKeepsOrder(old_, want);
  }

  /** A walk moves nothing exactly when the new list is the old one with rows
      taken out. */
  lemma NoMovesIffInOrder<Key(!new)>(old_: seq<Key>, want: seq<Key>)
    requires Distinct(old_) && Distinct(want)
    ensures MoveCount(old_, want) == 0 <==> KeepsOrder(old_, want, Below(|want|))
  {
    StayingKeepsOrder(old_, want);
    if MoveCount(old_, want) == 0 {
      forall i: nat | i < |want| ensures Stays(old_, want, i) {
        assert i !in Moved(old_, want, |want|);
      }
      assert Staying(old_, want) == Below(|want|);
    }
    if KeepsOrder(old_, want, Below(|want|)) {
      forall i: nat | i < |want| ensures Stays(old_, want, i) { InOrderStays(old_, want, i); }
      assert Moved(old_, want, |want|) == {};
    }
  }

  lemma InOrderStays<Key(!new)>(old_: seq<Key>, want: seq<Key>, i: nat)
    requires Distinct(old_) && i < |want| && KeepsOrder(old_, want, Below(|want|))
    ensures Stays(old_, want, i)
  {
    assert want[i] in old_ by { assert i in Below(|want|); }
    forall a | a in want && a !in want[..i] ensures !Ahead(old_, a, want[i]) {
      var j :| 0 <= j < |want| && want[j] == a;
      if i < j {
        assert i in Below(|want|) && j in Below(|want|);
        AheadIsStrict(old_, want[i], want[j]);
      } else {
        assert i == j;
        NeverAheadOfItself(old_, a);
      }
    }
  }

  lemma NeverAheadOfItself<Key(!new)>(old_: seq<Key>, a: Key)
    requires Distinct(old_)
    ensures !Ahead(old_, a, a)
  {
  }

  lemma AheadIsStrict<Key(!new)>(old_: seq<Key>, a: Key, b: Key)
    requires Distinct(old_) && Ahead(old_, a, b)
    ensures a != b && !Ahead(old_, b, a)
  {
  }

  /** When exactly `places` stay, the rest are the moves. */
  lemma MovesWhen<Key(!new)>(old_: seq<Key>, want: seq<Key>, places: set<nat>)
    requires Distinct(old_) && Distinct(want)
    requires forall i: nat :: i in places <==> i < |want| && Stays(old_, want, i)
    ensures MoveCount(old_, want) == |want| - |places|
  {
    StayingKeepsOrder(old_, want);
    assert Staying(old_, want) == places;
  }

  // ---- the shapes, from a list of `n` rows keyed by position ----

  function Base(n: nat): seq<int> {
    seq(n, i => i)
  }

  function Swapped(s: seq<int>): seq<int>
    requires |s| >= 3
  {
    s[1 := s[|s| - 2]][|s| - 2 := s[1]]
  }

  function LastToFront(s: seq<int>): seq<int>
    requires s != []
  {
    [s[|s| - 1]] + s[..|s| - 1]
  }

  function RemoveAddSwap(s: seq<int>): seq<int>
    requires |s| >= 5
  {
    Swapped(s[..4] + s[5..]) + [-1]
  }

  function Reversed(s: seq<int>): seq<int> {
    seq(|s|, i requires 0 <= i < |s| => s[|s| - 1 - i])
  }

  lemma AheadInBase(n: nat, a: int, b: int)
    ensures Ahead(Base(n), a, b) <==> 0 <= a < b < n
  {
    if 0 <= a < b < n {
      assert Base(n)[a] == a && Base(n)[b] == b;
    }
  }

  lemma ReversalMoves(n: nat)
    requires n >= 1
    ensures MoveCount(Base(n), Reversed(Base(n))) == n - 1
  {
    var old_, want := Base(n), Reversed(Base(n));
    forall a, b { AheadInBase(n, a, b); }
    forall i: nat ensures i in {n - 1} <==> i < n && Stays(old_, want, i) {
      if i < n - 1 {
        assert want[n - 1] == 0 && Ahead(old_, 0, want[i]);
        assert want[n - 1] in want;
      } else if i == n - 1 {
        assert want[i] == 0 && want[i] in old_;
      }
    }
    MovesWhen(old_, want, {n - 1});
  }

  lemma SwapMoves(n: nat)
    requires n >= 4
    ensures MoveCount(Base(n), Swapped(Base(n))) == n - 3
  {
    var old_, want := Base(n), Swapped(Base(n));
    forall a, b { AheadInBase(n, a, b); }
    forall i: nat ensures i in {0, n - 2, n - 1} <==> i < n && Stays(old_, want, i) {
      if i < n {
        assert want[i] in old_;
        if 1 <= i < n - 2 {
          assert want[n - 2] == 1 && want[n - 2] in want && Ahead(old_, 1, want[i]);
        } else if i == n - 2 {
          assert want[0] == 0 && want[0] in want[..i];
        } else if i == n - 1 {
          forall a | a in want && Ahead(old_, a, want[i]) ensures a in want[..i] {
            var j :| 0 <= j < |want| && want[j] == a;
            assert want[j] in want[..i];
          }
        }
      }
    }
    MovesWhen(old_, want, {0, n - 2, n - 1});
  }

  lemma LastToFrontMoves(n: nat)
    requires n >= 2
    ensures MoveCount(Base(n), LastToFront(Base(n))) == 1
  {
    var old_, want := Base(n), LastToFront(Base(n));
    var places := Below(n) - {0};
    assert want[1] == 0 && want[1] in want;
    AheadInBase(n, 0, n - 1);
    forall i: nat | 1 <= i < n ensures Stays(old_, want, i) {
      LastToFrontStays(n, i);
    }
    assert !Stays(old_, want, 0);
    MovesWhen(old_, want, places);
    assert Below(n) == places + {0};
  }

  lemma LastToFrontStays(n: nat, i: nat)
    requires 1 <= i < n
    ensures Stays(Base(n), LastToFront(Base(n)), i)
  {
    var old_, want := Base(n), LastToFront(Base(n));
    assert forall k :: 1 <= k < n ==> want[k] == k - 1;
    assert old_[i - 1] == want[i];
    forall a | a in want && Ahead(old_, a, want[i]) ensures a in want[..i] {
      AheadInBase(n, a, want[i]);
      assert want[..i][a + 1] == a;
    }
  }

  lemma RemoveAddSwapMoves(n: nat)
    requires n >= 5
    ensures MoveCount(Base(n), RemoveAddSwap(Base(n))) == n - 3
  {
    var old_, want := Base(n), RemoveAddSwap(Base(n));
    RemoveAddSwapRows(n);
    forall i: nat ensures i in {0, n - 3, n - 2} <==> i < n && Stays(old_, want, i) {
      if i < n {
        RemoveAddSwapStays(n, i);
      }
    }
    MovesWhen(old_, want, {0, n - 3, n - 2});
  }

  lemma RemoveAddSwapStays(n: nat, i: nat)
    requires n >= 5 && i < n == |RemoveAddSwap(Base(n))|
    ensures Stays(Base(n), RemoveAddSwap(Base(n)), i) <==> i in {0, n - 3, n - 2}
  {
    var old_, want := Base(n), RemoveAddSwap(Base(n));
    RemoveAddSwapRows(n);
    forall a, b { AheadInBase(n, a, b); }
    if 1 <= i < n - 3 {
      assert want[n - 3] in want && Ahead(old_, 1, want[i]);
    } else if i == n - 3 {
      assert want[0] in want[..i];
    } else if i == n - 2 {
      forall a | a in want && Ahead(old_, a, want[i]) ensures a in want[..i] {
        var j :| 0 <= j < |want| && want[j] == a;
        assert want[j] in want[..i];
      }
    } else if i == n - 1 {
      assert want[i] !in old_;
    }
  }

  lemma RemoveAddSwapRows(n: nat)
    requires n >= 5
    ensures
      var want := RemoveAddSwap(Base(n));
      && |want| == n && want[0] == 0 && want[n - 3] == 1 && want[n - 1] == -1
      && (forall i :: 0 <= i < n - 1 ==> want[i] in Base(n))
      && (forall i :: 1 <= i < n - 3 ==> want[i] > 1)
      && Distinct(want)
  {
    var left := Base(n)[..4] + Base(n)[5..];
    assert forall i :: 0 <= i < n - 1 ==> left[i] in Base(n) && left[i] == if i < 4 then i else i + 1;
  }
}
