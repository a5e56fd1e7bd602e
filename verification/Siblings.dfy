/** A list of sibling nodes and the two edits a reconciler makes to it. */
module Siblings {
  import opened Wrappers

  type NodeId = nat

  function Minus(s: seq<NodeId>, gone: set<NodeId>): seq<NodeId> {
    if s == [] then []
    else if s[0] in gone then Minus(s[1..], gone)
    else [s[0]] + Minus(s[1..], gone)
  }

  /** `n` put immediately before `child`, which is in the list. */
  function PutBefore(s: seq<NodeId>, n: NodeId, child: NodeId): seq<NodeId> {
    if s == [] || s[0] == child then [n] + s else [s[0]] + PutBefore(s[1..], n, child)
  }

  /** `insertBefore`: a node already in the list moves (section 4.2.3 of the
      WHATWG DOM Standard). */
  function Inserted(s: seq<NodeId>, n: NodeId, child: NodeId): seq<NodeId> {
    if n == child then s else PutBefore(Minus(s, {n}), n, child)
  }

  lemma {:induction false} MinusConcat(a: seq<NodeId>, b: seq<NodeId>, gone: set<NodeId>)
    ensures Minus(a + b, gone) == Minus(a, gone) + Minus(b, gone)
  {
    if a == [] {
      assert a + b == b;
    } else {
      assert (a + b)[1..] == a[1..] + b;
      MinusConcat(a[1..], b, gone);
    }
  }

  lemma {:induction false} MinusNone(s: seq<NodeId>, gone: set<NodeId>)
    requires forall n :: n in s ==> n !in gone
    ensures Minus(s, gone) == s
  {
    if s != [] {
      MinusNone(s[1..], gone);
    }
  }

  lemma {:induction false} MinusAll(s: seq<NodeId>, gone: set<NodeId>)
    requires forall n :: n in s ==> n in gone
    ensures Minus(s, gone) == []
  {
    if s != [] {
      MinusAll(s[1..], gone);
    }
  }

  lemma {:induction false} MinusTwice(s: seq<NodeId>, a: set<NodeId>, b: set<NodeId>)
    ensures Minus(Minus(s, a), b) == Minus(s, a + b)
  {
    if s != [] {
      MinusTwice(s[1..], a, b);
      if s[0] !in a {
        var rest := Minus(s[1..], a);
        assert ([s[0]] + rest)[1..] == rest;
      }
    }
  }

  lemma {:induction false} PutBeforeSplit(a: seq<NodeId>, b: seq<NodeId>, n: NodeId, child: NodeId)
    requires child !in a && b != [] && b[0] == child
    ensures PutBefore(a + b, n, child) == a + [n] + b
  {
    if a == [] {
      assert a + b == b;
    } else {
      assert (a + b)[1..] == a[1..] + b;
      PutBeforeSplit(a[1..], b, n, child);
    }
  }

  lemma PrefixGrows<T>(s: seq<T>, i: nat)
    requires i < |s|
    ensures s[..i + 1] == s[..i] + [s[i]]
  {
  }

  lemma DistinctParts<T(!new)>(a: seq<T>, b: seq<T>)
    requires Distinct(a + b)
    ensures Distinct(a) && Distinct(b)
    ensures forall x :: x in a ==> x !in b
  {
    var s := a + b;
    forall i, j | 0 <= i < j < |a| ensures a[i] != a[j] { assert s[i] != s[j]; }
    forall i, j | 0 <= i < j < |b| ensures b[i] != b[j] { assert s[|a| + i] != s[|a| + j]; }
    forall x | x in a ensures x !in b {
      var i :| 0 <= i < |a| && a[i] == x;
      forall j | 0 <= j < |b| ensures b[j] != x { assert s[i] != s[|a| + j]; }
    }
  }

  lemma DistinctWhole<T(!new)>(a: seq<T>, b: seq<T>)
    requires Distinct(a) && Distinct(b)
    requires forall x :: x in a ==> x !in b
    ensures Distinct(a + b)
  {
    var s := a + b;
    forall i, j | 0 <= i < j < |s| ensures s[i] != s[j] {
      if i < |a| <= j {
        assert s[i] in a && s[j] in b;
      }
    }
  }

  /** Putting the first `k + 1` of `moving` before the cursor, one step from the
      first `k`. */
  lemma InsertStep(a: seq<NodeId>, moving: seq<NodeId>, k: nat, b: seq<NodeId>)
    requires k < |moving| && b != [] && b[0] !in a && b[0] !in moving
    requires moving[k] !in moving[..k] && moving[k] !in a
    ensures Inserted(a + moving[..k] + Minus(b, ToSet(moving[..k])), moving[k], b[0])
         == a + moving[..k + 1] + Minus(b, ToSet(moving[..k + 1]))
  {
    var n, front, back := moving[k], a + moving[..k], Minus(b, ToSet(moving[..k]));
    var rest := Minus(b, ToSet(moving[..k + 1]));
    assert ToSet(moving[..k]) + {n} == ToSet(moving[..k + 1]);
    MinusTwice(b, ToSet(moving[..k]), {n});
    MinusConcat(front, back, {n});
    MinusNone(front, {n});
    assert rest[0] == b[0];
    PutBeforeSplit(front, rest, n, b[0]);
    assert front + [n] == a + moving[..k + 1];
  }

  lemma {:induction false} MinusMembers(s: seq<NodeId>, gone: set<NodeId>)
    ensures forall n :: n in Minus(s, gone) <==> n in s && n !in gone
    ensures Distinct(s) ==> Distinct(Minus(s, gone))
  {
    if s != [] {
      MinusMembers(s[1..], gone);
      if Distinct(s) {
        assert s == [s[0]] + s[1..];
        DistinctParts([s[0]], s[1..]);
        if s[0] !in gone {
          DistinctWhole([s[0]], Minus(s[1..], gone));
        }
      }
    }
  }

  lemma PlacedIsDistinct(a: seq<NodeId>, moving: seq<NodeId>, b: seq<NodeId>)
    requires Distinct(a + b) && Distinct(moving)
    requires forall n :: n in moving ==> n !in a
    ensures Distinct(a + moving + Minus(b, ToSet(moving)))
  {
    DistinctParts(a, b);
    MinusMembers(b, ToSet(moving));
    DistinctWhole(a, moving);
    DistinctWhole(a + moving, Minus(b, ToSet(moving)));
  }

  function NextSibling(s: seq<NodeId>, n: NodeId): Option<NodeId> {
    if s == [] then None
    else if s[0] == n then (if |s| > 1 then Some(s[1]) else None)
    else NextSibling(s[1..], n)
  }

  lemma {:induction false} NextSiblingSplit(p: seq<NodeId>, n: NodeId, q: seq<NodeId>)
    requires n !in p && q != []
    ensures NextSibling(p + [n] + q, n) == Some(q[0])
  {
    if p == [] {
      assert p + [n] + q == [n] + q;
    } else {
      assert (p + [n] + q)[1..] == p[1..] + [n] + q;
      NextSiblingSplit(p[1..], n, q);
    }
  }
}
