/** Matching a delimiter in blanked text. */
module Spans {

  function Delta(c: char, open: char, close: char): int {
    if c == open then 1 else if c == close then -1 else 0
  }

  /** How deep the text is after `k` characters. */
  function Depth(s: string, k: nat, open: char, close: char): int
    requires k <= |s|
  {
    if k == 0 then 0 else Depth(s, k - 1, open, close) + Delta(s[k - 1], open, close)
  }

  /** Every closing delimiter has one to close, and every opening one is closed. */
  ghost predicate Balanced(s: string, open: char, close: char) {
    && Depth(s, |s|, open, close) == 0
    && forall k: nat :: k <= |s| ==> Depth(s, k, open, close) >= 0
  }

  /** Where the depth first comes back to nothing by a closing delimiter. */
  ghost predicate ClosesAt(s: string, i: nat, open: char, close: char) {
    i < |s| && s[i] != open && s[i] == close && Depth(s, i + 1, open, close) == 0
  }

  ghost predicate FirstClose(s: string, i: nat, open: char, close: char) {
    ClosesAt(s, i, open, close) && forall k: nat :: k < i ==> !ClosesAt(s, k, open, close)
  }

  function From(s: string, start: nat): string {
    if start <= |s| then s[start..] else ""
  }

  /** The index of the closing delimiter, or the length when there is none. */
  method SpanOf(body: string, opener: nat, open: char, close: char) returns (i: nat)
    ensures i < |body| ==> opener <= i && FirstClose(From(body, opener), i - opener, open, close)
    ensures i >= |body| ==> i == |body| && forall k: nat :: !ClosesAt(From(body, opener), k, open, close)
  {
    var depth := 0;
    i := opener;
    ghost var s := From(body, opener);
    while i < |body|
      invariant opener <= i && (i <= |body| || i == opener)
      invariant i <= |body| ==> depth == Depth(s, i - opener, open, close)
      invariant forall k: nat :: k < i - opener ==> !ClosesAt(s, k, open, close)
    {
      assert s[i - opener] == body[i];
      if body[i] == open {
        depth := depth + 1;
      } else if body[i] == close {
        depth := depth - 1;
        if depth == 0 {
          return;
        }
      }
      i := i + 1;
    }
    i := |body|;
  }

  lemma {:induction false} DepthFrom(s: string, k: nat, open: char, close: char)
    requires 0 < k <= |s|
    ensures Depth(s, k, open, close) == Delta(s[0], open, close) + Depth(s[1..], k - 1, open, close)
  {
    if k > 1 {
      DepthFrom(s, k - 1, open, close);
      assert s[1..][k - 2] == s[k - 1];
    }
  }

  lemma {:induction false} DepthOfPrefix(s: string, n: nat, k: nat, open: char, close: char)
    requires k <= n <= |s|
    ensures Depth(s[..n], k, open, close) == Depth(s, k, open, close)
  {
    if k > 0 {
      DepthOfPrefix(s, n, k - 1, open, close);
    }
  }

  /** From an opening delimiter, the place found is the one whose inside is balanced. */
  lemma FirstCloseIsTheMatch(s: string, i: nat, open: char, close: char)
    requires open != close && s != "" && s[0] == open && 0 < i < |s|
    ensures FirstClose(s, i, open, close) <==> s[i] == close && Balanced(s[1..i], open, close)
  {
    var inner := s[1..i];
    forall k: nat | k < i ensures Depth(inner, k, open, close) == Depth(s, k + 1, open, close) - 1 {
      DepthFrom(s, k + 1, open, close);
      DepthOfPrefix(s[1..], i - 1, k, open, close);
      assert s[1..][..i - 1] == inner;
    }
    if FirstClose(s, i, open, close) {
      forall k: nat | k <= |inner| ensures Depth(inner, k, open, close) >= 0 {
        StaysDeep(s, i, k + 1, open, close);
      }
    }
    if s[i] == close && Balanced(inner, open, close) {
      forall k: nat | k < i ensures !ClosesAt(s, k, open, close) {
        if k > 0 {
          assert Depth(inner, k, open, close) >= 0;
        }
      }
    }
  }

  lemma {:induction false} StaysDeep(s: string, i: nat, k: nat, open: char, close: char)
    requires open != close && s != "" && s[0] == open && 0 < k <= i < |s|
    requires forall j: nat :: j < i ==> !ClosesAt(s, j, open, close)
    ensures Depth(s, k, open, close) >= 1
  {
    if k == 1 {
      assert Depth(s, 0, open, close) == 0;
    } else {
      StaysDeep(s, i, k - 1, open, close);
      assert !ClosesAt(s, k - 1, open, close);
    }
  }
}
