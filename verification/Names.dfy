/** Names in lexicographic order, and sorting by it. */
module Names {

  predicate Less(a: string, b: string) {
    b != [] && (a == [] || a[0] < b[0] || (a[0] == b[0] && Less(a[1..], b[1..])))
  }

  lemma {:induction false} Trichotomy(a: string, b: string)
    ensures Less(a, b) || a == b || Less(b, a)
    ensures !(Less(a, b) && Less(b, a)) && !Less(a, a)
  {
    if a != [] && b != [] && a[0] == b[0] {
      Trichotomy(a[1..], b[1..]);
      assert a == [a[0]] + a[1..] && b == [b[0]] + b[1..];
    }
    if a != [] {
      Trichotomy(a[1..], a[1..]);
    }
  }

  /** One name is less than another exactly when it is the beginning of it, or has the
      lower character where they first differ. */
  lemma {:induction false} LessIff(a: string, b: string)
    ensures Less(a, b) <==> exists k: nat :: DiffersBelow(a, b, k)
  {
    if a != [] && b != [] && a[0] == b[0] {
      LessIff(a[1..], b[1..]);
      if k: nat :| DiffersBelow(a[1..], b[1..], k) {
        assert a[..k + 1] == [a[0]] + a[1..][..k] && b[..k + 1] == [b[0]] + b[1..][..k];
        assert DiffersBelow(a, b, k + 1);
      }
      if k: nat :| DiffersBelow(a, b, k) {
        assert k > 0 && a[1..][..k - 1] == a[..k][1..] && b[1..][..k - 1] == b[..k][1..];
        assert DiffersBelow(a[1..], b[1..], k - 1);
      }
    } else {
      if Less(a, b) {
        assert DiffersBelow(a, b, 0);
      }
      if k: nat :| DiffersBelow(a, b, k) {
        assert k > 0 ==> a[..k][0] == b[..k][0];
      }
    }
  }

  ghost predicate DiffersBelow(a: string, b: string, k: nat) {
    k <= |a| && k < |b| && a[..k] == b[..k] && (k == |a| || a[k] < b[k])
  }

  lemma {:induction false} Transitive(a: string, b: string, c: string)
    requires Less(a, b) && Less(b, c)
    ensures Less(a, c)
  {
    if a != [] && a[0] == b[0] && b[0] == c[0] {
      Transitive(a[1..], b[1..], c[1..]);
    }
  }

  /** No later name is less than an earlier one. */
  ghost predicate Sorted(s: seq<string>) {
    forall i, j :: 0 <= i < j < |s| ==> !Less(s[j], s[i])
  }

  function Place(n: string, s: seq<string>): seq<string> {
    if s == [] || !Less(s[0], n) then [n] + s else [s[0]] + Place(n, s[1..])
  }

  function Sort(s: seq<string>): seq<string> {
    if s == [] then [] else Place(s[0], Sort(s[1..]))
  }

  lemma {:induction false} PlaceSorts(n: string, s: seq<string>)
    requires Sorted(s)
    ensures Sorted(Place(n, s)) && multiset(Place(n, s)) == multiset{n} + multiset(s)
  {
    if s == [] {
    } else if Less(s[0], n) {
      var rest := Place(n, s[1..]);
      PlaceSorts(n, s[1..]);
      assert s == [s[0]] + s[1..];
      forall j | 0 <= j < |rest| ensures !Less(rest[j], s[0]) {
        assert rest[j] in multiset(rest);
        assert rest[j] == n || rest[j] in s[1..];
        Trichotomy(s[0], n);
      }
    } else {
      Trichotomy(s[0], s[0]);
      forall j | 0 <= j < |s| ensures !Less(s[j], n) {
        NotLessThanPlaced(n, s[0], s[j]);
      }
    }
  }

  lemma NotLessThanPlaced(n: string, first: string, later: string)
    requires !Less(first, n) && !Less(later, first)
    ensures !Less(later, n)
  {
    Trichotomy(first, n);
    Trichotomy(later, first);
    if Less(later, n) && Less(n, first) {
      Transitive(later, n, first);
    }
  }

  lemma {:induction false} SortSorts(s: seq<string>)
    ensures Sorted(Sort(s)) && multiset(Sort(s)) == multiset(s)
  {
    if s != [] {
      SortSorts(s[1..]);
      PlaceSorts(s[0], Sort(s[1..]));
      assert s == [s[0]] + s[1..];
    }
  }
}
