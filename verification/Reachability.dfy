/** Reachability in a finite directed graph, told twice: as the existence of a
    path, and as the least set closed under the edges. Every worklist in the
    emitter's analysis is proved to compute this set. */
module Reachability {
  import opened Wrappers

  type Id = nat

  /** `g[d]` are the successors of `d`. */
  type Graph = seq<set<Id>>

  ghost predicate Valid(g: Graph) {
    forall d, e {:trigger e in g[d]} :: 0 <= d < |g| && e in g[d] ==> e < |g|
  }

  ghost predicate InRange(g: Graph, s: set<Id>) {
    forall d :: d in s ==> d < |g|
  }

  ghost predicate Path(g: Graph, p: seq<Id>) {
    && |p| > 0
    && (forall i :: 0 <= i < |p| ==> p[i] < |g|)
    && (forall i :: 0 <= i < |p| - 1 ==> p[i + 1] in g[p[i]])
  }

  ghost predicate PathFrom(g: Graph, seeds: set<Id>, p: seq<Id>, d: Id) {
    Path(g, p) && p[0] in seeds && p[|p| - 1] == d
  }

  ghost predicate Reaches(g: Graph, seeds: set<Id>, d: Id) {
    exists p :: PathFrom(g, seeds, p, d)
  }

  /** Everything a path from a seed leads to. */
  ghost function Reach(g: Graph, seeds: set<Id>): (r: set<Id>) {
    set d: Id | d < |g| && Reaches(g, seeds, d)
  }

  ghost predicate Closed(g: Graph, s: set<Id>) {
    forall d, e {:trigger e in g[d], d in s} :: d in s && d < |g| && e in g[d] ==> e in s
  }

  lemma SeedReached(g: Graph, seeds: set<Id>, d: Id)
    requires d in seeds && d < |g|
    ensures d in Reach(g, seeds)
  {
    assert PathFrom(g, seeds, [d], d);
  }

  lemma StepReached(g: Graph, seeds: set<Id>, d: Id, e: Id)
    requires Valid(g) && d in Reach(g, seeds) && e in g[d]
    ensures e in Reach(g, seeds)
  {
    var p :| PathFrom(g, seeds, p, d);
    assert PathFrom(g, seeds, p + [e], e);
  }

  /** The reachable set contains the seeds and is closed. */
  lemma ReachIsClosed(g: Graph, seeds: set<Id>)
    requires Valid(g) && InRange(g, seeds)
    ensures seeds <= Reach(g, seeds) && Closed(g, Reach(g, seeds)) && InRange(g, Reach(g, seeds))
  {
    forall d | d in seeds ensures d in Reach(g, seeds) { SeedReached(g, seeds, d); }
    forall d, e | d in Reach(g, seeds) && e in g[d] ensures e in Reach(g, seeds) {
      StepReached(g, seeds, d, e);
    }
  }

  lemma {:induction false} PathStaysInside(g: Graph, seeds: set<Id>, s: set<Id>, p: seq<Id>, k: nat)
    requires Path(g, p) && p[0] in seeds && seeds <= s && Closed(g, s) && k < |p|
    ensures p[k] in s
  {
    if k > 0 {
      PathStaysInside(g, seeds, s, p, k - 1);
      assert p[(k - 1) + 1] in g[p[k - 1]];
    }
  }

  /** And no closed set around the seeds is smaller. */
  lemma ReachIsLeast(g: Graph, seeds: set<Id>, s: set<Id>)
    requires seeds <= s && Closed(g, s)
    ensures Reach(g, seeds) <= s
  {
    forall d | d in Reach(g, seeds) ensures d in s {
      var p :| PathFrom(g, seeds, p, d);
      PathStaysInside(g, seeds, s, p, |p| - 1);
    }
  }

  lemma ReachMonotone(g: Graph, a: set<Id>, b: set<Id>)
    requires Valid(g) && InRange(g, b) && a <= Reach(g, b)
    ensures Reach(g, a) <= Reach(g, b)
  {
    ReachIsClosed(g, b);
    ReachIsLeast(g, a, Reach(g, b));
  }

  lemma ReachUnion(g: Graph, a: set<Id>, b: set<Id>)
    requires Valid(g) && InRange(g, a) && InRange(g, b)
    ensures Reach(g, a + b) == Reach(g, a) + Reach(g, b)
  {
    ReachIsClosed(g, a);
    ReachIsClosed(g, b);
    ReachIsClosed(g, a + b);
    ReachIsLeast(g, a + b, Reach(g, a) + Reach(g, b));
    ReachIsLeast(g, a, Reach(g, a + b));
    ReachIsLeast(g, b, Reach(g, a + b));
  }

  /** What a depth-first or breadth-first worklist keeps: what it has seen and
      what it still holds are reachable, and every edge out of what it has seen
      leads to one of the two. */
  ghost predicate Frontier(g: Graph, seeds: set<Id>, seen: set<Id>, queue: seq<Id>) {
    && seen <= Reach(g, seeds)
    && (forall d :: d in queue ==> d in Reach(g, seeds))
    && (forall d :: d in seeds ==> d in seen || d in queue)
    && (forall d, e {:trigger e in g[d], d in seen} :: d in seen && d < |g| && e in g[d] ==> e in seen || e in queue)
  }

  lemma FrontierStarts(g: Graph, seeds: set<Id>, queue: seq<Id>)
    requires Valid(g) && InRange(g, seeds) && seeds == ToSet(queue)
    ensures Frontier(g, seeds, {}, queue)
  {
    ReachIsClosed(g, seeds);
  }

  /** Popping an element that was already seen. */
  lemma FrontierSkips(g: Graph, seeds: set<Id>, seen: set<Id>, queue: seq<Id>)
    requires Frontier(g, seeds, seen, queue) && queue != [] && queue[|queue| - 1] in seen
    ensures Frontier(g, seeds, seen, queue[..|queue| - 1])
  {
    assert queue == queue[..|queue| - 1] + [queue[|queue| - 1]];
  }

  /** Popping a new element and pushing everything it points at. */
  lemma FrontierVisits(g: Graph, seeds: set<Id>, seen: set<Id>, queue: seq<Id>, pushed: seq<Id>)
    requires Valid(g) && Frontier(g, seeds, seen, queue) && queue != []
    requires var d := queue[|queue| - 1]; d < |g| && g[d] == ToSet(pushed)
    ensures Frontier(g, seeds, seen + {queue[|queue| - 1]}, queue[..|queue| - 1] + pushed)
  {
    var d := queue[|queue| - 1];
    assert queue == queue[..|queue| - 1] + [d];
    forall e | e in pushed ensures e in Reach(g, seeds) {
      assert e in g[d];
      StepReached(g, seeds, d, e);
    }
  }

  lemma FrontierEnds(g: Graph, seeds: set<Id>, seen: set<Id>)
    requires Frontier(g, seeds, seen, [])
    ensures seen == Reach(g, seeds)
  {
    ReachIsLeast(g, seeds, seen);
  }

  /** Both graphs at once. */
  function Both(g: Graph, h: Graph): Graph
    requires |g| == |h|
  {
    seq(|g|, i requires 0 <= i < |g| => g[i] + h[i])
  }

  lemma BothIsValid(g: Graph, h: Graph)
    requires |g| == |h| && Valid(g) && Valid(h)
    ensures Valid(Both(g, h))
  {
    forall d, e | 0 <= d < |g| && e in Both(g, h)[d] ensures e < |g| {
      assert e in g[d] || e in h[d];
    }
  }
}
