/** The order in which the workspace crates can be published: layer by layer,
    each layer in name order. */
module PublishOrder {
  import opened Wrappers
  import opened Names

  datatype Dep = Dep(name: string, kind: Option<string>)

  /** `publish` is the list of allowed registries; the empty list is `false`. */
  datatype Package = Package(name: string, publish: Option<seq<string>>, dependencies: seq<Dep>)

  type Needs = map<string, set<string>>

  /** The dependency graph as the scheduler iterates it: the names in insertion
      order, and what each needs first. */
  datatype Graph = Graph(names: seq<string>, needs: Needs)

  ghost predicate Consistent(g: Graph) {
    Distinct(g.names) && forall n :: n in g.names <==> n in g.needs
  }

  /** Every dependency is itself to be published. */
  ghost predicate Closed(needs: Needs) {
    forall n, m {:trigger m in needs[n]} :: n in needs && m in needs[n] ==> m in needs
  }

  // ---- what a crate waits for ----

  ghost predicate Chain(needs: Needs, p: seq<string>) {
    && p != []
    && (forall i :: 0 <= i < |p| ==> p[i] in needs)
    && (forall i :: 0 <= i < |p| - 1 ==> p[i + 1] in needs[p[i]])
  }

  ghost predicate ChainFrom(needs: Needs, n: string, p: seq<string>, edges: nat) {
    Chain(needs, p) && p[0] == n && |p| == edges + 1
  }

  ghost predicate HasChain(needs: Needs, n: string, edges: nat) {
    exists p :: ChainFrom(needs, n, p, edges)
  }

  /** The longest chain of dependencies below `n` has this many edges. */
  ghost predicate IsDepth(needs: Needs, n: string, depth: nat) {
    HasChain(needs, n, depth) && forall p, e: nat :: ChainFrom(needs, n, p, e) ==> e <= depth
  }

  ghost predicate Cycle(needs: Needs, p: seq<string>) {
    Chain(needs, p) && |p| > 1 && p[0] == p[|p| - 1]
  }

  lemma DepthIsUnique(needs: Needs, n: string, a: nat, b: nat)
    requires IsDepth(needs, n, a) && IsDepth(needs, n, b)
    ensures a == b
  {
    var p :| ChainFrom(needs, n, p, a);
    var q :| ChainFrom(needs, n, q, b);
  }

  /** First by depth, then by name. */
  ghost predicate Earlier(needs: Needs, a: string, b: string) {
    exists da, db :: IsDepth(needs, a, da) && IsDepth(needs, b, db) && (da < db || (da == db && Less(a, b)))
  }

  ghost predicate ByDepthThenName(needs: Needs, s: seq<string>) {
    forall i, j :: 0 <= i < j < |s| ==> Earlier(needs, s[i], s[j])
  }

  ghost predicate DependenciesFirst(needs: Needs, s: seq<string>) {
    forall i, m :: 0 <= i < |s| && s[i] in needs && m in needs[s[i]] ==> m in s[..i]
  }

  /** Nothing but the graph decides the order. */
  lemma {:induction false} OrderIsUnique(needs: Needs, s: seq<string>, t: seq<string>)
    requires ByDepthThenName(needs, s) && ByDepthThenName(needs, t)
    requires forall n :: n in s <==> n in t
    ensures s == t
  {
    assert s != [] ==> s[0] in s;
    assert t != [] ==> t[0] in t;
    if s != [] && t != [] {
      if s[0] != t[0] {
        assert t[0] in s && s[0] in t;
        EarlierIsStrict(needs, s[0], t[0]);
        assert false;
      }
      NotInTail(needs, s);
      NotInTail(needs, t);
      forall n ensures n in s[1..] <==> n in t[1..] {
        assert n in s <==> n == s[0] || n in s[1..];
        assert n in t <==> n == t[0] || n in t[1..];
      }
      OrderIsUnique(needs, s[1..], t[1..]);
      assert s == [s[0]] + s[1..] && t == [t[0]] + t[1..];
    }
  }

  lemma EarlierIsStrict(needs: Needs, a: string, b: string)
    ensures !(Earlier(needs, a, b) && Earlier(needs, b, a))
  {
    Trichotomy(a, b);
    if Earlier(needs, a, b) && Earlier(needs, b, a) {
      var da, db :| IsDepth(needs, a, da) && IsDepth(needs, b, db) && (da < db || (da == db && Less(a, b)));
      var ea, eb :| IsDepth(needs, a, ea) && IsDepth(needs, b, eb) && (eb < ea || (eb == ea && Less(b, a)));
      DepthIsUnique(needs, a, da, ea);
      DepthIsUnique(needs, b, db, eb);
    }
  }

  lemma NotInTail(needs: Needs, s: seq<string>)
    requires s != [] && ByDepthThenName(needs, s)
    ensures s[0] !in s[1..]
  {
    EarlierIsStrict(needs, s[0], s[0]);
    forall j | 0 <= j < |s[1..]| ensures s[1..][j] != s[0] {
      assert Earlier(needs, s[0], s[j + 1]);
    }
  }

  // ---- no order and a cycle are the same ----

  lemma {:induction false} CycleGoesDown(needs: Needs, s: seq<string>, p: seq<string>, k: nat, at: nat)
      returns (lower: nat)
    requires DependenciesFirst(needs, s) && Chain(needs, p) && k < |p| && at < |s| && s[at] == p[0]
    ensures lower <= at && s[lower] == p[k] && (k > 0 ==> lower < at)
  {
    lower := at;
    if k > 0 {
      var before := CycleGoesDown(needs, s, p, k - 1, at);
      assert p[(k - 1) + 1] in needs[p[k - 1]];
      assert p[k] in s[..before];
      lower :| 0 <= lower < before && s[lower] == p[k];
    }
  }

  lemma OrderedHasNoCycle(needs: Needs, s: seq<string>, p: seq<string>)
    requires DependenciesFirst(needs, s) && Distinct(s) && Chain(needs, p) && |p| > 1 && p[0] in s
    ensures p[0] != p[|p| - 1]
  {
    var at :| 0 <= at < |s| && s[at] == p[0];
    var lower := CycleGoesDown(needs, s, p, |p| - 1, at);
    assert s[lower] != s[at];
  }

  lemma {:induction false} UniqueCount(s: seq<string>, u: set<string>)
    requires Distinct(s) && forall n :: n in s ==> n in u
    ensures |s| <= |u|
  {
    if s != [] {
      var last := s[|s| - 1];
      UniqueCount(s[..|s| - 1], u - {last});
    }
  }

  lemma ChainGrows(needs: Needs, p: seq<string>, m: string)
    requires Chain(needs, p) && m in needs && m in needs[p[|p| - 1]]
    ensures Chain(needs, p + [m])
  {
  }

  lemma ChainSuffix(needs: Needs, p: seq<string>, i: nat)
    requires Chain(needs, p) && i < |p|
    ensures Chain(needs, p[i..])
  {
    var q := p[i..];
    forall k | 0 <= k < |q| - 1 ensures q[k + 1] in needs[q[k]] {
      assert p[(k + i) + 1] in needs[p[k + i]];
    }
  }

  ghost predicate Waits(needs: Needs, stuck: set<string>) {
    forall n :: n in stuck ==> n in needs && needs[n] * stuck != {}
  }

  lemma AppendUnique(p: seq<string>, m: string)
    requires Distinct(p) && m !in p
    ensures Distinct(p + [m])
  {
  }

  /** A chain of dependencies from `n` that is a cycle from its `i`th crate on. */
  ghost predicate LeadsAt(needs: Needs, n: string, p: seq<string>, i: nat) {
    Chain(needs, p) && p[0] == n && i < |p| && Cycle(needs, p[i..])
  }

  ghost predicate LeadsToCycle(needs: Needs, n: string) {
    exists p, i: nat :: LeadsAt(needs, n, p, i)
  }

  /** From crates that each wait for another of them every chain grows until it goes
      round. */
  lemma {:induction false} ChainGoesRound(needs: Needs, stuck: set<string>, p: seq<string>)
      returns (q: seq<string>, i: nat)
    requires Waits(needs, stuck) && Chain(needs, p) && Distinct(p) && forall n :: n in p ==> n in stuck
    ensures LeadsAt(needs, p[0], q, i) && forall n :: n in q ==> n in stuck
    decreases |stuck| - |p|
  {
    UniqueCount(p, stuck);
    var last := p[|p| - 1];
    assert last in p;
    var m :| m in needs[last] * stuck;
    ChainGrows(needs, p, m);
    if m in p {
      i :| 0 <= i < |p| && p[i] == m;
      q := p + [m];
      ChainSuffix(needs, q, i);
    } else {
      AppendUnique(p, m);
      UniqueCount(p + [m], stuck);
      q, i := ChainGoesRound(needs, stuck, p + [m]);
    }
  }

  /** Crates that each wait for another of them go round in a circle. */
  lemma StuckHasCycle(needs: Needs, stuck: set<string>, p: seq<string>) returns (cycle: seq<string>)
    requires Waits(needs, stuck) && Chain(needs, p) && Distinct(p) && forall n :: n in p ==> n in stuck
    ensures Cycle(needs, cycle) && forall n :: n in cycle ==> n in stuck
  {
    var q, i := ChainGoesRound(needs, stuck, p);
    cycle := q[i..];
  }

  lemma WaitingLeads(needs: Needs, stuck: set<string>, n: string)
    requires Waits(needs, stuck) && n in stuck
    ensures LeadsToCycle(needs, n)
  {
    assert n in needs;
    assert Chain(needs, [n]);
    var p, i := ChainGoesRound(needs, stuck, [n]);
  }

  /** No chain from a crate that has its place leads to a cycle. */
  lemma PlacedLeadsNowhere(needs: Needs, s: seq<string>, p: seq<string>, i: nat, at: nat)
    requires DependenciesFirst(needs, s) && Distinct(s) && Chain(needs, p) && i < |p| && at < |s| && s[at] == p[0]
    ensures !Cycle(needs, p[i..])
  {
    var lower := CycleGoesDown(needs, s, p, i, at);
    assert p[i] in s && p[i..][0] == p[i];
    if Chain(needs, p[i..]) && |p[i..]| > 1 {
      OrderedHasNoCycle(needs, s, p[i..]);
    }
  }

  lemma CycleFrom(needs: Needs, stuck: set<string>, start: string) returns (cycle: seq<string>)
    requires Waits(needs, stuck) && start in stuck
    ensures Cycle(needs, cycle) && forall n :: n in cycle ==> n in stuck
  {
    var p := [start];
    assert start in needs;
    assert Chain(needs, p);
    cycle := StuckHasCycle(needs, stuck, p);
  }

  // ---- the layers ----

  function Ready(names: seq<string>, needs: Needs, placed: set<string>): seq<string>
    requires forall n :: n in names ==> n in needs
  {
    if names == [] then []
    else
      (if names[0] !in placed && needs[names[0]] <= placed then [names[0]] else []) + Ready(names[1..], needs, placed)
  }

  lemma {:induction false} ReadyMembers(names: seq<string>, needs: Needs, placed: set<string>)
    requires forall n :: n in names ==> n in needs
    ensures forall n :: n in Ready(names, needs, placed) <==> n in names && n !in placed && needs[n] <= placed
    ensures Distinct(names) ==> Distinct(Ready(names, needs, placed))
  {
    if names != [] {
      ReadyMembers(names[1..], needs, placed);
    }
  }

  /** What a layered run knows after `k` layers. */
  ghost predicate Layered(needs: Needs, placed: set<string>, k: nat) {
    && (forall n :: n in placed ==> exists d: nat :: d < k && IsDepth(needs, n, d))
    && (forall n :: n in needs && n !in placed ==> HasChain(needs, n, k))
  }

  lemma LayeredStarts(needs: Needs)
    ensures Layered(needs, {}, 0)
  {
    forall n | n in needs ensures HasChain(needs, n, 0) {
      assert ChainFrom(needs, n, [n], 0);
    }
  }

  /** A crate that becomes ready after `k` layers has depth exactly `k`. */
  lemma ReadyHasDepth(needs: Needs, placed: set<string>, k: nat, n: string)
    requires Layered(needs, placed, k) && n in needs && n !in placed && needs[n] <= placed
    ensures IsDepth(needs, n, k)
  {
    forall p, e: nat | ChainFrom(needs, n, p, e) ensures e <= k {
      if e > 0 {
        assert p[0 + 1] in needs[p[0]];
        ChainSuffix(needs, p, 1);
        assert ChainFrom(needs, p[1], p[1..], e - 1);
        var d: nat :| d < k && IsDepth(needs, p[1], d);
      }
    }
  }

  lemma LayerGrows(needs: Needs, placed: set<string>, k: nat, ready: set<string>)
    requires Closed(needs) && Layered(needs, placed, k)
    requires forall n :: n in ready <==> n in needs && n !in placed && needs[n] <= placed
    ensures Layered(needs, placed + ready, k + 1)
  {
    forall n | n in placed + ready ensures exists d: nat :: d < k + 1 && IsDepth(needs, n, d) {
      if n in ready {
        ReadyHasDepth(needs, placed, k, n);
      }
    }
    forall n | n in needs && n !in placed + ready ensures HasChain(needs, n, k + 1) {
      var m :| m in needs[n] && m !in placed;
      assert m in needs;
      var q :| ChainFrom(needs, m, q, k);
      var p := [n] + q;
      forall i | 0 <= i < |p| - 1 ensures p[i + 1] in needs[p[i]] {
        if i > 0 {
          assert q[(i - 1) + 1] in needs[q[i - 1]];
        }
      }
      assert ChainFrom(needs, n, p, k + 1);
    }
  }

  lemma LayerKeepsOrder(needs: Needs, done: seq<string>, placed: set<string>, k: nat, layer: seq<string>)
    requires Layered(needs, placed, k) && ByDepthThenName(needs, done) && forall n :: n in done ==> n in placed
    requires Sorted(layer) && Distinct(layer)
    requires forall n :: n in layer ==> n in needs && n !in placed && needs[n] <= placed
    ensures ByDepthThenName(needs, done + layer)
  {
    var s := done + layer;
    forall i, j | 0 <= i < j < |s| ensures Earlier(needs, s[i], s[j]) {
      if j >= |done| {
        assert s[j] in layer;
        ReadyHasDepth(needs, placed, k, s[j]);
        if i < |done| {
          assert s[i] in done;
          var d: nat :| d < k && IsDepth(needs, s[i], d);
        } else {
          assert s[i] in layer;
          ReadyHasDepth(needs, placed, k, s[i]);
          Trichotomy(s[i], s[j]);
          assert layer[i - |done|] != layer[j - |done|];
        }
      }
    }
  }

  lemma LayerKeepsDependencies(needs: Needs, done: seq<string>, layer: seq<string>)
    requires DependenciesFirst(needs, done)
    requires forall n, m :: n in layer && n in needs && m in needs[n] ==> m in done
    ensures DependenciesFirst(needs, done + layer)
  {
    var s := done + layer;
    forall i, m | 0 <= i < |s| && s[i] in needs && m in needs[s[i]] ensures m in s[..i] {
      if i < |done| {
        assert s[..i] == done[..i];
      } else {
        assert s[i] in layer;
        assert s[..i] == done + layer[..i - |done|];
      }
    }
  }

  ghost predicate SameMembers(s: seq<string>, u: set<string>) {
    forall n :: n in s <==> n in u
  }

  lemma SortedReady(names: seq<string>, needs: Needs, placed: set<string>)
    requires Distinct(names) && forall n :: n in names ==> n in needs
    ensures var ready := Sort(Ready(names, needs, placed));
            && Sorted(ready) && Distinct(ready)
            && forall n :: n in ready <==> n in names && n !in placed && needs[n] <= placed
  {
    var raw := Ready(names, needs, placed);
    SortSorts(raw);
    ReadyMembers(names, needs, placed);
    forall n ensures n in Sort(raw) <==> n in raw {
      assert n in Sort(raw) <==> n in multiset(Sort(raw));
      assert n in raw <==> n in multiset(raw);
    }
    MultisetUnique(raw, Sort(raw));
  }

  lemma MultisetUnique(a: seq<string>, b: seq<string>)
    requires Distinct(a) && multiset(a) == multiset(b)
    ensures Distinct(b)
  {
    forall i, j | 0 <= i < j < |b| ensures b[i] != b[j] {
      if b[i] == b[j] {
        assert b == b[..j] + [b[j]] + b[j + 1..];
        assert b[i] in b[..j];
        assert multiset(b)[b[i]] >= 2;
        UniqueMultiplicity(a, b[i]);
      }
    }
  }

  lemma {:induction false} UniqueMultiplicity(a: seq<string>, n: string)
    requires Distinct(a)
    ensures multiset(a)[n] <= 1
  {
    if a != [] {
      UniqueMultiplicity(a[1..], n);
      assert a == [a[0]] + a[1..];
      if a[0] == n {
        assert n !in a[1..];
      }
    }
  }

  ghost predicate Progress(g: Graph, done: seq<string>, placed: set<string>, layers: nat) {
    && SameMembers(done, placed) && Distinct(done) && placed <= g.needs.Keys
    && DependenciesFirst(g.needs, done)
    && (Closed(g.needs) ==> Layered(g.needs, placed, layers) && ByDepthThenName(g.needs, done))
  }

  lemma LayerProgresses(g: Graph, done: seq<string>, placed: set<string>, layers: nat,
                        layer: seq<string>, now: set<string>)
    requires Consistent(g) && Progress(g, done, placed, layers)
    requires Sorted(layer) && Distinct(layer) && SameMembers(layer, now)
    requires forall n :: n in layer <==> n in g.names && n !in placed && g.needs[n] <= placed
    ensures Progress(g, done + layer, placed + now, layers + 1)
  {
    if Closed(g.needs) {
      LayerKeepsOrder(g.needs, done, placed, layers, layer);
      LayerGrows(g.needs, placed, layers, now);
    }
    LayerKeepsDependencies(g.needs, done, layer);
    assert Distinct(done + layer) by {
      forall i, j | 0 <= i < |done| && 0 <= j < |layer| ensures done[i] != layer[j] {
        assert done[i] in done && layer[j] in layer;
      }
    }
  }

  ghost predicate CycleWithin(needs: Needs, p: seq<string>, stuck: seq<string>) {
    Cycle(needs, p) && forall n :: n in p ==> n in stuck
  }

  lemma StuckProof(g: Graph, done: seq<string>, placed: set<string>)
    requires Consistent(g) && placed <= g.needs.Keys && |placed| < |g.needs|
    requires SameMembers(done, placed) && Distinct(done) && DependenciesFirst(g.needs, done)
    requires forall n :: n in g.names && n !in placed ==> !(g.needs[n] <= placed)
    ensures Sorted(Sort(Unplaced(g.names, placed)))
    ensures forall n :: n in Sort(Unplaced(g.names, placed)) ==> n in g.needs
    ensures Closed(g.needs) ==> exists p :: CycleWithin(g.needs, p, Sort(Unplaced(g.names, placed)))
    ensures Closed(g.needs) ==> forall n :: n in Sort(Unplaced(g.names, placed)) <==> LeadsToCycle(g.needs, n)
  {
    var waiting := StuckMembers(g, placed);
    if Closed(g.needs) {
      StuckWaits(g, placed, waiting);
      StuckGoRound(g.needs, waiting, Sort(Unplaced(g.names, placed)));
      forall n ensures n in waiting <==> LeadsToCycle(g.needs, n) {
        StuckLeadsIff(g.needs, done, placed, waiting, n);
      }
    }
  }

  lemma StuckGoRound(needs: Needs, waiting: set<string>, stuck: seq<string>)
    requires Waits(needs, waiting) && waiting != {} && forall n :: n in waiting ==> n in stuck
    ensures exists p :: CycleWithin(needs, p, stuck)
  {
    var start :| start in waiting;
    var cycle := CycleFrom(needs, waiting, start);
    assert CycleWithin(needs, cycle, stuck);
  }

  lemma StuckLeadsIff(needs: Needs, done: seq<string>, placed: set<string>, waiting: set<string>, n: string)
    requires SameMembers(done, placed) && Distinct(done) && DependenciesFirst(needs, done)
    requires waiting == needs.Keys - placed && Waits(needs, waiting)
    ensures n in waiting <==> LeadsToCycle(needs, n)
  {
    if n in waiting {
      WaitingLeads(needs, waiting, n);
    } else if n in placed {
      assert n in done;
      var at :| 0 <= at < |done| && done[at] == n;
      forall p, i: nat ensures !LeadsAt(needs, n, p, i) {
        if Chain(needs, p) && p[0] == n && i < |p| {
          PlacedLeadsNowhere(needs, done, p, i, at);
        }
      }
    }
  }

  /** Dependencies first, or the crates that are stuck. */
  method Order(g: Graph) returns (r: Result<seq<string>, seq<string>>)
    requires Consistent(g)
    ensures r.Ok? ==>
              Distinct(r.value) && SameMembers(r.value, g.needs.Keys) && DependenciesFirst(g.needs, r.value)
    ensures r.Ok? && Closed(g.needs) ==> ByDepthThenName(g.needs, r.value)
    ensures r.Ok? ==> forall p :: !Cycle(g.needs, p)
    ensures r.Err? && Closed(g.needs) ==>
              exists p :: CycleWithin(g.needs, p, r.error)
    ensures r.Err? && Closed(g.needs) ==> forall n :: n in r.error <==> LeadsToCycle(g.needs, n)
    ensures Closed(g.needs) ==> (r.Err? <==> exists p :: Cycle(g.needs, p))
    ensures r.Err? ==> Sorted(r.error) && forall n :: n in r.error ==> n in g.needs
  {
    var done: seq<string> := [];
    var placed: set<string> := {};
    ghost var layers := 0;
    LayeredStarts(g.needs);
    while |placed| < |g.needs|
      invariant Progress(g, done, placed, layers)
      decreases g.needs.Keys - placed
    {
      var ready := Sort(Ready(g.names, g.needs, placed));
      SortedReady(g.names, g.needs, placed);
      if ready == [] {
        StuckProof(g, done, placed);
        return Err(Sort(Unplaced(g.names, placed)));
      }
      var now := ToSet(ready);
      LayerProgresses(g, done, placed, layers, ready, now);
      assert ready[0] in now && ready[0] in g.needs.Keys - placed;
      done := done + ready;
      placed := placed + now;
      layers := layers + 1;
    }
    AllPlaced(placed, g.needs.Keys);
    NoCycleIn(g.needs, done);
    r := Ok(done);
  }

  lemma NoCycleIn(needs: Needs, done: seq<string>)
    requires DependenciesFirst(needs, done) && Distinct(done) && SameMembers(done, needs.Keys)
    ensures forall p :: !Cycle(needs, p)
  {
    forall p | Chain(needs, p) && |p| > 1 ensures p[0] != p[|p| - 1] {
      OrderedHasNoCycle(needs, done, p);
    }
  }

  lemma AllPlaced(a: set<string>, b: set<string>)
    requires a <= b && |a| >= |b|
    ensures a == b
  {
    assert |b - a| == |b| - |a|;
    assert b == a + (b - a);
  }

  function Unplaced(names: seq<string>, placed: set<string>): seq<string> {
    if names == [] then []
    else (if names[0] !in placed then [names[0]] else []) + Unplaced(names[1..], placed)
  }

  lemma {:induction false} UnplacedMembers(names: seq<string>, placed: set<string>)
    ensures forall n :: n in Unplaced(names, placed) <==> n in names && n !in placed
  {
    if names != [] {
      UnplacedMembers(names[1..], placed);
    }
  }

  /** The crates an order cannot place, as a set that the refusal lists. */
  lemma StuckMembers(g: Graph, placed: set<string>) returns (waiting: set<string>)
    requires Consistent(g) && placed <= g.needs.Keys && |placed| < |g.needs|
    ensures waiting == g.needs.Keys - placed && waiting != {}
    ensures Sorted(Sort(Unplaced(g.names, placed)))
    ensures forall n :: n in Sort(Unplaced(g.names, placed)) <==> n in waiting
  {
    var raw := Unplaced(g.names, placed);
    waiting := g.needs.Keys - placed;
    UnplacedMembers(g.names, placed);
    SortSorts(raw);
    forall n ensures n in Sort(raw) <==> n in waiting {
      assert n in Sort(raw) <==> n in multiset(Sort(raw));
      assert n in raw <==> n in multiset(raw);
    }
    assert |waiting| == |g.needs.Keys| - |placed|;
  }

  lemma StuckWaits(g: Graph, placed: set<string>, waiting: set<string>)
    requires Consistent(g) && Closed(g.needs) && waiting == g.needs.Keys - placed
    requires forall n :: n in g.names && n !in placed ==> !(g.needs[n] <= placed)
    ensures Waits(g.needs, waiting)
  {
    forall n | n in waiting ensures g.needs[n] * waiting != {} {
      var m :| m in g.needs[n] && m !in placed;
      assert m in g.needs[n] * waiting;
    }
  }

  // ---- the graph ----

  function Unpublishable(packages: seq<Package>): set<string> {
    set p | p in packages && p.publish == Some([]) :: p.name
  }

  function MemberNames(packages: seq<Package>): set<string> {
    set p | p in packages :: p.name
  }

  /** What a package links, among the workspace's own crates. */
  function NeededBy(packages: seq<Package>, package: Package): set<string> {
    set d | d in package.dependencies && d.name in MemberNames(packages) && d.kind != Some("dev") :: d.name
  }

  // ---- what the graph says, over the packages themselves ----

  ghost predicate Ships(p: Package) {
    match p.publish case None => true case Some(registries) => |registries| > 0
  }

  ghost predicate Mentions(p: Package, q: Package, d: Dep) {
    d in p.dependencies && d.name == q.name && (d.kind == None || d.kind.value != "dev")
  }

  /** A dependency of the first that is no development dependency has the name of the second. */
  ghost predicate Links(p: Package, q: Package) {
    exists d :: Mentions(p, q, d)
  }

  /** A name no package of which says that it is not published. */
  ghost predicate Goes(packages: seq<Package>, n: string) {
    && (exists p :: p in packages && p.name == n)
    && (forall p :: p in packages && p.name == n ==> Ships(p))
  }

  lemma GoesIff(packages: seq<Package>, n: string)
    ensures n in MemberNames(packages) - Unpublishable(packages) <==> Goes(packages, n)
    ensures (exists p :: p in packages && p.name == n) && !Goes(packages, n) <==> n in Unpublishable(packages)
  {
    forall p | p in packages && p.name == n ensures Ships(p) <==> p.publish != Some([]) {
      assert p.publish.Some? && |p.publish.value| == 0 ==> p.publish.value == [];
    }
  }

  lemma NeededIff(packages: seq<Package>, p: Package, n: string)
    ensures n in NeededBy(packages, p) <==> exists q :: q in packages && q.name == n && Links(p, q)
  {
    if n in NeededBy(packages, p) {
      var d :| d in p.dependencies && d.name in MemberNames(packages) && d.kind != Some("dev") && d.name == n;
      var q :| q in packages && q.name == n;
      assert Mentions(p, q, d);
    }
    if q :| q in packages && q.name == n && Links(p, q) {
      var d :| Mentions(p, q, d);
      assert d.name in MemberNames(packages) && d.kind != Some("dev");
    }
  }

  /** The crates are the ones that ship, and each one's entry is what one package of that
      name links. */
  ghost predicate IsTheirs(packages: seq<Package>, needs: Needs) {
    && (forall n :: n in needs <==> Goes(packages, n))
    && (forall n :: n in needs ==> exists p :: IsEntry(packages, needs[n], n, p))
  }

  ghost predicate IsEntry(packages: seq<Package>, needed: set<string>, n: string, p: Package) {
    && p in packages && p.name == n
    && (forall m :: m in needed <==> exists q :: q in packages && q.name == m && Links(p, q))
  }

  /** It ships and links what does not. */
  ghost predicate IsCulprit(packages: seq<Package>, p: Package) {
    && p in packages && Goes(packages, p.name)
    && exists q :: q in packages && Links(p, q) && !Goes(packages, q.name)
  }

  /** What ships links only what ships. */
  ghost predicate LinksStayInside(packages: seq<Package>) {
    forall p, q :: p in packages && q in packages && Goes(packages, p.name) && Links(p, q) ==> Goes(packages, q.name)
  }

  lemma SoundIff(packages: seq<Package>)
    ensures Sound(packages) <==> LinksStayInside(packages)
  {
    forall n { GoesIff(packages, n); }
    forall p, n { NeededIff(packages, p, n); }
    if Sound(packages) {
      forall p, q | p in packages && q in packages && Goes(packages, p.name) && Links(p, q)
        ensures Goes(packages, q.name)
      {
        assert q.name in NeededBy(packages, p);
      }
    }
    if LinksStayInside(packages) {
      forall p, n | p in packages && p.name !in Unpublishable(packages) && n in NeededBy(packages, p)
        ensures n !in Unpublishable(packages)
      {
        var q :| q in packages && q.name == n && Links(p, q);
      }
    }
  }

  lemma EntriesAre(packages: seq<Package>, needs: Needs)
    requires needs.Keys == MemberNames(packages) - Unpublishable(packages)
    requires forall n :: n in needs ==> exists p :: ComesFrom(packages, needs, n, p)
    ensures IsTheirs(packages, needs)
  {
    forall n ensures n in needs <==> Goes(packages, n) {
      GoesIff(packages, n);
    }
    forall n | n in needs ensures exists p :: IsEntry(packages, needs[n], n, p) {
      var p :| ComesFrom(packages, needs, n, p);
      forall m { NeededIff(packages, p, m); }
      assert IsEntry(packages, needs[n], n, p);
    }
  }

  lemma CulpritLinks(packages: seq<Package>, p: Package)
    requires p in packages && p.name !in Unpublishable(packages)
    requires NeededBy(packages, p) * Unpublishable(packages) != {}
    ensures IsCulprit(packages, p) && !LinksStayInside(packages)
  {
    GoesIff(packages, p.name);
    var n :| n in NeededBy(packages, p) * Unpublishable(packages);
    NeededIff(packages, p, n);
    GoesIff(packages, n);
    var q :| q in packages && q.name == n && Links(p, q);
  }

  ghost predicate Sound(packages: seq<Package>) {
    forall p :: p in packages && p.name !in Unpublishable(packages) ==>
      NeededBy(packages, p) !! Unpublishable(packages)
  }

  /** This package's own links are what the graph holds under its name. */
  ghost predicate ComesFrom(packages: seq<Package>, needs: Needs, n: string, p: Package)
    requires n in needs
  {
    && p in packages && p.name == n
    && needs[n] == NeededBy(packages, p) && needs[n] !! Unpublishable(packages)
  }

  /** The graph of the first `i` packages; `from` says whose links each entry holds. */
  ghost predicate Built(packages: seq<Package>, i: nat, g: Graph, from: map<string, Package>)
    requires i <= |packages|
  {
    && Consistent(g)
    && g.needs.Keys == MemberNames(packages[..i]) - Unpublishable(packages) == from.Keys
    && (forall n :: n in g.needs ==> ComesFrom(packages, g.needs, n, from[n]))
  }

  function Entered(g: Graph, n: string, needed: set<string>): Graph {
    Graph(if n in g.needs then g.names else g.names + [n], g.needs[n := needed])
  }

  lemma NamesStep(packages: seq<Package>, i: nat)
    requires i < |packages|
    ensures MemberNames(packages[..i + 1]) == MemberNames(packages[..i]) + {packages[i].name}
  {
    assert packages[..i + 1] == packages[..i] + [packages[i]];
  }

  lemma Disjoint(a: set<string>, b: set<string>)
    requires a * b == {}
    ensures a !! b && a - b == a
  {
    forall x | x in a ensures x !in b { assert x !in a * b; }
  }

  lemma SkipStep(packages: seq<Package>, i: nat, g: Graph, from: map<string, Package>)
    requires i < |packages| && Built(packages, i, g, from) && packages[i].name in Unpublishable(packages)
    ensures Built(packages, i + 1, g, from)
  {
    NamesStep(packages, i);
  }

  lemma EnterStep(packages: seq<Package>, i: nat, g: Graph, from: map<string, Package>, needed: set<string>)
    requires i < |packages| && Built(packages, i, g, from) && packages[i].name !in Unpublishable(packages)
    requires needed == NeededBy(packages, packages[i]) && needed !! Unpublishable(packages)
    ensures Built(packages, i + 1, Entered(g, packages[i].name, needed), from[packages[i].name := packages[i]])
  {
    var name := packages[i].name;
    var g', from' := Entered(g, name, needed), from[name := packages[i]];
    NamesStep(packages, i);
    EnteredIsConsistent(g, name, needed);
    assert MemberNames(packages[..i + 1]) - Unpublishable(packages)
        == MemberNames(packages[..i]) - Unpublishable(packages) + {name};
    assert from'.Keys == from.Keys + {name};
    forall n | n in g'.needs ensures ComesFrom(packages, g'.needs, n, from'[n]) {
      if n == name {
        assert packages[i] in packages;
      } else {
        OthersStay(packages, g.needs, name, needed, n, from[n]);
      }
    }
  }

  lemma EnteredIsConsistent(g: Graph, name: string, needed: set<string>)
    requires Consistent(g)
    ensures Consistent(Entered(g, name, needed))
    ensures Entered(g, name, needed).needs.Keys == g.needs.Keys + {name}
  {
  }

  lemma OthersStay(packages: seq<Package>, needs: Needs, name: string, needed: set<string>, n: string, p: Package)
    requires n in needs && n != name && ComesFrom(packages, needs, n, p)
    ensures ComesFrom(packages, needs[name := needed], n, p)
  {
  }

  lemma BuiltCloses(packages: seq<Package>, g: Graph, from: map<string, Package>)
    requires Built(packages, |packages|, g, from)
    ensures Closed(g.needs) && g.needs.Keys == MemberNames(packages) - Unpublishable(packages)
    ensures forall n :: n in g.needs ==> exists p :: ComesFrom(packages, g.needs, n, p)
  {
    assert packages[..|packages|] == packages;
    forall n, m | n in g.needs && m in g.needs[n] ensures m in g.needs {
      assert ComesFrom(packages, g.needs, n, from[n]);
    }
  }

  lemma BuiltIsTheirs(packages: seq<Package>, g: Graph, from: map<string, Package>)
    requires Built(packages, |packages|, g, from) && Sound(packages)
    ensures Closed(g.needs) && IsTheirs(packages, g.needs) && LinksStayInside(packages)
  {
    BuiltCloses(packages, g, from);
    EntriesAre(packages, g.needs);
    SoundIff(packages);
  }

  /** Each publishable crate with what it needs first, or the first crate found to
      link one that is not published. */
  method Workspace(packages: seq<Package>) returns (r: Result<Graph, Package>)
    ensures r.Ok? <==> LinksStayInside(packages)
    ensures r.Ok? ==> Consistent(r.value) && Closed(r.value.needs) && IsTheirs(packages, r.value.needs)
    ensures r.Err? ==> IsCulprit(packages, r.error)
  {
    var skipped := Unpublishable(packages);
    var g := Graph([], map[]);
    ghost var from: map<string, Package> := map[];
    for i := 0 to |packages|
      invariant Built(packages, i, g, from)
      invariant forall k :: 0 <= k < i && packages[k].name !in skipped ==> NeededBy(packages, packages[k]) !! skipped
    {
      var package := packages[i];
      if package.name in skipped {
        SkipStep(packages, i, g, from);
      } else {
        var needed := NeededBy(packages, package);
        var reaches := needed * skipped;
        if reaches != {} {
          CulpritLinks(packages, package);
          return Err(package);
        }
        Disjoint(needed, skipped);
        EnterStep(packages, i, g, from, needed);
        g := Entered(g, package.name, needed - skipped);
        from := from[package.name := package];
      }
    }
    BuiltIsTheirs(packages, g, from);
    r := Ok(g);
  }
}
