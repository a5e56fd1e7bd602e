/** The whole-program facts: the reactive functions, the client closure of a
    document, and the completion of a bundle by operator dispatch. */
module Analysis {
  import opened Wrappers
  import opened Reachability
  import opened Hir
  import opened Reads
  import opened Walkers

  /** Which library functions each definition's own operators dispatch to, each
      list ascending. */
  type Targets = map<DefId, seq<DefId>>

  ghost predicate TargetsInRange(hir: Hir, targets: Targets) {
    forall d, e {:trigger e in targets[d]} :: d in targets && e in targets[d] ==> e < |hir.defs|
  }

  function EdgeGraph(hir: Hir, targets: Targets): (g: Graph)
    ensures |g| == |hir.defs|
  {
    seq(|hir.defs|, i requires 0 <= i < |hir.defs| => if i in targets then ToSet(targets[i]) else {})
  }

  lemma EdgeGraphIsValid(hir: Hir, targets: Targets)
    requires TargetsInRange(hir, targets)
    ensures Valid(EdgeGraph(hir, targets))
  {
  }

  // ---- reactive functions ----

  function BodyOf(hir: Hir, f: DefId): Block {
    if IsCallable(hir, f) then hir.defs[f].body else []
  }

  /** The body itself mentions a changing thing or names a signal it reads. */
  ghost predicate ReadsDirectly(hir: Hir, binders: Binders, f: DefId) {
    || BlockMentions(binders, BodyOf(hir, f))
    || (exists d :: d in BlockReadRefs(BodyOf(hir, f)) && IsReactiveSignal(hir, d))
  }

  /** The definitions of `kinds` whose verdicts a member's own verdict consults. */
  ghost function CallGraph(hir: Hir, kinds: set<DefId>): (g: Graph)
    ensures |g| == |hir.defs|
  {
    seq(|hir.defs|, i requires 0 <= i < |hir.defs| =>
      if i in kinds then set d | d in BlockReadRefs(BodyOf(hir, i)) && d in kinds else {})
  }

  /** A chain of references through `kinds` from `f` to a body that reads directly. */
  ghost predicate Chain(hir: Hir, binders: Binders, kinds: set<DefId>, f: DefId, p: seq<DefId>) {
    && Path(CallGraph(hir, kinds), p)
    && p[0] == f
    && p[|p| - 1] in kinds
    && ReadsDirectly(hir, binders, p[|p| - 1])
  }

  ghost predicate ReadsTransitively(hir: Hir, binders: Binders, kinds: set<DefId>, f: DefId) {
    exists p :: Chain(hir, binders, kinds, f, p)
  }

  ghost function Functions(hir: Hir): set<DefId> {
    set d: DefId | d < |hir.defs| && IsFunction(hir, d)
  }

  ghost function Callables(hir: Hir): set<DefId> {
    set d: DefId | d < |hir.defs| && IsCallable(hir, d)
  }

  /** The reactive functions, as reachability. */
  ghost function Reactive(hir: Hir, binders: Binders): set<DefId> {
    set f | f in Functions(hir) && ReadsTransitively(hir, binders, Functions(hir), f)
  }

  ghost predicate BodyReads(hir: Hir, binders: Binders, functions: set<DefId>, f: DefId) {
    BlockReadsSignal(hir, Facts(binders, functions), BodyOf(hir, f))
  }

  /** One round of the analysis, on a set of functions at once. */
  ghost function OneRound(hir: Hir, binders: Binders, functions: set<DefId>): set<DefId> {
    set f | f in Functions(hir) && BodyReads(hir, binders, functions, f)
  }

  lemma BodyReadsMeans(hir: Hir, binders: Binders, functions: set<DefId>, f: DefId)
    requires functions <= Functions(hir)
    ensures BodyReads(hir, binders, functions, f) <==>
            ReadsDirectly(hir, binders, f) || exists g :: g in BlockReadRefs(BodyOf(hir, f)) && g in functions
  {
    BlockWalksAgree(hir, Facts(binders, functions), BodyOf(hir, f));
  }

  lemma ChainGrows(hir: Hir, binders: Binders, kinds: set<DefId>, f: DefId, g: DefId)
    requires kinds <= Callables(hir) && f in kinds && g in kinds
    requires g in BlockReadRefs(BodyOf(hir, f)) && ReadsTransitively(hir, binders, kinds, g)
    ensures ReadsTransitively(hir, binders, kinds, f)
  {
    var p :| Chain(hir, binders, kinds, g, p);
    var q := [f] + p;
    forall i | 0 <= i < |q| - 1 ensures q[i + 1] in CallGraph(hir, kinds)[q[i]] {
      if i > 0 {
        assert p[(i - 1) + 1] in CallGraph(hir, kinds)[p[i - 1]];
      }
    }
    assert Chain(hir, binders, kinds, f, q);
  }

  /** Nothing outside the reachable set is ever added. */
  lemma RoundIsSound(hir: Hir, binders: Binders, functions: set<DefId>, f: DefId)
    requires functions <= Reactive(hir, binders) && IsFunction(hir, f) && BodyReads(hir, binders, functions, f)
    ensures f in Reactive(hir, binders)
  {
    BodyReadsMeans(hir, binders, functions, f);
    if ReadsDirectly(hir, binders, f) {
      assert Chain(hir, binders, Functions(hir), f, [f]);
    } else {
      var g :| g in BlockReadRefs(BodyOf(hir, f)) && g in functions;
      ChainGrows(hir, binders, Functions(hir), f, g);
    }
  }

  /** A set no round enlarges holds every function a chain starts from. */
  lemma {:induction false} StableIsComplete(
      hir: Hir, binders: Binders, functions: set<DefId>, f: DefId, p: seq<DefId>)
    requires functions <= Functions(hir) && OneRound(hir, binders, functions) <= functions
    requires Chain(hir, binders, Functions(hir), f, p)
    ensures f in functions
    decreases |p|
  {
    BodyReadsMeans(hir, binders, functions, f);
    if |p| == 1 {
      assert f in OneRound(hir, binders, functions);
    } else {
      assert p[0 + 1] in CallGraph(hir, Functions(hir))[p[0]];
      var q := p[1..];
      forall i | 0 <= i < |q| - 1 ensures q[i + 1] in CallGraph(hir, Functions(hir))[q[i]] {
        assert p[(i + 1) + 1] in CallGraph(hir, Functions(hir))[p[i + 1]];
      }
      StableIsComplete(hir, binders, functions, p[1], q);
      assert f in OneRound(hir, binders, functions);
    }
  }

  /** The reachable set is a fixed point of the analysis, and the least of the
      sets no round enlarges. */
  lemma ReactiveIsLeastFixedPoint(hir: Hir, binders: Binders)
    ensures OneRound(hir, binders, Reactive(hir, binders)) == Reactive(hir, binders)
    ensures forall s :: s <= Functions(hir) && OneRound(hir, binders, s) <= s ==> Reactive(hir, binders) <= s
  {
    var least := Reactive(hir, binders);
    forall f | f in OneRound(hir, binders, least) ensures f in least {
      RoundIsSound(hir, binders, least, f);
    }
    forall s | s <= Functions(hir) && OneRound(hir, binders, s) <= s ensures least <= s {
      forall f | f in least ensures f in s {
        var p :| Chain(hir, binders, Functions(hir), f, p);
        StableIsComplete(hir, binders, s, f, p);
      }
    }
    var round := OneRound(hir, binders, least);
    forall f | f in OneRound(hir, binders, round) ensures f in round {
      BodyReadsMeans(hir, binders, round, f);
      BodyReadsMeans(hir, binders, least, f);
    }
    assert least <= round;
  }

  /** What the release rules refuse before a bundle ships: a release that reads a
      signal, directly or through what it calls. */
  ghost predicate ReleasesAreClosed(hir: Hir, binders: Binders) {
    forall r :: r in Callables(hir) - Functions(hir) ==> !ReadsTransitively(hir, binders, Callables(hir), r)
  }

  /** A release is never added to the set, so the verdict on every function and
      release is the one its body deserves exactly when no release reads a signal. */
  lemma VerdictsAreIdealIffReleasesClosed(hir: Hir, binders: Binders)
    ensures ReleasesAreClosed(hir, binders) <==>
            forall d :: d in Callables(hir) ==>
              (d in Reactive(hir, binders) <==> ReadsTransitively(hir, binders, Callables(hir), d))
  {
    var fs, cs := Functions(hir), Callables(hir);
    if ReleasesAreClosed(hir, binders) {
      forall d | d in cs ensures d in Reactive(hir, binders) <==> ReadsTransitively(hir, binders, cs, d) {
        if d in Reactive(hir, binders) {
          var p :| Chain(hir, binders, fs, d, p);
          FunctionChainIsCallableChain(hir, binders, d, p);
        } else if ReadsTransitively(hir, binders, cs, d) {
          var p :| Chain(hir, binders, cs, d, p);
          ChainAvoidsReleases(hir, binders, d, p);
        }
      }
    } else {
      var r :| r in cs - fs && ReadsTransitively(hir, binders, cs, r);
      assert r !in Reactive(hir, binders);
    }
  }

  lemma FunctionChainIsCallableChain(hir: Hir, binders: Binders, f: DefId, p: seq<DefId>)
    requires Chain(hir, binders, Functions(hir), f, p)
    ensures Chain(hir, binders, Callables(hir), f, p)
  {
    forall i | 0 <= i < |p| - 1 ensures p[i + 1] in CallGraph(hir, Callables(hir))[p[i]] {
      assert p[i + 1] in CallGraph(hir, Functions(hir))[p[i]];
    }
  }

  lemma {:induction false} ChainAvoidsReleases(hir: Hir, binders: Binders, f: DefId, p: seq<DefId>)
    requires ReleasesAreClosed(hir, binders) && Chain(hir, binders, Callables(hir), f, p)
    ensures f in Reactive(hir, binders)
    decreases |p|
  {
    var fs, cs := Functions(hir), Callables(hir);
    assert f in cs by {
      if |p| > 1 { assert p[0 + 1] in CallGraph(hir, cs)[p[0]]; }
    }
    assert f in fs by {
      assert ReadsTransitively(hir, binders, cs, f);
    }
    if |p| == 1 {
      assert Chain(hir, binders, fs, f, [f]);
    } else {
      var q := p[1..];
      assert p[0 + 1] in CallGraph(hir, cs)[p[0]];
      forall i | 0 <= i < |q| - 1 ensures q[i + 1] in CallGraph(hir, cs)[q[i]] {
        assert p[(i + 1) + 1] in CallGraph(hir, cs)[p[i + 1]];
      }
      ChainAvoidsReleases(hir, binders, p[1], q);
      ChainGrows(hir, binders, fs, f, p[1]);
    }
  }

  /** A function that gives what a release answers, where the release asks the
      browser. */
  const THROUGH_RELEASE := Hir([Function([Give(Call(Def(1), []))]), Release([Give(Media)])], None)

  /** The function's value changes with the browser's answer and the analysis
      does not say so. */
  lemma ReadThroughReleaseIsMissed()
    ensures ReadsTransitively(THROUGH_RELEASE, Binders({}, {}), Callables(THROUGH_RELEASE), 0)
    ensures 0 !in Reactive(THROUGH_RELEASE, Binders({}, {}))
  {
    var hir, none := THROUGH_RELEASE, Binders({}, {});
    var call := [Give(Call(Def(1), []))];
    assert BodyOf(hir, 0) == call && BodyOf(hir, 1) == [Give(Media)];
    assert StmtReadRefs(call[0]) == [1];
    assert BlockReadRefs(call) == [1];
    assert BlockMentions(none, [Give(Media)]);
    assert 1 in CallGraph(hir, Callables(hir))[0];
    assert Chain(hir, none, Callables(hir), 0, [0, 1]);
    assert !StmtMentions(none, call[0]);
    assert !ReadsDirectly(hir, none, 0);
    BodyReadsMeans(hir, none, {}, 0);
    assert OneRound(hir, none, {}) == {};
    ReactiveIsLeastFixedPoint(hir, none);
  }

  /** With the solved set, what `ReadsSignal` answers for any expression: it
      mentions a changing thing, names a signal, or names a function from which a
      chain of references leads to a body that does. */
  lemma ReadsSignalExactly(hir: Hir, binders: Binders, scratch: Binders, e: Expr)
    requires WellFormed(hir) && forall d :: d in ExprRefs(e) ==> d < |hir.defs|
    ensures ReadsSignal(hir, Facts(binders, Reactive(hir, scratch)), e) <==>
            || Mentions(binders, e)
            || exists d :: d in ExprRefs(e) &&
                 (IsReactiveSignal(hir, d)
                  || (IsFunction(hir, d) && ReadsTransitively(hir, scratch, Functions(hir), d)))
  {
    var facts := Facts(binders, Reactive(hir, scratch));
    WalksAgree(hir, facts, e);
    forall d | d in ExprRefs(e)
      ensures DefIsReactive(hir, facts, d) <==>
              IsReactiveSignal(hir, d) || (IsFunction(hir, d) && ReadsTransitively(hir, scratch, Functions(hir), d))
    {
    }
  }

  /** No function among `ds` mentions a changing thing in its own body. */
  ghost predicate Quiet(hir: Hir, binders: Binders, ds: set<DefId>) {
    forall d :: d in ds && IsFunction(hir, d) ==> !BlockMentions(binders, BodyOf(hir, d))
  }

  lemma {:induction false} StmtReadsAreReferences(s: Stmt, d: DefId)
    requires d in StmtReadRefs(s)
    ensures d in StmtRefs(s)
    decreases s
  {
    match s
    case Give(_) | Bind(_) | Do(_) | Mutation(_, _, _) =>
    case Pipe(clause) => ClauseRefsAre(clause);
    case When(scrutinee, arms) =>
      if d !in ExprRefs(scrutinee) { ArmsReadsAreReferences(arms, d); }
    case Each(iter, body) =>
      if d !in ExprRefs(iter) { BlockReadsAreReferences(body, d); }
    case If(cond, then_, otherwise) =>
      if d in BlockReadRefs(then_) {
        BlockReadsAreReferences(then_, d);
      } else if otherwise.Else? && d in BlockReadRefs(otherwise.block) {
        BlockReadsAreReferences(otherwise.block, d);
      }
  }

  lemma {:induction false} ArmsReadsAreReferences(arms: seq<Arm>, d: DefId)
    requires d in ArmsReadRefs(arms)
    ensures d in ArmsRefs(arms)
    decreases arms
  {
    if d in ArmReadRefs(arms[0]) {
      ArmReadsAreReferences(arms[0], d);
    } else {
      ArmsReadsAreReferences(arms[1..], d);
    }
  }

  lemma {:induction false} ArmReadsAreReferences(arm: Arm, d: DefId)
    requires d in ArmReadRefs(arm)
    ensures d in ArmRefs(arm)
    decreases arm
  {
    match arm
    case ShowArm(_) =>
    case BlockArm(b) => BlockReadsAreReferences(b, d);
  }

  lemma {:induction false} BlockReadsAreReferences(block: Block, d: DefId)
    requires d in BlockReadRefs(block)
    ensures d in BlockRefs(block)
    decreases block
  {
    if d in StmtReadRefs(block[0]) {
      StmtReadsAreReferences(block[0], d);
    } else {
      BlockReadsAreReferences(block[1..], d);
    }
  }

  lemma {:induction false} ChainEndsAtSignal(hir: Hir, binders: Binders, f: DefId, p: seq<DefId>, closed: set<DefId>)
      returns (signal: DefId)
    requires WellFormed(hir) && Chain(hir, binders, Functions(hir), f, p)
    requires f in closed && Closed(RefGraph(hir), closed) && Quiet(hir, binders, closed)
    ensures signal in closed && IsReactiveSignal(hir, signal)
    decreases |p|
  {
    if |p| == 1 {
      signal :| signal in BlockReadRefs(BodyOf(hir, f)) && IsReactiveSignal(hir, signal);
      BlockReadsAreReferences(BodyOf(hir, f), signal);
      assert signal in RefGraph(hir)[f];
    } else {
      var fs := Functions(hir);
      assert p[0 + 1] in CallGraph(hir, fs)[p[0]];
      BlockReadsAreReferences(BodyOf(hir, f), p[1]);
      assert p[1] in RefGraph(hir)[f];
      var q := p[1..];
      forall i | 0 <= i < |q| - 1 ensures q[i + 1] in CallGraph(hir, fs)[q[i]] {
        assert p[(i + 1) + 1] in CallGraph(hir, fs)[p[i + 1]];
      }
      signal := ChainEndsAtSignal(hir, binders, p[1], q, closed);
    }
  }

  /** An expression that reads a signal, and reaches nothing that changes by
      itself, has a signal in the closure of its references: the verdict and the
      bundle agree. */
  lemma ReadSignalIsInClosure(hir: Hir, binders: Binders, scratch: Binders, e: Expr)
    requires WellFormed(hir) && forall d :: d in ExprRefs(e) ==> d < |hir.defs|
    requires !Mentions(binders, e) && Quiet(hir, scratch, Reach(RefGraph(hir), ToSet(ExprRefs(e))))
    requires ReadsSignal(hir, Facts(binders, Reactive(hir, scratch)), e)
    ensures exists signal :: signal in Reach(RefGraph(hir), ToSet(ExprRefs(e))) && IsReactiveSignal(hir, signal)
  {
    var seeds := ToSet(ExprRefs(e));
    var closed := Reach(RefGraph(hir), seeds);
    RefGraphIsValid(hir);
    ReachIsClosed(RefGraph(hir), seeds);
    ReadsSignalExactly(hir, binders, scratch, e);
    var d :| d in ExprRefs(e) &&
      (IsReactiveSignal(hir, d) || (IsFunction(hir, d) && ReadsTransitively(hir, scratch, Functions(hir), d)));
    assert d in closed;
    if !IsReactiveSignal(hir, d) {
      var p :| Chain(hir, scratch, Functions(hir), d, p);
      var signal := ChainEndsAtSignal(hir, scratch, d, p, closed);
    }
  }

  // ---- the client closure ----

  function EmitGraph(hir: Hir, targets: Targets): (g: Graph)
    ensures |g| == |hir.defs|
  {
    Both(RefGraph(hir), EdgeGraph(hir, targets))
  }

  lemma EmitGraphIsValid(hir: Hir, targets: Targets)
    requires WellFormed(hir) && TargetsInRange(hir, targets)
    ensures Valid(EmitGraph(hir, targets))
  {
    RefGraphIsValid(hir);
    EdgeGraphIsValid(hir, targets);
    BothIsValid(RefGraph(hir), EdgeGraph(hir, targets));
  }

  lemma EmitSuccessors(hir: Hir, targets: Targets, d: DefId)
    requires d < |hir.defs|
    ensures EmitGraph(hir, targets)[d] ==
            ToSet(ReferencesOf(hir.defs[d]) + if d in targets then targets[d] else [])
  {
  }

  /** Whether the client walk starts from this definition besides the nodes. */
  predicate IsSeed(hir: Hir, seedSignals: bool, d: DefId) {
    d < |hir.defs| &&
    match hir.defs[d]
    case Signal(placement, _, _) => seedSignals && placement == Client
    case Function(_) => hir.view.None?
    case Release(_) | View(_) | Record | Choice | Component | Foreign => false
  }

  ghost function Seeds(hir: Hir, roots: seq<Node>, seedSignals: bool): set<DefId> {
    ToSet(NodesRefs(roots)) + SeedsBelow(hir, seedSignals, |hir.defs|)
  }

  ghost function SeedsBelow(hir: Hir, seedSignals: bool, bound: nat): set<DefId> {
    set d: DefId | d < bound && IsSeed(hir, seedSignals, d)
  }

  ghost function ClientClosure(hir: Hir, targets: Targets, roots: seq<Node>, seedSignals: bool): set<DefId> {
    Reach(EmitGraph(hir, targets), Seeds(hir, roots, seedSignals))
  }

  /** A page whose nodes name only what the whole program's closure holds ships
      nothing the whole program does not. */
  lemma PageWithinWhole(hir: Hir, targets: Targets, page: seq<Node>, whole: seq<Node>)
    requires WellFormed(hir) && TargetsInRange(hir, targets) && RootsInRange(hir, whole)
    requires ToSet(NodesRefs(page)) <= ClientClosure(hir, targets, whole, true)
    ensures ClientClosure(hir, targets, page, false) <= ClientClosure(hir, targets, whole, true)
  {
    EmitGraphIsValid(hir, targets);
    var seeds := Seeds(hir, whole, true);
    ReachIsClosed(EmitGraph(hir, targets), seeds);
    ReachMonotone(EmitGraph(hir, targets), Seeds(hir, page, false), seeds);
  }

  // ---- completing a bundle by operator dispatch ----

  /** Everything dispatch and calls reach from `members`' own dispatches without
      going through a member. */
  ghost function Dispatched(hir: Hir, calls: Targets, operators: Targets, members: set<DefId>): set<DefId> {
    Reach(StopAt(Both(EdgeGraph(hir, calls), EdgeGraph(hir, operators)), members), TargetsOf(hir, operators, members))
      - members
  }

  /** The graph with the edges out of `stops` removed. */
  ghost function StopAt(g: Graph, stops: set<DefId>): Graph {
    seq(|g|, i requires 0 <= i < |g| => if i in stops then {} else g[i])
  }

  ghost function TargetsOf(hir: Hir, targets: Targets, members: set<DefId>): set<DefId> {
    set d, e | d in members && d in targets && e in targets[d] && e < |hir.defs| :: e
  }

  lemma BundleSuccessors(hir: Hir, calls: Targets, operators: Targets, d: DefId)
    requires d < |hir.defs|
    ensures Both(EdgeGraph(hir, calls), EdgeGraph(hir, operators))[d] ==
            ToSet((if d in operators then operators[d] else []) + if d in calls then calls[d] else [])
  {
  }

  lemma BundleGraphIsValid(hir: Hir, calls: Targets, operators: Targets)
    requires TargetsInRange(hir, calls) && TargetsInRange(hir, operators)
    ensures Valid(Both(EdgeGraph(hir, calls), EdgeGraph(hir, operators)))
  {
    EdgeGraphIsValid(hir, calls);
    EdgeGraphIsValid(hir, operators);
    BothIsValid(EdgeGraph(hir, calls), EdgeGraph(hir, operators));
  }

  lemma BundleIsReached(hir: Hir, calls: Targets, operators: Targets, members: set<DefId>)
    requires TargetsInRange(hir, calls) && TargetsInRange(hir, operators)
    requires InRange(EdgeGraph(hir, calls), members)
    ensures members + Dispatched(hir, calls, operators, members) <=
            Reach(Both(EdgeGraph(hir, calls), EdgeGraph(hir, operators)), members)
  {
    var g := Both(EdgeGraph(hir, calls), EdgeGraph(hir, operators));
    var h, seeds := StopAt(g, members), TargetsOf(hir, operators, members);
    BundleGraphIsValid(hir, calls, operators);
    ReachIsClosed(g, members);
    forall e | e in seeds ensures e in Reach(g, members) {
      var d :| d in members && d in operators && e in operators[d];
      assert e in g[d];
    }
    assert Closed(h, Reach(g, members));
    ReachIsLeast(h, seeds, Reach(g, members));
  }

  /** When the members are closed under calls, which the split guarantees, the
      completed bundle is exactly the least set around them closed under calls
      and dispatch. */
  lemma BundleIsLeastClosed(hir: Hir, calls: Targets, operators: Targets, members: set<DefId>)
    requires TargetsInRange(hir, calls) && TargetsInRange(hir, operators)
    requires InRange(EdgeGraph(hir, calls), members)
    ensures
      var g := Both(EdgeGraph(hir, calls), EdgeGraph(hir, operators));
      var bundle := members + Dispatched(hir, calls, operators, members);
      Closed(g, bundle) <==> bundle == Reach(g, members)
    ensures Closed(EdgeGraph(hir, calls), members) ==>
      var g := Both(EdgeGraph(hir, calls), EdgeGraph(hir, operators));
      members + Dispatched(hir, calls, operators, members) == Reach(g, members)
  {
    var g := Both(EdgeGraph(hir, calls), EdgeGraph(hir, operators));
    var h := StopAt(g, members);
    var seeds := TargetsOf(hir, operators, members);
    var bundle := members + Dispatched(hir, calls, operators, members);
    BundleGraphIsValid(hir, calls, operators);
    BundleIsReached(hir, calls, operators, members);
    ReachIsClosed(g, members);
    ReachIsClosed(h, seeds);
    if Closed(g, bundle) {
      ReachIsLeast(g, members, bundle);
    }
    if Closed(EdgeGraph(hir, calls), members) {
      forall d, e | d in bundle && d < |g| && e in g[d] ensures e in bundle {
        if d in members {
          if e in EdgeGraph(hir, operators)[d] {
            assert e in seeds;
          } else {
            assert e in EdgeGraph(hir, calls)[d];
          }
        } else {
          assert e in h[d];
        }
      }
      assert Closed(g, bundle);
      ReachIsLeast(g, members, bundle);
    }
  }

  /** Whatever the smaller set of members, a larger one closed under calls completes
      to a larger bundle. */
  lemma BundleIsMonotone(hir: Hir, calls: Targets, operators: Targets, small: set<DefId>, large: set<DefId>)
    requires TargetsInRange(hir, calls) && TargetsInRange(hir, operators)
    requires small <= large && InRange(EdgeGraph(hir, calls), large)
    requires Closed(EdgeGraph(hir, calls), large)
    ensures small + Dispatched(hir, calls, operators, small) <= large + Dispatched(hir, calls, operators, large)
  {
    var g := Both(EdgeGraph(hir, calls), EdgeGraph(hir, operators));
    BundleGraphIsValid(hir, calls, operators);
    BundleIsReached(hir, calls, operators, small);
    BundleIsLeastClosed(hir, calls, operators, large);
    ReachIsClosed(g, large);
    ReachMonotone(g, small, large);
  }

  lemma VisitsStop(h: Graph, seeds: set<DefId>, visited: set<DefId>, frontier: seq<DefId>)
    requires Frontier(h, seeds, visited, frontier) && Valid(h) && frontier != []
    requires frontier[|frontier| - 1] < |h| && h[frontier[|frontier| - 1]] == {}
    ensures Frontier(h, seeds, visited + {frontier[|frontier| - 1]}, frontier[..|frontier| - 1])
  {
    FrontierVisits(h, seeds, visited, frontier, []);
    assert frontier[..|frontier| - 1] + [] == frontier[..|frontier| - 1];
  }

  /** What the walk for a bundle has seen and kept, once it has visited some definitions. */
  ghost predicate Seen(members: set<DefId>, visited: set<DefId>, seen: set<DefId>, extra: set<DefId>) {
    seen == members + visited && extra == visited - members
  }

  lemma SeesMember(members: set<DefId>, visited: set<DefId>, seen: set<DefId>, extra: set<DefId>, d: DefId)
    requires Seen(members, visited, seen, extra) && d in members
    ensures Seen(members, visited + {d}, seen, extra)
  {
  }

  lemma SeesOther(members: set<DefId>, visited: set<DefId>, seen: set<DefId>, extra: set<DefId>, d: DefId)
    requires Seen(members, visited, seen, extra) && d !in members
    ensures Seen(members, visited + {d}, seen + {d}, extra + {d})
  {
  }

  lemma SeedStep(hir: Hir, seedSignals: bool, queue: seq<DefId>, before: set<DefId>, d: DefId)
    requires d < |hir.defs| && ToSet(queue) == before + SeedsBelow(hir, seedSignals, d)
    ensures ToSet(if IsSeed(hir, seedSignals, d) then queue + [d] else queue) ==
            before + SeedsBelow(hir, seedSignals, d + 1)
  {
    assert SeedsBelow(hir, seedSignals, d + 1) ==
           SeedsBelow(hir, seedSignals, d) + if IsSeed(hir, seedSignals, d) then {d} else {};
    assert ToSet(queue + [d]) == ToSet(queue) + {d};
  }

  class Analyzer {
    var binders: Binders
    var reactiveFunctions: set<DefId>
    var clientClosure: set<DefId>
    var operatorTargets: Targets

    /** The scratch analysis: everything empty. */
    constructor (targets: Targets)
      ensures binders == Binders({}, {}) && reactiveFunctions == {} && clientClosure == {}
      ensures operatorTargets == targets
    {
      binders := Binders({}, {});
      reactiveFunctions := {};
      clientClosure := {};
      operatorTargets := targets;
    }

    /** Iterates to quiescence over the definitions in arena order. */
    method SolveReactiveFunctions(hir: Hir)
      requires reactiveFunctions == {}
      modifies this`reactiveFunctions
      ensures reactiveFunctions == Reactive(hir, binders)
    {
      var changed := true;
      while changed
        invariant reactiveFunctions <= Reactive(hir, binders)
        invariant !changed ==> OneRound(hir, binders, reactiveFunctions) <= reactiveFunctions
        decreases Reactive(hir, binders) - reactiveFunctions, changed
      {
        changed := false;
        ghost var entered := reactiveFunctions;
        for f := 0 to |hir.defs|
          invariant reactiveFunctions <= Reactive(hir, binders)
          invariant entered <= reactiveFunctions && (changed <==> entered != reactiveFunctions)
          invariant forall k :: 0 <= k < f && IsFunction(hir, k) && !changed ==>
                      k in reactiveFunctions || !BodyReads(hir, binders, reactiveFunctions, k)
        {
          if hir.defs[f].Function? {
            if f !in reactiveFunctions
               && BlockReadsSignal(hir, Facts(binders, reactiveFunctions), hir.defs[f].body)
            {
              RoundIsSound(hir, binders, reactiveFunctions, f);
              reactiveFunctions := reactiveFunctions + {f};
              changed := true;
            }
          }
        }
      }
      ReactiveIsLeastFixedPoint(hir, binders);
    }

    /** The seeds that are not references of the nodes. */
    method PushSeeds(hir: Hir, seedSignals: bool, before: seq<DefId>) returns (queue: seq<DefId>)
      ensures ToSet(queue) == ToSet(before) + SeedsBelow(hir, seedSignals, |hir.defs|)
    {
      var isModule := hir.view.None?;
      queue := before;
      if seedSignals || isModule {
        for d := 0 to |hir.defs|
          invariant ToSet(queue) == ToSet(before) + SeedsBelow(hir, seedSignals, d)
        {
          SeedStep(hir, seedSignals, queue, ToSet(before), d);
          match hir.defs[d]
          case Signal(placement, _, _) =>
            if seedSignals && placement == Client { queue := queue + [d]; }
          case Function(_) =>
            if isModule { queue := queue + [d]; }
          case Release(_) | View(_) | Record | Choice | Component | Foreign =>
        }
      }
    }

    /** The definitions one document reaches, by a stack of pending references. */
    method WalkClientClosure(hir: Hir, roots: seq<Node>, seedSignals: bool)
      requires WellFormed(hir) && RootsInRange(hir, roots) && TargetsInRange(hir, operatorTargets)
      requires clientClosure == {}
      modifies this`clientClosure
      ensures clientClosure == ClientClosure(hir, operatorTargets, roots, seedSignals)
    {
      var queue := NodeReferences(roots, []);
      queue := PushSeeds(hir, seedSignals, queue);
      ghost var g := EmitGraph(hir, operatorTargets);
      ghost var seeds := Seeds(hir, roots, seedSignals);
      EmitGraphIsValid(hir, operatorTargets);
      assert ToSet(queue) == seeds;
      FrontierStarts(g, seeds, queue);
      while queue != []
        invariant Frontier(g, seeds, clientClosure, queue)
        decreases Reach(g, seeds) - clientClosure, |queue|
      {
        var d := queue[|queue| - 1];
        assert d in Reach(g, seeds);
        if d in clientClosure {
          FrontierSkips(g, seeds, clientClosure, queue);
          queue := queue[..|queue| - 1];
        } else {
          var referenced := References(hir.defs[d], []);
          var pushed := referenced + (if d in operatorTargets then operatorTargets[d] else []);
          EmitSuccessors(hir, operatorTargets, d);
          FrontierVisits(g, seeds, clientClosure, queue, pushed);
          queue := queue[..|queue| - 1] + pushed;
          clientClosure := clientClosure + {d};
        }
      }
      FrontierEnds(g, seeds, clientClosure);
    }

    method PushDispatches(hir: Hir, members: set<DefId>) returns (frontier: seq<DefId>)
      requires TargetsInRange(hir, operatorTargets)
      requires forall m :: m in members ==> m < |hir.defs|
      ensures ToSet(frontier) == TargetsOf(hir, operatorTargets, members)
    {
      frontier := [];
      for d := 0 to |hir.defs|
        invariant ToSet(frontier) == TargetsOf(hir, operatorTargets, set m | m in members && m < d)
      {
        assert (set m | m in members && m < d + 1) == (set m | m in members && m < d) + {d} * members;
        if d in members && d in operatorTargets {
          assert ToSet(frontier + operatorTargets[d]) == ToSet(frontier) + ToSet(operatorTargets[d]);
          frontier := frontier + operatorTargets[d];
        }
      }
      assert members == set m | m in members && m < |hir.defs|;
    }

    /** What a bundle with these members must also carry. `calls` are the call
        sites of each definition, in source order. */
    method OperatorClosure(hir: Hir, calls: Targets, members: set<DefId>) returns (extra: set<DefId>)
      requires TargetsInRange(hir, calls) && TargetsInRange(hir, operatorTargets)
      requires InRange(EdgeGraph(hir, calls), members)
      ensures extra == Dispatched(hir, calls, operatorTargets, members)
    {
      extra := {};
      var frontier := PushDispatches(hir, members);
      var seen := members;
      ghost var g := Both(EdgeGraph(hir, calls), EdgeGraph(hir, operatorTargets));
      ghost var h := StopAt(g, members);
      ghost var seeds := TargetsOf(hir, operatorTargets, members);
      BundleGraphIsValid(hir, calls, operatorTargets);
      FrontierStarts(h, seeds, frontier);
      ghost var visited: set<DefId> := {};
      while frontier != []
        invariant Frontier(h, seeds, visited, frontier)
        invariant Seen(members, visited, seen, extra)
        decreases Reach(h, seeds) - visited, |frontier|
      {
        var d := frontier[|frontier| - 1];
        assert d in Reach(h, seeds);
        if d in seen {
          if d in members {
            VisitsStop(h, seeds, visited, frontier);
            SeesMember(members, visited, seen, extra, d);
            visited := visited + {d};
          } else {
            FrontierSkips(h, seeds, visited, frontier);
          }
          frontier := frontier[..|frontier| - 1];
        } else {
          var pushed :=
            (if d in operatorTargets then operatorTargets[d] else []) + (if d in calls then calls[d] else []);
          BundleSuccessors(hir, calls, operatorTargets, d);
          FrontierVisits(h, seeds, visited, frontier, pushed);
          SeesOther(members, visited, seen, extra, d);
          frontier := frontier[..|frontier| - 1] + pushed;
          seen := seen + {d};
          extra := extra + {d};
          visited := visited + {d};
        }
      }
      FrontierEnds(h, seeds, visited);
    }
  }
}
