/** The whole-program facts, told by paths through the program: what a step is is said of
    the definitions themselves and not of the graphs the worklists run on. */
module Verdicts {
  import opened Wrappers
  import opened Reachability
  import opened Hir
  import opened Reads
  import opened Analysis
  import Parts = Mentions
  import Readings

  // ---- one round of the reactive functions ----

  /** A round marks a function exactly when a statement of its body has an expression with
      a part that changes, given the functions that are marked already. */
  lemma RoundIff(hir: Hir, binders: Binders, functions: set<DefId>, f: DefId)
    ensures f in OneRound(hir, binders, functions) <==>
            && f < |hir.defs| && hir.defs[f].Function?
            && Parts.SomeHolds(
                 hir.defs[f].body, Parts.StmtParts, Readings.StmtChanging(hir, Facts(binders, functions)))
  {
    if f < |hir.defs| && hir.defs[f].Function? {
      Readings.BodyReadsIffChanges(hir, Facts(binders, functions), hir.defs[f].body);
    }
  }

  // ---- the client closure ----

  /** Where the walk starts: at what the nodes mention, at the client signals when they
      are asked for, and at every function of a program without a view. */
  ghost predicate Starts(hir: Hir, roots: seq<Node>, seedSignals: bool, d: DefId)
    requires d < |hir.defs|
  {
    || (exists node :: node in roots && Parts.NodeMentions(node, d))
    || (seedSignals && hir.defs[d].Signal? && hir.defs[d].placement == Client)
    || (hir.view.None? && hir.defs[d].Function?)
  }

  /** From a start on, each definition is used by the one before it, or is what an operator
      of that one dispatches to. */
  ghost predicate ClientPath(hir: Hir, targets: Targets, roots: seq<Node>, seedSignals: bool, p: seq<DefId>)
  {
    && p != [] && (forall i :: 0 <= i < |p| ==> p[i] < |hir.defs|)
    && Starts(hir, roots, seedSignals, p[0])
    && forall i :: 0 <= i < |p| - 1 ==>
         Parts.Uses(hir.defs[p[i]], p[i + 1]) || (p[i] in targets && p[i + 1] in targets[p[i]])
  }

  lemma StartsAreSeeds(hir: Hir, roots: seq<Node>, seedSignals: bool, d: DefId)
    requires d < |hir.defs|
    ensures d in Seeds(hir, roots, seedSignals) <==> Starts(hir, roots, seedSignals, d)
  {
    Parts.ListOfNodesPushes(roots, d);
    forall node | node in roots ensures d in NodeRefs(node) <==> Parts.NodeMentions(node, d) {
      Parts.NodePushedIffNamed(node, d);
    }
  }

  lemma ClientStep(hir: Hir, targets: Targets, d: DefId, e: DefId)
    requires d < |hir.defs|
    ensures e in EmitGraph(hir, targets)[d] <==>
            Parts.Uses(hir.defs[d], e) || (d in targets && e in targets[d])
  {
    EmitSuccessors(hir, targets, d);
    Parts.ReferencedIffUsed(hir.defs[d], e);
  }

  lemma ClientPathIff(hir: Hir, targets: Targets, roots: seq<Node>, seedSignals: bool, p: seq<DefId>)
    requires p != []
    ensures ClientPath(hir, targets, roots, seedSignals, p) <==>
            PathFrom(EmitGraph(hir, targets), Seeds(hir, roots, seedSignals), p, p[|p| - 1])
  {
    if forall i :: 0 <= i < |p| ==> p[i] < |hir.defs| {
      StartsAreSeeds(hir, roots, seedSignals, p[0]);
      forall i | 0 <= i < |p| - 1
        ensures p[i + 1] in EmitGraph(hir, targets)[p[i]] <==>
                Parts.Uses(hir.defs[p[i]], p[i + 1]) || (p[i] in targets && p[i + 1] in targets[p[i]])
      {
        ClientStep(hir, targets, p[i], p[i + 1]);
      }
    }
  }

  /** A document ships exactly what a path leads to from a start. */
  lemma ClientClosureIff(hir: Hir, targets: Targets, roots: seq<Node>, seedSignals: bool, d: DefId)
    ensures d in ClientClosure(hir, targets, roots, seedSignals) <==>
            exists p :: ClientPath(hir, targets, roots, seedSignals, p) && p[|p| - 1] == d
  {
    var g, seeds := EmitGraph(hir, targets), Seeds(hir, roots, seedSignals);
    if d in ClientClosure(hir, targets, roots, seedSignals) {
      var p :| PathFrom(g, seeds, p, d);
      ClientPathIff(hir, targets, roots, seedSignals, p);
    }
    if p :| ClientPath(hir, targets, roots, seedSignals, p) && p[|p| - 1] == d {
      ClientPathIff(hir, targets, roots, seedSignals, p);
      assert PathFrom(g, seeds, p, d);
    }
  }

  /** So a signal that is not a client's, and that neither the nodes nor any definition
      mention and no operator dispatches to, ships with no document. */
  lemma UnusedIsNotShipped(hir: Hir, targets: Targets, roots: seq<Node>, seedSignals: bool, d: DefId)
    requires d < |hir.defs| && hir.defs[d].Signal? && hir.defs[d].placement != Client
    requires forall node :: node in roots ==> !Parts.NodeMentions(node, d)
    requires forall e :: 0 <= e < |hir.defs| ==> !Parts.Uses(hir.defs[e], d)
    requires forall e :: e in targets ==> d !in targets[e]
    ensures d !in ClientClosure(hir, targets, roots, seedSignals)
  {
    forall p | ClientPath(hir, targets, roots, seedSignals, p) ensures p[|p| - 1] != d {
      if |p| > 1 {
        var i := |p| - 2;
        assert !Parts.Uses(hir.defs[p[i]], d);
        assert Parts.Uses(hir.defs[p[i]], p[i + 1]) || (p[i] in targets && p[i + 1] in targets[p[i]]);
      }
    }
    ClientClosureIff(hir, targets, roots, seedSignals, d);
  }

  // ---- the completion of a bundle ----

  /** An operator of `d` dispatches to `e`, or `d` calls it. */
  predicate Dispatches(calls: Targets, operators: Targets, d: DefId, e: DefId) {
    (d in operators && e in operators[d]) || (d in calls && e in calls[d])
  }

  ghost predicate DispatchSteps(hir: Hir, calls: Targets, operators: Targets, members: set<DefId>, p: seq<DefId>) {
    && p != [] && (forall i :: 0 <= i < |p| ==> p[i] < |hir.defs|)
    && forall i :: 0 <= i < |p| - 1 ==> p[i] !in members && Dispatches(calls, operators, p[i], p[i + 1])
  }

  /** From what an operator of a member dispatches to, on through the dispatches and calls
      of what is no member. */
  ghost predicate DispatchPath(hir: Hir, calls: Targets, operators: Targets, members: set<DefId>, p: seq<DefId>) {
    && DispatchSteps(hir, calls, operators, members, p)
    && exists m :: m in members && m in operators && p[0] in operators[m]
  }

  lemma DispatchStarts(hir: Hir, operators: Targets, members: set<DefId>, d: DefId)
    requires d < |hir.defs|
    ensures d in TargetsOf(hir, operators, members) <==>
            exists m :: m in members && m in operators && d in operators[m]
  {
  }

  lemma DispatchStep(hir: Hir, calls: Targets, operators: Targets, members: set<DefId>, d: DefId, e: DefId)
    requires d < |hir.defs|
    ensures e in StopAt(Both(EdgeGraph(hir, calls), EdgeGraph(hir, operators)), members)[d] <==>
            d !in members && Dispatches(calls, operators, d, e)
  {
    BundleSuccessors(hir, calls, operators, d);
  }

  lemma DispatchStepsIff(hir: Hir, calls: Targets, operators: Targets, members: set<DefId>, p: seq<DefId>)
    ensures DispatchSteps(hir, calls, operators, members, p) <==>
            Path(StopAt(Both(EdgeGraph(hir, calls), EdgeGraph(hir, operators)), members), p)
  {
    var h := StopAt(Both(EdgeGraph(hir, calls), EdgeGraph(hir, operators)), members);
    assert |h| == |hir.defs|;
    if DispatchSteps(hir, calls, operators, members, p) {
      forall i | 0 <= i < |p| - 1 ensures p[i + 1] in h[p[i]] {
        DispatchStep(hir, calls, operators, members, p[i], p[i + 1]);
      }
    }
    if Path(h, p) {
      forall i | 0 <= i < |p| - 1 ensures p[i] !in members && Dispatches(calls, operators, p[i], p[i + 1]) {
        assert p[i + 1] in h[p[i]];
        DispatchStep(hir, calls, operators, members, p[i], p[i + 1]);
      }
    }
  }

  lemma DispatchPathIff(hir: Hir, calls: Targets, operators: Targets, members: set<DefId>, p: seq<DefId>)
    requires p != []
    ensures DispatchPath(hir, calls, operators, members, p) <==>
            PathFrom(
              StopAt(Both(EdgeGraph(hir, calls), EdgeGraph(hir, operators)), members),
              TargetsOf(hir, operators, members), p, p[|p| - 1])
  {
    DispatchStepsIff(hir, calls, operators, members, p);
    if p[0] < |hir.defs| {
      DispatchStarts(hir, operators, members, p[0]);
    }
  }

  /** A bundle is completed by exactly what such a path leads to outside it. */
  lemma DispatchedIff(hir: Hir, calls: Targets, operators: Targets, members: set<DefId>, d: DefId)
    ensures d in Dispatched(hir, calls, operators, members) <==>
            d !in members && exists p :: DispatchPath(hir, calls, operators, members, p) && p[|p| - 1] == d
  {
    var h := StopAt(Both(EdgeGraph(hir, calls), EdgeGraph(hir, operators)), members);
    var seeds := TargetsOf(hir, operators, members);
    if d in Reach(h, seeds) {
      var p :| PathFrom(h, seeds, p, d);
      DispatchPathIff(hir, calls, operators, members, p);
    }
    if p :| DispatchPath(hir, calls, operators, members, p) && p[|p| - 1] == d {
      DispatchPathIff(hir, calls, operators, members, p);
      assert PathFrom(h, seeds, p, d);
    }
  }
}
