/** The regions of a document, told by paths through its tree: which `if`s have one, and
    what the rest of the document still names. */
module Regions {
  import opened Wrappers
  import opened Reachability
  import opened Hir
  import opened Deferral
  import Parts = Mentions

  // ---- the outermost ifs ----

  /** The nodes the walk goes on to: the children of an element, the body of a loop, the
      nodes of both kinds of arm, and nothing below an `if`, a scope, a listener or a
      hole. */
  function WalkParts(node: Node): seq<Node> {
    match node
    case ElementNode(element) => element.children
    case EachNode(_, body) => body
    case WhenNode(_, arms) => Parts.ArmNodesOf(arms)
    case IfNode(_, _, _, _) | Scope(_, _) | Handler(_) | Children => []
  }

  predicate IsIf(node: Node, b: Branch) {
    node.IfNode? && node.span == b.span && node.then_ == b.then_
  }

  function IfOf(b: Branch): Node -> bool {
    node => IsIf(node, b)
  }

  lemma {:induction false} CollectJoins(a: seq<Node>, b: seq<Node>)
    ensures CollectViewIfs(a + b) == CollectViewIfs(a) + CollectViewIfs(b)
  {
    if a == [] {
      assert a + b == b;
    } else {
      assert (a + b)[1..] == a[1..] + b;
      CollectJoins(a[1..], b);
    }
  }

  lemma {:induction false} ArmsCollectInOrder(arms: seq<NodeArm>)
    ensures CollectArms(arms) == CollectViewIfs(Parts.ArmNodesOf(arms))
  {
    if arms == [] {
      assert CollectArms(arms) == [] && Parts.ArmNodesOf(arms) == [];
    } else {
      var below := ArmBelow(arms[0]);
      ArmsCollectInOrder(arms[1..]);
      CollectJoins(below, Parts.ArmNodesOf(arms[1..]));
      assert CollectArm(arms[0]) == CollectViewIfs(below);
      assert CollectArms(arms) == CollectArm(arms[0]) + CollectArms(arms[1..]);
      FirstArm(arms[0], arms[1..]);
      HeadBack(arms);
    }
  }

  /** What is found below a node is what is found in the nodes the walk goes on to, in
      their order. */
  lemma CollectsInOrder(node: Node)
    ensures CollectNode(node) ==
            if node.IfNode? then [Branch(node.span, node.then_)] else CollectViewIfs(WalkParts(node))
  {
    match node
    case WhenNode(_, arms) => ArmsCollectInOrder(arms);
    case _ =>
  }

  lemma WalkPartIsSmaller(node: Node, part: Node)
    requires part in WalkParts(node)
    ensures part < node
  {
    match node
    case WhenNode(_, arms) => Parts.ArmNodeIsSmaller(arms, part);
    case _ =>
  }

  lemma {:induction false} SomeCollects(nodes: seq<Node>, b: Branch)
    ensures b in CollectViewIfs(nodes) <==> exists node :: node in nodes && b in CollectNode(node)
  {
    if nodes == [] {
      assert CollectViewIfs(nodes) == [];
    } else {
      SomeCollects(nodes[1..], b);
      assert nodes[0] in nodes && forall node :: node in nodes[1..] ==> node in nodes;
      assert forall node :: node in nodes ==> node == nodes[0] || node in nodes[1..];
      assert CollectViewIfs(nodes) == CollectNode(nodes[0]) + CollectViewIfs(nodes[1..]);
    }
  }

  lemma {:induction false} CollectedIffPath(node: Node, b: Branch)
    ensures b in CollectNode(node) <==> Parts.Holds(node, WalkParts, IfOf(b))
    decreases node
  {
    CollectsInOrder(node);
    Parts.HoldsIff(node, WalkParts, IfOf(b));
    SomeCollects(WalkParts(node), b);
    forall part | part in WalkParts(node)
      ensures b in CollectNode(part) <==> Parts.Holds(part, WalkParts, IfOf(b))
    {
      WalkPartIsSmaller(node, part);
      CollectedIffPath(part, b);
    }
  }

  /** A branch is found exactly when a path from a root leads to an `if` with its span and
      its taken nodes. */
  lemma FoundIffPath(roots: seq<Node>, b: Branch)
    ensures b in CollectViewIfs(roots) <==> Parts.SomeHolds(roots, WalkParts, IfOf(b))
  {
    SomeCollects(roots, b);
    forall node | node in roots ensures b in CollectNode(node) <==> Parts.Holds(node, WalkParts, IfOf(b)) {
      CollectedIffPath(node, b);
    }
  }

  /** Every such `if` has a region, that of its span, and every region is that of one. */
  lemma RegionsAreTheIfs(roots: seq<Node>, b: Branch)
    ensures Parts.SomeHolds(roots, WalkParts, IfOf(b)) ==> exists c :: c in Branches(roots) && c.span == b.span
    ensures b in Branches(roots) ==> Parts.SomeHolds(roots, WalkParts, IfOf(b))
  {
    FoundIffPath(roots, b);
    BranchesAreFirstPerSpan(roots);
    FirstIsMember(CollectViewIfs(roots), b.span);
    if b in CollectViewIfs(roots) {
      FirstIsThere(CollectViewIfs(roots), b);
      var c := First(CollectViewIfs(roots), b.span).value;
      assert c in Branches(roots);
    }
  }

  lemma {:induction false} FirstIsThere(bs: seq<Branch>, b: Branch)
    requires b in bs
    ensures First(bs, b.span).Some? && First(bs, b.span).value.span == b.span
  {
    if bs[0].span != b.span {
      FirstIsThere(bs[1..], b);
    }
  }

  /** The regions are listed by where their `if` starts, and then by where it ends. */
  lemma RegionsAscend(roots: seq<Node>, i: nat, j: nat)
    requires i < j < |Branches(roots)|
    ensures
      var a, b := Branches(roots)[i].span, Branches(roots)[j].span;
      a.start < b.start || (a.start == b.start && a.end < b.end)
  {
    BranchesAreFirstPerSpan(roots);
  }

  // ---- what is left when one span's branches are emptied ----

  /** The nodes the emptying goes on to: as the walk, and both branches of an `if` with
      another span. */
  function KeptParts(node: Node, span: Span): seq<Node> {
    match node
    case ElementNode(element) => element.children
    case EachNode(_, body) => body
    case WhenNode(_, arms) => Parts.ArmNodesOf(arms)
    case IfNode(s, _, then_, otherwise) => if s == span then [] else then_ + Parts.ElseNodesOf(otherwise)
    case Scope(_, _) | Handler(_) | Children => []
  }

  /** What a node names where it stands: a scope everything in it, an `if` with the span
      everything but its taken branch. */
  ghost predicate KeptNames(node: Node, span: Span, d: DefId) {
    if node.Scope? then Parts.NodeMentions(node, d)
    else
      || Parts.NodeNames(node, d)
      || (node.IfNode? && node.span == span
          && exists other :: other in Parts.ElseNodesOf(node.otherwise) && Parts.NodeMentions(other, d))
  }

  ghost function Keeping(span: Span, d: DefId): Node -> bool {
    node => KeptNames(node, span, d)
  }

  function GoingOn(span: Span): Node -> seq<Node> {
    node => KeptParts(node, span)
  }

  lemma {:induction false} WithoutJoins(a: seq<Node>, b: seq<Node>, span: Span)
    ensures WithoutBranch(a + b, span) == WithoutBranch(a, span) + WithoutBranch(b, span)
  {
    if a == [] {
      assert a + b == b;
    } else {
      assert (a + b)[1..] == a[1..] + b;
      WithoutJoins(a[1..], b, span);
    }
  }

  lemma {:induction false} ArmsKeepNodes(arms: seq<NodeArm>, span: Span)
    ensures Parts.ArmNodesOf(WithoutArms(arms, span)) == WithoutBranch(Parts.ArmNodesOf(arms), span)
    ensures Parts.ArmArgs(WithoutArms(arms, span)) == Parts.ArmArgs(arms)
  {
    if arms == [] {
      assert WithoutArms(arms, span) == [] && Parts.ArmNodesOf(arms) == [] && Parts.ArmArgs(arms) == [];
    } else {
      ArmsKeepNodes(arms[1..], span);
      assert WithoutArms(arms, span) == [WithoutArm(arms[0], span)] + WithoutArms(arms[1..], span);
      FirstArm(WithoutArm(arms[0], span), WithoutArms(arms[1..], span));
      FirstArm(arms[0], arms[1..]);
      HeadBack(arms);
      EmptiedArm(arms[0], span);
      WithoutJoins(ArmBelow(arms[0]), Parts.ArmNodesOf(arms[1..]), span);
    }
  }

  function ArmBelow(arm: NodeArm): seq<Node> {
    match arm
    case ShowElement(element) => element.children
    case ArmNodes(nodes) => nodes
  }

  function ArgsOf(arm: NodeArm): seq<Expr> {
    match arm
    case ShowElement(element) => element.args
    case ArmNodes(_) => []
  }

  lemma FirstArm(arm: NodeArm, arms: seq<NodeArm>)
    ensures Parts.ArmNodesOf([arm] + arms) == ArmBelow(arm) + Parts.ArmNodesOf(arms)
    ensures Parts.ArmArgs([arm] + arms) == ArgsOf(arm) + Parts.ArmArgs(arms)
  {
    assert ([arm] + arms)[1..] == arms;
  }

  lemma EmptiedArm(arm: NodeArm, span: Span)
    ensures ArmBelow(WithoutArm(arm, span)) == WithoutBranch(ArmBelow(arm), span)
    ensures ArgsOf(WithoutArm(arm, span)) == ArgsOf(arm)
  {
    match arm
    case ShowElement(element) =>
      assert WithoutElement(element, span) == Element(element.args, WithoutBranch(element.children, span));
    case ArmNodes(nodes) =>
  }

  /** An emptied node keeps its expressions, and its parts are emptied in place. */
  lemma EmptiedParts(node: Node, span: Span)
    requires !node.Scope?
    ensures Parts.NodeExprs(WithoutNode(node, span)) == Parts.NodeExprs(node)
    ensures Parts.NodeParts(WithoutNode(node, span)) ==
            if node.IfNode? && node.span == span then Parts.ElseNodesOf(node.otherwise)
            else WithoutBranch(KeptParts(node, span), span)
    ensures node.Handler? ==> WithoutNode(node, span) == node
  {
    match node
    case WhenNode(_, arms) => ArmsKeepNodes(arms, span);
    case IfNode(s, _, then_, otherwise) =>
      if s == span {
        assert [] + Parts.ElseNodesOf(otherwise) == Parts.ElseNodesOf(otherwise);
      } else {
        WithoutJoins(then_, Parts.ElseNodesOf(otherwise), span);
      }
    case _ =>
  }

  lemma {:induction false} EmptiedPushes(nodes: seq<Node>, span: Span, d: DefId)
    ensures Parts.Pushing(WithoutBranch(nodes, span), NodeRefs, d) <==>
            exists node :: node in nodes && d in NodeRefs(WithoutNode(node, span))
  {
    if nodes == [] {
      assert WithoutBranch(nodes, span) == [];
    } else {
      EmptiedPushes(nodes[1..], span, d);
      assert nodes[0] in nodes && forall node :: node in nodes[1..] ==> node in nodes;
      assert forall node :: node in nodes ==> node == nodes[0] || node in nodes[1..];
      assert WithoutBranch(nodes, span) == [WithoutNode(nodes[0], span)] + WithoutBranch(nodes[1..], span);
      Parts.SomeOf([WithoutNode(nodes[0], span)], WithoutBranch(nodes[1..], span), NodeRefs, d);
      Parts.SomeOfOne(WithoutNode(nodes[0], span), NodeRefs, d);
    }
  }

  lemma NodesMention(nodes: seq<Node>, d: DefId)
    ensures Parts.Pushing(nodes, NodeRefs, d) <==> exists node :: node in nodes && Parts.NodeMentions(node, d)
  {
    forall node | node in nodes ensures d in NodeRefs(node) <==> Parts.NodeMentions(node, d) {
      Parts.NodePushedIffNamed(node, d);
    }
  }

  lemma NamesAre(node: Node, d: DefId)
    ensures Parts.NodeNames(node, d) <==>
            (node.Handler? && d in BlockRefs(node.listener)) || Parts.Pushing(Parts.NodeExprs(node), ExprRefs, d)
  {
    Parts.ExprsMention(Parts.NodeExprs(node), d);
    if node.Handler? {
      Parts.BlockPushedIffNamed(node.listener, d);
    }
  }

  lemma KeptOneLevel(node: Node, span: Span, d: DefId)
    ensures d in NodeRefs(WithoutNode(node, span)) <==>
            || KeptNames(node, span, d)
            || exists part :: part in KeptParts(node, span) && d in NodeRefs(WithoutNode(part, span))
  {
    if node.Scope? {
      Parts.NodePushedIffNamed(node, d);
    } else {
      EmptiedParts(node, span);
      Parts.NodePushes(WithoutNode(node, span), d);
      NamesAre(node, d);
      EmptiedPushes(KeptParts(node, span), span, d);
      if node.IfNode? && node.span == span {
        NodesMention(Parts.ElseNodesOf(node.otherwise), d);
      }
    }
  }

  lemma KeptPartIsSmaller(node: Node, span: Span, part: Node)
    requires part in KeptParts(node, span)
    ensures part < node
  {
    match node
    case WhenNode(_, arms) => Parts.ArmNodeIsSmaller(arms, part);
    case _ =>
  }

  lemma {:induction false} KeptIffPath(node: Node, span: Span, d: DefId)
    ensures d in NodeRefs(WithoutNode(node, span)) <==> Parts.Holds(node, GoingOn(span), Keeping(span, d))
    decreases node
  {
    KeptOneLevel(node, span, d);
    Parts.HoldsIff(node, GoingOn(span), Keeping(span, d));
    forall part | part in KeptParts(node, span)
      ensures d in NodeRefs(WithoutNode(part, span)) <==> Parts.Holds(part, GoingOn(span), Keeping(span, d))
    {
      KeptPartIsSmaller(node, span, part);
      KeptIffPath(part, span, d);
    }
  }

  /** With a span's branches emptied a document names exactly what it names outside them. */
  lemma LeftIffOutside(roots: seq<Node>, span: Span, d: DefId)
    ensures d in NodesRefs(WithoutBranch(roots, span)) <==>
            Parts.SomeHolds(roots, GoingOn(span), Keeping(span, d))
  {
    Parts.ListOfNodesPushes(WithoutBranch(roots, span), d);
    EmptiedPushes(roots, span, d);
    forall node | node in roots
      ensures d in NodeRefs(WithoutNode(node, span)) <==> Parts.Holds(node, GoingOn(span), Keeping(span, d))
    {
      KeptIffPath(node, span, d);
    }
  }

  // ---- a region ----

  /** Each definition is used by the one before it. */
  ghost predicate UsePath(hir: Hir, p: seq<DefId>) {
    && p != [] && (forall i :: 0 <= i < |p| ==> p[i] < |hir.defs|)
    && forall i :: 0 <= i < |p| - 1 ==> Parts.Uses(hir.defs[p[i]], p[i + 1])
  }

  lemma UsePathIff(hir: Hir, p: seq<DefId>)
    ensures UsePath(hir, p) <==> Path(RefGraph(hir), p)
  {
    var g := RefGraph(hir);
    if UsePath(hir, p) {
      forall i | 0 <= i < |p| - 1 ensures p[i + 1] in g[p[i]] {
        Parts.ReferencedIffUsed(hir.defs[p[i]], p[i + 1]);
      }
    }
    if Path(g, p) {
      forall i | 0 <= i < |p| - 1 ensures Parts.Uses(hir.defs[p[i]], p[i + 1]) {
        assert p[i + 1] in g[p[i]];
        Parts.ReferencedIffUsed(hir.defs[p[i]], p[i + 1]);
      }
    }
  }

  lemma ClosureIff(hir: Hir, nodes: seq<Node>, d: DefId)
    ensures d in ClosureOf(hir, nodes) <==>
            exists p :: UsePath(hir, p) && p[0] in NodesRefs(nodes) && p[|p| - 1] == d
  {
    var g, seeds := RefGraph(hir), ToSet(NodesRefs(nodes));
    if d in ClosureOf(hir, nodes) {
      var p :| PathFrom(g, seeds, p, d);
      UsePathIff(hir, p);
    }
    if p :| UsePath(hir, p) && p[0] in NodesRefs(nodes) && p[|p| - 1] == d {
      UsePathIff(hir, p);
      assert PathFrom(g, seeds, p, d);
    }
  }

  /** Something in the taken branch leads to the definition. */
  ghost predicate ReachedFromBranch(hir: Hir, b: Branch, d: DefId) {
    exists p, node ::
      UsePath(hir, p) && p[|p| - 1] == d && node in b.then_ && Parts.NodeMentions(node, p[0])
  }

  /** Something the document names outside the branches of the span leads to it. */
  ghost predicate ReachedFromOutside(hir: Hir, roots: seq<Node>, span: Span, d: DefId) {
    exists p ::
      UsePath(hir, p) && p[|p| - 1] == d && Parts.SomeHolds(roots, GoingOn(span), Keeping(span, p[0]))
  }

  /** A region reaches what its taken branch leads to, and deferring it moves what nothing
      outside leads to. */
  lemma RegionMeans(hir: Hir, roots: seq<Node>, b: Branch, d: DefId)
    ensures d in RegionOf(hir, roots, b).reached <==> ReachedFromBranch(hir, b, d)
    ensures d in RegionOf(hir, roots, b).exclusive <==>
            ReachedFromBranch(hir, b, d) && !ReachedFromOutside(hir, roots, b.span, d)
  {
    ClosureIff(hir, b.then_, d);
    ClosureIff(hir, WithoutBranch(roots, b.span), d);
    forall e ensures e in NodesRefs(b.then_) <==> exists node :: node in b.then_ && Parts.NodeMentions(node, e) {
      Parts.ListOfNodesPushes(b.then_, e);
      NodesMention(b.then_, e);
    }
    forall e ensures e in NodesRefs(WithoutBranch(roots, b.span)) <==>
                     Parts.SomeHolds(roots, GoingOn(b.span), Keeping(b.span, e)) {
      LeftIffOutside(roots, b.span, e);
    }
  }
}
