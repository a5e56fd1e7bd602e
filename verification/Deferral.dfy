/** What can be moved behind an `if` of the view: the definitions its taken
    branch reaches and the rest of the document does not. */
module Deferral {
  import opened Wrappers
  import opened Reachability
  import opened Hir
  import opened Walkers

  datatype Branch = Branch(span: Span, then_: seq<Node>)

  datatype Region = Region(span: Span, reached: set<DefId>, exclusive: set<DefId>)

  // ---- the outermost ifs ----

  function CollectNode(node: Node): seq<Branch>
    decreases node
  {
    match node
    case IfNode(span, _, then_, _) => [Branch(span, then_)]
    case ElementNode(element) => CollectElement(element)
    case EachNode(_, body) => CollectViewIfs(body)
    case WhenNode(_, arms) => CollectArms(arms)
    case Handler(_) | Children | Scope(_, _) => []
  }

  function CollectElement(element: Element): seq<Branch>
    decreases element
  {
    CollectViewIfs(element.children)
  }

  function CollectArm(arm: NodeArm): seq<Branch>
    decreases arm
  {
    match arm
    case ArmNodes(nodes) => CollectViewIfs(nodes)
    case ShowElement(element) => CollectElement(element)
  }

  function CollectArms(arms: seq<NodeArm>): seq<Branch>
    decreases arms
  {
    if arms == [] then [] else CollectArm(arms[0]) + CollectArms(arms[1..])
  }

  function CollectViewIfs(nodes: seq<Node>): seq<Branch>
    decreases nodes
  {
    if nodes == [] then [] else CollectNode(nodes[0]) + CollectViewIfs(nodes[1..])
  }

  // ---- the tree with one if's taken branch emptied ----

  function WithoutNode(node: Node, span: Span): Node
    decreases node
  {
    match node
    case IfNode(s, cond, then_, otherwise) =>
      if s == span then IfNode(s, cond, [], otherwise)
      else IfNode(s, cond, WithoutBranch(then_, span), WithoutElse(otherwise, span))
    case ElementNode(element) => ElementNode(WithoutElement(element, span))
    case EachNode(iter, body) => EachNode(iter, WithoutBranch(body, span))
    case WhenNode(scrutinee, arms) => WhenNode(scrutinee, WithoutArms(arms, span))
    case Handler(_) | Children | Scope(_, _) => node
  }

  function WithoutElement(element: Element, span: Span): Element
    decreases element
  {
    Element(element.args, WithoutBranch(element.children, span))
  }

  function WithoutElse(otherwise: NodeOtherwise, span: Span): NodeOtherwise
    decreases otherwise
  {
    match otherwise
    case NoNodes => NoNodes
    case ElseNodes(nodes) => ElseNodes(WithoutBranch(nodes, span))
  }

  function WithoutArm(arm: NodeArm, span: Span): NodeArm
    decreases arm
  {
    match arm
    case ArmNodes(nodes) => ArmNodes(WithoutBranch(nodes, span))
    case ShowElement(element) => ShowElement(WithoutElement(element, span))
  }

  function WithoutArms(arms: seq<NodeArm>, span: Span): seq<NodeArm>
    decreases arms
  {
    if arms == [] then [] else [WithoutArm(arms[0], span)] + WithoutArms(arms[1..], span)
  }

  function WithoutBranch(nodes: seq<Node>, span: Span): seq<Node>
    decreases nodes
  {
    if nodes == [] then [] else [WithoutNode(nodes[0], span)] + WithoutBranch(nodes[1..], span)
  }

  // ---- which branches that clears ----

  function ClearedNode(node: Node, span: Span): seq<seq<Node>>
    decreases node
  {
    match node
    case IfNode(s, _, then_, otherwise) =>
      if s == span then [then_] else Cleared(then_, span) + ClearedElse(otherwise, span)
    case ElementNode(element) => ClearedElement(element, span)
    case EachNode(_, body) => Cleared(body, span)
    case WhenNode(_, arms) => ClearedArms(arms, span)
    case Handler(_) | Children | Scope(_, _) => []
  }

  function ClearedElement(element: Element, span: Span): seq<seq<Node>>
    decreases element
  {
    Cleared(element.children, span)
  }

  function ClearedElse(otherwise: NodeOtherwise, span: Span): seq<seq<Node>>
    decreases otherwise
  {
    match otherwise
    case NoNodes => []
    case ElseNodes(nodes) => Cleared(nodes, span)
  }

  function ClearedArm(arm: NodeArm, span: Span): seq<seq<Node>>
    decreases arm
  {
    match arm
    case ArmNodes(nodes) => Cleared(nodes, span)
    case ShowElement(element) => ClearedElement(element, span)
  }

  function ClearedArms(arms: seq<NodeArm>, span: Span): seq<seq<Node>>
    decreases arms
  {
    if arms == [] then [] else ClearedArm(arms[0], span) + ClearedArms(arms[1..], span)
  }

  /** The taken branches of every `if` with this span that the emptying reaches. */
  function Cleared(nodes: seq<Node>, span: Span): seq<seq<Node>>
    decreases nodes
  {
    if nodes == [] then [] else ClearedNode(nodes[0], span) + Cleared(nodes[1..], span)
  }

  function AllRefs(branches: seq<seq<Node>>): set<DefId> {
    if branches == [] then {} else ToSet(NodesRefs(branches[0])) + AllRefs(branches[1..])
  }

  lemma {:induction false} AllRefsConcat(a: seq<seq<Node>>, b: seq<seq<Node>>)
    ensures AllRefs(a + b) == AllRefs(a) + AllRefs(b)
  {
    if a == [] {
      assert a + b == b;
    } else {
      assert (a + b)[1..] == a[1..] + b;
      AllRefsConcat(a[1..], b);
    }
  }

  lemma ToSetConcat(a: seq<DefId>, b: seq<DefId>)
    ensures ToSet(a + b) == ToSet(a) + ToSet(b)
  {
  }

  // ---- emptying a branch loses exactly the references of what it clears ----

  ghost predicate Splits(whole: seq<DefId>, kept: seq<DefId>, cleared: seq<seq<Node>>) {
    ToSet(whole) == ToSet(kept) + AllRefs(cleared)
  }

  lemma SplitsConcat(w0: seq<DefId>, k0: seq<DefId>, c0: seq<seq<Node>>,
                     w1: seq<DefId>, k1: seq<DefId>, c1: seq<seq<Node>>)
    requires Splits(w0, k0, c0) && Splits(w1, k1, c1)
    ensures Splits(w0 + w1, k0 + k1, c0 + c1)
  {
    ToSetConcat(w0, w1);
    ToSetConcat(k0, k1);
    AllRefsConcat(c0, c1);
  }

  lemma SplitsPrefix(p: seq<DefId>, w: seq<DefId>, k: seq<DefId>, c: seq<seq<Node>>)
    requires Splits(w, k, c)
    ensures Splits(p + w, p + k, c)
  {
    ToSetConcat(p, w);
    ToSetConcat(p, k);
  }

  lemma {:induction false} NodeSplits(node: Node, span: Span)
    ensures Splits(NodeRefs(node), NodeRefs(WithoutNode(node, span)), ClearedNode(node, span))
    decreases node
  {
    match node
    case IfNode(s, cond, then_, otherwise) =>
      if s == span {
        assert AllRefs([then_]) == ToSet(NodesRefs(then_));
      } else {
        BranchSplits(then_, span);
        ElseSplits(otherwise, span);
        SplitsPrefix(ExprRefs(cond), NodesRefs(then_), NodesRefs(WithoutBranch(then_, span)), Cleared(then_, span));
        SplitsConcat(
          ExprRefs(cond) + NodesRefs(then_), ExprRefs(cond) + NodesRefs(WithoutBranch(then_, span)),
          Cleared(then_, span), NodeElseRefs(otherwise), NodeElseRefs(WithoutElse(otherwise, span)),
          ClearedElse(otherwise, span));
      }
    case ElementNode(element) => ElementSplits(element, span);
    case EachNode(iter, body) =>
      BranchSplits(body, span);
      SplitsPrefix(ExprRefs(iter), NodesRefs(body), NodesRefs(WithoutBranch(body, span)), Cleared(body, span));
    case WhenNode(scrutinee, arms) =>
      ArmsSplit(arms, span);
      SplitsPrefix(
        ExprRefs(scrutinee), NodeArmsRefs(arms), NodeArmsRefs(WithoutArms(arms, span)), ClearedArms(arms, span));
    case Handler(_) | Children | Scope(_, _) =>
  }

  lemma {:induction false} ElementSplits(element: Element, span: Span)
    ensures Splits(ElementRefs(element), ElementRefs(WithoutElement(element, span)), ClearedElement(element, span))
    decreases element
  {
    BranchSplits(element.children, span);
    SplitsPrefix(
      ExprsRefs(element.args), NodesRefs(element.children), NodesRefs(WithoutBranch(element.children, span)),
      Cleared(element.children, span));
  }

  lemma {:induction false} ElseSplits(otherwise: NodeOtherwise, span: Span)
    ensures Splits(NodeElseRefs(otherwise), NodeElseRefs(WithoutElse(otherwise, span)), ClearedElse(otherwise, span))
    decreases otherwise
  {
    match otherwise
    case NoNodes =>
    case ElseNodes(nodes) => BranchSplits(nodes, span);
  }

  lemma {:induction false} ArmSplits(arm: NodeArm, span: Span)
    ensures Splits(NodeArmRefs(arm), NodeArmRefs(WithoutArm(arm, span)), ClearedArm(arm, span))
    decreases arm
  {
    match arm
    case ArmNodes(nodes) => BranchSplits(nodes, span);
    case ShowElement(element) => ElementSplits(element, span);
  }

  lemma {:induction false} ArmsSplit(arms: seq<NodeArm>, span: Span)
    ensures Splits(NodeArmsRefs(arms), NodeArmsRefs(WithoutArms(arms, span)), ClearedArms(arms, span))
    decreases arms
  {
    if arms != [] {
      ArmSplits(arms[0], span);
      ArmsSplit(arms[1..], span);
      SplitsConcat(
        NodeArmRefs(arms[0]), NodeArmRefs(WithoutArm(arms[0], span)), ClearedArm(arms[0], span),
        NodeArmsRefs(arms[1..]), NodeArmsRefs(WithoutArms(arms[1..], span)), ClearedArms(arms[1..], span));
    }
  }

  /** What a document names is what its emptied form names together with what the
      cleared branches name. */
  lemma {:induction false} BranchSplits(nodes: seq<Node>, span: Span)
    ensures Splits(NodesRefs(nodes), NodesRefs(WithoutBranch(nodes, span)), Cleared(nodes, span))
    decreases nodes
  {
    if nodes != [] {
      NodeSplits(nodes[0], span);
      BranchSplits(nodes[1..], span);
      SplitsConcat(
        NodeRefs(nodes[0]), NodeRefs(WithoutNode(nodes[0], span)), ClearedNode(nodes[0], span),
        NodesRefs(nodes[1..]), NodesRefs(WithoutBranch(nodes[1..], span)), Cleared(nodes[1..], span));
    }
  }

  // ---- a collected branch is one of those its span clears, and survives the others ----

  lemma {:induction false} CollectedIsClearedNode(node: Node, b: Branch)
    requires b in CollectNode(node)
    ensures b.then_ in ClearedNode(node, b.span)
    decreases node
  {
    match node
    case IfNode(_, _, _, _) =>
    case ElementNode(element) => CollectedIsCleared(element.children, b);
    case EachNode(_, body) => CollectedIsCleared(body, b);
    case WhenNode(_, arms) => CollectedIsClearedArms(arms, b);
  }

  lemma {:induction false} CollectedIsClearedArms(arms: seq<NodeArm>, b: Branch)
    requires b in CollectArms(arms)
    ensures b.then_ in ClearedArms(arms, b.span)
    decreases arms
  {
    if b in CollectArm(arms[0]) {
      CollectedIsClearedArm(arms[0], b);
    } else {
      CollectedIsClearedArms(arms[1..], b);
    }
  }

  lemma {:induction false} CollectedIsClearedArm(arm: NodeArm, b: Branch)
    requires b in CollectArm(arm)
    ensures b.then_ in ClearedArm(arm, b.span)
    decreases arm
  {
    match arm
    case ArmNodes(nodes) => CollectedIsCleared(nodes, b);
    case ShowElement(element) => CollectedIsClearedElement(element, b);
  }

  lemma {:induction false} CollectedIsClearedElement(element: Element, b: Branch)
    requires b in CollectElement(element)
    ensures b.then_ in ClearedElement(element, b.span)
    decreases element
  {
    CollectedIsCleared(element.children, b);
  }

  lemma {:induction false} CollectedIsCleared(nodes: seq<Node>, b: Branch)
    requires b in CollectViewIfs(nodes)
    ensures b.then_ in Cleared(nodes, b.span)
    decreases nodes
  {
    if b in CollectNode(nodes[0]) {
      CollectedIsClearedNode(nodes[0], b);
    } else {
      CollectedIsCleared(nodes[1..], b);
    }
  }

  /** What a collected branch keeps when another span's branches are emptied in it, the
      document keeps when they are emptied everywhere. */
  lemma {:induction false} CollectedSurvivesNode(node: Node, b: Branch, other: Span)
    requires b in CollectNode(node) && b.span != other
    ensures ToSet(NodesRefs(WithoutBranch(b.then_, other))) <= ToSet(NodeRefs(WithoutNode(node, other)))
    decreases node
  {
    match node
    case IfNode(_, _, _, _) =>
    case ElementNode(element) => CollectedSurvivesElement(element, b, other);
    case EachNode(_, body) => CollectedSurvives(body, b, other);
    case WhenNode(_, arms) => CollectedSurvivesArms(arms, b, other);
  }

  lemma {:induction false} CollectedSurvivesElement(element: Element, b: Branch, other: Span)
    requires b in CollectElement(element) && b.span != other
    ensures ToSet(NodesRefs(WithoutBranch(b.then_, other))) <= ToSet(ElementRefs(WithoutElement(element, other)))
    decreases element
  {
    CollectedSurvives(element.children, b, other);
  }

  lemma {:induction false} CollectedSurvivesArm(arm: NodeArm, b: Branch, other: Span)
    requires b in CollectArm(arm) && b.span != other
    ensures ToSet(NodesRefs(WithoutBranch(b.then_, other))) <= ToSet(NodeArmRefs(WithoutArm(arm, other)))
    decreases arm
  {
    match arm
    case ArmNodes(nodes) => CollectedSurvives(nodes, b, other);
    case ShowElement(element) => CollectedSurvivesElement(element, b, other);
  }

  lemma {:induction false} CollectedSurvivesArms(arms: seq<NodeArm>, b: Branch, other: Span)
    requires b in CollectArms(arms) && b.span != other
    ensures ToSet(NodesRefs(WithoutBranch(b.then_, other))) <= ToSet(NodeArmsRefs(WithoutArms(arms, other)))
    decreases arms
  {
    if b in CollectArm(arms[0]) {
      CollectedSurvivesArm(arms[0], b, other);
    } else {
      CollectedSurvivesArms(arms[1..], b, other);
    }
  }

  lemma {:induction false} CollectedSurvives(nodes: seq<Node>, b: Branch, other: Span)
    requires b in CollectViewIfs(nodes) && b.span != other
    ensures ToSet(NodesRefs(WithoutBranch(b.then_, other))) <= ToSet(NodesRefs(WithoutBranch(nodes, other)))
    decreases nodes
  {
    if b in CollectNode(nodes[0]) {
      CollectedSurvivesNode(nodes[0], b, other);
    } else {
      CollectedSurvives(nodes[1..], b, other);
    }
  }

  // ---- how often a span occurs, counted from the collected branches ----

  /** The occurrences of a span that the collected branches are or hold. */
  function Tally(bs: seq<Branch>, other: Span): nat {
    if bs == [] then 0
    else (if bs[0].span == other then 1 else |Cleared(bs[0].then_, other)|) + Tally(bs[1..], other)
  }

  lemma {:induction false} TallyConcat(a: seq<Branch>, b: seq<Branch>, other: Span)
    ensures Tally(a + b, other) == Tally(a, other) + Tally(b, other)
  {
    if a == [] {
      assert a + b == b;
    } else {
      assert (a + b)[1..] == a[1..] + b;
      TallyConcat(a[1..], b, other);
    }
  }

  lemma {:induction false} NodeHasTally(node: Node, other: Span)
    ensures Tally(CollectNode(node), other) <= |ClearedNode(node, other)|
    decreases node
  {
    match node
    case IfNode(span, _, then_, _) => assert [Branch(span, then_)][1..] == [];
    case ElementNode(element) => ElementHasTally(element, other);
    case EachNode(_, body) => DocumentHasTally(body, other);
    case WhenNode(_, arms) => ArmsHaveTally(arms, other);
    case Handler(_) | Children | Scope(_, _) =>
  }

  lemma {:induction false} ElementHasTally(element: Element, other: Span)
    ensures Tally(CollectElement(element), other) <= |ClearedElement(element, other)|
    decreases element
  {
    DocumentHasTally(element.children, other);
  }

  lemma {:induction false} ArmHasTally(arm: NodeArm, other: Span)
    ensures Tally(CollectArm(arm), other) <= |ClearedArm(arm, other)|
    decreases arm
  {
    match arm
    case ArmNodes(nodes) => DocumentHasTally(nodes, other);
    case ShowElement(element) => ElementHasTally(element, other);
  }

  lemma {:induction false} ArmsHaveTally(arms: seq<NodeArm>, other: Span)
    ensures Tally(CollectArms(arms), other) <= |ClearedArms(arms, other)|
    decreases arms
  {
    if arms != [] {
      ArmHasTally(arms[0], other);
      ArmsHaveTally(arms[1..], other);
      TallyConcat(CollectArm(arms[0]), CollectArms(arms[1..]), other);
    }
  }

  lemma {:induction false} DocumentHasTally(nodes: seq<Node>, other: Span)
    ensures Tally(CollectViewIfs(nodes), other) <= |Cleared(nodes, other)|
    decreases nodes
  {
    if nodes != [] {
      NodeHasTally(nodes[0], other);
      DocumentHasTally(nodes[1..], other);
      TallyConcat(CollectNode(nodes[0]), CollectViewIfs(nodes[1..]), other);
    }
  }

  lemma {:induction false} TallyOfOne(bs: seq<Branch>, a: Branch, other: Span)
    requires a in bs
    ensures Tally(bs, other) >= if a.span == other then 1 else |Cleared(a.then_, other)|
  {
    if a != bs[0] {
      TallyOfOne(bs[1..], a, other);
    }
  }

  lemma {:induction false} TallyOfTwo(bs: seq<Branch>, a: Branch, b: Branch)
    requires a in bs && b in bs && a.span != b.span
    ensures Tally(bs, b.span) >= 1 + |Cleared(a.then_, b.span)|
  {
    if a == bs[0] {
      assert b in bs[1..];
      TallyOfOne(bs[1..], b, b.span);
    } else if b == bs[0] {
      TallyOfOne(bs[1..], a, b.span);
    } else {
      TallyOfTwo(bs[1..], a, b);
    }
  }

  // ---- one region per span ----

  predicate Before(a: Span, b: Span) {
    a.start < b.start || (a.start == b.start && a.end < b.end)
  }

  /** The stable sort by span. */
  function Place(b: Branch, sorted: seq<Branch>): seq<Branch> {
    if sorted == [] || !Before(sorted[0].span, b.span) then [b] + sorted
    else [sorted[0]] + Place(b, sorted[1..])
  }

  function SortBySpan(bs: seq<Branch>): seq<Branch> {
    if bs == [] then [] else Place(bs[0], SortBySpan(bs[1..]))
  }

  function DedupBySpan(bs: seq<Branch>): seq<Branch>
    decreases |bs|
  {
    if |bs| < 2 then bs
    else if bs[0].span == bs[1].span then DedupBySpan([bs[0]] + bs[2..])
    else [bs[0]] + DedupBySpan(bs[1..])
  }

  function Branches(roots: seq<Node>): seq<Branch> {
    DedupBySpan(SortBySpan(CollectViewIfs(roots)))
  }

  predicate Ascending(bs: seq<Branch>, strictly: bool) {
    forall i, j :: 0 <= i < j < |bs| ==>
      if strictly then Before(bs[i].span, bs[j].span) else !Before(bs[j].span, bs[i].span)
  }

  /** The first branch with this span, in the order the walk finds them. */
  function First(bs: seq<Branch>, span: Span): Option<Branch> {
    if bs == [] then None
    else if bs[0].span == span then Some(bs[0])
    else First(bs[1..], span)
  }

  lemma {:induction false} PlaceKeeps(b: Branch, sorted: seq<Branch>, span: Span)
    requires Ascending(sorted, false)
    ensures Ascending(Place(b, sorted), false)
    ensures First(Place(b, sorted), span) == First([b] + sorted, span)
    ensures forall x :: x in Place(b, sorted) <==> x == b || x in sorted
  {
    assert ([b] + sorted)[1..] == sorted;
    if sorted != [] && Before(sorted[0].span, b.span) {
      PlaceKeeps(b, sorted[1..], span);
      var rest := Place(b, sorted[1..]);
      assert ([sorted[0]] + rest)[1..] == rest;
      assert ([b] + sorted[1..])[1..] == sorted[1..];
    }
  }

  lemma {:induction false} SortKeeps(bs: seq<Branch>, span: Span)
    ensures Ascending(SortBySpan(bs), false)
    ensures First(SortBySpan(bs), span) == First(bs, span)
  {
    if bs != [] {
      SortKeeps(bs[1..], span);
      PlaceKeeps(bs[0], SortBySpan(bs[1..]), span);
      var sorted := SortBySpan(bs[1..]);
      assert ([bs[0]] + sorted)[1..] == sorted;
    }
  }

  lemma {:induction false} DedupKeeps(bs: seq<Branch>, span: Span)
    requires Ascending(bs, false)
    ensures Ascending(DedupBySpan(bs), true)
    ensures First(DedupBySpan(bs), span) == First(bs, span)
    ensures forall x :: x in DedupBySpan(bs) ==> x in bs
    ensures bs != [] ==> DedupBySpan(bs) != [] && DedupBySpan(bs)[0] == bs[0]
    decreases |bs|
  {
    if |bs| >= 2 {
      if bs[0].span == bs[1].span {
        var shorter := [bs[0]] + bs[2..];
        assert shorter[1..] == bs[2..] && bs[1..][1..] == bs[2..];
        DedupKeeps(shorter, span);
      } else {
        DedupKeeps(bs[1..], span);
        var rest := DedupBySpan(bs[1..]);
        assert ([bs[0]] + rest)[1..] == rest;
      }
    }
  }

  lemma {:induction false} FirstOfAscending(bs: seq<Branch>, i: nat)
    requires i < |bs| && Ascending(bs, true)
    ensures First(bs, bs[i].span) == Some(bs[i])
  {
    if i > 0 {
      FirstOfAscending(bs[1..], i - 1);
    }
  }

  lemma {:induction false} FirstIsMember(bs: seq<Branch>, span: Span)
    ensures match First(bs, span)
            case Some(b) => b in bs && b.span == span
            case None => forall b :: b in bs ==> b.span != span
  {
    if bs != [] && bs[0].span != span {
      FirstIsMember(bs[1..], span);
    }
  }

  /** There is one branch for each span the walk finds, in span order, and it is
      the first the walk found. */
  lemma BranchesAreFirstPerSpan(roots: seq<Node>)
    ensures Ascending(Branches(roots), true)
    ensures forall b :: b in Branches(roots) <==> First(CollectViewIfs(roots), b.span) == Some(b)
  {
    var found := CollectViewIfs(roots);
    var sorted := SortBySpan(found);
    forall b ensures b in Branches(roots) <==> First(found, b.span) == Some(b) {
      SortKeeps(found, b.span);
      DedupKeeps(sorted, b.span);
      FirstIsMember(Branches(roots), b.span);
      if b in Branches(roots) {
        var i :| 0 <= i < |Branches(roots)| && Branches(roots)[i] == b;
        FirstOfAscending(Branches(roots), i);
      }
    }
    SortKeeps(found, Span(0, 0));
    DedupKeeps(sorted, Span(0, 0));
  }

  // ---- the regions ----

  ghost function ClosureOf(hir: Hir, nodes: seq<Node>): set<DefId> {
    Reach(RefGraph(hir), ToSet(NodesRefs(nodes)))
  }

  ghost function Eager(hir: Hir, roots: seq<Node>, span: Span): set<DefId> {
    ClosureOf(hir, WithoutBranch(roots, span))
  }

  ghost function RegionOf(hir: Hir, roots: seq<Node>, b: Branch): Region {
    Region(b.span, ClosureOf(hir, b.then_), ClosureOf(hir, b.then_) - Eager(hir, roots, b.span))
  }

  lemma {:induction false} AllRefsMember(branches: seq<seq<Node>>, nodes: seq<Node>)
    requires nodes in branches
    ensures ToSet(NodesRefs(nodes)) <= AllRefs(branches)
  {
    if nodes != branches[0] {
      AllRefsMember(branches[1..], nodes);
    }
  }

  lemma {:induction false} AllRefsBound(branches: seq<seq<Node>>, s: set<DefId>)
    requires forall nodes :: nodes in branches ==> ToSet(NodesRefs(nodes)) <= s
    ensures AllRefs(branches) <= s
  {
    if branches != [] {
      AllRefsBound(branches[1..], s);
    }
  }

  lemma PartsInRange(hir: Hir, roots: seq<Node>, span: Span)
    requires RootsInRange(hir, roots)
    ensures RootsInRange(hir, WithoutBranch(roots, span))
    ensures forall d :: d in AllRefs(Cleared(roots, span)) ==> d < |hir.defs|
  {
    BranchSplits(roots, span);
    forall d | d in NodesRefs(WithoutBranch(roots, span)) ensures d < |hir.defs| {
      assert d in ToSet(NodesRefs(roots));
    }
    forall d | d in AllRefs(Cleared(roots, span)) ensures d < |hir.defs| {
      assert d in ToSet(NodesRefs(roots));
    }
  }

  /** The whole document is its eager part and everything the cleared branches
      reach, with no condition at all. */
  lemma DocumentIsEagerPlusCleared(hir: Hir, roots: seq<Node>, span: Span)
    requires WellFormed(hir) && RootsInRange(hir, roots)
    ensures ClosureOf(hir, roots) ==
            Eager(hir, roots, span) + Reach(RefGraph(hir), AllRefs(Cleared(roots, span)))
  {
    RefGraphIsValid(hir);
    BranchSplits(roots, span);
    PartsInRange(hir, roots, span);
    ReachUnion(RefGraph(hir), ToSet(NodesRefs(WithoutBranch(roots, span))), AllRefs(Cleared(roots, span)));
  }

  /** Deferring one region loses nothing exactly when every other occurrence of
      its span stays within what is eager or deferred with it. */
  lemma NothingLostIff(hir: Hir, roots: seq<Node>, b: Branch)
    requires WellFormed(hir) && RootsInRange(hir, roots) && b in Branches(roots)
    ensures
      var region := RegionOf(hir, roots, b);
      ClosureOf(hir, roots) == Eager(hir, roots, b.span) + region.reached <==>
      forall other :: other in Cleared(roots, b.span) ==>
        ToSet(NodesRefs(other)) <= Eager(hir, roots, b.span) + region.reached
  {
    var g := RefGraph(hir);
    var cleared := Cleared(roots, b.span);
    var kept := Eager(hir, roots, b.span) + ClosureOf(hir, b.then_);
    RefGraphIsValid(hir);
    PartsInRange(hir, roots, b.span);
    DocumentIsEagerPlusCleared(hir, roots, b.span);
    BranchesAreFirstPerSpan(roots);
    FirstIsMember(CollectViewIfs(roots), b.span);
    CollectedIsCleared(roots, b);
    AllRefsMember(cleared, b.then_);
    ReachIsClosed(g, AllRefs(cleared));
    ReachIsClosed(g, ToSet(NodesRefs(WithoutBranch(roots, b.span))));
    ReachIsClosed(g, ToSet(NodesRefs(b.then_)));
    ReachMonotone(g, ToSet(NodesRefs(b.then_)), AllRefs(cleared));
    if forall other :: other in cleared ==> ToSet(NodesRefs(other)) <= kept {
      AllRefsBound(cleared, kept);
      ReachIsLeast(g, AllRefs(cleared), kept);
    }
    if ClosureOf(hir, roots) == kept {
      forall other | other in cleared ensures ToSet(NodesRefs(other)) <= kept {
        AllRefsMember(cleared, other);
      }
    }
  }

  /** In particular when the `if` occurs once. */
  lemma NothingLostWhenSpanIsUnique(hir: Hir, roots: seq<Node>, b: Branch)
    requires WellFormed(hir) && RootsInRange(hir, roots) && b in Branches(roots)
    requires |Cleared(roots, b.span)| == 1
    ensures ClosureOf(hir, roots) == Eager(hir, roots, b.span) + RegionOf(hir, roots, b).reached
  {
    BranchesAreFirstPerSpan(roots);
    FirstIsMember(CollectViewIfs(roots), b.span);
    CollectedIsCleared(roots, b);
    NothingLostIff(hir, roots, b);
    RefGraphIsValid(hir);
    PartsInRange(hir, roots, b.span);
    AllRefsMember(Cleared(roots, b.span), b.then_);
    ReachIsClosed(RefGraph(hir), ToSet(NodesRefs(b.then_)));
  }

  const TWO_RECORDS := Hir([Record, Record], None)
  const AT := Span(0, 1)
  const NAMES_FIRST := [ElementNode(Element([Ref(Def(0))], []))]
  const NAMES_SECOND := [ElementNode(Element([Ref(Def(1))], []))]
  const SAME_SPAN_TWICE := [IfNode(AT, Truth, NAMES_FIRST, NoNodes), IfNode(AT, Truth, NAMES_SECOND, NoNodes)]

  /** Two occurrences of one span whose branches differ: the second branch's
      definition is in neither the eager part nor the region. */
  lemma RepeatedSpanLosesADefinition()
    ensures WellFormed(TWO_RECORDS) && RootsInRange(TWO_RECORDS, SAME_SPAN_TWICE)
    ensures Branch(AT, NAMES_FIRST) in Branches(SAME_SPAN_TWICE)
    ensures ClosureOf(TWO_RECORDS, SAME_SPAN_TWICE) !=
            Eager(TWO_RECORDS, SAME_SPAN_TWICE, AT)
            + RegionOf(TWO_RECORDS, SAME_SPAN_TWICE, Branch(AT, NAMES_FIRST)).reached
  {
    var hir, roots, b := TWO_RECORDS, SAME_SPAN_TWICE, Branch(AT, NAMES_FIRST);
    SameSpanTwiceComputes();
    BranchesAreFirstPerSpan(roots);
    assert b in Branches(roots);
    NothingLostIff(hir, roots, b);
    ReachIsLeast(RefGraph(hir), {}, {});
    ReachIsLeast(RefGraph(hir), {0}, {0});
    assert 1 in ToSet(NodesRefs(NAMES_SECOND));
  }

  lemma SameSpanTwiceComputes()
    ensures NodesRefs(NAMES_SECOND) == [1] && ToSet(NodesRefs(NAMES_FIRST)) == {0}
    ensures RootsInRange(TWO_RECORDS, SAME_SPAN_TWICE)
    ensures CollectViewIfs(SAME_SPAN_TWICE) == [Branch(AT, NAMES_FIRST), Branch(AT, NAMES_SECOND)]
    ensures NAMES_SECOND in Cleared(SAME_SPAN_TWICE, AT)
    ensures NodesRefs(WithoutBranch(SAME_SPAN_TWICE, AT)) == []
  {
    var second := IfNode(AT, Truth, NAMES_SECOND, NoNodes);
    var emptied := IfNode(AT, Truth, [], NoNodes);
    assert SAME_SPAN_TWICE[1..] == [second];
    assert CollectViewIfs([second]) == [Branch(AT, NAMES_SECOND)];
    assert NodeRefs(second) == [1];
    assert NodesRefs([second]) == [1];
    assert NodeRefs(SAME_SPAN_TWICE[0]) == [0];
    assert Cleared([second], AT) == [NAMES_SECOND];
    assert WithoutBranch([second], AT) == [emptied];
    assert [emptied, emptied][1..] == [emptied];
    assert WithoutBranch(SAME_SPAN_TWICE, AT) == [emptied, emptied];
    assert NodeRefs(emptied) == [];
    assert NodesRefs([emptied]) == [];
  }

  /** Nothing eager depends on what was deferred. */
  lemma ExclusiveIsUnreferenced(hir: Hir, roots: seq<Node>, b: Branch)
    requires WellFormed(hir) && RootsInRange(hir, roots) && b in Branches(roots)
    ensures
      var region := RegionOf(hir, roots, b);
      && region.exclusive !! Eager(hir, roots, b.span)
      && (forall d, e :: d in Eager(hir, roots, b.span) && e in ReferencesOf(hir.defs[d]) ==> e !in region.exclusive)
      && (forall d :: d in NodesRefs(WithoutBranch(roots, b.span)) ==> d !in region.exclusive)
  {
    var eager := Eager(hir, roots, b.span);
    RefGraphIsValid(hir);
    PartsInRange(hir, roots, b.span);
    ReachIsClosed(RefGraph(hir), ToSet(NodesRefs(WithoutBranch(roots, b.span))));
    forall d, e | d in eager && e in ReferencesOf(hir.defs[d]) ensures e in eager {
      assert e in RefGraph(hir)[d];
    }
  }

  /** What the branch of `a` reaches from the branches of `b`'s span inside it. */
  ghost function Crossing(hir: Hir, a: Branch, b: Branch): set<DefId> {
    Reach(RefGraph(hir), AllRefs(Cleared(a.then_, b.span)))
  }

  /** Two regions move no definition twice exactly when whatever each reaches through the
      other's span inside its branch is eager with one of the two spans emptied. */
  lemma ExclusivesAreDisjointIff(hir: Hir, roots: seq<Node>, a: Branch, b: Branch)
    requires WellFormed(hir) && RootsInRange(hir, roots)
    requires a in Branches(roots) && b in Branches(roots) && a.span != b.span
    ensures RegionOf(hir, roots, a).exclusive !! RegionOf(hir, roots, b).exclusive
            <==> Crossing(hir, a, b) * Crossing(hir, b, a) <= Eager(hir, roots, a.span) + Eager(hir, roots, b.span)
  {
    ReachedIsEagerOrCrossing(hir, roots, a, b);
    ReachedIsEagerOrCrossing(hir, roots, b, a);
    DisjointIff(
      ClosureOf(hir, a.then_), Eager(hir, roots, a.span), Crossing(hir, a, b),
      ClosureOf(hir, b.then_), Eager(hir, roots, b.span), Crossing(hir, b, a));
  }

  lemma DisjointIff(reachedA: set<DefId>, eagerA: set<DefId>, crossA: set<DefId>,
                    reachedB: set<DefId>, eagerB: set<DefId>, crossB: set<DefId>)
    requires crossA <= reachedA <= eagerB + crossA && crossB <= reachedB <= eagerA + crossB
    ensures reachedA - eagerA !! reachedB - eagerB <==> crossA * crossB <= eagerA + eagerB
  {
    if reachedA - eagerA !! reachedB - eagerB {
      forall d | d in crossA * crossB ensures d in eagerA + eagerB {
        assert !(d in reachedA - eagerA && d in reachedB - eagerB);
      }
    }
    if crossA * crossB <= eagerA + eagerB {
      forall d | d in reachedA - eagerA ensures d !in reachedB - eagerB {
        assert d in eagerB + crossA;
        assert d in crossA && d in crossB ==> d in eagerA + eagerB;
      }
    }
  }

  /** Two regions move no definition twice, unless each of the two branches holds
      an `if` with the other's span. */
  lemma ExclusivesAreDisjoint(hir: Hir, roots: seq<Node>, a: Branch, b: Branch)
    requires WellFormed(hir) && RootsInRange(hir, roots)
    requires a in Branches(roots) && b in Branches(roots) && a.span != b.span
    requires Cleared(a.then_, b.span) == [] || Cleared(b.then_, a.span) == []
    ensures RegionOf(hir, roots, a).exclusive !! RegionOf(hir, roots, b).exclusive
  {
    RefGraphIsValid(hir);
    ReachIsLeast(RefGraph(hir), {}, {});
    ExclusivesAreDisjointIff(hir, roots, a, b);
  }

  /** A span that occurs once is in no other region's branch, so when one of two spans
      does, the two regions move no definition twice. */
  lemma UniqueSpansAreDisjoint(hir: Hir, roots: seq<Node>, a: Branch, b: Branch)
    requires WellFormed(hir) && RootsInRange(hir, roots)
    requires a in Branches(roots) && b in Branches(roots) && a.span != b.span
    requires |Cleared(roots, a.span)| == 1 || |Cleared(roots, b.span)| == 1
    ensures RegionOf(hir, roots, a).exclusive !! RegionOf(hir, roots, b).exclusive
  {
    BranchesAreFirstPerSpan(roots);
    FirstIsMember(CollectViewIfs(roots), a.span);
    FirstIsMember(CollectViewIfs(roots), b.span);
    DocumentHasTally(roots, a.span);
    DocumentHasTally(roots, b.span);
    TallyOfTwo(CollectViewIfs(roots), a, b);
    TallyOfTwo(CollectViewIfs(roots), b, a);
    ExclusivesAreDisjoint(hir, roots, a, b);
  }

  function Guarded(span: Span, then_: seq<Node>): Node {
    IfNode(span, Truth, then_, NoNodes)
  }

  lemma GuardedAlone(span: Span, then_: seq<Node>, at: Span)
    ensures NodesRefs([Guarded(span, then_)]) == NodesRefs(then_)
    ensures CollectViewIfs([Guarded(span, then_)]) == [Branch(span, then_)]
    ensures WithoutBranch([Guarded(span, then_)], at) ==
            [Guarded(span, if span == at then [] else WithoutBranch(then_, at))]
  {
    var guarded := Guarded(span, then_);
    var emptied := Guarded(span, if span == at then [] else WithoutBranch(then_, at));
    assert [guarded][1..] == [];
    assert NodeRefs(guarded) == NodesRefs(then_);
    assert WithoutNode(guarded, at) == emptied;
    assert WithoutBranch([guarded], at) == [emptied] + WithoutBranch([], at);
  }

  lemma GuardedPair(a: Branch, b: Branch, at: Span)
    ensures
      var pair := [Guarded(a.span, a.then_), Guarded(b.span, b.then_)];
      && NodesRefs(pair) == NodesRefs(a.then_) + NodesRefs(b.then_)
      && CollectViewIfs(pair) == [a, b]
      && WithoutBranch(pair, at) ==
         [ Guarded(a.span, if a.span == at then [] else WithoutBranch(a.then_, at)),
           Guarded(b.span, if b.span == at then [] else WithoutBranch(b.then_, at)) ]
  {
    var first, second := Guarded(a.span, a.then_), Guarded(b.span, b.then_);
    GuardedAlone(b.span, b.then_, at);
    assert [first, second][1..] == [second];
    assert NodeRefs(first) == NodesRefs(a.then_);
    assert WithoutNode(first, at) ==
           Guarded(a.span, if a.span == at then [] else WithoutBranch(a.then_, at));
    assert WithoutBranch([first, second], at) == [WithoutNode(first, at)] + WithoutBranch([second], at);
  }

  const OTHER := Span(2, 3)
  const OVER_OTHER := Branch(AT, [Guarded(OTHER, NAMES_FIRST)])
  const OVER_AT := Branch(OTHER, [Guarded(AT, NAMES_FIRST)])
  const CROSSED := [Guarded(AT, OVER_OTHER.then_), Guarded(OTHER, OVER_AT.then_)]

  /** Each of two spans inside the other's branch, as a component given another's
      `children` both ways round makes: both regions move the one definition. */
  lemma CrossedRegionsShare()
    ensures WellFormed(TWO_RECORDS) && RootsInRange(TWO_RECORDS, CROSSED)
    ensures OVER_OTHER in Branches(CROSSED) && OVER_AT in Branches(CROSSED)
    ensures 0 in RegionOf(TWO_RECORDS, CROSSED, OVER_OTHER).exclusive
    ensures 0 in RegionOf(TWO_RECORDS, CROSSED, OVER_AT).exclusive
  {
    CrossedComputes(CROSSED, OVER_OTHER, OVER_AT);
    BothMoveIt(TWO_RECORDS, CROSSED, OVER_OTHER, OVER_AT, 0);
  }

  lemma BothMoveIt(hir: Hir, roots: seq<Node>, a: Branch, b: Branch, d: DefId)
    requires WellFormed(hir) && RootsInRange(hir, roots) && d < |hir.defs|
    requires CollectViewIfs(roots) == [a, b] && a.span != b.span
    requires NodesRefs(WithoutBranch(roots, a.span)) == [] == NodesRefs(WithoutBranch(roots, b.span))
    requires ToSet(NodesRefs(a.then_)) == {d} == ToSet(NodesRefs(b.then_))
    ensures a in Branches(roots) && b in Branches(roots)
    ensures d in RegionOf(hir, roots, a).exclusive && d in RegionOf(hir, roots, b).exclusive
  {
    BranchesOfTwo(roots, a, b);
    AllIsExclusive(hir, roots, a, d);
    AllIsExclusive(hir, roots, b, d);
  }

  lemma BranchesOfTwo(roots: seq<Node>, a: Branch, b: Branch)
    requires CollectViewIfs(roots) == [a, b] && a.span != b.span
    ensures a in Branches(roots) && b in Branches(roots)
  {
    BranchesAreFirstPerSpan(roots);
    assert [a, b][1..] == [b];
    assert First([b], b.span) == Some(b);
  }

  lemma AllIsExclusive(hir: Hir, roots: seq<Node>, b: Branch, d: DefId)
    requires WellFormed(hir) && RootsInRange(hir, roots) && b in Branches(roots)
    requires NodesRefs(WithoutBranch(roots, b.span)) == [] && d < |hir.defs|
    requires ToSet(NodesRefs(b.then_)) == {d}
    ensures d in RegionOf(hir, roots, b).exclusive
  {
    RefGraphIsValid(hir);
    ReachIsLeast(RefGraph(hir), {}, {});
    ReachIsClosed(RefGraph(hir), ToSet(NodesRefs(b.then_)));
  }

  lemma CrossedComputes(crossed: seq<Node>, a: Branch, b: Branch)
    requires a == OVER_OTHER && b == OVER_AT && crossed == CROSSED
    ensures CollectViewIfs(crossed) == [a, b]
    ensures RootsInRange(TWO_RECORDS, crossed)
    ensures ToSet(NodesRefs(a.then_)) == {0} == ToSet(NodesRefs(b.then_))
    ensures NodesRefs(WithoutBranch(crossed, AT)) == [] == NodesRefs(WithoutBranch(crossed, OTHER))
  {
    var names := NAMES_FIRST;
    NamesFirst();
    GuardedAlone(OTHER, names, AT);
    GuardedAlone(AT, names, OTHER);
    GuardedAlone(OTHER, names, OTHER);
    GuardedAlone(AT, names, AT);
    GuardedPair(a, b, AT);
    GuardedPair(a, b, OTHER);
    EmptiedCross(AT, OTHER);
    EmptiedCross(OTHER, AT);
    assert NodesRefs(crossed) == [0, 0];
  }

  lemma NamesFirst()
    ensures NodesRefs(NAMES_FIRST) == [0]
  {
  }

  lemma EmptiedCross(outer: Span, inner: Span)
    ensures NodesRefs([Guarded(outer, []), Guarded(inner, [Guarded(outer, [])])]) == []
    ensures NodesRefs([Guarded(inner, [Guarded(outer, [])]), Guarded(outer, [])]) == []
  {
    GuardedAlone(outer, [], outer);
    GuardedPair(Branch(outer, []), Branch(inner, [Guarded(outer, [])]), outer);
    GuardedPair(Branch(inner, [Guarded(outer, [])]), Branch(outer, []), outer);
  }

  // ---- scopes ----

  /** The scopes that are in no taken branch, at whatever depth of elements, loops, arms
      and `else` branches they stand. */
  function ScopesOfNode(node: Node): seq<Node>
    decreases node
  {
    match node
    case Scope(_, _) => [node]
    case ElementNode(element) => ScopesOfElement(element)
    case EachNode(_, body) => ScopesOf(body)
    case WhenNode(_, arms) => ScopesOfArms(arms)
    case IfNode(_, _, _, otherwise) => ScopesOfElse(otherwise)
    case Handler(_) | Children => []
  }

  function ScopesOfElement(element: Element): seq<Node>
    decreases element
  {
    ScopesOf(element.children)
  }

  function ScopesOfElse(otherwise: NodeOtherwise): seq<Node>
    decreases otherwise
  {
    match otherwise
    case NoNodes => []
    case ElseNodes(nodes) => ScopesOf(nodes)
  }

  function ScopesOfArm(arm: NodeArm): seq<Node>
    decreases arm
  {
    match arm
    case ArmNodes(nodes) => ScopesOf(nodes)
    case ShowElement(element) => ScopesOfElement(element)
  }

  function ScopesOfArms(arms: seq<NodeArm>): seq<Node>
    decreases arms
  {
    if arms == [] then [] else ScopesOfArm(arms[0]) + ScopesOfArms(arms[1..])
  }

  function ScopesOf(nodes: seq<Node>): seq<Node>
    decreases nodes
  {
    if nodes == [] then [] else ScopesOfNode(nodes[0]) + ScopesOf(nodes[1..])
  }

  lemma {:induction false} ScopeSurvivesNode(node: Node, scope: Node, span: Span)
    requires scope in ScopesOfNode(node)
    ensures ToSet(NodeRefs(scope)) <= ToSet(NodeRefs(WithoutNode(node, span)))
    decreases node
  {
    match node
    case Scope(_, _) =>
    case ElementNode(element) => ScopeSurvivesElement(element, scope, span);
    case EachNode(_, body) => ScopeSurvives(body, scope, span);
    case WhenNode(_, arms) => ScopeSurvivesArms(arms, scope, span);
    case IfNode(_, _, _, ElseNodes(nodes)) =>
      ScopeSurvives(nodes, scope, span);
      BranchSplits(nodes, span);
  }

  lemma {:induction false} ScopeSurvivesElement(element: Element, scope: Node, span: Span)
    requires scope in ScopesOfElement(element)
    ensures ToSet(NodeRefs(scope)) <= ToSet(ElementRefs(WithoutElement(element, span)))
    decreases element
  {
    ScopeSurvives(element.children, scope, span);
  }

  lemma {:induction false} ScopeSurvivesArm(arm: NodeArm, scope: Node, span: Span)
    requires scope in ScopesOfArm(arm)
    ensures ToSet(NodeRefs(scope)) <= ToSet(NodeArmRefs(WithoutArm(arm, span)))
    decreases arm
  {
    match arm
    case ArmNodes(nodes) => ScopeSurvives(nodes, scope, span);
    case ShowElement(element) => ScopeSurvivesElement(element, scope, span);
  }

  lemma {:induction false} ScopeSurvivesArms(arms: seq<NodeArm>, scope: Node, span: Span)
    requires scope in ScopesOfArms(arms)
    ensures ToSet(NodeRefs(scope)) <= ToSet(NodeArmsRefs(WithoutArms(arms, span)))
    decreases arms
  {
    if scope in ScopesOfArm(arms[0]) {
      ScopeSurvivesArm(arms[0], scope, span);
    } else {
      ScopeSurvivesArms(arms[1..], scope, span);
    }
  }

  lemma {:induction false} ScopeSurvives(nodes: seq<Node>, scope: Node, span: Span)
    requires scope in ScopesOf(nodes)
    ensures ToSet(NodeRefs(scope)) <= ToSet(NodesRefs(WithoutBranch(nodes, span)))
    decreases nodes
  {
    if scope in ScopesOfNode(nodes[0]) {
      ScopeSurvivesNode(nodes[0], scope, span);
    } else {
      ScopeSurvives(nodes[1..], scope, span);
    }
  }

  /** What a scope names, behind an `if` or not, is in no region's exclusive set, unless
      the scope is itself in a taken branch. */
  lemma ScopeIsEager(hir: Hir, roots: seq<Node>, scope: Node, b: Branch)
    requires WellFormed(hir) && RootsInRange(hir, roots)
    requires scope in ScopesOf(roots)
    ensures ToSet(NodeRefs(scope)) !! RegionOf(hir, roots, b).exclusive
  {
    RefGraphIsValid(hir);
    PartsInRange(hir, roots, b.span);
    ScopeSurvives(roots, scope, b.span);
    ReachIsClosed(RefGraph(hir), ToSet(NodesRefs(WithoutBranch(roots, b.span))));
  }

  // ---- the walk does not look inside a scope ----

  /** The document with the body of every scope the walk meets taken out. */
  function BareNode(node: Node): Node
    decreases node
  {
    match node
    case Scope(inits, _) => Scope(inits, [])
    case ElementNode(element) => ElementNode(BareElement(element))
    case EachNode(iter, body) => EachNode(iter, Bare(body))
    case WhenNode(scrutinee, arms) => WhenNode(scrutinee, BareArms(arms))
    case IfNode(_, _, _, _) | Handler(_) | Children => node
  }

  function BareElement(element: Element): Element
    decreases element
  {
    Element(element.args, Bare(element.children))
  }

  function BareArm(arm: NodeArm): NodeArm
    decreases arm
  {
    match arm
    case ArmNodes(nodes) => ArmNodes(Bare(nodes))
    case ShowElement(element) => ShowElement(BareElement(element))
  }

  function BareArms(arms: seq<NodeArm>): seq<NodeArm>
    decreases arms
  {
    if arms == [] then [] else [BareArm(arms[0])] + BareArms(arms[1..])
  }

  function Bare(nodes: seq<Node>): seq<Node>
    decreases nodes
  {
    if nodes == [] then [] else [BareNode(nodes[0])] + Bare(nodes[1..])
  }

  lemma {:induction false} BareNodeCollects(node: Node)
    ensures CollectNode(BareNode(node)) == CollectNode(node)
    decreases node
  {
    match node
    case ElementNode(element) => BareElementCollects(element);
    case EachNode(_, body) => BareCollects(body);
    case WhenNode(_, arms) => BareArmsCollect(arms);
    case Scope(_, _) | IfNode(_, _, _, _) | Handler(_) | Children =>
  }

  lemma {:induction false} BareElementCollects(element: Element)
    ensures CollectElement(BareElement(element)) == CollectElement(element)
    decreases element
  {
    BareCollects(element.children);
  }

  lemma {:induction false} BareArmCollects(arm: NodeArm)
    ensures CollectArm(BareArm(arm)) == CollectArm(arm)
    decreases arm
  {
    match arm
    case ArmNodes(nodes) => BareCollects(nodes);
    case ShowElement(element) => BareElementCollects(element);
  }

  lemma {:induction false} BareArmsCollect(arms: seq<NodeArm>)
    ensures CollectArms(BareArms(arms)) == CollectArms(arms)
    decreases arms
  {
    if arms != [] {
      BareArmCollects(arms[0]);
      BareArmsCollect(arms[1..]);
      assert BareArms(arms)[1..] == BareArms(arms[1..]);
    }
  }

  lemma {:induction false} BareCollects(nodes: seq<Node>)
    ensures CollectViewIfs(Bare(nodes)) == CollectViewIfs(nodes)
    decreases nodes
  {
    if nodes != [] {
      BareNodeCollects(nodes[0]);
      BareCollects(nodes[1..]);
      assert Bare(nodes)[1..] == Bare(nodes[1..]);
    }
  }

  /** The bodies of the scopes the walk meets, at any depth, add no region. */
  lemma ScopeIsInNoRegion(roots: seq<Node>)
    ensures Branches(Bare(roots)) == Branches(roots)
  {
    BareCollects(roots);
  }

  /** A scope in a taken branch goes where the branch goes. */
  lemma ScopeBehindIfIsMoved(b: Branch)
    requires b == Branch(AT, [Scope([], NAMES_FIRST)])
    ensures WellFormed(TWO_RECORDS) && RootsInRange(TWO_RECORDS, [Guarded(AT, b.then_)])
    ensures b in Branches([Guarded(AT, b.then_)])
    ensures 0 in RegionOf(TWO_RECORDS, [Guarded(AT, b.then_)], b).exclusive
  {
    var roots := [Guarded(AT, b.then_)];
    ScopeNamesFirst(b.then_);
    GuardedAlone(AT, b.then_, AT);
    GuardedAlone(AT, [], AT);
    BranchOfOne(roots, b);
    AllIsExclusive(TWO_RECORDS, roots, b, 0);
  }

  lemma ScopeNamesFirst(nodes: seq<Node>)
    requires nodes == [Scope([], NAMES_FIRST)]
    ensures NodesRefs(nodes) == [0] && ToSet(NodesRefs(nodes)) == {0}
  {
    NamesFirst();
    assert NodeRefs(nodes[0]) == [0];
    assert nodes[1..] == [];
  }

  lemma BranchOfOne(roots: seq<Node>, b: Branch)
    requires CollectViewIfs(roots) == [b]
    ensures b in Branches(roots)
  {
    BranchesAreFirstPerSpan(roots);
  }

  lemma BranchInRange(hir: Hir, roots: seq<Node>, a: Branch)
    requires WellFormed(hir) && RootsInRange(hir, roots) && a in CollectViewIfs(roots)
    ensures RootsInRange(hir, a.then_)
  {
    PartsInRange(hir, roots, a.span);
    CollectedIsCleared(roots, a);
    AllRefsMember(Cleared(roots, a.span), a.then_);
    forall d | d in NodesRefs(a.then_) ensures d < |hir.defs| {
      assert d in ToSet(NodesRefs(a.then_));
    }
  }

  lemma ReachedIsEagerOrCrossing(hir: Hir, roots: seq<Node>, a: Branch, b: Branch)
    requires WellFormed(hir) && RootsInRange(hir, roots) && a in Branches(roots) && a.span != b.span
    ensures Crossing(hir, a, b) <= ClosureOf(hir, a.then_) <= Eager(hir, roots, b.span) + Crossing(hir, a, b)
  {
    RefGraphIsValid(hir);
    BranchesAreFirstPerSpan(roots);
    FirstIsMember(CollectViewIfs(roots), a.span);
    BranchInRange(hir, roots, a);
    DocumentIsEagerPlusCleared(hir, a.then_, b.span);
    CollectedSurvives(roots, a, b.span);
    PartsInRange(hir, roots, b.span);
    PartsInRange(hir, a.then_, b.span);
    var eager := ToSet(NodesRefs(WithoutBranch(roots, b.span)));
    ReachIsClosed(RefGraph(hir), eager);
    ReachMonotone(RefGraph(hir), ToSet(NodesRefs(WithoutBranch(a.then_, b.span))), eager);
  }

  /** The worklist over reference edges alone. */
  method ClosureOver(hir: Hir, roots: seq<Node>) returns (seen: set<DefId>)
    requires WellFormed(hir) && RootsInRange(hir, roots)
    ensures seen == ClosureOf(hir, roots)
  {
    var queue := NodeReferences(roots, []);
    ghost var g, seeds := RefGraph(hir), ToSet(NodesRefs(roots));
    seen := {};
    RefGraphIsValid(hir);
    assert queue == NodesRefs(roots);
    FrontierStarts(g, seeds, queue);
    while queue != []
      invariant Frontier(g, seeds, seen, queue)
      decreases Reach(g, seeds) - seen, |queue|
    {
      var d := queue[|queue| - 1];
      assert d in Reach(g, seeds);
      if d in seen {
        FrontierSkips(g, seeds, seen, queue);
        queue := queue[..|queue| - 1];
      } else {
        var next := References(hir.defs[d], []);
        FrontierVisits(g, seeds, seen, queue, next);
        queue := queue[..|queue| - 1] + next;
        seen := seen + {d};
      }
    }
    FrontierEnds(g, seeds, seen);
  }

  method DeferrableRegions(hir: Hir, roots: seq<Node>) returns (regions: seq<Region>)
    requires WellFormed(hir) && RootsInRange(hir, roots)
    ensures |regions| == |Branches(roots)|
    ensures forall i :: 0 <= i < |regions| ==> regions[i] == RegionOf(hir, roots, Branches(roots)[i])
  {
    var branches := DedupBySpan(SortBySpan(CollectViewIfs(roots)));
    regions := [];
    for i := 0 to |branches|
      invariant |regions| == i
      invariant forall k :: 0 <= k < i ==> regions[k] == RegionOf(hir, roots, branches[k])
    {
      var span := branches[i].span;
      PartsInRange(hir, roots, span);
      BranchesAreFirstPerSpan(roots);
      FirstIsMember(CollectViewIfs(roots), span);
      CollectedIsCleared(roots, branches[i]);
      AllRefsMember(Cleared(roots, span), branches[i].then_);
      var eager := ClosureOver(hir, WithoutBranch(roots, span));
      assert RootsInRange(hir, branches[i].then_) by {
        forall d | d in NodesRefs(branches[i].then_) ensures d < |hir.defs| {
          assert d in ToSet(NodesRefs(branches[i].then_));
        }
      }
      var inside := ClosureOver(hir, branches[i].then_);
      regions := regions + [Region(span, inside, inside - eager)];
    }
  }
}
