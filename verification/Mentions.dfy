/** Which definitions a piece of program mentions, told by its parts and not by the
    walk: a part at any depth refers to the definition, calls it or writes to it. */
module Mentions {
  import opened Wrappers
  import opened Hir

  /** From a thing down to one of its parts, a level at a time. */
  ghost predicate Descends<T>(path: seq<T>, parts: T -> seq<T>) {
    path != [] && forall i :: 0 <= i < |path| - 1 ==> path[i + 1] in parts(path[i])
  }

  ghost predicate LeadsTo<T>(path: seq<T>, parts: T -> seq<T>, top: T, hits: T -> bool) {
    Descends(path, parts) && path[0] == top && hits(path[|path| - 1])
  }

  /** Some part of `top`, or `top` itself, is a hit. */
  ghost predicate Holds<T(!new)>(top: T, parts: T -> seq<T>, hits: T -> bool) {
    exists path :: LeadsTo(path, parts, top, hits)
  }

  ghost predicate SomeHolds<T(!new)>(tops: seq<T>, parts: T -> seq<T>, hits: T -> bool) {
    exists top :: top in tops && Holds(top, parts, hits)
  }

  lemma HoldsIff<T(!new)>(top: T, parts: T -> seq<T>, hits: T -> bool)
    ensures Holds(top, parts, hits) <==> hits(top) || SomeHolds(parts(top), parts, hits)
  {
    if hits(top) {
      assert LeadsTo([top], parts, top, hits);
    }
    if SomeHolds(parts(top), parts, hits) {
      var part :| part in parts(top) && Holds(part, parts, hits);
      var path :| LeadsTo(path, parts, part, hits);
      HoldsAbove(path, parts, top, part, hits);
    }
    if Holds(top, parts, hits) && !hits(top) {
      var path :| LeadsTo(path, parts, top, hits);
      HoldsBelow(path, parts, top, hits);
    }
  }

  lemma HoldsAbove<T(!new)>(path: seq<T>, parts: T -> seq<T>, top: T, part: T, hits: T -> bool)
    requires LeadsTo(path, parts, part, hits) && part in parts(top)
    ensures Holds(top, parts, hits)
  {
    var longer := [top] + path;
    forall i | 0 <= i < |longer| - 1 ensures longer[i + 1] in parts(longer[i]) {
      assert i > 0 ==> path[(i - 1) + 1] in parts(path[i - 1]);
    }
    assert LeadsTo(longer, parts, top, hits);
  }

  lemma HoldsBelow<T(!new)>(path: seq<T>, parts: T -> seq<T>, top: T, hits: T -> bool)
    requires LeadsTo(path, parts, top, hits) && !hits(top)
    ensures SomeHolds(parts(top), parts, hits)
  {
    var rest := path[1..];
    forall i | 0 <= i < |rest| - 1 ensures rest[i + 1] in parts(rest[i]) {
      assert path[(i + 1) + 1] in parts(path[i + 1]);
    }
    assert path[0 + 1] in parts(path[0]);
    assert LeadsTo(rest, parts, rest[0], hits);
  }

  /** Some of a list has the definition among its references. */
  ghost predicate Pushing<T(!new)>(xs: seq<T>, refs: T -> seq<DefId>, d: DefId) {
    exists x :: x in xs && d in refs(x)
  }

  lemma SomeOf<T(!new)>(a: seq<T>, b: seq<T>, refs: T -> seq<DefId>, d: DefId)
    ensures Pushing(a + b, refs, d) <==> Pushing(a, refs, d) || Pushing(b, refs, d)
  {
    assert forall x :: x in a + b <==> x in a || x in b;
  }

  lemma SomeOfOne<T(!new)>(x: T, refs: T -> seq<DefId>, d: DefId)
    ensures Pushing([x], refs, d) <==> d in refs(x)
  {
    assert x in [x];
  }

  lemma SomeOfFirst<T(!new)>(xs: seq<T>, refs: T -> seq<DefId>, d: DefId)
    requires xs != []
    ensures Pushing(xs, refs, d) <==> d in refs(xs[0]) || Pushing(xs[1..], refs, d)
  {
    SomeOfOne(xs[0], refs, d);
    SomeOf([xs[0]], xs[1..], refs, d);
    assert xs == [xs[0]] + xs[1..];
  }

  // ---- expressions ----

  function Keys(entries: seq<Entry>): seq<Expr> {
    if entries == [] then [] else [entries[0].key] + Keys(entries[1..])
  }

  function Values(entries: seq<Entry>): seq<Expr> {
    if entries == [] then [] else [entries[0].value] + Values(entries[1..])
  }

  /** The expressions an expression is made of. */
  function Operands(e: Expr): seq<Expr> {
    match e
    case Number | Text | Truth | Empty | Environment | Address | Media | Scroll | Ref(_) => []
    case Conditional(condition, value, otherwise) => [condition] + [value] + [otherwise]
    case List(items) => items
    case Map(entries) => Keys(entries) + Values(entries)
    case Call(_, args) => args
    case Outbound(args) => args
    case OfCall(_, operand) => [operand]
    case Operator(operand) => [operand]
    case Unary(operand) => [operand]
    case Build(argument) => [argument]
    case Field(base) => [base]
    case Binary(lhs, rhs) => [lhs] + [rhs]
    case Index(base, index) => [base] + [index]
    case Append(item, list) => [item] + [list]
    case MapInside(source, to) => [source] + [to]
    case Insert(key, value, table) => [key] + [value] + [table]
  }

  /** An expression names a definition by itself when it refers to it or calls it. */
  predicate Names(e: Expr, d: DefId) {
    match e
    case Ref(res) => res == Def(d)
    case Call(callee, _) => callee == Def(d)
    case OfCall(callee, _) => callee == Def(d)
    case _ => false
  }

  function Naming(d: DefId): Expr -> bool {
    e => Names(e, d)
  }

  ghost predicate Mentioned(e: Expr, d: DefId) {
    Holds(e, Operands, Naming(d))
  }

  lemma {:induction false} KeyIsSmaller(entries: seq<Entry>, e: Expr)
    requires e in Keys(entries) + Values(entries)
    ensures exists entry :: entry in entries && (e == entry.key || e == entry.value)
  {
    if e == entries[0].key || e == entries[0].value {
      assert entries[0] in entries;
    } else {
      KeyIsSmaller(entries[1..], e);
    }
  }

  lemma OperandIsSmaller(e: Expr, part: Expr)
    requires part in Operands(e)
    ensures part < e
  {
    match e
    case Map(entries) => KeyIsSmaller(entries, part);
    case _ =>
  }

  lemma {:induction false} ListPushes(es: seq<Expr>, d: DefId)
    ensures d in ExprsRefs(es) <==> Pushing(es, ExprRefs, d)
  {
    if es == [] {
      assert ExprsRefs(es) == [];
    } else {
      ListPushes(es[1..], d);
      SomeOfFirst(es, ExprRefs, d);
    }
  }

  lemma {:induction false} EntriesPush(entries: seq<Entry>, d: DefId)
    ensures d in EntriesRefs(entries) <==> Pushing(Keys(entries), ExprRefs, d) || Pushing(Values(entries), ExprRefs, d)
  {
    if entries == [] {
      assert EntriesRefs(entries) == [];
    } else {
      var head, tail := entries[0], entries[1..];
      EntriesPush(tail, d);
      SomeOf([head.key], Keys(tail), ExprRefs, d);
      SomeOf([head.value], Values(tail), ExprRefs, d);
      SomeOfOne(head.key, ExprRefs, d);
      SomeOfOne(head.value, ExprRefs, d);
    }
  }

  lemma TwoPush(a: Expr, b: Expr, d: DefId)
    ensures Pushing([a] + [b], ExprRefs, d) <==> d in ExprRefs(a) || d in ExprRefs(b)
  {
    SomeOf([a], [b], ExprRefs, d);
    SomeOfOne(a, ExprRefs, d);
    SomeOfOne(b, ExprRefs, d);
  }

  lemma ThreePush(a: Expr, b: Expr, c: Expr, d: DefId)
    ensures Pushing([a] + [b] + [c], ExprRefs, d) <==> d in ExprRefs(a) || d in ExprRefs(b) || d in ExprRefs(c)
  {
    SomeOf([a] + [b], [c], ExprRefs, d);
    SomeOfOne(c, ExprRefs, d);
    TwoPush(a, b, d);
  }

  lemma ExprPushes(e: Expr, d: DefId)
    ensures d in ExprRefs(e) <==> Names(e, d) || Pushing(Operands(e), ExprRefs, d)
  {
    match e
    case List(items) => ListPushes(items, d);
    case Call(_, args) => ListPushes(args, d);
    case Outbound(args) => ListPushes(args, d);
    case Map(entries) =>
      EntriesPush(entries, d);
      SomeOf(Keys(entries), Values(entries), ExprRefs, d);
    case Conditional(condition, value, otherwise) => ThreePush(condition, value, otherwise, d);
    case Insert(key, value, table) => ThreePush(key, value, table, d);
    case _ => FewPush(e, d);
  }

  lemma FewPush(e: Expr, d: DefId)
    requires !e.List? && !e.Call? && !e.Outbound? && !e.Map? && !e.Conditional? && !e.Insert?
    ensures d in ExprRefs(e) <==> Names(e, d) || Pushing(Operands(e), ExprRefs, d)
  {
    var operands := Operands(e);
    if |operands| == 1 {
      SomeOfOne(operands[0], ExprRefs, d);
    } else if |operands| == 2 {
      TwoPush(operands[0], operands[1], d);
    }
  }

  /** The walk of an expression pushes a definition exactly when some part of the
      expression, however deep, refers to it or calls it. */
  lemma {:induction false} PushedIffNamed(e: Expr, d: DefId)
    ensures d in ExprRefs(e) <==> Mentioned(e, d)
    decreases e
  {
    ExprPushes(e, d);
    HoldsIff(e, Operands, Naming(d));
    forall part | part in Operands(e) ensures d in ExprRefs(part) <==> Holds(part, Operands, Naming(d)) {
      OperandIsSmaller(e, part);
      PushedIffNamed(part, d);
    }
  }

  // ---- statements ----

  function PathExprs(path: seq<PathSeg>): seq<Expr> {
    if path == [] then [] else (if path[0].IndexSeg? then [path[0].index] else []) + PathExprs(path[1..])
  }

  function ArmExprs(arms: seq<Arm>): seq<Expr> {
    if arms == [] then [] else (if arms[0].ShowArm? then [arms[0].shown] else []) + ArmExprs(arms[1..])
  }

  function ArmStmts(arms: seq<Arm>): seq<Stmt> {
    if arms == [] then [] else (if arms[0].BlockArm? then arms[0].block else []) + ArmStmts(arms[1..])
  }

  function ElseStmts(otherwise: Otherwise): seq<Stmt> {
    if otherwise.Else? then otherwise.block else []
  }

  /** The expressions of a clause, field by field: a fold has a start and a step. */
  function ClauseExprs(clause: Pipeline): seq<Expr> {
    match clause
    case From(source) => [source]
    case Keep(cond) => [cond]
    case Sort(key) => [key]
    case MapEach(to) => [to]
    case TakeFirst(count) => [count]
    case Fold(starting, step) => [starting] + [step]
  }

  /** The expressions that stand in a statement itself. */
  function StmtExprs(s: Stmt): seq<Expr> {
    match s
    case Give(e) => [e]
    case Pipe(clause) => ClauseExprs(clause)
    case Bind(values) => values
    case Do(call) => [call]
    case Mutation(_, path, value) => [value] + PathExprs(path)
    case When(scrutinee, arms) => [scrutinee] + ArmExprs(arms)
    case Each(iter, _) => [iter]
    case If(cond, _, _) => [cond]
  }

  /** The statements inside a statement. */
  function StmtParts(s: Stmt): seq<Stmt> {
    match s
    case Give(_) | Pipe(_) | Bind(_) | Do(_) | Mutation(_, _, _) => []
    case When(_, arms) => ArmStmts(arms)
    case Each(_, body) => body
    case If(_, then_, otherwise) => then_ + ElseStmts(otherwise)
  }

  /** A statement names a definition by itself when it writes to it, or an expression
      in it mentions it. */
  ghost predicate StmtNames(s: Stmt, d: DefId) {
    (s.Mutation? && s.base == Def(d)) || exists e :: e in StmtExprs(s) && Mentioned(e, d)
  }

  ghost function StmtNaming(d: DefId): Stmt -> bool {
    s => StmtNames(s, d)
  }

  ghost predicate StmtMentions(s: Stmt, d: DefId) {
    Holds(s, StmtParts, StmtNaming(d))
  }

  lemma {:induction false} ArmPartIsSmaller(arms: seq<Arm>, part: Stmt)
    requires part in ArmStmts(arms)
    ensures exists arm :: arm in arms && arm.BlockArm? && part in arm.block
  {
    if arms[0].BlockArm? && part in arms[0].block {
      assert arms[0] in arms;
    } else {
      ArmPartIsSmaller(arms[1..], part);
    }
  }

  lemma StmtPartIsSmaller(s: Stmt, part: Stmt)
    requires part in StmtParts(s)
    ensures part < s
  {
    match s
    case When(_, arms) => ArmPartIsSmaller(arms, part);
    case _ =>
  }

  lemma {:induction false} PathPushes(path: seq<PathSeg>, d: DefId)
    ensures d in PathRefs(path) <==> Pushing(PathExprs(path), ExprRefs, d)
  {
    if path == [] {
      assert PathRefs(path) == [];
    } else {
      PathPushes(path[1..], d);
      if path[0].IndexSeg? {
        SomeOfOne(path[0].index, ExprRefs, d);
        SomeOf([path[0].index], PathExprs(path[1..]), ExprRefs, d);
      } else {
        assert [] + PathExprs(path[1..]) == PathExprs(path[1..]);
      }
    }
  }

  lemma {:induction false} BlockPushes(block: Block, d: DefId)
    ensures d in BlockRefs(block) <==> Pushing(block, StmtRefs, d)
  {
    if block == [] {
      assert BlockRefs(block) == [];
    } else {
      BlockPushes(block[1..], d);
      SomeOfFirst(block, StmtRefs, d);
    }
  }

  lemma {:induction false} ArmsPush(arms: seq<Arm>, d: DefId)
    ensures d in ArmsRefs(arms) <==> Pushing(ArmExprs(arms), ExprRefs, d) || Pushing(ArmStmts(arms), StmtRefs, d)
  {
    if arms == [] {
      assert ArmsRefs(arms) == [];
    } else {
      ArmsPush(arms[1..], d);
      match arms[0]
      case ShowArm(e) =>
        SomeOfOne(e, ExprRefs, d);
        SomeOf([e], ArmExprs(arms[1..]), ExprRefs, d);
        assert [] + ArmStmts(arms[1..]) == ArmStmts(arms[1..]);
      case BlockArm(block) =>
        BlockPushes(block, d);
        SomeOf(block, ArmStmts(arms[1..]), StmtRefs, d);
        assert [] + ArmExprs(arms[1..]) == ArmExprs(arms[1..]);
    }
  }

  lemma ClausePushes(clause: Pipeline, d: DefId)
    ensures d in ExprsRefs(PipelineExprs(clause)) <==> Pushing(ClauseExprs(clause), ExprRefs, d)
  {
    var es := PipelineExprs(clause);
    ListPushes(es, d);
    if clause.Fold? {
      TwoPush(clause.starting, clause.step, d);
      assert Pushing([clause.starting, clause.step], ExprRefs, d) <==>
             d in ExprRefs(clause.starting) || d in ExprRefs(clause.step) by {
        assert [clause.starting, clause.step] == [clause.starting] + [clause.step];
      }
    }
  }

  lemma StmtPushes(s: Stmt, d: DefId)
    ensures d in StmtRefs(s) <==>
            (s.Mutation? && s.base == Def(d)) || Pushing(StmtExprs(s), ExprRefs, d)
            || Pushing(StmtParts(s), StmtRefs, d)
  {
    match s
    case Give(e) => SomeOfOne(e, ExprRefs, d);
    case Do(call) => SomeOfOne(call, ExprRefs, d);
    case Pipe(clause) =>
      ClausePushes(clause, d);
    case Bind(values) => ListPushes(values, d);
    case Mutation(_, path, value) =>
      PathPushes(path, d);
      SomeOfOne(value, ExprRefs, d);
      SomeOf([value], PathExprs(path), ExprRefs, d);
    case When(scrutinee, arms) =>
      ArmsPush(arms, d);
      SomeOfOne(scrutinee, ExprRefs, d);
      SomeOf([scrutinee], ArmExprs(arms), ExprRefs, d);
    case Each(iter, body) =>
      SomeOfOne(iter, ExprRefs, d);
      BlockPushes(body, d);
    case If(cond, then_, otherwise) =>
      SomeOfOne(cond, ExprRefs, d);
      BlockPushes(then_, d);
      BlockPushes(ElseStmts(otherwise), d);
      SomeOf(then_, ElseStmts(otherwise), StmtRefs, d);
  }

  lemma ExprsMention(es: seq<Expr>, d: DefId)
    ensures Pushing(es, ExprRefs, d) <==> exists e :: e in es && Mentioned(e, d)
  {
    forall e | e in es ensures d in ExprRefs(e) <==> Mentioned(e, d) {
      PushedIffNamed(e, d);
    }
  }

  /** The walk of a statement pushes a definition exactly when some statement in it, at
      whatever depth, writes to it or has an expression that mentions it. */
  lemma {:induction false} StmtPushedIffNamed(s: Stmt, d: DefId)
    ensures d in StmtRefs(s) <==> StmtMentions(s, d)
    decreases s
  {
    StmtPushes(s, d);
    ExprsMention(StmtExprs(s), d);
    HoldsIff(s, StmtParts, StmtNaming(d));
    forall part | part in StmtParts(s) ensures d in StmtRefs(part) <==> Holds(part, StmtParts, StmtNaming(d)) {
      StmtPartIsSmaller(s, part);
      StmtPushedIffNamed(part, d);
    }
  }

  ghost predicate BlockMentions(block: Block, d: DefId) {
    exists s :: s in block && StmtMentions(s, d)
  }

  lemma BlockPushedIffNamed(block: Block, d: DefId)
    ensures d in BlockRefs(block) <==> BlockMentions(block, d)
  {
    BlockPushes(block, d);
    forall s | s in block ensures d in StmtRefs(s) <==> StmtMentions(s, d) {
      StmtPushedIffNamed(s, d);
    }
  }

  // ---- view nodes ----

  function ArmArgs(arms: seq<NodeArm>): seq<Expr> {
    if arms == [] then [] else (if arms[0].ShowElement? then arms[0].shown.args else []) + ArmArgs(arms[1..])
  }

  function ArmNodesOf(arms: seq<NodeArm>): seq<Node> {
    if arms == [] then []
    else (if arms[0].ShowElement? then arms[0].shown.children else arms[0].nodes) + ArmNodesOf(arms[1..])
  }

  function ElseNodesOf(otherwise: NodeOtherwise): seq<Node> {
    if otherwise.ElseNodes? then otherwise.nodes else []
  }

  function NodeExprs(node: Node): seq<Expr> {
    match node
    case ElementNode(element) => element.args
    case EachNode(iter, _) => [iter]
    case WhenNode(scrutinee, arms) => [scrutinee] + ArmArgs(arms)
    case IfNode(_, cond, _, _) => [cond]
    case Scope(inits, _) => inits
    case Handler(_) | Children => []
  }

  function NodeParts(node: Node): seq<Node> {
    match node
    case ElementNode(element) => element.children
    case EachNode(_, body) => body
    case WhenNode(_, arms) => ArmNodesOf(arms)
    case IfNode(_, _, then_, otherwise) => then_ + ElseNodesOf(otherwise)
    case Scope(_, body) => body
    case Handler(_) | Children => []
  }

  /** A node names a definition by itself when an expression in it mentions it, or its
      listener does. */
  ghost predicate NodeNames(node: Node, d: DefId) {
    (node.Handler? && BlockMentions(node.listener, d)) || exists e :: e in NodeExprs(node) && Mentioned(e, d)
  }

  ghost function NodeNaming(d: DefId): Node -> bool {
    node => NodeNames(node, d)
  }

  ghost predicate NodeMentions(node: Node, d: DefId) {
    Holds(node, NodeParts, NodeNaming(d))
  }

  lemma {:induction false} ArmNodeIsSmaller(arms: seq<NodeArm>, part: Node)
    requires part in ArmNodesOf(arms)
    ensures exists arm :: arm in arms && part in if arm.ShowElement? then arm.shown.children else arm.nodes
  {
    if part in if arms[0].ShowElement? then arms[0].shown.children else arms[0].nodes {
      assert arms[0] in arms;
    } else {
      ArmNodeIsSmaller(arms[1..], part);
    }
  }

  lemma NodePartIsSmaller(node: Node, part: Node)
    requires part in NodeParts(node)
    ensures part < node
  {
    match node
    case WhenNode(_, arms) => ArmNodeIsSmaller(arms, part);
    case _ =>
  }

  lemma {:induction false} ListOfNodesPushes(nodes: seq<Node>, d: DefId)
    ensures d in NodesRefs(nodes) <==> Pushing(nodes, NodeRefs, d)
  {
    if nodes == [] {
      assert NodesRefs(nodes) == [];
    } else {
      ListOfNodesPushes(nodes[1..], d);
      SomeOfFirst(nodes, NodeRefs, d);
    }
  }

  lemma {:induction false} NodeArmsPush(arms: seq<NodeArm>, d: DefId)
    ensures d in NodeArmsRefs(arms) <==> Pushing(ArmArgs(arms), ExprRefs, d) || Pushing(ArmNodesOf(arms), NodeRefs, d)
  {
    if arms == [] {
      assert NodeArmsRefs(arms) == [];
    } else {
      NodeArmsPush(arms[1..], d);
      match arms[0]
      case ShowElement(element) =>
        assert NodeArmRefs(arms[0]) == ExprsRefs(element.args) + NodesRefs(element.children);
        assert d in NodeArmRefs(arms[0]) <==> d in ExprsRefs(element.args) || d in NodesRefs(element.children);
        ListPushes(element.args, d);
        ListOfNodesPushes(element.children, d);
        SomeOf(element.args, ArmArgs(arms[1..]), ExprRefs, d);
        SomeOf(element.children, ArmNodesOf(arms[1..]), NodeRefs, d);
      case ArmNodes(nodes) =>
        ListOfNodesPushes(nodes, d);
        SomeOf(nodes, ArmNodesOf(arms[1..]), NodeRefs, d);
        assert [] + ArmArgs(arms[1..]) == ArmArgs(arms[1..]);
    }
  }

  lemma NodePushes(node: Node, d: DefId)
    ensures d in NodeRefs(node) <==>
            (node.Handler? && d in BlockRefs(node.listener)) || Pushing(NodeExprs(node), ExprRefs, d)
            || Pushing(NodeParts(node), NodeRefs, d)
  {
    match node
    case ElementNode(element) =>
      ListPushes(element.args, d);
      ListOfNodesPushes(element.children, d);
    case EachNode(iter, body) =>
      SomeOfOne(iter, ExprRefs, d);
      ListOfNodesPushes(body, d);
    case WhenNode(scrutinee, arms) =>
      NodeArmsPush(arms, d);
      SomeOfOne(scrutinee, ExprRefs, d);
      SomeOf([scrutinee], ArmArgs(arms), ExprRefs, d);
    case IfNode(_, cond, then_, otherwise) =>
      SomeOfOne(cond, ExprRefs, d);
      ListOfNodesPushes(then_, d);
      ListOfNodesPushes(ElseNodesOf(otherwise), d);
      SomeOf(then_, ElseNodesOf(otherwise), NodeRefs, d);
    case Scope(inits, body) =>
      ListPushes(inits, d);
      ListOfNodesPushes(body, d);
    case Handler(_) | Children =>
  }

  /** The walk of a node pushes a definition exactly when some node in it, at whatever
      depth, has an expression or a listener that mentions it. */
  lemma {:induction false} NodePushedIffNamed(node: Node, d: DefId)
    ensures d in NodeRefs(node) <==> NodeMentions(node, d)
    decreases node
  {
    NodePushes(node, d);
    ExprsMention(NodeExprs(node), d);
    if node.Handler? {
      BlockPushedIffNamed(node.listener, d);
    }
    HoldsIff(node, NodeParts, NodeNaming(d));
    forall part | part in NodeParts(node) ensures d in NodeRefs(part) <==> Holds(part, NodeParts, NodeNaming(d)) {
      NodePartIsSmaller(node, part);
      NodePushedIffNamed(part, d);
    }
  }

  // ---- definitions ----

  /** Where a definition may be mentioned: the initialiser and the step of a signal, the
      body of a function or a release, the nodes of a view. */
  ghost predicate Uses(kind: DefKind, d: DefId) {
    match kind
    case Signal(_, init, step) => Mentioned(init, d) || (step.Some? && Mentioned(step.value, d))
    case Function(body) => BlockMentions(body, d)
    case Release(body) => BlockMentions(body, d)
    case View(nodes) => exists node :: node in nodes && NodeMentions(node, d)
    case Record | Choice | Component | Foreign => false
  }

  /** A definition references exactly what it mentions, at whatever depth. */
  lemma ReferencedIffUsed(kind: DefKind, d: DefId)
    ensures d in ReferencesOf(kind) <==> Uses(kind, d)
  {
    match kind
    case Signal(_, init, step) =>
      PushedIffNamed(init, d);
      if step.Some? {
        PushedIffNamed(step.value, d);
      }
    case Function(body) => BlockPushedIffNamed(body, d);
    case Release(body) => BlockPushedIffNamed(body, d);
    case View(nodes) =>
      ListOfNodesPushes(nodes, d);
      forall node | node in nodes ensures d in NodeRefs(node) <==> NodeMentions(node, d) {
        NodePushedIffNamed(node, d);
      }
    case Record | Choice | Component | Foreign =>
  }
}
