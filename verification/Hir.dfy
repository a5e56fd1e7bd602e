/** The resolved program the emitter reads. The arenas of expressions and
    blocks are unfolded into trees; definitions keep their arena, because the
    reference graph between them is what is being analysed. */
module Hir {
  import opened Wrappers
  import opened Reachability

  type DefId = nat
  type LocalId = nat

  datatype Res =
    | Def(def: DefId)
    | Local(local: LocalId)
    | Builtin
    | BuiltinVariant
    | Variant(choice: DefId, index: nat)

  datatype Entry = Entry(key: Expr, value: Expr)

  datatype Expr =
    | Number
    | Text
    | Truth
    | Empty
    | Address
    | Environment
    | Media
    | Scroll
    | Conditional(condition: Expr, value: Expr, otherwise: Expr)
    | List(items: seq<Expr>)
    | Map(entries: seq<Entry>)
    | Ref(res: Res)
    | Call(callee: Res, args: seq<Expr>)
    | OfCall(function_: Res, operand: Expr)
    | Operator(operand: Expr)
    | Unary(operand: Expr)
    | Binary(lhs: Expr, rhs: Expr)
    | Field(base: Expr)
    | Index(base: Expr, index: Expr)
    | Append(item: Expr, list: Expr)
    | Insert(key: Expr, newValue: Expr, table: Expr)
    | MapInside(source: Expr, to: Expr)
    | Outbound(args: seq<Expr>)
    | Build(argument: Expr)

  datatype Pipeline =
    | From(source: Expr)
    | Keep(cond: Expr)
    | Sort(key: Expr)
    | MapEach(to: Expr)
    | Fold(starting: Expr, step: Expr)
    | TakeFirst(count: Expr)

  datatype PathSeg = FieldSeg | IndexSeg(index: Expr)

  datatype Arm = ShowArm(shown: Expr) | BlockArm(block: seq<Stmt>)

  /** `Mutation` stands for the five writes, which carry the same place and value. */
  datatype Stmt =
    | Pipe(clause: Pipeline)
    | Mutation(base: Res, path: seq<PathSeg>, value: Expr)
    | Give(given: Expr)
    | When(scrutinee: Expr, arms: seq<Arm>)
    | Each(iter: Expr, body: seq<Stmt>)
    | If(cond: Expr, then_: seq<Stmt>, otherwise: Otherwise)
    | Bind(values: seq<Expr>)
    | Do(call: Expr)

  datatype Otherwise = NoElse | Else(block: seq<Stmt>)

  type Block = seq<Stmt>

  datatype Span = Span(start: nat, end: nat)

  datatype Element = Element(args: seq<Expr>, children: seq<Node>)

  datatype NodeArm = ShowElement(shown: Element) | ArmNodes(nodes: seq<Node>)

  datatype Node =
    | ElementNode(element: Element)
    | EachNode(iter: Expr, body: seq<Node>)
    | WhenNode(scrutinee: Expr, arms: seq<NodeArm>)
    | IfNode(span: Span, cond: Expr, then_: seq<Node>, otherwise: NodeOtherwise)
    | Handler(listener: Block)
    | Children
    | Scope(inits: seq<Expr>, body: seq<Node>)

  datatype NodeOtherwise = NoNodes | ElseNodes(nodes: seq<Node>)

  datatype Placement = Client | Static | Server | Durable | Remembered

  datatype DefKind =
    | Signal(placement: Placement, init: Expr, step: Option<Expr>)
    | Function(body: Block)
    | View(nodes: seq<Node>)
    | Record
    | Choice
    | Component
    | Foreign
    | Release(body: Block)

  datatype Hir = Hir(defs: seq<DefKind>, view: Option<DefId>)

  // ---- the reference walk ----

  function PipelineExprs(clause: Pipeline): seq<Expr> {
    match clause
    case From(e) => [e]
    case TakeFirst(e) => [e]
    case Keep(e) => [e]
    case Sort(e) => [e]
    case MapEach(e) => [e]
    case Fold(starting, step) => [starting, step]
  }

  function ResRefs(res: Res): seq<DefId> {
    if res.Def? then [res.def] else []
  }

  function ExprRefs(e: Expr): seq<DefId>
    decreases e
  {
    match e
    case Number | Text | Truth | Empty | Environment | Address | Media | Scroll => []
    case Conditional(c, v, o) => ExprRefs(c) + ExprRefs(v) + ExprRefs(o)
    case List(items) => ExprsRefs(items)
    case Map(entries) => EntriesRefs(entries)
    case Ref(res) => ResRefs(res)
    case Outbound(args) => ExprsRefs(args)
    case Call(callee, args) => ResRefs(callee) + ExprsRefs(args)
    case OfCall(callee, operand) => ResRefs(callee) + ExprRefs(operand)
    case Build(argument) => ExprRefs(argument)
    case Operator(operand) => ExprRefs(operand)
    case Unary(operand) => ExprRefs(operand)
    case Binary(l, r) => ExprRefs(l) + ExprRefs(r)
    case Field(base) => ExprRefs(base)
    case Index(base, index) => ExprRefs(base) + ExprRefs(index)
    case Append(item, list) => ExprRefs(item) + ExprRefs(list)
    case Insert(key, value, table) => ExprRefs(key) + ExprRefs(value) + ExprRefs(table)
    case MapInside(source, to) => ExprRefs(source) + ExprRefs(to)
  }

  function ExprsRefs(es: seq<Expr>): seq<DefId>
    decreases es
  {
    if es == [] then [] else ExprRefs(es[0]) + ExprsRefs(es[1..])
  }

  function EntriesRefs(es: seq<Entry>): seq<DefId>
    decreases es
  {
    if es == [] then [] else EntryRefs(es[0]) + EntriesRefs(es[1..])
  }

  function EntryRefs(entry: Entry): seq<DefId>
    decreases entry
  {
    ExprRefs(entry.key) + ExprRefs(entry.value)
  }

  function PathRefs(path: seq<PathSeg>): seq<DefId> {
    if path == [] then []
    else (if path[0].IndexSeg? then ExprRefs(path[0].index) else []) + PathRefs(path[1..])
  }

  function StmtRefs(s: Stmt): seq<DefId>
    decreases s
  {
    match s
    case Give(e) => ExprRefs(e)
    case Pipe(clause) => ExprsRefs(PipelineExprs(clause))
    case Bind(values) => ExprsRefs(values)
    case Do(call) => ExprRefs(call)
    case Mutation(base, path, value) => ExprRefs(value) + ResRefs(base) + PathRefs(path)
    case When(scrutinee, arms) => ExprRefs(scrutinee) + ArmsRefs(arms)
    case Each(iter, body) => ExprRefs(iter) + BlockRefs(body)
    case If(cond, then_, otherwise) =>
      ExprRefs(cond) + BlockRefs(then_) + ElseRefs(otherwise)
  }

  function ElseRefs(otherwise: Otherwise): seq<DefId>
    decreases otherwise
  {
    match otherwise
    case NoElse => []
    case Else(b) => BlockRefs(b)
  }

  function ArmsRefs(arms: seq<Arm>): seq<DefId>
    decreases arms
  {
    if arms == [] then []
    else ArmRefs(arms[0]) + ArmsRefs(arms[1..])
  }

  function ArmRefs(arm: Arm): seq<DefId>
    decreases arm
  {
    match arm
    case ShowArm(e) => ExprRefs(e)
    case BlockArm(b) => BlockRefs(b)
  }

  function BlockRefs(block: Block): seq<DefId>
    decreases block
  {
    if block == [] then [] else StmtRefs(block[0]) + BlockRefs(block[1..])
  }

  function ElementRefs(element: Element): seq<DefId>
    decreases element
  {
    ExprsRefs(element.args) + NodesRefs(element.children)
  }

  function NodeRefs(node: Node): seq<DefId>
    decreases node
  {
    match node
    case ElementNode(element) => ElementRefs(element)
    case EachNode(iter, body) => ExprRefs(iter) + NodesRefs(body)
    case WhenNode(scrutinee, arms) => ExprRefs(scrutinee) + NodeArmsRefs(arms)
    case IfNode(_, cond, then_, otherwise) =>
      ExprRefs(cond) + NodesRefs(then_) + NodeElseRefs(otherwise)
    case Scope(inits, body) => ExprsRefs(inits) + NodesRefs(body)
    case Handler(body) => BlockRefs(body)
    case Children => []
  }

  function NodeElseRefs(otherwise: NodeOtherwise): seq<DefId>
    decreases otherwise
  {
    match otherwise
    case NoNodes => []
    case ElseNodes(ns) => NodesRefs(ns)
  }

  function NodeArmsRefs(arms: seq<NodeArm>): seq<DefId>
    decreases arms
  {
    if arms == [] then []
    else NodeArmRefs(arms[0]) + NodeArmsRefs(arms[1..])
  }

  function NodeArmRefs(arm: NodeArm): seq<DefId>
    decreases arm
  {
    match arm
    case ShowElement(element) => ElementRefs(element)
    case ArmNodes(ns) => NodesRefs(ns)
  }

  function NodesRefs(nodes: seq<Node>): seq<DefId>
    decreases nodes
  {
    if nodes == [] then [] else NodeRefs(nodes[0]) + NodesRefs(nodes[1..])
  }

  function ReferencesOf(kind: DefKind): seq<DefId> {
    match kind
    case Signal(_, init, step) => ExprRefs(init) + (match step case None => [] case Some(e) => ExprRefs(e))
    case Function(body) => BlockRefs(body)
    case Release(body) => BlockRefs(body)
    case View(nodes) => NodesRefs(nodes)
    case Record | Choice | Component | Foreign => []
  }

  /** Every reference names a definition of the arena, which is what indexing
      the arena by one demands. */
  ghost predicate WellFormed(hir: Hir) {
    && (forall d, e :: 0 <= d < |hir.defs| && e in ReferencesOf(hir.defs[d]) ==> e < |hir.defs|)
    && (hir.view.Some? ==> hir.view.value < |hir.defs|)
  }

  ghost predicate RootsInRange(hir: Hir, roots: seq<Node>) {
    forall d :: d in NodesRefs(roots) ==> d < |hir.defs|
  }

  /** The reference graph. */
  function RefGraph(hir: Hir): (g: Graph)
    ensures |g| == |hir.defs|
  {
    seq(|hir.defs|, i requires 0 <= i < |hir.defs| => ToSet(ReferencesOf(hir.defs[i])))
  }

  lemma RefGraphIsValid(hir: Hir)
    requires WellFormed(hir)
    ensures Valid(RefGraph(hir))
  {
  }
}
