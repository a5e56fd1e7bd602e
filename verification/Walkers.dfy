/** The reference walk as the compiler runs it: one recursive descent per
    syntactic class, each pushing what it finds onto the vector it is handed. */
module Walkers {
  import opened Wrappers
  import opened Hir

  lemma ThreePushes(before: seq<DefId>, a: seq<DefId>, b: seq<DefId>, c: seq<DefId>)
    ensures before + a + b + c == before + (a + b + c)
  {
  }

  method PushRes(res: Res, before: seq<DefId>) returns (out: seq<DefId>)
    ensures out == before + ResRefs(res)
  {
    out := before;
    if res.Def? {
      out := out + [res.def];
    }
  }

  method ExprReferences(e: Expr, before: seq<DefId>) returns (out: seq<DefId>)
    ensures out == before + ExprRefs(e)
    decreases e, 1
  {
    match e {
      case Number | Text | Truth | Empty | Environment | Address | Media | Scroll => return before;
      case Conditional(condition, value, otherwise) =>
        out := ExprReferences(condition, before);
        out := ExprReferences(value, out);
        out := ExprReferences(otherwise, out);
        ThreePushes(before, ExprRefs(condition), ExprRefs(value), ExprRefs(otherwise));
        return;
      case List(items) =>
        out := ExprsReferences(items, before);
        return;
      case Map(entries) =>
        out := EntriesReferences(entries, before);
        return;
      case Ref(res) =>
        out := PushRes(res, before);
        return;
      case Outbound(args) =>
        out := ExprsReferences(args, before);
        return;
      case Call(callee, args) =>
        out := PushRes(callee, before);
        out := ExprsReferences(args, out);
        Regroup(before, ResRefs(callee), ExprsRefs(args));
        return;
      case OfCall(callee, operand) =>
        out := PushRes(callee, before);
        out := ExprReferences(operand, out);
        Regroup(before, ResRefs(callee), ExprRefs(operand));
        return;
      case Build(argument) =>
        out := ExprReferences(argument, before);
        return;
      case _ =>
        out := OperationReferences(e, before);
        return;
    }
  }

  /** The operators, accesses and collection clauses of the same match. */
  method OperationReferences(e: Expr, before: seq<DefId>) returns (out: seq<DefId>)
    requires
      || e.Operator? || e.Unary? || e.Binary? || e.Field? || e.Index? || e.Append? || e.Insert? || e.MapInside?
    ensures out == before + ExprRefs(e)
    decreases e, 0
  {
    match e {
      case Operator(operand) =>
        out := ExprReferences(operand, before);
        return;
      case Unary(operand) =>
        out := ExprReferences(operand, before);
        return;
      case Binary(lhs, rhs) =>
        out := ExprReferences(lhs, before);
        out := ExprReferences(rhs, out);
        Regroup(before, ExprRefs(lhs), ExprRefs(rhs));
        return;
      case Field(base) =>
        out := ExprReferences(base, before);
        return;
      case Index(base, index) =>
        out := ExprReferences(base, before);
        out := ExprReferences(index, out);
        Regroup(before, ExprRefs(base), ExprRefs(index));
        return;
      case Append(item, list) =>
        out := ExprReferences(item, before);
        out := ExprReferences(list, out);
        Regroup(before, ExprRefs(item), ExprRefs(list));
        return;
      case Insert(key, value, table) =>
        out := ExprReferences(key, before);
        out := ExprReferences(value, out);
        out := ExprReferences(table, out);
        ThreePushes(before, ExprRefs(key), ExprRefs(value), ExprRefs(table));
        return;
      case MapInside(source, to) =>
        out := ExprReferences(source, before);
        out := ExprReferences(to, out);
        Regroup(before, ExprRefs(source), ExprRefs(to));
        return;
    }
  }

  method EntryReferences(entry: Entry, before: seq<DefId>) returns (out: seq<DefId>)
    ensures out == before + EntryRefs(entry)
    decreases entry
  {
    out := ExprReferences(entry.key, before);
    out := ExprReferences(entry.value, out);
    Regroup(before, ExprRefs(entry.key), ExprRefs(entry.value));
  }

  method EntriesReferences(xs: seq<Entry>, before: seq<DefId>) returns (out: seq<DefId>)
    ensures out == before + EntriesRefs(xs)
    decreases xs
  {
    out := before;
    for i := 0 to |xs|
      invariant out + EntriesRefs(xs[i..]) == before + EntriesRefs(xs)
    {
      assert xs[i..][1..] == xs[i + 1..];
      out := EntryReferences(xs[i], out);
    }
  }

  method ExprsReferences(es: seq<Expr>, before: seq<DefId>) returns (out: seq<DefId>)
    ensures out == before + ExprsRefs(es)
    decreases es
  {
    out := before;
    for i := 0 to |es|
      invariant out + ExprsRefs(es[i..]) == before + ExprsRefs(es)
    {
      assert es[i..][1..] == es[i + 1..];
      out := ExprReferences(es[i], out);
    }
  }

  method PathReferences(xs: seq<PathSeg>, before: seq<DefId>) returns (out: seq<DefId>)
    ensures out == before + PathRefs(xs)
    decreases xs
  {
    out := before;
    for i := 0 to |xs|
      invariant out + PathRefs(xs[i..]) == before + PathRefs(xs)
    {
      assert xs[i..][1..] == xs[i + 1..];
      if xs[i].IndexSeg? {
        out := ExprReferences(xs[i].index, out);
      }
    }
  }

  method StmtReferences(s: Stmt, before: seq<DefId>) returns (out: seq<DefId>)
    ensures out == before + StmtRefs(s)
    decreases s
  {
    match s {
      case Give(e) =>
        out := ExprReferences(e, before);
        return;
      case Pipe(clause) =>
        out := ExprsReferences(PipelineExprs(clause), before);
        return;
      case Bind(values) =>
        out := ExprsReferences(values, before);
        return;
      case Do(call) =>
        out := ExprReferences(call, before);
        return;
      case Mutation(base, path, value) =>
        out := ExprReferences(value, before);
        out := PushRes(base, out);
        out := PathReferences(path, out);
        ThreePushes(before, ExprRefs(value), ResRefs(base), PathRefs(path));
        return;
      case When(scrutinee, arms) =>
        out := ExprReferences(scrutinee, before);
        out := ArmsReferences(arms, out);
        Regroup(before, ExprRefs(scrutinee), ArmsRefs(arms));
        return;
      case Each(iter, body) =>
        out := ExprReferences(iter, before);
        out := BlockReferences(body, out);
        Regroup(before, ExprRefs(iter), BlockRefs(body));
        return;
      case If(cond, then_, otherwise) =>
        out := ExprReferences(cond, before);
        out := BlockReferences(then_, out);
        out := ElseReferences(otherwise, out);
        ThreePushes(before, ExprRefs(cond), BlockRefs(then_), ElseRefs(otherwise));
        return;
    }
  }

  method ElseReferences(otherwise: Otherwise, before: seq<DefId>) returns (out: seq<DefId>)
    ensures out == before + ElseRefs(otherwise)
    decreases otherwise
  {
    out := before;
    if otherwise.Else? {
      out := BlockReferences(otherwise.block, out);
    }
  }

  method ArmsReferences(xs: seq<Arm>, before: seq<DefId>) returns (out: seq<DefId>)
    ensures out == before + ArmsRefs(xs)
    decreases xs
  {
    out := before;
    for i := 0 to |xs|
      invariant out + ArmsRefs(xs[i..]) == before + ArmsRefs(xs)
    {
      assert xs[i..][1..] == xs[i + 1..];
      out := ArmReferences(xs[i], out);
    }
  }

  method ArmReferences(arm: Arm, before: seq<DefId>) returns (out: seq<DefId>)
    ensures out == before + ArmRefs(arm)
    decreases arm
  {
    match arm
    case ShowArm(e) => out := ExprReferences(e, before);
    case BlockArm(b) => out := BlockReferences(b, before);
  }

  method BlockReferences(block: Block, before: seq<DefId>) returns (out: seq<DefId>)
    ensures out == before + BlockRefs(block)
    decreases block
  {
    out := before;
    for i := 0 to |block|
      invariant out + BlockRefs(block[i..]) == before + BlockRefs(block)
    {
      assert block[i..][1..] == block[i + 1..];
      out := StmtReferences(block[i], out);
    }
  }

  method ElementReferences(element: Element, before: seq<DefId>) returns (out: seq<DefId>)
    ensures out == before + ElementRefs(element)
    decreases element
  {
    out := ExprsReferences(element.args, before);
    out := NodeReferences(element.children, out);
    Regroup(before, ExprsRefs(element.args), NodesRefs(element.children));
  }

  method OneNodeReferences(node: Node, before: seq<DefId>) returns (out: seq<DefId>)
    ensures out == before + NodeRefs(node)
    decreases node
  {
    match node {
      case ElementNode(element) =>
        out := ElementReferences(element, before);
        return;
      case EachNode(iter, body) =>
        out := ExprReferences(iter, before);
        out := NodeReferences(body, out);
        Regroup(before, ExprRefs(iter), NodesRefs(body));
        return;
      case WhenNode(scrutinee, arms) =>
        out := ExprReferences(scrutinee, before);
        out := NodeArmsReferences(arms, out);
        Regroup(before, ExprRefs(scrutinee), NodeArmsRefs(arms));
        return;
      case IfNode(_, cond, then_, otherwise) =>
        out := ExprReferences(cond, before);
        out := NodeReferences(then_, out);
        out := NodeElseReferences(otherwise, out);
        ThreePushes(before, ExprRefs(cond), NodesRefs(then_), NodeElseRefs(otherwise));
        return;
      case Scope(inits, body) =>
        out := ExprsReferences(inits, before);
        out := NodeReferences(body, out);
        Regroup(before, ExprsRefs(inits), NodesRefs(body));
        return;
      case Handler(body) =>
        out := BlockReferences(body, before);
        return;
      case Children => return before;
    }
  }

  method NodeElseReferences(otherwise: NodeOtherwise, before: seq<DefId>) returns (out: seq<DefId>)
    ensures out == before + NodeElseRefs(otherwise)
    decreases otherwise
  {
    out := before;
    if otherwise.ElseNodes? {
      out := NodeReferences(otherwise.nodes, out);
    }
  }

  method NodeArmsReferences(xs: seq<NodeArm>, before: seq<DefId>) returns (out: seq<DefId>)
    ensures out == before + NodeArmsRefs(xs)
    decreases xs
  {
    out := before;
    for i := 0 to |xs|
      invariant out + NodeArmsRefs(xs[i..]) == before + NodeArmsRefs(xs)
    {
      assert xs[i..][1..] == xs[i + 1..];
      out := NodeArmReferences(xs[i], out);
    }
  }

  method NodeArmReferences(arm: NodeArm, before: seq<DefId>) returns (out: seq<DefId>)
    ensures out == before + NodeArmRefs(arm)
    decreases arm
  {
    match arm
    case ShowElement(element) => out := ElementReferences(element, before);
    case ArmNodes(nodes) => out := NodeReferences(nodes, before);
  }

  method NodeReferences(nodes: seq<Node>, before: seq<DefId>) returns (out: seq<DefId>)
    ensures out == before + NodesRefs(nodes)
    decreases nodes
  {
    out := before;
    for i := 0 to |nodes|
      invariant out + NodesRefs(nodes[i..]) == before + NodesRefs(nodes)
    {
      assert nodes[i..][1..] == nodes[i + 1..];
      out := OneNodeReferences(nodes[i], out);
    }
  }

  method References(kind: DefKind, before: seq<DefId>) returns (out: seq<DefId>)
    ensures out == before + ReferencesOf(kind)
  {
    out := before;
    match kind
    case Signal(_, init, step) =>
      out := ExprReferences(init, out);
      if step.Some? {
        out := ExprReferences(step.value, out);
      }
    case Function(body) => out := BlockReferences(body, out);
    case Release(body) => out := BlockReferences(body, out);
    case View(nodes) => out := NodeReferences(nodes, out);
    case Record | Choice | Component | Foreign =>
  }
}
