/** Which expressions read a signal, and which functions do so transitively. */
module Reads {
  import opened Hir

  /** The binders that are read through the graph, and those the address fold
      made constants. */
  datatype Binders = Binders(folded: set<LocalId>, locals: set<LocalId>)

  /** What the read walk consults. */
  datatype Facts = Facts(binders: Binders, functions: set<DefId>)

  predicate IsReactiveSignal(hir: Hir, d: DefId) {
    d < |hir.defs| && hir.defs[d].Signal? && hir.defs[d].placement != Static
  }

  predicate IsFunction(hir: Hir, d: DefId) {
    d < |hir.defs| && hir.defs[d].Function?
  }

  predicate IsCallable(hir: Hir, d: DefId) {
    d < |hir.defs| && (hir.defs[d].Function? || hir.defs[d].Release?)
  }

  predicate DefIsReactive(hir: Hir, facts: Facts, d: DefId) {
    d < |hir.defs| &&
    match hir.defs[d]
    case Signal(_, _, _) => IsReactiveSignal(hir, d)
    case Function(_) => d in facts.functions
    case Release(_) => d in facts.functions
    case View(_) | Record | Choice | Component | Foreign => false
  }

  predicate LocalIsReactive(binders: Binders, res: Res) {
    res.Local? && res.local in binders.locals && res.local !in binders.folded
  }

  predicate ResIsReactive(hir: Hir, facts: Facts, res: Res) {
    match res
    case Def(def) => DefIsReactive(hir, facts, def)
    case Local(local) => local in facts.binders.locals && local !in facts.binders.folded
    case Variant(_, _) | BuiltinVariant | Builtin => false
  }

  predicate ReadsSignal(hir: Hir, facts: Facts, e: Expr)
    decreases e
  {
    match e
    case Number | Text | Truth | Empty => false
    case Address => false
    case Media => true
    case Scroll => true
    case Conditional(c, v, o) =>
      ReadsSignal(hir, facts, c) || ReadsSignal(hir, facts, v) || ReadsSignal(hir, facts, o)
    case List(items) => AnyReads(hir, facts, items)
    case Map(entries) => AnyEntryReads(hir, facts, entries)
    case Environment => true
    case Outbound(args) => AnyReads(hir, facts, args)
    case Build(argument) => ReadsSignal(hir, facts, argument)
    case Ref(res) => ResIsReactive(hir, facts, res)
    case Call(callee, args) => ResIsReactive(hir, facts, callee) || AnyReads(hir, facts, args)
    case OfCall(callee, operand) => ResIsReactive(hir, facts, callee) || ReadsSignal(hir, facts, operand)
    case Operator(operand) => ReadsSignal(hir, facts, operand)
    case Unary(operand) => ReadsSignal(hir, facts, operand)
    case Binary(l, r) => ReadsSignal(hir, facts, l) || ReadsSignal(hir, facts, r)
    case Field(base) => ReadsSignal(hir, facts, base)
    case Index(base, index) => ReadsSignal(hir, facts, base) || ReadsSignal(hir, facts, index)
    case Append(item, list) => ReadsSignal(hir, facts, item) || ReadsSignal(hir, facts, list)
    case Insert(key, value, table) =>
      ReadsSignal(hir, facts, key) || ReadsSignal(hir, facts, value) || ReadsSignal(hir, facts, table)
    case MapInside(source, to) => ReadsSignal(hir, facts, source) || ReadsSignal(hir, facts, to)
  }

  predicate AnyReads(hir: Hir, facts: Facts, es: seq<Expr>)
    decreases es
  {
    es != [] && (ReadsSignal(hir, facts, es[0]) || AnyReads(hir, facts, es[1..]))
  }

  predicate AnyEntryReads(hir: Hir, facts: Facts, es: seq<Entry>)
    decreases es
  {
    es != [] && (EntryReads(hir, facts, es[0]) || AnyEntryReads(hir, facts, es[1..]))
  }

  predicate EntryReads(hir: Hir, facts: Facts, entry: Entry)
    decreases entry
  {
    ReadsSignal(hir, facts, entry.key) || ReadsSignal(hir, facts, entry.value)
  }

  predicate PathReads(hir: Hir, facts: Facts, path: seq<PathSeg>) {
    path != [] &&
    ((path[0].IndexSeg? && ReadsSignal(hir, facts, path[0].index)) || PathReads(hir, facts, path[1..]))
  }

  predicate StmtReads(hir: Hir, facts: Facts, s: Stmt)
    decreases s
  {
    match s
    case Give(e) => ReadsSignal(hir, facts, e)
    case Pipe(clause) => AnyReads(hir, facts, PipelineExprs(clause))
    case Mutation(_, path, value) => ReadsSignal(hir, facts, value) || PathReads(hir, facts, path)
    case When(scrutinee, arms) => ReadsSignal(hir, facts, scrutinee) || ArmsRead(hir, facts, arms)
    case Bind(values) => AnyReads(hir, facts, values)
    case Do(call) => ReadsSignal(hir, facts, call)
    case Each(iter, body) => ReadsSignal(hir, facts, iter) || BlockReadsSignal(hir, facts, body)
    case If(cond, then_, otherwise) =>
      || ReadsSignal(hir, facts, cond)
      || BlockReadsSignal(hir, facts, then_)
      || (otherwise.Else? && BlockReadsSignal(hir, facts, otherwise.block))
  }

  predicate ArmsRead(hir: Hir, facts: Facts, arms: seq<Arm>)
    decreases arms
  {
    arms != [] && (ArmReads(hir, facts, arms[0]) || ArmsRead(hir, facts, arms[1..]))
  }

  predicate ArmReads(hir: Hir, facts: Facts, arm: Arm)
    decreases arm
  {
    match arm
    case ShowArm(e) => ReadsSignal(hir, facts, e)
    case BlockArm(b) => BlockReadsSignal(hir, facts, b)
  }

  predicate BlockReadsSignal(hir: Hir, facts: Facts, block: Block)
    decreases block
  {
    block != [] && (StmtReads(hir, facts, block[0]) || BlockReadsSignal(hir, facts, block[1..]))
  }

  // ---- the same verdict, told by what the reference walk finds ----

  /** The expression mentions something that changes without a definition: the
      browser's answers, the deployment's environment, or a reactive binder. */
  predicate Mentions(binders: Binders, e: Expr)
    decreases e
  {
    match e
    case Number | Text | Truth | Empty | Address => false
    case Media | Scroll | Environment => true
    case Conditional(c, v, o) => Mentions(binders, c) || Mentions(binders, v) || Mentions(binders, o)
    case List(items) => AnyMentions(binders, items)
    case Map(entries) => AnyEntryMentions(binders, entries)
    case Outbound(args) => AnyMentions(binders, args)
    case Build(argument) => Mentions(binders, argument)
    case Ref(res) => LocalIsReactive(binders, res)
    case Call(callee, args) => LocalIsReactive(binders, callee) || AnyMentions(binders, args)
    case OfCall(callee, operand) => LocalIsReactive(binders, callee) || Mentions(binders, operand)
    case Operator(operand) => Mentions(binders, operand)
    case Unary(operand) => Mentions(binders, operand)
    case Binary(l, r) => Mentions(binders, l) || Mentions(binders, r)
    case Field(base) => Mentions(binders, base)
    case Index(base, index) => Mentions(binders, base) || Mentions(binders, index)
    case Append(item, list) => Mentions(binders, item) || Mentions(binders, list)
    case Insert(key, value, table) => Mentions(binders, key) || Mentions(binders, value) || Mentions(binders, table)
    case MapInside(source, to) => Mentions(binders, source) || Mentions(binders, to)
  }

  predicate AnyMentions(binders: Binders, es: seq<Expr>)
    decreases es
  {
    es != [] && (Mentions(binders, es[0]) || AnyMentions(binders, es[1..]))
  }

  predicate AnyEntryMentions(binders: Binders, es: seq<Entry>)
    decreases es
  {
    es != [] && (EntryMentions(binders, es[0]) || AnyEntryMentions(binders, es[1..]))
  }

  predicate EntryMentions(binders: Binders, entry: Entry)
    decreases entry
  {
    Mentions(binders, entry.key) || Mentions(binders, entry.value)
  }

  predicate PathMentions(binders: Binders, path: seq<PathSeg>) {
    path != [] && ((path[0].IndexSeg? && Mentions(binders, path[0].index)) || PathMentions(binders, path[1..]))
  }

  predicate ClauseMentions(binders: Binders, clause: Pipeline)
    decreases clause
  {
    match clause
    case From(source) => Mentions(binders, source)
    case Keep(cond) => Mentions(binders, cond)
    case Sort(key) => Mentions(binders, key)
    case MapEach(to) => Mentions(binders, to)
    case TakeFirst(count) => Mentions(binders, count)
    case Fold(starting, step) => Mentions(binders, starting) || Mentions(binders, step)
  }

  predicate StmtMentions(binders: Binders, s: Stmt)
    decreases s
  {
    match s
    case Give(e) => Mentions(binders, e)
    case Pipe(clause) => ClauseMentions(binders, clause)
    case Mutation(_, path, value) => Mentions(binders, value) || PathMentions(binders, path)
    case When(scrutinee, arms) => Mentions(binders, scrutinee) || ArmsMention(binders, arms)
    case Bind(values) => AnyMentions(binders, values)
    case Do(call) => Mentions(binders, call)
    case Each(iter, body) => Mentions(binders, iter) || BlockMentions(binders, body)
    case If(cond, then_, otherwise) =>
      || Mentions(binders, cond)
      || BlockMentions(binders, then_)
      || (otherwise.Else? && BlockMentions(binders, otherwise.block))
  }

  predicate ArmsMention(binders: Binders, arms: seq<Arm>)
    decreases arms
  {
    arms != [] && (ArmMentions(binders, arms[0]) || ArmsMention(binders, arms[1..]))
  }

  predicate ArmMentions(binders: Binders, arm: Arm)
    decreases arm
  {
    match arm
    case ShowArm(e) => Mentions(binders, e)
    case BlockArm(b) => BlockMentions(binders, b)
  }

  predicate BlockMentions(binders: Binders, block: Block)
    decreases block
  {
    block != [] && (StmtMentions(binders, block[0]) || BlockMentions(binders, block[1..]))
  }

  function ClauseRefs(clause: Pipeline): seq<DefId> {
    match clause
    case From(source) => ExprRefs(source)
    case Keep(cond) => ExprRefs(cond)
    case Sort(key) => ExprRefs(key)
    case MapEach(to) => ExprRefs(to)
    case TakeFirst(count) => ExprRefs(count)
    case Fold(starting, step) => ExprRefs(starting) + ExprRefs(step)
  }

  lemma ClauseRefsAre(clause: Pipeline)
    ensures ClauseRefs(clause) == ExprsRefs(PipelineExprs(clause))
  {
    if clause.Fold? {
      assert [clause.starting, clause.step][1..] == [clause.step] && [clause.step][1..] == [];
      assert ExprsRefs([clause.step]) == ExprRefs(clause.step) + [];
    } else {
      var es := PipelineExprs(clause);
      assert es[1..] == [] && ExprsRefs(es) == ExprRefs(es[0]) + [];
    }
  }

  /** What a statement reads: its references, less the storage a mutation writes. */
  function StmtReadRefs(s: Stmt): seq<DefId>
    decreases s
  {
    match s
    case Give(e) => ExprRefs(e)
    case Pipe(clause) => ClauseRefs(clause)
    case Bind(values) => ExprsRefs(values)
    case Do(call) => ExprRefs(call)
    case Mutation(_, path, value) => ExprRefs(value) + PathRefs(path)
    case When(scrutinee, arms) => ExprRefs(scrutinee) + ArmsReadRefs(arms)
    case Each(iter, body) => ExprRefs(iter) + BlockReadRefs(body)
    case If(cond, then_, otherwise) =>
      ExprRefs(cond) + BlockReadRefs(then_) + (match otherwise case NoElse => [] case Else(b) => BlockReadRefs(b))
  }

  function ArmsReadRefs(arms: seq<Arm>): seq<DefId>
    decreases arms
  {
    if arms == [] then [] else ArmReadRefs(arms[0]) + ArmsReadRefs(arms[1..])
  }

  function ArmReadRefs(arm: Arm): seq<DefId>
    decreases arm
  {
    match arm
    case ShowArm(e) => ExprRefs(e)
    case BlockArm(b) => BlockReadRefs(b)
  }

  function BlockReadRefs(block: Block): seq<DefId>
    decreases block
  {
    if block == [] then [] else StmtReadRefs(block[0]) + BlockReadRefs(block[1..])
  }

  predicate AnyReactive(hir: Hir, facts: Facts, ds: seq<DefId>) {
    exists d :: d in ds && DefIsReactive(hir, facts, d)
  }

  lemma AnyReactiveConcat(hir: Hir, facts: Facts, a: seq<DefId>, b: seq<DefId>)
    ensures AnyReactive(hir, facts, a + b) <==> AnyReactive(hir, facts, a) || AnyReactive(hir, facts, b)
  {
  }

  /** The two walks agree on every expression: it reads a signal exactly when it
      mentions a changing thing itself or the reference walk finds a reactive
      definition. */
  lemma {:induction false} WalksAgree(hir: Hir, facts: Facts, e: Expr)
    ensures ReadsSignal(hir, facts, e) <==> Mentions(facts.binders, e) || AnyReactive(hir, facts, ExprRefs(e))
    decreases e, 1
  {
    if IsOperation(e) {
      OperationsAgree(hir, facts, e);
    } else {
      match e {
        case Conditional(c, v, o) =>
          WalksAgree(hir, facts, c);
          WalksAgree(hir, facts, v);
          WalksAgree(hir, facts, o);
          AnyReactiveConcat(hir, facts, ExprRefs(c), ExprRefs(v));
          AnyReactiveConcat(hir, facts, ExprRefs(c) + ExprRefs(v), ExprRefs(o));
        case Insert(key, value, table) =>
          WalksAgree(hir, facts, key);
          WalksAgree(hir, facts, value);
          WalksAgree(hir, facts, table);
          AnyReactiveConcat(hir, facts, ExprRefs(key), ExprRefs(value));
          AnyReactiveConcat(hir, facts, ExprRefs(key) + ExprRefs(value), ExprRefs(table));
        case Call(callee, args) =>
          ResAgrees(hir, facts, callee);
          ListsAgree(hir, facts, args);
          AnyReactiveConcat(hir, facts, ResRefs(callee), ExprsRefs(args));
        case OfCall(callee, operand) =>
          ResAgrees(hir, facts, callee);
          WalksAgree(hir, facts, operand);
          AnyReactiveConcat(hir, facts, ResRefs(callee), ExprRefs(operand));
        case List(items) => ListsAgree(hir, facts, items);
        case Map(entries) => EntriesAgree(hir, facts, entries);
        case Ref(res) => ResAgrees(hir, facts, res);
        case Outbound(args) => ListsAgree(hir, facts, args);
      }
    }
  }

  /** Constants, the browser's answers, and operators over one or two operands. */
  predicate IsOperation(e: Expr) {
    !(e.Conditional? || e.Insert? || e.Call? || e.OfCall? || e.List? || e.Map? || e.Ref? || e.Outbound?)
  }

  lemma {:induction false} OperationsAgree(hir: Hir, facts: Facts, e: Expr)
    requires IsOperation(e)
    ensures ReadsSignal(hir, facts, e) <==> Mentions(facts.binders, e) || AnyReactive(hir, facts, ExprRefs(e))
    decreases e, 0
  {
    match e {
      case Number | Text | Truth | Empty | Environment | Address | Media | Scroll =>
      case Build(argument) => WalksAgree(hir, facts, argument);
      case Operator(operand) => WalksAgree(hir, facts, operand);
      case Unary(operand) => WalksAgree(hir, facts, operand);
      case Binary(l, r) =>
        WalksAgree(hir, facts, l);
        WalksAgree(hir, facts, r);
        AnyReactiveConcat(hir, facts, ExprRefs(l), ExprRefs(r));
      case Field(base) => WalksAgree(hir, facts, base);
      case Index(base, index) =>
        WalksAgree(hir, facts, base);
        WalksAgree(hir, facts, index);
        AnyReactiveConcat(hir, facts, ExprRefs(base), ExprRefs(index));
      case Append(item, list) =>
        WalksAgree(hir, facts, item);
        WalksAgree(hir, facts, list);
        AnyReactiveConcat(hir, facts, ExprRefs(item), ExprRefs(list));
      case MapInside(source, to) =>
        WalksAgree(hir, facts, source);
        WalksAgree(hir, facts, to);
        AnyReactiveConcat(hir, facts, ExprRefs(source), ExprRefs(to));
    }
  }

  lemma ResAgrees(hir: Hir, facts: Facts, res: Res)
    ensures ResIsReactive(hir, facts, res) <==>
            LocalIsReactive(facts.binders, res) || AnyReactive(hir, facts, ResRefs(res))
  {
    if res.Def? {
      assert res.def in ResRefs(res);
    }
  }

  lemma {:induction false} ListsAgree(hir: Hir, facts: Facts, es: seq<Expr>)
    ensures AnyReads(hir, facts, es) <==> AnyMentions(facts.binders, es) || AnyReactive(hir, facts, ExprsRefs(es))
    decreases es
  {
    if es != [] {
      WalksAgree(hir, facts, es[0]);
      ListsAgree(hir, facts, es[1..]);
      AnyReactiveConcat(hir, facts, ExprRefs(es[0]), ExprsRefs(es[1..]));
    }
  }

  lemma {:induction false} EntriesAgree(hir: Hir, facts: Facts, es: seq<Entry>)
    ensures AnyEntryReads(hir, facts, es) <==>
            AnyEntryMentions(facts.binders, es) || AnyReactive(hir, facts, EntriesRefs(es))
    decreases es
  {
    if es != [] {
      EntryAgrees(hir, facts, es[0]);
      EntriesAgree(hir, facts, es[1..]);
      AnyReactiveConcat(hir, facts, EntryRefs(es[0]), EntriesRefs(es[1..]));
    }
  }

  lemma {:induction false} EntryAgrees(hir: Hir, facts: Facts, entry: Entry)
    ensures EntryReads(hir, facts, entry) <==>
            EntryMentions(facts.binders, entry) || AnyReactive(hir, facts, EntryRefs(entry))
    decreases entry
  {
    WalksAgree(hir, facts, entry.key);
    WalksAgree(hir, facts, entry.value);
    AnyReactiveConcat(hir, facts, ExprRefs(entry.key), ExprRefs(entry.value));
  }

  lemma {:induction false} PathsAgree(hir: Hir, facts: Facts, path: seq<PathSeg>)
    ensures PathReads(hir, facts, path) <==>
            PathMentions(facts.binders, path) || AnyReactive(hir, facts, PathRefs(path))
  {
    if path != [] {
      PathsAgree(hir, facts, path[1..]);
      if path[0].IndexSeg? {
        WalksAgree(hir, facts, path[0].index);
      }
      AnyReactiveConcat(hir, facts, if path[0].IndexSeg? then ExprRefs(path[0].index) else [], PathRefs(path[1..]));
    }
  }

  lemma ClauseAgrees(hir: Hir, facts: Facts, clause: Pipeline)
    ensures AnyReads(hir, facts, PipelineExprs(clause)) <==>
            ClauseMentions(facts.binders, clause) || AnyReactive(hir, facts, ClauseRefs(clause))
  {
    match clause
    case From(source) => OneAgrees(hir, facts, source);
    case Keep(cond) => OneAgrees(hir, facts, cond);
    case Sort(key) => OneAgrees(hir, facts, key);
    case MapEach(to) => OneAgrees(hir, facts, to);
    case TakeFirst(count) => OneAgrees(hir, facts, count);
    case Fold(starting, step) =>
      WalksAgree(hir, facts, starting);
      WalksAgree(hir, facts, step);
      AnyReactiveConcat(hir, facts, ExprRefs(starting), ExprRefs(step));
      var es := [starting, step];
      assert es[1..] == [step] && [step][1..] == [] && !AnyReads(hir, facts, []);
      assert AnyReads(hir, facts, [step]) <==> ReadsSignal(hir, facts, step);
      assert AnyReads(hir, facts, es) <==> ReadsSignal(hir, facts, starting) || AnyReads(hir, facts, [step]);
  }

  lemma OneAgrees(hir: Hir, facts: Facts, e: Expr)
    ensures AnyReads(hir, facts, [e]) <==> Mentions(facts.binders, e) || AnyReactive(hir, facts, ExprRefs(e))
  {
    WalksAgree(hir, facts, e);
    assert [e][1..] == [];
  }

  lemma {:induction false} StmtWalksAgree(hir: Hir, facts: Facts, s: Stmt)
    ensures StmtReads(hir, facts, s) <==> StmtMentions(facts.binders, s) || AnyReactive(hir, facts, StmtReadRefs(s))
    decreases s
  {
    match s
    case Give(e) => WalksAgree(hir, facts, e);
    case Pipe(clause) => ClauseAgrees(hir, facts, clause);
    case Bind(values) => ListsAgree(hir, facts, values);
    case Do(call) => WalksAgree(hir, facts, call);
    case Mutation(_, path, value) =>
      WalksAgree(hir, facts, value);
      PathsAgree(hir, facts, path);
      AnyReactiveConcat(hir, facts, ExprRefs(value), PathRefs(path));
    case When(scrutinee, arms) =>
      WalksAgree(hir, facts, scrutinee);
      ArmWalksAgree(hir, facts, arms);
      AnyReactiveConcat(hir, facts, ExprRefs(scrutinee), ArmsReadRefs(arms));
    case Each(iter, body) =>
      WalksAgree(hir, facts, iter);
      BlockWalksAgree(hir, facts, body);
      AnyReactiveConcat(hir, facts, ExprRefs(iter), BlockReadRefs(body));
    case If(cond, then_, otherwise) =>
      WalksAgree(hir, facts, cond);
      BlockWalksAgree(hir, facts, then_);
      AnyReactiveConcat(hir, facts, ExprRefs(cond), BlockReadRefs(then_));
      match otherwise {
        case NoElse =>
        case Else(b) =>
          BlockWalksAgree(hir, facts, b);
          AnyReactiveConcat(hir, facts, ExprRefs(cond) + BlockReadRefs(then_), BlockReadRefs(b));
      }
  }

  lemma {:induction false} ArmWalksAgree(hir: Hir, facts: Facts, arms: seq<Arm>)
    ensures ArmsRead(hir, facts, arms) <==>
            ArmsMention(facts.binders, arms) || AnyReactive(hir, facts, ArmsReadRefs(arms))
    decreases arms
  {
    if arms != [] {
      ArmWalkAgrees(hir, facts, arms[0]);
      ArmWalksAgree(hir, facts, arms[1..]);
      AnyReactiveConcat(hir, facts, ArmReadRefs(arms[0]), ArmsReadRefs(arms[1..]));
    }
  }

  lemma {:induction false} ArmWalkAgrees(hir: Hir, facts: Facts, arm: Arm)
    ensures ArmReads(hir, facts, arm) <==> ArmMentions(facts.binders, arm) || AnyReactive(hir, facts, ArmReadRefs(arm))
    decreases arm
  {
    match arm
    case ShowArm(e) => WalksAgree(hir, facts, e);
    case BlockArm(b) => BlockWalksAgree(hir, facts, b);
  }

  lemma {:induction false} BlockWalksAgree(hir: Hir, facts: Facts, block: Block)
    ensures BlockReadsSignal(hir, facts, block) <==>
            BlockMentions(facts.binders, block) || AnyReactive(hir, facts, BlockReadRefs(block))
    decreases block
  {
    if block != [] {
      StmtWalksAgree(hir, facts, block[0]);
      BlockWalksAgree(hir, facts, block[1..]);
      AnyReactiveConcat(hir, facts, StmtReadRefs(block[0]), BlockReadRefs(block[1..]));
    }
  }
}
