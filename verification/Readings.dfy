/** What reads a signal, told by its parts: a part at some depth changes by itself, or
    refers to, calls or applies something that does. */
module Readings {
  import opened Wrappers
  import opened Hir
  import opened Reads
  import Parts = Mentions

  /** What changes: a signal that is not `static`, a function or a release known to read
      one, and a reactive binder the address does not fix. */
  predicate Changes(hir: Hir, facts: Facts, res: Res) {
    || (res.Def? && res.def < |hir.defs| && hir.defs[res.def].Signal? && hir.defs[res.def].placement != Static)
    || (res.Def? && res.def < |hir.defs| && hir.defs[res.def].Function? && res.def in facts.functions)
    || (res.Def? && res.def < |hir.defs| && hir.defs[res.def].Release? && res.def in facts.functions)
    || (res.Local? && res.local in facts.binders.locals && res.local !in facts.binders.folded)
  }

  /** The visitor's settings, the scroll position and the environment change without a
      definition; the address of a document does not. */
  predicate ChangesItself(hir: Hir, facts: Facts, e: Expr) {
    || e.Media? || e.Scroll? || e.Environment?
    || (e.Ref? && Changes(hir, facts, e.res))
    || (e.Call? && Changes(hir, facts, e.callee))
    || (e.OfCall? && Changes(hir, facts, e.function_))
  }

  function Changing(hir: Hir, facts: Facts): Expr -> bool {
    e => ChangesItself(hir, facts, e)
  }

  ghost predicate SomeReads(hir: Hir, facts: Facts, es: seq<Expr>) {
    exists e :: e in es && ReadsSignal(hir, facts, e)
  }

  lemma SomeReadsOf(hir: Hir, facts: Facts, a: seq<Expr>, b: seq<Expr>)
    ensures SomeReads(hir, facts, a + b) <==> SomeReads(hir, facts, a) || SomeReads(hir, facts, b)
  {
    assert forall e :: e in a + b <==> e in a || e in b;
  }

  lemma SomeReadsOne(hir: Hir, facts: Facts, e: Expr)
    ensures SomeReads(hir, facts, [e]) <==> ReadsSignal(hir, facts, e)
  {
    assert e in [e];
  }

  lemma {:induction false} ListReads(hir: Hir, facts: Facts, es: seq<Expr>)
    ensures AnyReads(hir, facts, es) <==> SomeReads(hir, facts, es)
  {
    if es != [] {
      ListReads(hir, facts, es[1..]);
      SomeReadsOne(hir, facts, es[0]);
      SomeReadsOf(hir, facts, [es[0]], es[1..]);
      HeadBack(es);
    }
  }

  lemma {:induction false} EntriesRead(hir: Hir, facts: Facts, entries: seq<Entry>)
    ensures AnyEntryReads(hir, facts, entries) <==>
            SomeReads(hir, facts, Parts.Keys(entries)) || SomeReads(hir, facts, Parts.Values(entries))
  {
    if entries != [] {
      var head, tail := entries[0], entries[1..];
      EntriesRead(hir, facts, tail);
      SomeReadsOne(hir, facts, head.key);
      SomeReadsOne(hir, facts, head.value);
      SomeReadsOf(hir, facts, [head.key], Parts.Keys(tail));
      SomeReadsOf(hir, facts, [head.value], Parts.Values(tail));
    }
  }

  lemma TwoRead(hir: Hir, facts: Facts, a: Expr, b: Expr)
    ensures SomeReads(hir, facts, [a] + [b]) <==> ReadsSignal(hir, facts, a) || ReadsSignal(hir, facts, b)
  {
    SomeReadsOf(hir, facts, [a], [b]);
    SomeReadsOne(hir, facts, a);
    SomeReadsOne(hir, facts, b);
  }

  lemma ThreeRead(hir: Hir, facts: Facts, a: Expr, b: Expr, c: Expr)
    ensures SomeReads(hir, facts, [a] + [b] + [c]) <==>
            ReadsSignal(hir, facts, a) || ReadsSignal(hir, facts, b) || ReadsSignal(hir, facts, c)
  {
    SomeReadsOf(hir, facts, [a] + [b], [c]);
    SomeReadsOne(hir, facts, c);
    TwoRead(hir, facts, a, b);
  }

  lemma ReadsOneLevel(hir: Hir, facts: Facts, e: Expr)
    ensures ReadsSignal(hir, facts, e) <==>
            ChangesItself(hir, facts, e) || SomeReads(hir, facts, Parts.Operands(e))
  {
    match e
    case List(items) => ListReads(hir, facts, items);
    case Call(_, args) => ListReads(hir, facts, args);
    case Outbound(args) => ListReads(hir, facts, args);
    case Map(entries) =>
      EntriesRead(hir, facts, entries);
      SomeReadsOf(hir, facts, Parts.Keys(entries), Parts.Values(entries));
    case Conditional(condition, value, otherwise) => ThreeRead(hir, facts, condition, value, otherwise);
    case Insert(key, value, table) => ThreeRead(hir, facts, key, value, table);
    case _ => FewRead(hir, facts, e);
  }

  lemma FewRead(hir: Hir, facts: Facts, e: Expr)
    requires !e.List? && !e.Call? && !e.Outbound? && !e.Map? && !e.Conditional? && !e.Insert?
    ensures ReadsSignal(hir, facts, e) <==>
            ChangesItself(hir, facts, e) || SomeReads(hir, facts, Parts.Operands(e))
  {
    var operands := Parts.Operands(e);
    if |operands| == 1 {
      SomeReadsOne(hir, facts, operands[0]);
    } else if |operands| == 2 {
      TwoRead(hir, facts, operands[0], operands[1]);
    }
  }

  /** An expression reads a signal exactly when some part of it, however deep, changes. */
  lemma {:induction false} ReadsIffChanges(hir: Hir, facts: Facts, e: Expr)
    ensures ReadsSignal(hir, facts, e) <==> Parts.Holds(e, Parts.Operands, Changing(hir, facts))
    decreases e
  {
    ReadsOneLevel(hir, facts, e);
    Parts.HoldsIff(e, Parts.Operands, Changing(hir, facts));
    forall part | part in Parts.Operands(e)
      ensures ReadsSignal(hir, facts, part) <==> Parts.Holds(part, Parts.Operands, Changing(hir, facts))
    {
      Parts.OperandIsSmaller(e, part);
      ReadsIffChanges(hir, facts, part);
    }
  }

  // ---- statements ----

  /** A statement reads by itself when an expression in it has a part that changes; what
      it writes to is not read. */
  ghost predicate StmtChanges(hir: Hir, facts: Facts, s: Stmt) {
    exists e :: e in Parts.StmtExprs(s) && Parts.Holds(e, Parts.Operands, Changing(hir, facts))
  }

  ghost function StmtChanging(hir: Hir, facts: Facts): Stmt -> bool {
    s => StmtChanges(hir, facts, s)
  }

  ghost predicate SomeStmtReads(hir: Hir, facts: Facts, block: seq<Stmt>) {
    exists s :: s in block && StmtReads(hir, facts, s)
  }

  lemma SomeStmtReadsOf(hir: Hir, facts: Facts, a: seq<Stmt>, b: seq<Stmt>)
    ensures SomeStmtReads(hir, facts, a + b) <==> SomeStmtReads(hir, facts, a) || SomeStmtReads(hir, facts, b)
  {
    assert forall s :: s in a + b <==> s in a || s in b;
  }

  lemma {:induction false} BlockReads(hir: Hir, facts: Facts, block: Block)
    ensures BlockReadsSignal(hir, facts, block) <==> SomeStmtReads(hir, facts, block)
  {
    if block != [] {
      BlockReads(hir, facts, block[1..]);
      assert block[0] in [block[0]];
      SomeStmtReadsOf(hir, facts, [block[0]], block[1..]);
      HeadBack(block);
    }
  }

  lemma {:induction false} IndicesRead(hir: Hir, facts: Facts, path: seq<PathSeg>)
    ensures PathReads(hir, facts, path) <==> SomeReads(hir, facts, Parts.PathExprs(path))
  {
    if path != [] {
      IndicesRead(hir, facts, path[1..]);
      if path[0].IndexSeg? {
        SomeReadsOne(hir, facts, path[0].index);
        SomeReadsOf(hir, facts, [path[0].index], Parts.PathExprs(path[1..]));
      } else {
        assert [] + Parts.PathExprs(path[1..]) == Parts.PathExprs(path[1..]);
      }
    }
  }

  lemma {:induction false} ArmsReadIff(hir: Hir, facts: Facts, arms: seq<Arm>)
    ensures ArmsRead(hir, facts, arms) <==>
            SomeReads(hir, facts, Parts.ArmExprs(arms)) || SomeStmtReads(hir, facts, Parts.ArmStmts(arms))
  {
    if arms != [] {
      ArmsReadIff(hir, facts, arms[1..]);
      match arms[0]
      case ShowArm(e) =>
        SomeReadsOne(hir, facts, e);
        SomeReadsOf(hir, facts, [e], Parts.ArmExprs(arms[1..]));
        assert [] + Parts.ArmStmts(arms[1..]) == Parts.ArmStmts(arms[1..]);
      case BlockArm(block) =>
        BlockReads(hir, facts, block);
        SomeStmtReadsOf(hir, facts, block, Parts.ArmStmts(arms[1..]));
        assert [] + Parts.ArmExprs(arms[1..]) == Parts.ArmExprs(arms[1..]);
    }
  }

  lemma ClauseReads(hir: Hir, facts: Facts, clause: Pipeline)
    ensures AnyReads(hir, facts, PipelineExprs(clause)) <==> SomeReads(hir, facts, Parts.ClauseExprs(clause))
  {
    ListReads(hir, facts, PipelineExprs(clause));
    if clause.Fold? {
      assert [clause.starting] + [clause.step] == [clause.starting, clause.step];
    }
  }

  lemma StmtReadsOneLevel(hir: Hir, facts: Facts, s: Stmt)
    ensures StmtReads(hir, facts, s) <==>
            SomeReads(hir, facts, Parts.StmtExprs(s)) || SomeStmtReads(hir, facts, Parts.StmtParts(s))
  {
    match s
    case Give(e) => SomeReadsOne(hir, facts, e);
    case Do(call) => SomeReadsOne(hir, facts, call);
    case Pipe(clause) => ClauseReads(hir, facts, clause);
    case Bind(values) => ListReads(hir, facts, values);
    case Mutation(_, path, value) =>
      IndicesRead(hir, facts, path);
      SomeReadsOne(hir, facts, value);
      SomeReadsOf(hir, facts, [value], Parts.PathExprs(path));
    case When(scrutinee, arms) =>
      ArmsReadIff(hir, facts, arms);
      SomeReadsOne(hir, facts, scrutinee);
      SomeReadsOf(hir, facts, [scrutinee], Parts.ArmExprs(arms));
    case Each(iter, body) =>
      SomeReadsOne(hir, facts, iter);
      BlockReads(hir, facts, body);
    case If(cond, then_, otherwise) =>
      SomeReadsOne(hir, facts, cond);
      BlockReads(hir, facts, then_);
      BlockReads(hir, facts, Parts.ElseStmts(otherwise));
      SomeStmtReadsOf(hir, facts, then_, Parts.ElseStmts(otherwise));
  }

  lemma StmtChangesIff(hir: Hir, facts: Facts, s: Stmt)
    ensures StmtChanges(hir, facts, s) <==> SomeReads(hir, facts, Parts.StmtExprs(s))
  {
    forall e | e in Parts.StmtExprs(s)
      ensures ReadsSignal(hir, facts, e) <==> Parts.Holds(e, Parts.Operands, Changing(hir, facts))
    {
      ReadsIffChanges(hir, facts, e);
    }
  }

  /** A statement reads a signal exactly when a statement in it, at whatever depth, has an
      expression with a part that changes. */
  lemma {:induction false} StmtReadsIffChanges(hir: Hir, facts: Facts, s: Stmt)
    ensures StmtReads(hir, facts, s) <==> Parts.Holds(s, Parts.StmtParts, StmtChanging(hir, facts))
    decreases s
  {
    StmtReadsOneLevel(hir, facts, s);
    StmtChangesIff(hir, facts, s);
    Parts.HoldsIff(s, Parts.StmtParts, StmtChanging(hir, facts));
    forall part | part in Parts.StmtParts(s)
      ensures StmtReads(hir, facts, part) <==> Parts.Holds(part, Parts.StmtParts, StmtChanging(hir, facts))
    {
      Parts.StmtPartIsSmaller(s, part);
      StmtReadsIffChanges(hir, facts, part);
    }
  }

  /** And a body when one of its statements does. */
  lemma BodyReadsIffChanges(hir: Hir, facts: Facts, body: Block)
    ensures BlockReadsSignal(hir, facts, body) <==>
            Parts.SomeHolds(body, Parts.StmtParts, StmtChanging(hir, facts))
  {
    BlockReads(hir, facts, body);
    forall s | s in body
      ensures StmtReads(hir, facts, s) <==> Parts.Holds(s, Parts.StmtParts, StmtChanging(hir, facts))
    {
      StmtReadsIffChanges(hir, facts, s);
    }
  }

  /** Both fields of a fold are read and referenced, and nothing else is. */
  lemma FoldReadsBoth(hir: Hir, facts: Facts, starting: Expr, step: Expr, d: DefId)
    ensures StmtReads(hir, facts, Pipe(Fold(starting, step))) <==>
            ReadsSignal(hir, facts, starting) || ReadsSignal(hir, facts, step)
    ensures d in StmtRefs(Pipe(Fold(starting, step))) <==> d in ExprRefs(starting) || d in ExprRefs(step)
  {
    ClauseReads(hir, facts, Fold(starting, step));
    TwoRead(hir, facts, starting, step);
    Parts.ClausePushes(Fold(starting, step), d);
    Parts.TwoPush(starting, step, d);
  }
}
