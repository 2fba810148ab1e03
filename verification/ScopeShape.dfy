/**
 Evaluation may change what the bindings of a scope hold, never which bindings there are:
 on success and on failure the frames, their names, their order and their types are as
 they were found. Only a statement adds bindings, and only to the innermost frame.
 */
module ScopeShape {
  import opened Machine
  import opened Lang
  import opened Patterns
  import opened Semantics
  import opened Steps
  import opened Runs

  type Row = seq<(string, TypeIdx)>

  function RowOf(f: Frame): (r: Row)
    ensures |r| == |f|
  {
    seq(|f|, i requires 0 <= i < |f| => (f[i].name, f[i].bound.ty))
  }

  function Rows(fs: seq<Frame>): (r: seq<Row>)
    ensures |r| == |fs|
  {
    seq(|fs|, i requires 0 <= i < |fs| => RowOf(fs[i]))
  }

  ghost predicate Same(s: Scope, s': Scope) { RowOf(s.outer) == RowOf(s'.outer) && Rows(s.frames) == Rows(s'.frames) }

  /** The innermost frame may have grown; nothing else has. */
  ghost predicate Grown(s: Scope, s': Scope) {
    && RowOf(s.outer) == RowOf(s'.outer)
    && |s.frames| == |s'.frames|
    && (s.frames != [] ==>
          var n := |s.frames| - 1;
          Rows(s.frames[..n]) == Rows(s'.frames[..n]) && RowOf(s.frames[n]) <= RowOf(s'.frames[n]))
  }

  /** Statements declare; nothing else does. */
  ghost predicate Kept(t: Task, s: Scope, s': Scope) {
    if t.TStmt? || t.TStmts? then Grown(s, s') else Same(s, s')
  }

  /** The answers a task can give: in value position nothing jumps, and a `ret` was written there. */
  ghost predicate Kind(c: Ctx, t: Task, o: Out) {
    o.Stop? || ((o.Leave? && o.how == JReturn ==> Returns(t)) &&
    match t
    case TExpr(_) => o.Val? || (o.Leave? && c.stmtPos)
    case TArms(_, _, _) => o.Val? || (o.Leave? && c.stmtPos)
    case TOperands(_, _) => o.Operands?
    case TPlace(_) => o.Slot?
    case TLoop(_, _) => o.Val? || (o.Leave? && o.how == JReturn)
    case _ => o.Val? || o.Leave?)
  }

  lemma SameIsGrown(s: Scope, s': Scope)
    requires Same(s, s')
    ensures Grown(s, s')
  {
    assert |Rows(s.frames)| == |Rows(s'.frames)|;
    if s.frames != [] {
      var n := |s.frames| - 1;
      assert Rows(s.frames)[n] == Rows(s'.frames)[n];
      forall i | 0 <= i < n ensures RowOf(s.frames[i]) == RowOf(s'.frames[i]) {
        assert Rows(s.frames)[i] == Rows(s'.frames)[i];
      }
    }
  }

  lemma GrownTransitive(a: Scope, b: Scope, c: Scope)
    requires Grown(a, b) && Grown(b, c)
    ensures Grown(a, c)
  {
  }

  /** What went on inside a pushed frame is gone when it is popped. */
  lemma PopRestores(s: Scope, f: Frame, s': Scope)
    requires Grown(Push(s, f), s')
    ensures Same(s, Pop(s'))
  {
    var n := |s.frames|;
    assert Push(s, f).frames[..n] == s.frames;
  }

  lemma ExtendGrows(s: Scope, bs: Frame)
    ensures Grown(s, Extend(s, bs))
  {
    if s.frames != [] {
      var n := |s.frames| - 1;
      assert Extend(s, bs).frames[..n] == s.frames[..n];
      assert RowOf(s.frames[n]) <= RowOf(s.frames[n] + bs);
    }
  }

  lemma PutKeeps(s: Scope, l: Loc, v: Value)
    requires HasLoc(s, l)
    ensures Same(s, Put(s, l, v))
  {
    match l
    case InFrame(i, j) =>
      var f, f' := s.frames[i], Put(s, l, v).frames[i];
      assert RowOf(f) == RowOf(f');
    case InOuter(j) =>
  }

  lemma WriteKeeps(s: Scope, pl: Place, v: Value)
    ensures Same(s, WritePlace(s, pl, v))
  {
    if HasLoc(s, pl.loc) { PutKeeps(s, pl.loc, WritePath(At(s, pl.loc).value, pl.path, v)); }
  }

  lemma SameTransitive(a: Scope, b: Scope, c: Scope)
    requires Same(a, b) && Same(b, c)
    ensures Same(a, c)
  {
  }

  // ----- one step -----------------------------------------------------------------------------

  /** Every answer in the history was of its kind and kept the shape of the scope it was asked in. */
  ghost predicate KeptSoFar(p: Package, c: Ctx, t: Task, s: Scope, h: seq<Answer>) {
    forall i :: 0 <= i < |h| ==>
      var step := Resume(p, c, t, s, h[..i]);
      KeptBy(step, h[i])
  }

  ghost predicate KeptBy(step: Step, a: Answer) {
    step.Ask? && Kept(step.t, step.s, a.s) && Kind(step.c, step.t, a.o)
  }

  /** The history spelled out, answer by answer. */
  lemma Trail(p: Package, c: Ctx, t: Task, s: Scope, h: seq<Answer>)
    requires KeptSoFar(p, c, t, s, h)
    ensures |h| > 0 ==> KeptBy(Resume(p, c, t, s, []), h[0])
    ensures |h| > 1 ==> KeptBy(Resume(p, c, t, s, [h[0]]), h[1])
    ensures |h| > 2 ==> KeptBy(Resume(p, c, t, s, [h[0], h[1]]), h[2])
  {
    hide Resume;
    assert |h| > 0 ==> h[..0] == [];
    assert |h| > 1 ==> h[..1] == [h[0]];
    assert |h| > 2 ==> h[..2] == [h[0], h[1]];
  }

  /** What is left after a pushed frame is popped, from the scope the frame was pushed on. */
  lemma PopAfter(s: Scope, s1: Scope, f: Frame, s2: Scope)
    requires Same(s, s1) && Grown(Push(s1, f), s2)
    ensures Same(s, Pop(s2))
  {
    PopRestores(s1, f, s2);
    SameTransitive(s, s1, Pop(s2));
  }

  lemma CloseAfter(cond: Cond, s: Scope, s1: Scope, bs: Frame, s2: Scope)
    requires Same(s, s1) && Same(Open(cond, s1, bs), s2)
    ensures Same(s, Close(cond, s2))
  {
    if cond.Binds? {
      SameIsGrown(Push(s1, bs), s2);
      PopAfter(s, s1, bs, s2);
    } else {
      SameTransitive(s, s1, s2);
    }
  }

  lemma OperandsKeeps(p: Package, c: Ctx, e: Expr, vs: seq<Typed>, s: Scope, h: seq<Answer>)
    requires |h| <= 3 && KeptSoFar(p, c, TOperands(e, vs), s, h)
    ensures var step := ResumeOperands(p, c, e, vs, s, h);
      step.Done? ==> Same(s, step.s) && Kind(c, TOperands(e, vs), step.o)
  {
    hide ResumeExpr, ResumeArms, ResumeStmts, ResumeStmt, ResumePlace, ResumeLoop, ResumeBlock, KeptSoFar, NextOperand;
    Trail(p, c, TOperands(e, vs), s, h);
  }

  lemma ArmsKeeps(p: Package, c: Ctx, e: Expr, i: nat, v: Typed, s: Scope, h: seq<Answer>)
    requires |h| <= 3 && KeptSoFar(p, c, TArms(e, i, v), s, h)
    ensures var step := ResumeArms(p, c, e, i, v, s, h);
      step.Done? ==> Same(s, step.s) && Kind(c, TArms(e, i, v), step.o)
  {
    hide Push, Pop, RowOf, Rows;
    hide ResumeExpr, ResumeOperands, ResumeStmts, ResumeStmt, ResumePlace, ResumeLoop, ResumeBlock, KeptSoFar;
    hide MatchPattern;
    Trail(p, c, TArms(e, i, v), s, h);
    if e.Match? && i < |e.arms| && MatchPattern(p, e.arms[i].pat, v).Matched? {
      var bs := MatchPattern(p, e.arms[i].pat, v).bindings;
      if |h| > 0 {
        SameIsGrown(Push(s, bs), h[0].s);
        PopAfter(s, s, bs, h[0].s);
      }
      if |h| > 1 && Same(h[0].s, h[1].s) {
        SameIsGrown(Push(s, bs), h[1].s);
        PopAfter(s, s, bs, h[1].s);
      }
    }
  }

  lemma BlockKeeps(p: Package, c: Ctx, b: Block, s: Scope, h: seq<Answer>)
    requires |h| <= 3 && KeptSoFar(p, c, TBlock(b), s, h)
    ensures var step := ResumeBlock(c, b, s, h); step.Done? ==> Same(s, step.s) && Kind(c, TBlock(b), step.o)
  {
    hide ResumeExpr, ResumeOperands, ResumeArms, ResumeStmts, ResumeStmt, ResumePlace, ResumeLoop, KeptSoFar;
    Trail(p, c, TBlock(b), s, h);
    if |h| > 0 { PopAfter(s, s, [], h[0].s); }
  }

  lemma StmtsKeeps(p: Package, c: Ctx, b: Block, i: nat, s: Scope, h: seq<Answer>)
    requires |h| <= 3 && KeptSoFar(p, c, TStmts(b, i), s, h)
    ensures var step := ResumeStmts(p, c, b, i, s, h); step.Done? ==> Grown(s, step.s) && Kind(c, TStmts(b, i), step.o)
  {
    hide ResumeExpr, ResumeOperands, ResumeArms, ResumeStmt, ResumePlace, ResumeLoop, ResumeBlock, KeptSoFar;
    Trail(p, c, TStmts(b, i), s, h);
    SameIsGrown(s, s);
    if |h| > 0 && Same(s, h[0].s) { SameIsGrown(s, h[0].s); }
    if |h| > 1 && Grown(s, h[0].s) && Grown(h[0].s, h[1].s) { GrownTransitive(s, h[0].s, h[1].s); }
  }

  lemma AssignedKeeps(p: Package, s: Scope, pl: Place, compound: Option<BinaryOp>, v: Typed)
    ensures Same(s, Assigned(p, s, pl, compound, v).s)
  {
    hide Apply;
    WriteKeeps(s, pl, v.value);
    forall bits { WriteKeeps(s, pl, VInt(bits)); }
  }

  lemma StmtKeeps(p: Package, c: Ctx, stmt: Stmt, s: Scope, h: seq<Answer>)
    requires |h| <= 3 && KeptSoFar(p, c, TStmt(stmt), s, h)
    ensures var step := ResumeStmt(p, c, stmt, s, h); step.Done? ==> Grown(s, step.s) && Kind(c, TStmt(stmt), step.o)
  {
    hide ResumeExpr, ResumeOperands, ResumeArms, ResumeStmts, ResumePlace, ResumeLoop, ResumeBlock, KeptSoFar;
    hide BindPattern;
    Trail(p, c, TStmt(stmt), s, h);
    SameIsGrown(s, s);
    if |h| > 0 {
      var last := h[|h| - 1];
      SameIsGrown(s, last.s);
      if stmt.Decl? && last.o.Val? {
        ExtendGrows(last.s, BindPattern(p, stmt.pat, last.o.v).bindings);
        GrownTransitive(s, last.s, Extend(last.s, BindPattern(p, stmt.pat, last.o.v).bindings));
      }
      if stmt.Reassign? && last.o.Slot? && |h| > 1 && h[0].o.Val? {
        AssignedKeeps(p, last.s, last.o.place, stmt.compound, h[0].o.v);
        SameIsGrown(s, Assigned(p, last.s, last.o.place, stmt.compound, h[0].o.v).s);
      }
    }
  }

  lemma PlaceKeeps(p: Package, c: Ctx, e: Expr, s: Scope, h: seq<Answer>)
    requires |h| <= 3 && KeptSoFar(p, c, TPlace(e), s, h)
    ensures var step := ResumePlace(p, c, e, s, h); step.Done? ==> Same(s, step.s) && Kind(c, TPlace(e), step.o)
  {
    hide ResumeExpr, ResumeOperands, ResumeArms, ResumeStmts, ResumeStmt, ResumeLoop, ResumeBlock, KeptSoFar;
    Trail(p, c, TPlace(e), s, h);
  }

  lemma LoopKeeps(p: Package, c: Ctx, cond: Option<Cond>, body: Block, s: Scope, h: seq<Answer>)
    requires |h| <= 3 && KeptSoFar(p, c, TLoop(cond, body), s, h)
    ensures var step := ResumeLoop(p, c, cond, body, s, h);
      step.Done? ==> Same(s, step.s) && Kind(c, TLoop(cond, body), step.o)
  {
    hide ResumeExpr, ResumeOperands, ResumeArms, ResumeStmts, ResumeStmt, ResumePlace, ResumeBlock, KeptSoFar, Decide;
    hide Open, Close;
    Trail(p, c, TLoop(cond, body), s, h);
    if cond.Some? && |h| > 1 && h[0].o.Val? && Decide(p, cond.value, h[0].o.v).Enter? {
      CloseAfter(cond.value, s, h[0].s, Decide(p, cond.value, h[0].o.v).bindings, h[1].s);
    }
  }

  lemma IfKeeps(p: Package, c: Ctx, e: Expr, s: Scope, h: seq<Answer>)
    requires |h| <= 3 && KeptSoFar(p, c, TExpr(e), s, h) && e.If?
    ensures var step := ResumeIf(p, c, e, s, h); step.Done? ==> Same(s, step.s) && Kind(c, TExpr(e), step.o)
  {
    hide ResumeOperands, ResumeArms, ResumeStmts, ResumeStmt, ResumePlace, ResumeLoop, ResumeBlock, KeptSoFar, Decide;
    hide Open, Close;
    Trail(p, c, TExpr(e), s, h);
    if |h| > 1 && h[0].o.Val? && Decide(p, e.cond, h[0].o.v).Enter? {
      CloseAfter(e.cond, s, h[0].s, Decide(p, e.cond, h[0].o.v).bindings, h[1].s);
    }
  }

  lemma FnCallKeeps(p: Package, c: Ctx, e: Expr, fn: Callee, s: Scope, h: seq<Answer>)
    requires |h| <= 3 && KeptSoFar(p, c, TExpr(e), s, h) && e.Call? && PlanCall(p, c, e) == FnCall(fn)
    ensures var step := ResumeFnCall(p, c, e, fn, s, h); step.Done? ==> Same(s, step.s) && Kind(c, TExpr(e), step.o)
  {
    hide ResumeIf, ResumeMethodCall, ResumeStrict, ResumeLooping, PlanMethod, PlanPath, RowOf, Rows;
    hide ResumeOperands, ResumeArms, ResumeStmts, ResumeStmt, ResumePlace, ResumeLoop, ResumeBlock, KeptSoFar;
    hide BindArgs, CallPatterns;
    Trail(p, c, TExpr(e), s, h);
  }

  lemma MethodCallKeeps(p: Package, c: Ctx, e: Expr, s: Scope, h: seq<Answer>)
    requires |h| <= 3 && KeptSoFar(p, c, TExpr(e), s, h) && e.MethodCall?
    ensures var step := ResumeMethodCall(p, c, e, s, h); step.Done? ==> Same(s, step.s) && Kind(c, TExpr(e), step.o)
  {
    hide ResumeIf, ResumeFnCall, ResumeStrict, ResumeLooping, PlanMethod, PlanCall, PlanPath, RowOf, Rows;
    hide ResumeOperands, ResumeArms, ResumeStmts, ResumeStmt, ResumePlace, ResumeLoop, ResumeBlock, KeptSoFar;
    hide BindArgs, MethodPatterns;
    Trail(p, c, TExpr(e), s, h);
  }

  lemma StrictKeeps(p: Package, c: Ctx, e: Expr, s: Scope, h: seq<Answer>, tick: bool)
    requires |h| > 0 ==> KeptBy(ResumeStrict(p, c, e, s, [], tick), h[0])
    requires |h| > 1 ==> ResumeStrict(p, c, e, s, [h[0]], tick).Ask?
    ensures var step := ResumeStrict(p, c, e, s, h, tick); step.Done? ==> Same(s, step.s) && Kind(c, TExpr(e), step.o)
  {
    FinishKind(p, c, e, if |h| > 0 && h[|h| - 1].o.Operands? then h[|h| - 1].o.vs else []);
    hide Finish, InValue;
  }

  lemma FinishKind(p: Package, c: Ctx, e: Expr, vs: seq<Typed>)
    ensures Finish(p, c, e, vs).Stop? || Finish(p, c, e, vs).Val?
  {
  }

  /** The constructs that end or carry control. */
  lemma ControlKeeps(p: Package, c: Ctx, e: Expr, s: Scope, h: seq<Answer>)
    requires e.Path? || e.Return? || e.BlockExpr? || e.Match? || e.Loop? || e.While?
    requires |h| <= 3 && KeptSoFar(p, c, TExpr(e), s, h)
    ensures var step := ResumeExpr(p, c, e, s, h); step.Done? ==> Same(s, step.s) && Kind(c, TExpr(e), step.o)
  {
    hide KeptSoFar, ResumeIf, ResumeMethodCall, ResumeFnCall, ResumeStrict;
    hide ResumeOperands, ResumeArms, ResumeStmts, ResumeStmt, ResumePlace, ResumeLoop, ResumeBlock;
    hide PlanPath;
    Trail(p, c, TExpr(e), s, h);
  }

  lemma LeafKeeps(p: Package, c: Ctx, e: Expr, s: Scope, h: seq<Answer>)
    requires e.Lit? || e.Deref? || e.OpaqueExpr? || e.Break? || e.Continue?
    ensures var step := ResumeExpr(p, c, e, s, h); step.Done? ==> Same(s, step.s) && Kind(c, TExpr(e), step.o)
  {
    hide KeptSoFar, ResumeIf, ResumeMethodCall, ResumeFnCall, ResumeStrict;
    hide ResumeOperands, ResumeArms, ResumeStmts, ResumeStmt, ResumePlace, ResumeLoop, ResumeBlock;
  }

  lemma ExprKeeps(p: Package, c: Ctx, e: Expr, s: Scope, h: seq<Answer>)
    requires |h| <= 3 && KeptSoFar(p, c, TExpr(e), s, h)
    ensures var step := ResumeExpr(p, c, e, s, h); step.Done? ==> Same(s, step.s) && Kind(c, TExpr(e), step.o)
  {
    hide KeptSoFar, ResumeIf, ResumeMethodCall, ResumeFnCall, ResumeStrict, Same, Kind;
    match e
    case If(_, _, _, _) => IfKeeps(p, c, e, s, h);
    case MethodCall(_, _, _) => MethodCallKeeps(p, c, e, s, h);
    case Call(_, _, _) => CallKeeps(p, c, e, s, h);
    case Lit(_, _) | Deref(_, _) | OpaqueExpr(_) | Break(_) | Continue(_) => LeafKeeps(p, c, e, s, h);
    case Path(_, _, _) | Return(_, _) | BlockExpr(_, _) | Match(_, _, _) | Loop(_, _) | While(_, _, _) =>
      ControlKeeps(p, c, e, s, h);
    case _ => ReadingKeeps(p, c, e, s, h);
  }

  lemma CallKeeps(p: Package, c: Ctx, e: Expr, s: Scope, h: seq<Answer>)
    requires e.Call?
    requires |h| <= 3 && KeptSoFar(p, c, TExpr(e), s, h)
    ensures var step := ResumeExpr(p, c, e, s, h); step.Done? ==> Same(s, step.s) && Kind(c, TExpr(e), step.o)
  {
    hide KeptSoFar, ResumeIf, ResumeMethodCall, ResumeFnCall, ResumeStrict;
    hide ResumeOperands, ResumeArms, ResumeStmts, ResumeStmt, ResumePlace, ResumeLoop, ResumeBlock;
    Trail(p, c, TExpr(e), s, h);
    match PlanCall(p, c, e)
    case BadCall =>
    case CtorCall(_) => StrictKeeps(p, c, e, s, h, false);
    case IntrinsicCall(_) => StrictKeeps(p, c, e, s, h, true);
    case FnCall(fn) => FnCallKeeps(p, c, e, fn, s, h);
  }

  lemma ReadingKeeps(p: Package, c: Ctx, e: Expr, s: Scope, h: seq<Answer>)
    requires forall g :: ResumeExpr(p, c, e, s, g) == ResumeStrict(p, c, e, s, g, false)
    requires |h| <= 3 && KeptSoFar(p, c, TExpr(e), s, h)
    ensures var step := ResumeExpr(p, c, e, s, h); step.Done? ==> Same(s, step.s) && Kind(c, TExpr(e), step.o)
  {
    hide ResumeExpr;
    hide KeptSoFar, ResumeIf, ResumeMethodCall, ResumeFnCall, ResumeStrict;
    hide ResumeOperands, ResumeArms, ResumeStmts, ResumeStmt, ResumePlace, ResumeLoop, ResumeBlock;
    Trail(p, c, TExpr(e), s, h);
    StrictKeeps(p, c, e, s, h, false);
  }

  lemma StepKeeps(p: Package, c: Ctx, t: Task, s: Scope, h: seq<Answer>)
    requires |h| <= 3 && KeptSoFar(p, c, t, s, h)
    ensures var step := Resume(p, c, t, s, h); step.Done? ==> Kept(t, s, step.s) && Kind(c, t, step.o)
  {
    hide KeptSoFar, ResumeExpr, ResumeOperands, ResumeArms, ResumeStmts, ResumeStmt, ResumePlace, ResumeLoop;
    hide ResumeBlock;
    match t
    case TExpr(e) => ExprKeeps(p, c, e, s, h);
    case TOperands(e, vs) => OperandsKeeps(p, c, e, vs, s, h);
    case TArms(e, i, v) => ArmsKeeps(p, c, e, i, v, s, h);
    case TBlock(b) => BlockKeeps(p, c, b, s, h);
    case TStmts(b, i) => StmtsKeeps(p, c, b, i, s, h);
    case TStmt(stmt) => StmtKeeps(p, c, stmt, s, h);
    case TPlace(e) => PlaceKeeps(p, c, e, s, h);
    case TLoop(cond, body) => LoopKeeps(p, c, cond, body, s, h);
  }

  // ----- whole runs -----------------------------------------------------------------------------

  /** Every task of every run, whatever its answer, keeps the shape of its scope. */
  lemma {:induction false} RunKeepsShape(p: Package, c: Ctx, t: Task, s: Scope, q: nat)
    ensures Kept(t, s, Run(p, c, t, s, q).s)
    ensures Kind(c, t, Run(p, c, t, s, q).o)
    decreases q, Major(t), Minor(t), 4
  {
    hide Resume, Pays, Kept, Kind;
    DriveKeepsShape(p, c, t, s, [], q, q);
  }

  lemma {:induction false} DriveKeepsShape(p: Package, c: Ctx, t: Task, s: Scope, h: seq<Answer>, q: nat, q0: nat)
    requires Underway(p, c, t, s, h, q, q0) && KeptSoFar(p, c, t, s, h)
    ensures Kept(t, s, Drive(p, c, t, s, h, q, q0).s)
    ensures Kind(c, t, Drive(p, c, t, s, h, q, q0).o)
    decreases q0, Major(t), Minor(t), 3 - |h|
  {
    hide Resume, Pays, Kept, Kind, Run, KeptSoFar;
    var step := Resume(p, c, t, s, h);
    StepGuarantees(p, c, t, s, h);
    StepKeeps(p, c, t, s, h);
    KeptReflexive(c, t, s);
    if step.Ask? {
      if q < Tick(step) {
        UnpaidKeepsShape(p, c, t, s, h);
      } else {
        var r := Run(p, step.c, step.t, step.s, q - Tick(step));
        RunKeepsShape(p, step.c, step.t, step.s, q - Tick(step));
        KeptGrows(p, c, t, s, h, Answer(r.o, r.s));
        DriveAsk(p, c, t, s, h, q, q0, r);
        DriveKeepsShape(p, c, t, s, h + [Answer(r.o, r.s)], r.q, q0);
      }
    }
  }

  lemma UnpaidKeepsShape(p: Package, c: Ctx, t: Task, s: Scope, h: seq<Answer>)
    requires Asked(p, c, t, s, h) && KeptSoFar(p, c, t, s, h) && Resume(p, c, t, s, h).Ask?
    ensures Kept(t, s, Resigned(p, c, t, s, h))
  {
    hide Resume, Kept, Kind, KeptSoFar;
    var step := Resume(p, c, t, s, h);
    var a := Answer(Stop(Budget), step.s);
    KeptReflexive(step.c, step.t, step.s);
    KeptGrows(p, c, t, s, h, a);
    Unpaid(p, c, t, s, h);
    StepKeeps(p, c, t, s, h + [a]);
  }

  lemma KeptReflexive(c: Ctx, t: Task, s: Scope)
    ensures Kept(t, s, s) && Kind(c, t, Stop(Budget))
  {
    SameIsGrown(s, s);
  }

  lemma KeptGrows(p: Package, c: Ctx, t: Task, s: Scope, h: seq<Answer>, a: Answer)
    requires KeptSoFar(p, c, t, s, h)
    requires KeptBy(Resume(p, c, t, s, h), a)
    ensures KeptSoFar(p, c, t, s, h + [a])
  {
    hide Resume, Kept, Kind;
    var g := h + [a];
    forall i | 0 <= i < |g|
      ensures var step := Resume(p, c, t, s, g[..i]); KeptBy(step, g[i])
    {
      assert g[..i] == h[..i];
      assert i == |h| ==> h[..i] == h;
    }
  }

  /** No task leaves a frame behind or takes one away. */
  lemma FramesCounted(p: Package, c: Ctx, t: Task, s: Scope, q: nat)
    ensures |Run(p, c, t, s, q).s.frames| == |s.frames|
  {
    hide Resume, Run;
    RunKeepsShape(p, c, t, s, q);
    var s' := Run(p, c, t, s, q).s;
    if Same(s, s') { assert |Rows(s.frames)| == |Rows(s'.frames)|; }
  }

  /** An expression in value position answers a value or stops; operands answer operands. */
  lemma RunKind(p: Package, c: Ctx, t: Task, s: Scope, q: nat)
    ensures Kind(c, t, Run(p, c, t, s, q).o)
  {
    hide Resume, Run;
    RunKeepsShape(p, c, t, s, q);
  }
}
