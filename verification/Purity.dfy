/**
 An evaluation that writes no assignment of its own leaves every binding as it found it,
 values included: a callee works in a scope of its own. What an index place holds while its
 index is evaluated (src/analyzer/comp_evaluator.cc, comp_place) rests on this.
 */
module Purity {
  import opened Machine
  import opened Lang
  import opened Patterns
  import opened Semantics
  import opened Steps
  import opened Runs
  import opened Equations
  import ScopeShape

  // ----- syntax without an assignment -------------------------------------------------------------

  ghost predicate QuietAll(es: seq<Expr>) { forall i :: 0 <= i < |es| ==> QuietExpr(es[i]) }

  ghost predicate QuietOpt(e: Option<Expr>) { e.Some? ==> QuietExpr(e.value) }

  ghost predicate QuietCond(cond: Cond) {
    match cond case Test(e) => QuietExpr(e) case Binds(_, e) => QuietExpr(e)
  }

  ghost predicate QuietStmt(stmt: Stmt) {
    match stmt
    case Decl(_, e) => QuietExpr(e)
    case ExprStmt(e) => QuietExpr(e)
    case Reassign(_, _, _) => false
  }

  ghost predicate QuietBlock(b: Block) {
    (forall i :: 0 <= i < |b.stmts| ==> QuietStmt(b.stmts[i])) && QuietOpt(b.tail)
  }

  ghost predicate QuietArm(a: Arm) { (a.guard.Some? ==> QuietExpr(a.guard.value)) && QuietExpr(a.body) }

  /** No assignment in the expression's own syntax; what it calls may assign. */
  ghost predicate QuietExpr(e: Expr) {
    match e
    case Unary(_, _, x) => QuietExpr(x)
    case Borrow(_, x) => QuietExpr(x)
    case Binary(_, _, l, r) => QuietExpr(l) && QuietExpr(r)
    case CastTo(_, x) => QuietExpr(x)
    case Call(_, _, xs) => QuietAll(xs)
    case MethodCall(_, x, xs) => QuietExpr(x) && QuietAll(xs)
    case Field(_, x, _) => QuietExpr(x)
    case Index(_, x, i) => QuietExpr(x) && QuietExpr(i)
    case Question(_, x) => QuietExpr(x)
    case If(_, cond, a, b) => QuietCond(cond) && QuietBlock(a) && (b.Some? ==> QuietBlock(b.value))
    case Match(_, x, arms) => QuietExpr(x) && forall i :: 0 <= i < |arms| ==> QuietArm(arms[i])
    case BlockExpr(_, b) => QuietBlock(b)
    case Loop(_, b) => QuietBlock(b)
    case While(_, cond, b) => QuietCond(cond) && QuietBlock(b)
    case Return(_, x) => QuietOpt(x)
    case TupleExpr(_, xs) => QuietAll(xs)
    case ArrayExpr(_, xs) => QuietAll(xs)
    case RepeatExpr(_, x, _) => QuietExpr(x)
    case StructExpr(_, inits, base) => (forall i :: 0 <= i < |inits| ==> QuietExpr(inits[i].value)) && QuietOpt(base)
    case Lit(_, _) | Path(_, _, _) | Deref(_, _) | Break(_) | Continue(_) | OpaqueExpr(_) => true
  }

  ghost predicate Quiet(t: Task) {
    match t
    case TExpr(e) => QuietExpr(e)
    case TOperands(e, _) => QuietExpr(e)
    case TArms(e, _, _) => QuietExpr(e)
    case TBlock(b) => QuietBlock(b)
    case TStmts(b, _) => QuietBlock(b)
    case TStmt(stmt) => QuietStmt(stmt)
    case TPlace(e) => QuietExpr(e)
    case TLoop(cond, body) => (cond.Some? ==> QuietCond(cond.value)) && QuietBlock(body)
  }

  lemma OperandQuiet(e: Expr, i: nat)
    requires QuietExpr(e) && i < |OperandExprs(e)|
    ensures QuietExpr(OperandExprs(e)[i])
  {
  }

  // ----- scopes --------------------------------------------------------------------------------------

  /** Declarations were added to the innermost frame; every binding there was holds what it held. */
  ghost predicate Longer(s: Scope, s': Scope) {
    && s'.outer == s.outer && |s'.frames| == |s.frames|
    && (s.frames != [] ==>
          var n := |s.frames| - 1;
          s'.frames[..n] == s.frames[..n] && s.frames[n] <= s'.frames[n])
  }

  ghost predicate Still(t: Task, s: Scope, s': Scope) {
    if t.TStmt? || t.TStmts? then Longer(s, s') else s' == s
  }

  lemma LongerTwice(a: Scope, b: Scope, c: Scope)
    requires Longer(a, b) && Longer(b, c)
    ensures Longer(a, c)
  {
  }

  lemma PopLonger(s: Scope, f: Frame, s': Scope)
    requires Longer(Push(s, f), s')
    ensures Pop(s') == s
  {
    assert Push(s, f).frames[..|s.frames|] == s.frames;
  }

  lemma PopPush(s: Scope, f: Frame)
    ensures Pop(Push(s, f)) == s
  {
    assert Push(s, f).frames[..|s.frames|] == s.frames;
  }

  lemma ExtendLonger(s: Scope, bs: Frame)
    ensures Longer(s, Extend(s, bs))
  {
    if s.frames != [] {
      var n := |s.frames| - 1;
      assert Extend(s, bs).frames[..n] == s.frames[..n];
    }
  }

  lemma CloseOpen(cond: Cond, s: Scope, bs: Frame)
    ensures Close(cond, Open(cond, s, bs)) == s
  {
    PopPush(s, bs);
  }

  // ----- one step -----------------------------------------------------------------------------------

  ghost predicate StillBy(step: Step, a: Answer) {
    step.Ask? && (Quiet(step.t) ==> Still(step.t, step.s, a.s))
  }

  ghost predicate StillSoFar(p: Package, c: Ctx, t: Task, s: Scope, h: seq<Answer>) {
    forall i :: 0 <= i < |h| ==> StillBy(Resume(p, c, t, s, h[..i]), h[i])
  }

  lemma StillTrail(p: Package, c: Ctx, t: Task, s: Scope, h: seq<Answer>)
    requires StillSoFar(p, c, t, s, h)
    ensures |h| > 0 ==> StillBy(Resume(p, c, t, s, []), h[0])
    ensures |h| > 1 ==> StillBy(Resume(p, c, t, s, [h[0]]), h[1])
    ensures |h| > 2 ==> StillBy(Resume(p, c, t, s, [h[0], h[1]]), h[2])
  {
    hide Resume;
    assert |h| > 0 ==> h[..0] == [];
    assert |h| > 1 ==> h[..1] == [h[0]];
    assert |h| > 2 ==> h[..2] == [h[0], h[1]];
  }

  lemma OperandsStill(p: Package, c: Ctx, e: Expr, vs: seq<Typed>, s: Scope, h: seq<Answer>)
    requires |h| <= 3 && StillSoFar(p, c, TOperands(e, vs), s, h) && QuietExpr(e)
    ensures var step := ResumeOperands(p, c, e, vs, s, h); step.Done? ==> step.s == s
  {
    hide ResumeExpr, ResumeArms, ResumeStmts, ResumeStmt, ResumePlace, ResumeLoop, ResumeBlock, StillSoFar;
    hide NextOperand, OperandExprs, QuietExpr;
    StillTrail(p, c, TOperands(e, vs), s, h);
    if NextOperand(p, c, e, vs).Need? { OperandQuiet(e, NextOperand(p, c, e, vs).i); }
  }

  lemma ArmsStill(p: Package, c: Ctx, e: Expr, i: nat, v: Typed, s: Scope, h: seq<Answer>)
    requires |h| <= 3 && StillSoFar(p, c, TArms(e, i, v), s, h) && QuietExpr(e)
    ensures var step := ResumeArms(p, c, e, i, v, s, h); step.Done? ==> step.s == s
  {
    hide Push, Pop, ResumeExpr, ResumeOperands, ResumeStmts, ResumeStmt, ResumePlace, ResumeLoop, ResumeBlock;
    hide StillSoFar, MatchPattern;
    StillTrail(p, c, TArms(e, i, v), s, h);
    if e.Match? && i < |e.arms| {
      var arm := e.arms[i];
      assert QuietArm(arm);
      assert QuietExpr(arm.body) && (arm.guard.Some? ==> QuietExpr(arm.guard.value));
      if MatchPattern(p, arm.pat, v).Matched? {
        var bs := MatchPattern(p, arm.pat, v).bindings;
        PopPush(s, bs);
        if |h| > 0 { assert h[0].s == Push(s, bs); }
        if |h| > 1 { assert h[1].s == s || h[1].s == Push(s, bs); }
      }
    }
  }

  lemma BlockStill(p: Package, c: Ctx, b: Block, s: Scope, h: seq<Answer>)
    requires |h| <= 3 && StillSoFar(p, c, TBlock(b), s, h) && QuietBlock(b)
    ensures var step := ResumeBlock(c, b, s, h); step.Done? ==> step.s == s
  {
    hide ResumeExpr, ResumeOperands, ResumeArms, ResumeStmts, ResumeStmt, ResumePlace, ResumeLoop, StillSoFar;
    hide QuietBlock;
    StillTrail(p, c, TBlock(b), s, h);
    if |h| > 0 { PopLonger(s, [], h[0].s); }
  }

  lemma StmtsStill(p: Package, c: Ctx, b: Block, i: nat, s: Scope, h: seq<Answer>)
    requires |h| <= 3 && StillSoFar(p, c, TStmts(b, i), s, h) && QuietBlock(b)
    ensures var step := ResumeStmts(p, c, b, i, s, h); step.Done? ==> Longer(s, step.s)
  {
    hide ResumeExpr, ResumeOperands, ResumeArms, ResumeStmt, ResumePlace, ResumeLoop, ResumeBlock, StillSoFar;
    hide QuietExpr, QuietStmt;
    StillTrail(p, c, TStmts(b, i), s, h);
    if |h| > 1 && Longer(s, h[0].s) && Longer(h[0].s, h[1].s) { LongerTwice(s, h[0].s, h[1].s); }
  }

  lemma StmtStill(p: Package, c: Ctx, stmt: Stmt, s: Scope, h: seq<Answer>)
    requires |h| <= 3 && StillSoFar(p, c, TStmt(stmt), s, h) && QuietStmt(stmt)
    ensures var step := ResumeStmt(p, c, stmt, s, h); step.Done? ==> Longer(s, step.s)
  {
    hide ResumeExpr, ResumeOperands, ResumeArms, ResumeStmts, ResumePlace, ResumeLoop, ResumeBlock, StillSoFar;
    hide BindPattern, QuietExpr;
    StillTrail(p, c, TStmt(stmt), s, h);
    if |h| > 0 && stmt.Decl? && h[|h| - 1].o.Val? {
      ExtendLonger(s, BindPattern(p, stmt.pat, h[|h| - 1].o.v).bindings);
    }
  }

  lemma PlaceStill(p: Package, c: Ctx, e: Expr, s: Scope, h: seq<Answer>)
    requires |h| <= 3 && StillSoFar(p, c, TPlace(e), s, h) && QuietExpr(e)
    ensures var step := ResumePlace(p, c, e, s, h); step.Done? ==> step.s == s
  {
    hide ResumeExpr, ResumeOperands, ResumeArms, ResumeStmts, ResumeStmt, ResumeLoop, ResumeBlock, StillSoFar;
    StillTrail(p, c, TPlace(e), s, h);
  }

  lemma LoopStill(p: Package, c: Ctx, cond: Option<Cond>, body: Block, s: Scope, h: seq<Answer>)
    requires |h| <= 3 && StillSoFar(p, c, TLoop(cond, body), s, h) && Quiet(TLoop(cond, body))
    ensures var step := ResumeLoop(p, c, cond, body, s, h); step.Done? ==> step.s == s
  {
    hide ResumeExpr, ResumeOperands, ResumeArms, ResumeStmts, ResumeStmt, ResumePlace, ResumeBlock, StillSoFar;
    hide Decide, Open, Close, QuietExpr, QuietBlock;
    StillTrail(p, c, TLoop(cond, body), s, h);
    if cond.Some? && |h| > 1 && h[0].o.Val? && Decide(p, cond.value, h[0].o.v).Enter? {
      CloseOpen(cond.value, s, Decide(p, cond.value, h[0].o.v).bindings);
    }
  }

  lemma IfStill(p: Package, c: Ctx, e: Expr, s: Scope, h: seq<Answer>)
    requires |h| <= 3 && StillSoFar(p, c, TExpr(e), s, h) && e.If? && QuietExpr(e)
    ensures var step := ResumeIf(p, c, e, s, h); step.Done? ==> step.s == s
  {
    hide ResumeOperands, ResumeArms, ResumeStmts, ResumeStmt, ResumePlace, ResumeLoop, ResumeBlock, StillSoFar;
    hide Decide, Open, Close, QuietBlock;
    StillTrail(p, c, TExpr(e), s, h);
    if |h| > 1 && h[0].o.Val? && Decide(p, e.cond, h[0].o.v).Enter? {
      CloseOpen(e.cond, s, Decide(p, e.cond, h[0].o.v).bindings);
    }
  }

  lemma FnCallStill(p: Package, c: Ctx, e: Expr, fn: Callee, s: Scope, h: seq<Answer>)
    requires |h| <= 3 && StillSoFar(p, c, TExpr(e), s, h) && e.Call? && PlanCall(p, c, e) == FnCall(fn) && QuietExpr(e)
    ensures var step := ResumeFnCall(p, c, e, fn, s, h); step.Done? ==> step.s == s
  {
    hide ResumeIf, ResumeMethodCall, ResumeStrict, ResumeLooping, PlanMethod, PlanPath, QuietExpr, QuietBlock;
    hide ResumeOperands, ResumeArms, ResumeStmts, ResumeStmt, ResumePlace, ResumeLoop, ResumeBlock, StillSoFar;
    hide BindArgs, CallPatterns;
    StillTrail(p, c, TExpr(e), s, h);
  }

  lemma MethodCallStill(p: Package, c: Ctx, e: Expr, s: Scope, h: seq<Answer>)
    requires |h| <= 3 && StillSoFar(p, c, TExpr(e), s, h) && e.MethodCall? && QuietExpr(e)
    ensures var step := ResumeMethodCall(p, c, e, s, h); step.Done? ==> step.s == s
  {
    hide ResumeIf, ResumeFnCall, ResumeStrict, ResumeLooping, PlanMethod, PlanCall, PlanPath, QuietBlock, QuietAll;
    hide ResumeOperands, ResumeArms, ResumeStmts, ResumeStmt, ResumePlace, ResumeLoop, ResumeBlock, StillSoFar;
    hide BindArgs, MethodPatterns;
    StillTrail(p, c, TExpr(e), s, h);
  }

  lemma StrictStill(p: Package, c: Ctx, e: Expr, s: Scope, h: seq<Answer>, tick: bool)
    requires QuietExpr(e) && (|h| > 0 ==> StillBy(ResumeStrict(p, c, e, s, [], tick), h[0]))
    requires |h| > 1 ==> ResumeStrict(p, c, e, s, [h[0]], tick).Ask?
    ensures var step := ResumeStrict(p, c, e, s, h, tick); step.Done? ==> step.s == s
  {
    hide Finish, QuietExpr;
  }

  lemma ControlStill(p: Package, c: Ctx, e: Expr, s: Scope, h: seq<Answer>)
    requires e.Path? || e.Return? || e.BlockExpr? || e.Match? || e.Loop? || e.While?
    requires |h| <= 3 && StillSoFar(p, c, TExpr(e), s, h) && QuietExpr(e)
    ensures var step := ResumeExpr(p, c, e, s, h); step.Done? ==> step.s == s
  {
    hide StillSoFar, ResumeIf, ResumeMethodCall, ResumeFnCall, ResumeStrict, QuietBlock, QuietArm;
    hide ResumeOperands, ResumeArms, ResumeStmts, ResumeStmt, ResumePlace, ResumeLoop, ResumeBlock, PlanPath;
    StillTrail(p, c, TExpr(e), s, h);
  }

  lemma ExprStill(p: Package, c: Ctx, e: Expr, s: Scope, h: seq<Answer>)
    requires |h| <= 3 && StillSoFar(p, c, TExpr(e), s, h) && QuietExpr(e)
    ensures var step := ResumeExpr(p, c, e, s, h); step.Done? ==> step.s == s
  {
    hide StillSoFar, ResumeIf, ResumeMethodCall, ResumeFnCall, ResumeStrict, ResumeLooping, QuietExpr;
    match e
    case If(_, _, _, _) => IfStill(p, c, e, s, h);
    case MethodCall(_, _, _) => MethodCallStill(p, c, e, s, h);
    case Call(_, _, _) => CallStill(p, c, e, s, h);
    case Lit(_, _) | Deref(_, _) | OpaqueExpr(_) | Break(_) | Continue(_) =>
    case Path(_, _, _) | Return(_, _) | BlockExpr(_, _) | Match(_, _, _) | Loop(_, _) | While(_, _, _) =>
      ControlStill(p, c, e, s, h);
    case _ => ReadingStill(p, c, e, s, h);
  }

  lemma CallStill(p: Package, c: Ctx, e: Expr, s: Scope, h: seq<Answer>)
    requires e.Call? && |h| <= 3 && StillSoFar(p, c, TExpr(e), s, h) && QuietExpr(e)
    ensures var step := ResumeExpr(p, c, e, s, h); step.Done? ==> step.s == s
  {
    hide StillSoFar, ResumeIf, ResumeMethodCall, ResumeFnCall, ResumeStrict, QuietExpr;
    hide ResumeOperands, ResumeArms, ResumeStmts, ResumeStmt, ResumePlace, ResumeLoop, ResumeBlock;
    StillTrail(p, c, TExpr(e), s, h);
    match PlanCall(p, c, e)
    case BadCall =>
    case CtorCall(_) => StrictStill(p, c, e, s, h, false);
    case IntrinsicCall(_) => StrictStill(p, c, e, s, h, true);
    case FnCall(fn) => FnCallStill(p, c, e, fn, s, h);
  }

  lemma ReadingStill(p: Package, c: Ctx, e: Expr, s: Scope, h: seq<Answer>)
    requires forall g :: ResumeExpr(p, c, e, s, g) == ResumeStrict(p, c, e, s, g, false)
    requires |h| <= 3 && StillSoFar(p, c, TExpr(e), s, h) && QuietExpr(e)
    ensures var step := ResumeExpr(p, c, e, s, h); step.Done? ==> step.s == s
  {
    hide ResumeExpr, StillSoFar, ResumeIf, ResumeMethodCall, ResumeFnCall, ResumeStrict, QuietExpr;
    hide ResumeOperands, ResumeArms, ResumeStmts, ResumeStmt, ResumePlace, ResumeLoop, ResumeBlock;
    StillTrail(p, c, TExpr(e), s, h);
    StrictStill(p, c, e, s, h, false);
  }

  lemma StepStill(p: Package, c: Ctx, t: Task, s: Scope, h: seq<Answer>)
    requires |h| <= 3 && StillSoFar(p, c, t, s, h) && Quiet(t)
    ensures var step := Resume(p, c, t, s, h); step.Done? ==> Still(t, s, step.s)
  {
    hide StillSoFar, ResumeExpr, ResumeOperands, ResumeArms, ResumeStmts, ResumeStmt, ResumePlace, ResumeLoop;
    hide ResumeBlock, QuietExpr, QuietBlock;
    match t
    case TExpr(e) => ExprStill(p, c, e, s, h);
    case TOperands(e, vs) => OperandsStill(p, c, e, vs, s, h);
    case TArms(e, i, v) => ArmsStill(p, c, e, i, v, s, h);
    case TBlock(b) => BlockStill(p, c, b, s, h);
    case TStmts(b, i) => StmtsStill(p, c, b, i, s, h);
    case TStmt(stmt) => StmtStill(p, c, stmt, s, h);
    case TPlace(e) => PlaceStill(p, c, e, s, h);
    case TLoop(cond, body) => LoopStill(p, c, cond, body, s, h);
  }

  // ----- whole runs -----------------------------------------------------------------------------------

  lemma StillGrows(p: Package, c: Ctx, t: Task, s: Scope, h: seq<Answer>, a: Answer)
    requires StillSoFar(p, c, t, s, h) && StillBy(Resume(p, c, t, s, h), a)
    ensures StillSoFar(p, c, t, s, h + [a])
  {
    hide Resume, Quiet, Still;
    var g := h + [a];
    forall i | 0 <= i < |g| ensures StillBy(Resume(p, c, t, s, g[..i]), g[i]) {
      assert g[..i] == h[..i];
      assert i == |h| ==> h[..i] == h;
    }
  }

  lemma {:induction false} RunStill(p: Package, c: Ctx, t: Task, s: Scope, q: nat)
    requires Quiet(t)
    ensures Still(t, s, Run(p, c, t, s, q).s)
    decreases q, Major(t), Minor(t), 4
  {
    hide Resume, Pays, Quiet, Still;
    DriveStill(p, c, t, s, [], q, q);
  }

  lemma {:induction false} DriveStill(p: Package, c: Ctx, t: Task, s: Scope, h: seq<Answer>, q: nat, q0: nat)
    requires Underway(p, c, t, s, h, q, q0) && StillSoFar(p, c, t, s, h) && Quiet(t)
    ensures Still(t, s, Drive(p, c, t, s, h, q, q0).s)
    decreases q0, Major(t), Minor(t), 3 - |h|
  {
    hide Resume, Pays, Quiet, Still, Run, StillSoFar, StillBy;
    var step := Resume(p, c, t, s, h);
    StepGuarantees(p, c, t, s, h);
    StepStill(p, c, t, s, h);
    if step.Ask? {
      if q < Tick(step) {
        UnpaidStill(p, c, t, s, h);
      } else {
        var r := Run(p, step.c, step.t, step.s, q - Tick(step));
        if Quiet(step.t) { RunStill(p, step.c, step.t, step.s, q - Tick(step)); }
        AskedStill(step, Answer(r.o, r.s));
        StillGrows(p, c, t, s, h, Answer(r.o, r.s));
        DriveAsk(p, c, t, s, h, q, q0, r);
        DriveStill(p, c, t, s, h + [Answer(r.o, r.s)], r.q, q0);
      }
    }
  }

  lemma AskedStill(step: Step, a: Answer)
    requires step.Ask? && (Quiet(step.t) ==> Still(step.t, step.s, a.s))
    ensures StillBy(step, a)
  {
  }

  /** A step that cannot be paid for leaves the scope it would have been asked in. */
  lemma UnpaidStill(p: Package, c: Ctx, t: Task, s: Scope, h: seq<Answer>)
    requires Asked(p, c, t, s, h) && StillSoFar(p, c, t, s, h) && Quiet(t) && Resume(p, c, t, s, h).Ask?
    ensures Still(t, s, Resigned(p, c, t, s, h))
  {
    hide Resume, Quiet, Still, StillSoFar, StillBy;
    var step := Resume(p, c, t, s, h);
    var a := Answer(Stop(Budget), step.s);
    StillReflexive(step.t, step.s);
    AskedStill(step, a);
    StillGrows(p, c, t, s, h, a);
    Unpaid(p, c, t, s, h);
    StepStill(p, c, t, s, h + [a]);
  }

  lemma StillReflexive(t: Task, s: Scope)
    ensures Still(t, s, s)
  {
  }

  /** An expression that assigns nothing leaves the scope exactly as it found it. */
  lemma QuietLeavesScope(p: Package, c: Ctx, e: Expr, s: Scope, q: nat)
    requires QuietExpr(e)
    ensures Run(p, c, TExpr(e), s, q).s == s && Run(p, c, TPlace(e), s, q).s == s
  {
    hide Run, QuietExpr;
    RunStill(p, c, TExpr(e), s, q);
    RunStill(p, c, TPlace(e), s, q);
  }

  // ----- the place held while an index is evaluated ----------------------------------------------------

  lemma {:induction false} DeeperPath(v: Value, path: seq<nat>, i: nat)
    requires ReadPath(v, path).Some?
    ensures var at := ReadPath(v, path).value;
      ReadPath(v, path + [i]) == if Aggregate(at) && i < |at.fields| then Some(at.fields[i]) else None
    decreases |path|
  {
    if path == [] {
      assert path + [i] == [i] && [i][1..] == [];
    } else {
      assert (path + [i])[1..] == path[1..] + [i];
      DeeperPath(v.fields[path[0]], path[1..], i);
    }
  }

  /** A place that is found can be read. */
  lemma {:induction false} PlaceReadable(p: Package, c: Ctx, e: Expr, s: Scope, q: nat)
    ensures var r := Run(p, c, TPlace(e), s, q); r.o.Slot? ==> ReadPlace(r.s, r.o.place).Some?
    decreases e
  {
    hide Run, ReadPath;
    if e.Field? {
      PlaceReadable(p, c, e.receiver, s, q);
      RunFieldPlace(p, c, e, s, q);
      var r := Run(p, c, TPlace(e.receiver), s, q);
      if r.o.Slot? { FieldReadable(p, r.s, r.o.place, e.name); }
    } else if e.Index? {
      RunIndexPlace(p, c, e, s, q);
      var r := Run(p, c, TPlace(e.receiver), s, q);
      var i := Run(p, InValue(c), TExpr(e.index), r.s, r.q);
      ScopeShape.RunKind(p, InValue(c), TExpr(e.index), r.s, r.q);
      if r.o.Slot? && i.o.Val? { IndexReadable(p, i.s, r.o.place, i.o.v); }
    } else {
      RunPlaceLeaf(p, c, e, s, q);
      LeafReadable(p, c, e, s);
    }
  }

  lemma LeafReadable(p: Package, c: Ctx, e: Expr, s: Scope)
    requires !e.Field? && !e.Index?
    ensures var step := ResumePlace(p, c, e, s, []); step.o.Slot? ==> ReadPlace(step.s, step.o.place).Some?
  {
  }

  lemma FieldReadable(p: Package, s: Scope, pl: Place, name: string)
    ensures var o := FieldPlace(p, s, pl, name); o.Slot? ==> ReadPlace(s, o.place).Some?
  {
    hide FieldType, ReadPath;
    if ReadPlace(s, pl).Some? {
      var v := ReadPlace(s, pl).value;
      var i := FieldAt(p, pl.ty, v, name);
      if i.Some? { DeeperPath(At(s, pl.loc).value, pl.path, i.value); }
    }
  }

  lemma IndexReadable(p: Package, s: Scope, pl: Place, i: Typed)
    ensures var o := IndexPlace(p, s, pl, i); o.Slot? ==> ReadPlace(s, o.place).Some?
  {
    hide ReadPath;
    if ReadPlace(s, pl).Some? && i.value.VInt? { DeeperPath(At(s, pl.loc).value, pl.path, i.value.bits); }
  }

  /** The element an index selects in the array a place held when it was found. */
  function ElementOf(p: Package, pl: Place, held: Value, i: Typed): Out {
    if !held.VArray? || !i.value.VInt? then Stop(Program)
    else if i.value.bits >= |held.fields| then Stop(OutOfBounds)
    else match Row(p, pl.ty)
      case ArrayRow(element, _) => Slot(Place(pl.loc, pl.path + [i.value.bits], element))
      case _ => Stop(Program)
  }

  /** The array a base place holds before its index is evaluated. */
  ghost function HeldBefore(p: Package, c: Ctx, e: Expr, s: Scope, q: nat): Option<Value>
    requires e.Index?
  {
    var r := Run(p, c, TPlace(e.receiver), s, q);
    if r.o.Slot? then ReadPlace(r.s, r.o.place) else None
  }

  /**
   With an index that assigns nothing, the place found is the element of the array that was
   held before the index was evaluated, and every scope on the way is the same one.
   */
  lemma IndexPlaceIsHeld(p: Package, c: Ctx, e: Expr, s: Scope, q: nat)
    requires e.Index? && QuietExpr(e.index)
    ensures var r := Run(p, c, TPlace(e.receiver), s, q);
            var i := Run(p, InValue(c), TExpr(e.index), r.s, r.q);
      && i.s == r.s
      && (r.o.Slot? ==> HeldBefore(p, c, e, s, q).Some?)
      && (r.o.Slot? && i.o.Val? ==>
            Run(p, c, TPlace(e), s, q) == i.(o := ElementOf(p, r.o.place, HeldBefore(p, c, e, s, q).value, i.o.v)))
  {
    hide Run, QuietExpr, ReadPlace;
    var r := Run(p, c, TPlace(e.receiver), s, q);
    QuietLeavesScope(p, InValue(c), e.index, r.s, r.q);
    PlaceReadable(p, c, e.receiver, s, q);
    RunIndexPlace(p, c, e, s, q);
  }

  // ----- an index that does assign -----------------------------------------------------------------------

  const FIVE := VTuple([VArray([VInt(5)])])
  const NONE := VTuple([VArray([])])

  function TwoTuples(x: Value, t: TypeIdx): Scope {
    Scope([], [[Binding("x", Typed(x, t)), Binding("y", Typed(NONE, t))]])
  }

  const SWAP := Reassign(Path(1, 1, ["x"]), None, Path(2, 2, ["y"]))
  const SWAPPING := Block([SWAP], Some(Lit(9, IntLit(0, false))))
  const FIRST := Field(6, Path(5, 5, ["x"]), "0")

  lemma NamedPlaces(t: TypeIdx, x: Value)
    ensures var s := TwoTuples(x, t); var inner := Push(s, []);
      && PlaceOf(s, "x") == Some(InFrame(0, 0)) && PlaceOf(inner, "x") == Some(InFrame(0, 0))
      && LookupOf(inner, "y") == Some(InFrame(0, 1)) && HasLoc(inner, InFrame(0, 0)) && HasLoc(inner, InFrame(0, 1))
      && Pop(Put(inner, InFrame(0, 0), NONE)) == TwoTuples(NONE, t)
  {
    var s := TwoTuples(x, t);
    var inner, f := Push(s, []), s.frames[0];
    assert f[0].name == "x" && f[1].name == "y" && "x" != "y";
    assert inner.frames[..1] == s.frames && Scope([], inner.frames[..1]) == s;
    assert f[..1] == [f[0]] && f[1..] == [f[1]];
    assert PlaceOf(Scope([], inner.frames[..1]), "x") == Some(InFrame(0, 0));
    assert LastIn(f, "y") == Some(1);
    assert LookupOf(Scope([], inner.frames[..1]), "y") == Some(InFrame(0, 1));
    var put := Put(inner, InFrame(0, 0), NONE);
    assert put.frames[0] == [Binding("x", Typed(NONE, t)), f[1]];
    assert put.frames[..1] == [put.frames[0]];
  }

  lemma FirstPlace(p: Package, c: Ctx, q: nat, t: TypeIdx, a: TypeIdx)
    requires Row(p, t) == TupleRow([a])
    ensures var s := TwoTuples(FIVE, t);
      Run(p, c, TPlace(FIRST), s, q) == Result(Slot(Place(InFrame(0, 0), [0], a)), s, q)
  {
    hide Run, PlaceOf;
    var s := TwoTuples(FIVE, t);
    NamedPlaces(t, FIVE);
    RunPlaceLeaf(p, c, FIRST.receiver, s, q);
    RunFieldPlace(p, c, FIRST, s, q);
    assert "0"[..0] == [] && Position("0") == 0;
    assert [] + [0] == [0];
  }

  lemma Swapped(p: Package, c: Ctx, q: nat, t: TypeIdx)
    ensures Run(p, c, TStmt(SWAP), Push(TwoTuples(FIVE, t), []), q)
         == Result(Val(VoidVal(p)), Put(Push(TwoTuples(FIVE, t), []), InFrame(0, 0), NONE), q)
  {
    hide Run, PlaceOf, LookupOf;
    var s := Push(TwoTuples(FIVE, t), []);
    NamedPlaces(t, FIVE);
    assert Lookup(s, "y") == Some(Typed(NONE, t));
    RunLeaf(p, InValue(c), SWAP.value, s, q);
    RunPlaceLeaf(p, InValue(c), SWAP.place, s, q);
    RunReassign(p, c, SWAP.place, SWAP.compound, SWAP.value, s, q);
  }

  lemma SwappingRuns(p: Package, c: Ctx, q: nat, t: TypeIdx)
    requires TagOf(p, ExprType(p, c, 9)) != Error
    ensures var r := Run(p, c, TExpr(BlockExpr(8, SWAPPING)), TwoTuples(FIVE, t), q);
      r.s == TwoTuples(NONE, t) && r.o.Val? && r.o.v.value == VInt(0)
  {
    hide Run, PlaceOf, LookupOf, Put;
    var s := TwoTuples(FIVE, t);
    var inner := Push(s, []);
    var after := Put(inner, InFrame(0, 0), NONE) by { NamedPlaces(t, FIVE); }
    NamedPlaces(t, FIVE);
    RunBlockExpr(p, c, BlockExpr(8, SWAPPING), s, q);
    RunBlock(p, c, SWAPPING, s, q);
    RunNextStmt(p, c, SWAPPING, 0, inner, q);
    Swapped(p, c, q, t);
    RunTail(p, c, SWAPPING, 1, after, q);
    RunLeaf(p, InStmt(c), SWAPPING.tail.value, after, q);
  }

  /**
   `x.0[{ x = y; 0 }]` with an empty array in `y.0`: the source holds the old array, which the
   index has replaced; the place is looked for in the new one, and is out of its bounds.
   */
  lemma IndexReplacesWhatIsHeld(p: Package, c: Ctx, q: nat, t: TypeIdx, a: TypeIdx)
    requires Row(p, t) == TupleRow([a]) && Row(p, a).ArrayRow? && TagOf(p, ExprType(p, c, 9)) != Error
    ensures var s, e := TwoTuples(FIVE, t), Index(7, FIRST, BlockExpr(8, SWAPPING));
      && !QuietExpr(e.index)
      && HeldBefore(p, c, e, s, q) == Some(VArray([VInt(5)]))
      && Run(p, c, TPlace(e), s, q).o == Stop(OutOfBounds)
  {
    hide Run;
    var s, e := TwoTuples(FIVE, t), Index(7, FIRST, BlockExpr(8, SWAPPING));
    assert !QuietStmt(SWAPPING.stmts[0]);
    assert !QuietBlock(SWAPPING);
    FirstPlace(p, c, q, t, a);
    SwappingRuns(p, InValue(c), q, t);
    RunIndexPlace(p, c, e, s, q);
    assert [0][1..] == [];
    assert ReadPath(FIVE, [0]) == Some(VArray([VInt(5)]));
    assert ReadPath(NONE, [0]) == Some(VArray([]));
  }
}
