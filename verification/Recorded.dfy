/**
 When every refusal is recorded. The evaluator refuses some things without recording why: a
 dereference, a declared pattern that misses, and a callee without a body
 (src/analyzer/comp_evaluator.cc, comp_eval_expr, comp_bind_pattern and comp_run_fn). An
 expression written without them, in a package whose functions are, never ends that way.
 */
module RecordedFailures {
  import opened Machine
  import opened Lang
  import opened Patterns
  import opened Semantics
  import opened Steps
  import opened Runs
  import opened Equations

  // ----- patterns -----------------------------------------------------------------------------------

  /** A pattern some value misses. */
  ghost predicate Misses(pat: Pattern) {
    match pat
    case Wild => false
    case Ident(_) => false
    case LitPat(lit) => lit != OtherLit
    case TuplePat(_) => true
    case VariantPat(path, _) => path != []
    case StructPat(_) => true
    case RefPat(inner) => Misses(inner)
    case OrPat(alternatives) => forall i :: 0 <= i < |alternatives| ==> Misses(alternatives[i])
  }

  /** Missing is a property of the pattern alone: what any value misses, the empty value misses. */
  lemma MissesExactly(p: Package, pat: Pattern, t: TypeIdx)
    ensures Misses(pat) <==> exists v :: MatchPattern(p, pat, v) == NoMatch
    ensures Misses(pat) <==> MatchPattern(p, pat, Typed(VVoid, t)) == NoMatch
  {
    hide MatchPattern, Misses;
    forall v ensures MatchPattern(p, pat, v) == NoMatch ==> Misses(pat) { MissedMisses(p, pat, v, t); }
    MissedMisses(p, pat, Typed(VVoid, t), t);
  }

  lemma {:induction false} MissedMisses(p: Package, pat: Pattern, v: Typed, t: TypeIdx)
    ensures MatchPattern(p, pat, v) == NoMatch ==> Misses(pat)
    ensures Misses(pat) ==> MatchPattern(p, pat, Typed(VVoid, t)) == NoMatch
    decreases pat
  {
    match pat
    case RefPat(inner) => MissedMisses(p, inner, v, t);
    case OrPat(alternatives) => AllMiss(p, alternatives, v, t);
    case _ =>
  }

  lemma {:induction false} AllMiss(p: Package, pats: seq<Pattern>, v: Typed, t: TypeIdx)
    ensures MatchFirst(p, pats, v) == NoMatch ==> forall i :: 0 <= i < |pats| ==> Misses(pats[i])
    ensures (forall i :: 0 <= i < |pats| ==> Misses(pats[i])) ==> MatchFirst(p, pats, Typed(VVoid, t)) == NoMatch
    decreases pats
  {
    hide MatchPattern, Misses;
    if pats != [] {
      MissedMisses(p, pats[0], v, t);
      AllMiss(p, pats[1..], v, t);
    }
  }

  /** Patterns a declaration takes apart itself, and below a reference or a `|` only ones nothing misses. */
  ghost predicate Firm(pat: Pattern) {
    match pat
    case TuplePat(elements) => forall i :: 0 <= i < |elements| ==> Firm(elements[i])
    case StructPat(members) => forall i :: 0 <= i < |members| ==> Firm(members[i].pat)
    case LitPat(_) => true
    case _ => !Misses(pat)
  }

  ghost predicate Loudly(b: BindResult) { b.ok || b.failure != NoFailure }

  /** A firm pattern binds, or says why not. */
  lemma {:induction false} FirmBinds(p: Package, pat: Pattern, v: Typed)
    requires Firm(pat)
    ensures Loudly(BindPattern(p, pat, v))
    decreases pat
  {
    match pat
    case TuplePat(elements) =>
      var shape := TupleShape(p, v.ty);
      if v.value.VTuple? && |elements| == |v.value.fields| == |shape| {
        FirmBindEach(p, elements,
          seq(|elements|, i requires 0 <= i < |elements| => Typed(v.value.fields[i], shape[i])));
      }
    case StructPat(members) => if v.value.VStruct? { FirmBindMembers(p, members, v); }
    case LitPat(_) =>
    case _ =>
      MissedMisses(p, pat, v, 0);
      assert MatchPattern(p, pat, v) != NoMatch;
  }

  lemma {:induction false} FirmBindEach(p: Package, pats: seq<Pattern>, vs: seq<Typed>)
    requires |pats| == |vs| && forall i :: 0 <= i < |pats| ==> Firm(pats[i])
    ensures Loudly(BindEach(p, pats, vs))
    decreases pats
  {
    hide BindPattern, Firm;
    if pats != [] {
      FirmBinds(p, pats[0], vs[0]);
      FirmBindEach(p, pats[1..], vs[1..]);
    }
  }

  lemma {:induction false} FirmBindMembers(p: Package, members: seq<FieldPat>, v: Typed)
    requires v.value.VStruct? && forall i :: 0 <= i < |members| ==> Firm(members[i].pat)
    ensures Loudly(BindMembers(p, members, v))
    decreases members
  {
    hide BindPattern, Firm, StructMember;
    if members != [] && StructMember(p, v, members[0].name).Member? {
      FirmBinds(p, members[0].pat, StructMember(p, v, members[0].name).val);
      FirmBindMembers(p, members[1..], v);
    }
  }

  // ----- syntax that refuses aloud ------------------------------------------------------------------

  ghost predicate LoudAll(es: seq<Expr>) { forall i :: 0 <= i < |es| ==> LoudExpr(es[i]) }

  ghost predicate LoudOpt(e: Option<Expr>) { e.Some? ==> LoudExpr(e.value) }

  ghost predicate LoudCond(cond: Cond) {
    match cond case Test(e) => LoudExpr(e) case Binds(_, e) => LoudExpr(e)
  }

  /** An assignment records that its place was not found, so any place will do. */
  ghost predicate LoudStmt(stmt: Stmt) {
    match stmt
    case Decl(pat, e) => Firm(pat) && LoudExpr(e)
    case ExprStmt(e) => LoudExpr(e)
    case Reassign(_, _, e) => LoudExpr(e)
  }

  ghost predicate LoudBlock(b: Block) {
    (forall i :: 0 <= i < |b.stmts| ==> LoudStmt(b.stmts[i])) && LoudOpt(b.tail)
  }

  ghost predicate LoudArm(a: Arm) { (a.guard.Some? ==> LoudExpr(a.guard.value)) && LoudExpr(a.body) }

  /** No dereference is evaluated, and every declared pattern is firm. */
  ghost predicate LoudExpr(e: Expr) {
    match e
    case Deref(_, _) => false
    case Unary(_, _, x) => LoudExpr(x)
    case Borrow(_, x) => LoudExpr(x)
    case Binary(_, _, l, r) => LoudExpr(l) && LoudExpr(r)
    case CastTo(_, x) => LoudExpr(x)
    case Call(_, _, xs) => LoudAll(xs)
    case MethodCall(_, x, xs) => LoudExpr(x) && LoudAll(xs)
    case Field(_, x, _) => LoudExpr(x)
    case Index(_, x, i) => LoudExpr(x) && LoudExpr(i)
    case Question(_, x) => LoudExpr(x)
    case If(_, cond, a, b) => LoudCond(cond) && LoudBlock(a) && (b.Some? ==> LoudBlock(b.value))
    case Match(_, x, arms) => LoudExpr(x) && forall i :: 0 <= i < |arms| ==> LoudArm(arms[i])
    case BlockExpr(_, b) => LoudBlock(b)
    case Loop(_, b) => LoudBlock(b)
    case While(_, cond, b) => LoudCond(cond) && LoudBlock(b)
    case Return(_, x) => LoudOpt(x)
    case TupleExpr(_, xs) => LoudAll(xs)
    case ArrayExpr(_, xs) => LoudAll(xs)
    case RepeatExpr(_, x, _) => LoudExpr(x)
    case StructExpr(_, inits, base) => (forall i :: 0 <= i < |inits| ==> LoudExpr(inits[i].value)) && LoudOpt(base)
    case Lit(_, _) | Path(_, _, _) | Break(_) | Continue(_) | OpaqueExpr(_) => true
  }

  ghost predicate LoudItem(item: FnItem) {
    && item.body.Some? && LoudBlock(item.body.value)
    && forall i :: 0 <= i < |item.formals| ==> Firm(item.formals[i].pat)
  }

  ghost predicate LoudTarget(target: Target) {
    (target.FnTarget? || target.MethodTarget?) && target.fn.item.Some? ==> LoudItem(target.fn.item.value)
  }

  /** Every function in the table of calls has a body; the bodies, the formals and the const items are loud. */
  ghost predicate LoudPackage(p: Package) {
    && (forall site :: site in p.targets ==> LoudTarget(p.targets[site]))
    && forall key :: key in p.consts ==> LoudExpr(p.consts[key])
  }

  ghost predicate Loud(t: Task) {
    match t
    case TExpr(e) => LoudExpr(e)
    case TOperands(e, _) => LoudExpr(e)
    case TArms(e, _, _) => LoudExpr(e)
    case TBlock(b) => LoudBlock(b)
    case TStmts(b, _) => LoudBlock(b)
    case TStmt(stmt) => LoudStmt(stmt)
    case TPlace(_) => true
    case TLoop(cond, body) => (cond.Some? ==> LoudCond(cond.value)) && LoudBlock(body)
  }

  lemma OperandLoud(e: Expr, i: nat)
    requires LoudExpr(e) && i < |OperandExprs(e)|
    ensures LoudExpr(OperandExprs(e)[i])
  {
  }

  // ----- one step -----------------------------------------------------------------------------------

  /** The last answer says why it refused, unless it was a place that was looked for. */
  ghost predicate Heard(p: Package, c: Ctx, t: Task, s: Scope, h: seq<Answer>) {
    && |h| <= 3
    && (h != [] ==>
      var asked := Resume(p, c, t, s, h[..|h| - 1]);
      asked.Ask? && (asked.t.TPlace? || h[|h| - 1].o != Stop(NoFailure)))
  }

  ghost predicate SaysWhy(step: Step) {
    match step
    case Done(o, _, _) => o != Stop(NoFailure)
    case Ask(_, t, _, _) => Loud(t)
  }

  lemma FinishSaysWhy(p: Package, c: Ctx, e: Expr, vs: seq<Typed>)
    ensures Finish(p, c, e, vs) != Stop(NoFailure)
  {
  }

  lemma AssignedSaysWhy(p: Package, s: Scope, pl: Place, compound: Option<BinaryOp>, v: Typed)
    ensures Assigned(p, s, pl, compound, v).o != Stop(NoFailure)
  {
  }

  lemma ArgsBind(p: Package, pats: seq<Pattern>, vs: seq<Typed>)
    requires forall i :: 0 <= i < |pats| ==> Firm(pats[i])
    ensures Loudly(BindArgs(p, pats, vs))
  {
    if |vs| <= |pats| { FirmBindEach(p, pats[..|vs|], vs); }
  }

  lemma FormalsFirm(fn: Callee)
    requires fn.item.Some? && LoudItem(fn.item.value)
    ensures forall i :: 0 <= i < |CallPatterns(fn)| ==> Firm(CallPatterns(fn)[i])
    ensures forall i :: 0 <= i < |MethodPatterns(fn)| ==> Firm(MethodPatterns(fn)[i])
  {
    hide Firm, LoudBlock;
  }

  lemma NextSaysWhy(p: Package, c: Ctx, e: Expr, vs: seq<Typed>)
    requires LoudPackage(p)
    ensures NextOperand(p, c, e, vs) != Stuck(NoFailure)
  {
    hide LoudItem, BindArgs;
    if e.MethodCall? && PlanMethod(p, c, e).Some? {
      var fn := PlanMethod(p, c, e).value;
      FormalsFirm(fn);
      ArgsBind(p, MethodPatterns(fn), vs);
    }
  }

  lemma OperandsLoud(p: Package, c: Ctx, e: Expr, vs: seq<Typed>, s: Scope, h: seq<Answer>)
    requires LoudPackage(p) && LoudExpr(e) && Heard(p, c, TOperands(e, vs), s, h)
    ensures SaysWhy(ResumeOperands(p, c, e, vs, s, h))
  {
    hide ResumeExpr, ResumeArms, ResumeStmts, ResumeStmt, ResumePlace, ResumeLoop, ResumeBlock;
    hide NextOperand, OperandExprs, LoudExpr, LoudPackage;
    NextSaysWhy(p, c, e, vs);
    if NextOperand(p, c, e, vs).Need? { OperandLoud(e, NextOperand(p, c, e, vs).i); }
  }

  lemma ArmsLoud(p: Package, c: Ctx, e: Expr, i: nat, v: Typed, s: Scope, h: seq<Answer>)
    requires LoudExpr(e) && Heard(p, c, TArms(e, i, v), s, h)
    ensures SaysWhy(ResumeArms(p, c, e, i, v, s, h))
  {
    hide Push, Pop, ResumeExpr, ResumeOperands, ResumeStmts, ResumeStmt, ResumePlace, ResumeLoop, ResumeBlock;
    hide MatchPattern;
    if e.Match? && i < |e.arms| {
      assert LoudArm(e.arms[i]);
      assert PatternRecord(MatchPattern(p, e.arms[i].pat, v));
    }
    assert |h| == 1 ==> h[..0] == [];
    assert |h| == 2 ==> h[..1] == [h[0]];
  }

  lemma BlockLoud(p: Package, c: Ctx, b: Block, s: Scope, h: seq<Answer>)
    requires LoudBlock(b) && Heard(p, c, TBlock(b), s, h)
    ensures SaysWhy(ResumeBlock(c, b, s, h))
  {
    hide LoudBlock;
  }

  lemma StmtsLoud(p: Package, c: Ctx, b: Block, i: nat, s: Scope, h: seq<Answer>)
    requires LoudBlock(b) && Heard(p, c, TStmts(b, i), s, h)
    ensures SaysWhy(ResumeStmts(p, c, b, i, s, h))
  {
    hide ResumeExpr, ResumeOperands, ResumeArms, ResumeStmt, ResumePlace, ResumeLoop, ResumeBlock;
    hide LoudExpr, LoudStmt;
  }

  lemma StmtLoud(p: Package, c: Ctx, stmt: Stmt, s: Scope, h: seq<Answer>)
    requires LoudStmt(stmt) && Heard(p, c, TStmt(stmt), s, h)
    ensures SaysWhy(ResumeStmt(p, c, stmt, s, h))
  {
    hide ResumeExpr, ResumeOperands, ResumeArms, ResumeStmts, ResumePlace, ResumeLoop, ResumeBlock;
    hide BindPattern, Assigned, LoudExpr, Firm;
    assert |h| > 1 ==> h[..|h| - 1][0] == h[0];
    if h != [] && h[|h| - 1].o.Val? && stmt.Decl? { FirmBinds(p, stmt.pat, h[|h| - 1].o.v); }
    if h != [] && h[|h| - 1].o.Slot? && stmt.Reassign? && h[0].o.Val? {
      AssignedSaysWhy(p, h[|h| - 1].s, h[|h| - 1].o.place, stmt.compound, h[0].o.v);
    }
  }

  lemma LoopLoud(p: Package, c: Ctx, cond: Option<Cond>, body: Block, s: Scope, h: seq<Answer>)
    requires Loud(TLoop(cond, body)) && Heard(p, c, TLoop(cond, body), s, h)
    ensures SaysWhy(ResumeLoop(p, c, cond, body, s, h))
  {
    hide ResumeExpr, ResumeOperands, ResumeArms, ResumeStmts, ResumeStmt, ResumePlace, ResumeBlock;
    hide MatchPattern, Open, Close, LoudExpr, LoudBlock;
  }

  lemma IfLoud(p: Package, c: Ctx, e: Expr, s: Scope, h: seq<Answer>)
    requires e.If? && LoudExpr(e) && Heard(p, c, TExpr(e), s, h)
    ensures SaysWhy(ResumeIf(p, c, e, s, h))
  {
    hide ResumeOperands, ResumeArms, ResumeStmts, ResumeStmt, ResumePlace, ResumeLoop, ResumeBlock;
    hide MatchPattern, Open, Close, LoudBlock, ExprType;
    assert LoudExpr(CondExpr(e.cond));
  }

  lemma EntersLoud(p: Package, c: Ctx, fn: Callee, pats: seq<Pattern>, vs: seq<Typed>, s: Scope)
    requires fn.item.Some? && LoudItem(fn.item.value) && forall i :: 0 <= i < |pats| ==> Firm(pats[i])
    ensures SaysWhy(EnterBody(p, c, fn, BindArgs(p, pats, vs), s))
  {
    hide Firm, BindArgs, LoudBlock;
    ArgsBind(p, pats, vs);
  }

  lemma FnCallLoud(p: Package, c: Ctx, e: Expr, fn: Callee, s: Scope, h: seq<Answer>)
    requires LoudPackage(p) && e.Call? && PlanCall(p, c, e) == FnCall(fn) && LoudExpr(e) && Heard(p, c, TExpr(e), s, h)
    ensures SaysWhy(ResumeFnCall(p, c, e, fn, s, h))
  {
    hide ResumeIf, ResumeMethodCall, ResumeStrict, ResumeLooping, PlanMethod, PlanPath, LoudExpr, LoudItem, EnterBody;
    hide ResumeOperands, ResumeArms, ResumeStmts, ResumeStmt, ResumePlace, ResumeLoop, ResumeBlock;
    hide BindArgs, CallPatterns;
    LastHeard(p, c, e, s, h);
    if fn.item.Some? {
      FormalsFirm(fn);
      if h != [] && h[0].o.Operands? { EntersLoud(p, c, fn, CallPatterns(fn), h[0].o.vs, h[0].s); }
    }
  }

  lemma MethodCallLoud(p: Package, c: Ctx, e: Expr, s: Scope, h: seq<Answer>)
    requires LoudPackage(p) && e.MethodCall? && LoudExpr(e) && Heard(p, c, TExpr(e), s, h)
    ensures SaysWhy(ResumeMethodCall(p, c, e, s, h))
  {
    hide ResumeIf, ResumeFnCall, ResumeStrict, ResumeLooping, PlanCall, PlanPath, LoudItem, EnterBody, LoudAll;
    hide ResumeOperands, ResumeArms, ResumeStmts, ResumeStmt, ResumePlace, ResumeLoop, ResumeBlock;
    hide BindArgs, MethodPatterns;
    LastHeard(p, c, e, s, h);
    if PlanMethod(p, c, e).Some? {
      var fn := PlanMethod(p, c, e).value;
      FormalsFirm(fn);
      if |h| > 1 && h[1].o.Operands? { EntersLoud(p, c, fn, MethodPatterns(fn), h[1].o.vs, h[1].s); }
    }
  }

  lemma StrictLoud(p: Package, c: Ctx, e: Expr, s: Scope, h: seq<Answer>, tick: bool)
    requires LoudExpr(e) && (h != [] ==> h[|h| - 1].o != Stop(NoFailure))
    ensures SaysWhy(ResumeStrict(p, c, e, s, h, tick))
  {
    hide Finish, LoudExpr;
    if h != [] && h[|h| - 1].o.Operands? { FinishSaysWhy(p, c, e, h[|h| - 1].o.vs); }
  }

  lemma ControlLoud(p: Package, c: Ctx, e: Expr, s: Scope, h: seq<Answer>)
    requires e.Path? || e.Return? || e.BlockExpr? || e.Match? || e.Loop? || e.While?
    requires LoudPackage(p) && LoudExpr(e) && Heard(p, c, TExpr(e), s, h)
    ensures SaysWhy(ResumeExpr(p, c, e, s, h))
  {
    hide ResumeIf, ResumeMethodCall, ResumeFnCall, ResumeStrict, LoudBlock, LoudArm, LoudTarget;
    hide ResumeOperands, ResumeArms, ResumeStmts, ResumeStmt, ResumePlace, ResumeLoop, ResumeBlock;
  }

  /** No expression asks for a place. */
  lemma ExprAsksNoPlace(p: Package, c: Ctx, e: Expr, s: Scope, h: seq<Answer>)
    ensures var step := ResumeExpr(p, c, e, s, h); step.Ask? ==> !step.t.TPlace?
  {
    hide PlanPath, PlanCall, PlanMethod, BindArgs, CallPatterns, MethodPatterns, Decide, Finish;
  }

  lemma ExprLoud(p: Package, c: Ctx, e: Expr, s: Scope, h: seq<Answer>)
    requires LoudPackage(p) && LoudExpr(e) && Heard(p, c, TExpr(e), s, h)
    ensures SaysWhy(ResumeExpr(p, c, e, s, h))
  {
    hide ResumeIf, ResumeMethodCall, ResumeFnCall, ResumeStrict, ResumeLooping, LoudPackage, PlanPath, PlanCall;
    hide LoudExpr, Heard;
    NeverDeref(e);
    LastHeard(p, c, e, s, h);
    match e
    case If(_, _, _, _) => IfLoud(p, c, e, s, h);
    case MethodCall(_, _, _) => MethodCallLoud(p, c, e, s, h);
    case Call(_, _, _) => CallLoud(p, c, e, s, h);
    case Lit(_, _) | OpaqueExpr(_) | Break(_) | Continue(_) =>
    case Path(_, _, _) | Return(_, _) | BlockExpr(_, _) | Match(_, _, _) | Loop(_, _) | While(_, _, _) =>
      ControlLoud(p, c, e, s, h);
    case _ => StrictLoud(p, c, e, s, h, false);
  }

  lemma NeverDeref(e: Expr)
    requires LoudExpr(e)
    ensures !e.Deref?
  {
  }

  lemma LastHeard(p: Package, c: Ctx, e: Expr, s: Scope, h: seq<Answer>)
    requires Heard(p, c, TExpr(e), s, h)
    ensures h != [] ==> h[|h| - 1].o != Stop(NoFailure)
  {
    hide ResumeExpr;
    if h != [] { ExprAsksNoPlace(p, c, e, s, h[..|h| - 1]); }
  }

  lemma CallLoud(p: Package, c: Ctx, e: Expr, s: Scope, h: seq<Answer>)
    requires LoudPackage(p) && e.Call? && LoudExpr(e) && Heard(p, c, TExpr(e), s, h)
    ensures SaysWhy(ResumeExpr(p, c, e, s, h))
  {
    hide ResumeIf, ResumeMethodCall, ResumeFnCall, ResumeStrict, LoudExpr, LoudPackage, PlanCall;
    hide Heard;
    LastHeard(p, c, e, s, h);
    match PlanCall(p, c, e)
    case BadCall =>
    case CtorCall(_) => StrictLoud(p, c, e, s, h, false);
    case IntrinsicCall(_) => StrictLoud(p, c, e, s, h, true);
    case FnCall(fn) => FnCallLoud(p, c, e, fn, s, h);
  }

  lemma StepLoud(p: Package, c: Ctx, t: Task, s: Scope, h: seq<Answer>)
    requires LoudPackage(p) && Loud(t) && !t.TPlace? && Heard(p, c, t, s, h)
    ensures SaysWhy(Resume(p, c, t, s, h))
  {
    hide Heard, ResumeExpr, ResumeOperands, ResumeArms, ResumeStmts, ResumeStmt, ResumePlace, ResumeLoop;
    hide ResumeBlock, LoudExpr, LoudBlock, LoudPackage, SaysWhy;
    match t
    case TExpr(e) => ExprLoud(p, c, e, s, h);
    case TOperands(e, vs) => OperandsLoud(p, c, e, vs, s, h);
    case TArms(e, i, v) => ArmsLoud(p, c, e, i, v, s, h);
    case TBlock(b) => BlockLoud(p, c, b, s, h);
    case TStmts(b, i) => StmtsLoud(p, c, b, i, s, h);
    case TStmt(stmt) => StmtLoud(p, c, stmt, s, h);
    case TLoop(cond, body) => LoopLoud(p, c, cond, body, s, h);
  }

  // ----- whole runs ---------------------------------------------------------------------------------

  /** In a loud package a loud task that refuses has recorded why. */
  lemma {:induction false} RunSaysWhy(p: Package, c: Ctx, t: Task, s: Scope, q: nat)
    requires LoudPackage(p) && Loud(t) && !t.TPlace?
    ensures Run(p, c, t, s, q).o != Stop(NoFailure)
    decreases q, Major(t), Minor(t), 4
  {
    hide Resume, Pays, Loud, LoudPackage;
    DriveSaysWhy(p, c, t, s, [], q, q);
  }

  lemma {:induction false} DriveSaysWhy(p: Package, c: Ctx, t: Task, s: Scope, h: seq<Answer>, q: nat, q0: nat)
    requires LoudPackage(p) && Loud(t) && !t.TPlace? && Heard(p, c, t, s, h) && Underway(p, c, t, s, h, q, q0)
    ensures Drive(p, c, t, s, h, q, q0).o != Stop(NoFailure)
    decreases q0, Major(t), Minor(t), 3 - |h|
  {
    hide Resume, Pays, Loud, LoudPackage, Run;
    var step := Resume(p, c, t, s, h);
    StepGuarantees(p, c, t, s, h);
    StepLoud(p, c, t, s, h);
    if step.Ask? && Tick(step) <= q {
      var r := Run(p, step.c, step.t, step.s, q - Tick(step));
      if !step.t.TPlace? { RunSaysWhy(p, step.c, step.t, step.s, q - Tick(step)); }
      DriveAsk(p, c, t, s, h, q, q0, r);
      var g := h + [Answer(r.o, r.s)];
      assert g[..|g| - 1] == h;
      DriveSaysWhy(p, c, t, s, g, r.q, q0);
    }
  }

  /** Each thing left out refuses in silence: a dereference, and a declared reference pattern that misses. */
  lemma SilentRefusals(p: Package, c: Ctx, s: Scope, q: nat, x: Expr, init: Expr, inner: Pattern)
    requires Misses(inner)
    requires var r := Run(p, InValue(c), TExpr(init), s, q); r.o.Val? && r.o.v.value == VVoid
    ensures Run(p, c, TExpr(Deref(0, x)), s, q).o == Stop(NoFailure)
    ensures Run(p, c, TStmt(Decl(RefPat(inner), init)), s, q).o == Stop(NoFailure)
  {
    hide Run;
    RunLeaf(p, c, Deref(0, x), s, q);
    RunDecl(p, c, RefPat(inner), init, s, q);
    var v := Run(p, InValue(c), TExpr(init), s, q).o.v;
    MissesExactly(p, inner, v.ty);
    assert MatchPattern(p, RefPat(inner), v) == MatchPattern(p, inner, v);
  }

  /** And so does a callee without a body. */
  lemma BodilessRefuses(p: Package, c: Ctx, e: Expr, fn: Callee, s: Scope, q: nat)
    requires e.Call? && e.args == [] && PlanCall(p, c, e) == FnCall(fn) && Callable(e, fn) && fn.item.value.body.None?
    requires c.depth < MAX_CALL_DEPTH && q > 0
    ensures Run(p, c, TExpr(e), s, q) == Result(Stop(NoFailure), s, q - 1)
  {
    hide Run, PlanCall;
    RunFnCall(p, c, e, fn, s, q);
    RunOperands(p, Deeper(c), e, [], s, q - 1);
    assert PlanCall(p, Deeper(c), e) == PlanCall(p, c, e) by { SamePlan(p, c, e); }
  }

  lemma SamePlan(p: Package, c: Ctx, e: Expr)
    requires e.Call?
    ensures PlanCall(p, Deeper(c), e) == PlanCall(p, c, e)
  {
  }
}
