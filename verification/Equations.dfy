/**
 The run of each construct, in terms of the runs of its parts. These are the equations the
 evaluator's methods are proved by.
 */
module Equations {
  import opened Machine
  import opened Lang
  import opened Patterns
  import opened Semantics
  import opened Steps
  import opened Runs

  // ----- runs of one, two and three subtasks ----------------------------------------------------

  /** The run of the subtask a step asks for. */
  function SubRun(p: Package, step: Step, q: nat): Result
    requires step.Ask? && Tick(step) <= q
  {
    Run(p, step.c, step.t, step.s, q - Tick(step))
  }

  function AnswerOf(r: Result): Answer { Answer(r.o, r.s) }

  lemma Zero(p: Package, c: Ctx, t: Task, s: Scope, q: nat)
    requires Resume(p, c, t, s, []).Done?
    ensures var step := Resume(p, c, t, s, []);
            Run(p, c, t, s, q) ==
            if q < Tick(step) then Result(Stop(Budget), step.s, q) else Result(step.o, step.s, q - Tick(step))
  {
    hide Resume, Pays;
  }

  /** The first step could not be paid for. */
  lemma Broke(p: Package, c: Ctx, t: Task, s: Scope, q: nat)
    requires Resume(p, c, t, s, []).Ask? && q < Tick(Resume(p, c, t, s, []))
    ensures Run(p, c, t, s, q) ==
      Result(Stop(Budget), Resume(p, c, t, s, [Answer(Stop(Budget), Resume(p, c, t, s, []).s)]).s, q)
  {
    hide Resume, Pays;
    assert [] + [Answer(Stop(Budget), Resume(p, c, t, s, []).s)] == [Answer(Stop(Budget), Resume(p, c, t, s, []).s)];
  }

  lemma One(p: Package, c: Ctx, t: Task, s: Scope, q: nat)
    requires var step := Resume(p, c, t, s, []); step.Ask? && Tick(step) <= q
    ensures var r := SubRun(p, Resume(p, c, t, s, []), q);
            var h := [AnswerOf(r)];
            && Underway(p, c, t, s, h, r.q, q)
            && Run(p, c, t, s, q) == Drive(p, c, t, s, h, r.q, q)
            && var next := Resume(p, c, t, s, h);
               (next.Done? && Tick(next) == 0 ==> Run(p, c, t, s, q) == Result(next.o, next.s, r.q))
  {
    hide Resume, Pays, Drive;
    var r := SubRun(p, Resume(p, c, t, s, []), q);
    DriveAsk(p, c, t, s, [], q, q, r);
    var h := [AnswerOf(r)];
    assert [] + h == h;
    var next := Resume(p, c, t, s, h);
    if next.Done? && Tick(next) == 0 { DriveDone(p, c, t, s, h, r.q, q); }
  }

  lemma More(p: Package, c: Ctx, t: Task, s: Scope, h: seq<Answer>, q: nat, q0: nat)
    requires Underway(p, c, t, s, h, q, q0)
    requires var step := Resume(p, c, t, s, h); step.Ask? && Tick(step) <= q
    ensures var r := SubRun(p, Resume(p, c, t, s, h), q);
            var g := h + [AnswerOf(r)];
            && Underway(p, c, t, s, g, r.q, q0)
            && Drive(p, c, t, s, h, q, q0) == Drive(p, c, t, s, g, r.q, q0)
            && var next := Resume(p, c, t, s, g);
               (next.Done? && Tick(next) == 0 ==> Drive(p, c, t, s, h, q, q0) == Result(next.o, next.s, r.q))
  {
    hide Resume, Pays;
    var r := SubRun(p, Resume(p, c, t, s, h), q);
    DriveAsk(p, c, t, s, h, q, q0, r);
  }

  // ----- blocks and statements ------------------------------------------------------------------

  lemma RunBlock(p: Package, c: Ctx, b: Block, s: Scope, q: nat)
    ensures var r := Run(p, c, TStmts(b, 0), Push(s, []), q);
            Run(p, c, TBlock(b), s, q) == Result(r.o, Pop(r.s), r.q)
  {
    hide Run, Drive, ResumeExpr, ResumeStmts;
    One(p, c, TBlock(b), s, q);
  }

  lemma RunNextStmt(p: Package, c: Ctx, b: Block, i: nat, s: Scope, q: nat)
    requires i < |b.stmts|
    ensures var r := Run(p, c, TStmt(b.stmts[i]), s, q);
            Run(p, c, TStmts(b, i), s, q) == if r.o.Val? then Run(p, c, TStmts(b, i + 1), r.s, r.q) else r
  {
    hide Run, Drive, Underway, ResumeExpr, ResumeOperands, ResumeArms, ResumeStmt, ResumePlace, ResumeLoop, ResumeBlock;
    var t := TStmts(b, i);
    One(p, c, t, s, q);
    var r := Run(p, c, TStmt(b.stmts[i]), s, q);
    if r.o.Val? { More(p, c, t, s, [AnswerOf(r)], r.q, q); }
  }

  lemma RunTail(p: Package, c: Ctx, b: Block, i: nat, s: Scope, q: nat)
    requires i >= |b.stmts|
    ensures Run(p, c, TStmts(b, i), s, q) ==
            if b.tail.None? then Result(Val(VoidVal(p)), s, q) else Run(p, InStmt(c), TExpr(b.tail.value), s, q)
  {
    hide Run, Drive, Underway, ResumeExpr, ResumeOperands, ResumeArms, ResumeStmt, ResumePlace, ResumeLoop, ResumeBlock;
    if b.tail.None? { Zero(p, c, TStmts(b, i), s, q); } else { One(p, c, TStmts(b, i), s, q); }
  }

  lemma RunDecl(p: Package, c: Ctx, pat: Pattern, init: Expr, s: Scope, q: nat)
    ensures var r := Run(p, InValue(c), TExpr(init), s, q);
            Run(p, c, TStmt(Decl(pat, init)), s, q) ==
            if !r.o.Val? then r
            else
              var b := BindPattern(p, pat, r.o.v);
              Result(if b.ok then Val(VoidVal(p)) else Stop(b.failure), Extend(r.s, b.bindings), r.q)
  {
    hide Run, Drive, Underway, ResumeExpr, ResumeOperands, ResumeArms, ResumeStmts, ResumePlace, ResumeLoop;
    hide ResumeBlock;
    hide BindPattern;
    One(p, c, TStmt(Decl(pat, init)), s, q);
  }

  lemma RunExprStmt(p: Package, c: Ctx, e: Expr, s: Scope, q: nat)
    ensures var r := Run(p, InStmt(c), TExpr(e), s, q);
            Run(p, c, TStmt(ExprStmt(e)), s, q) == if r.o.Val? then r.(o := Val(VoidVal(p))) else r
  {
    hide Run, Drive, Underway, ResumeExpr, ResumeOperands, ResumeArms, ResumeStmts, ResumePlace, ResumeLoop;
    hide ResumeBlock;
    One(p, c, TStmt(ExprStmt(e)), s, q);
  }

  lemma RunReassign(p: Package, c: Ctx, place: Expr, compound: Option<BinaryOp>, value: Expr, s: Scope, q: nat)
    ensures var r := Run(p, InValue(c), TExpr(value), s, q);
            var slot := Run(p, InValue(c), TPlace(place), r.s, r.q);
            Run(p, c, TStmt(Reassign(place, compound, value)), s, q) ==
            if !r.o.Val? then r
            else if slot.o.Slot? then
              var a := Assigned(p, slot.s, slot.o.place, compound, r.o.v);
              Result(a.o, a.s, slot.q)
            else slot.(o := Stop(if slot.o.Stop? then Recorded(slot.o.failure) else Program))
  {
    hide Run, Drive, Underway, ResumeExpr, ResumeOperands, ResumeArms, ResumeStmts, ResumePlace, ResumeLoop;
    hide ResumeBlock;
    hide Assigned;
    var t := TStmt(Reassign(place, compound, value));
    One(p, c, t, s, q);
    var r := Run(p, InValue(c), TExpr(value), s, q);
    if r.o.Val? { More(p, c, t, s, [AnswerOf(r)], r.q, q); }
  }

  // ----- places ---------------------------------------------------------------------------------

  lemma RunPlaceLeaf(p: Package, c: Ctx, e: Expr, s: Scope, q: nat)
    requires !e.Field? && !e.Index?
    ensures var step := ResumePlace(p, c, e, s, []); Run(p, c, TPlace(e), s, q) == Result(step.o, step.s, q)
  {
    hide Run, Drive, Underway, ResumeExpr, ResumeOperands, ResumeArms, ResumeStmts, ResumeStmt, ResumeLoop, ResumeBlock;
    Zero(p, c, TPlace(e), s, q);
  }

  lemma RunFieldPlace(p: Package, c: Ctx, e: Expr, s: Scope, q: nat)
    requires e.Field?
    ensures var r := Run(p, c, TPlace(e.receiver), s, q);
            Run(p, c, TPlace(e), s, q) == if r.o.Slot? then r.(o := FieldPlace(p, r.s, r.o.place, e.name)) else r
  {
    hide Run, Drive, Underway, ResumeExpr, ResumeOperands, ResumeArms, ResumeStmts, ResumeStmt, ResumeLoop, ResumeBlock;
    hide FieldPlace;
    One(p, c, TPlace(e), s, q);
  }

  lemma RunIndexPlace(p: Package, c: Ctx, e: Expr, s: Scope, q: nat)
    requires e.Index?
    ensures var r := Run(p, c, TPlace(e.receiver), s, q);
            var i := Run(p, InValue(c), TExpr(e.index), r.s, r.q);
            Run(p, c, TPlace(e), s, q) ==
            if !r.o.Slot? then r
            else if !i.o.Val? then i
            else i.(o := IndexPlace(p, i.s, r.o.place, i.o.v))
  {
    hide Run, Drive, Underway, ResumeExpr, ResumeOperands, ResumeArms, ResumeStmts, ResumeStmt, ResumeLoop, ResumeBlock;
    hide IndexPlace;
    One(p, c, TPlace(e), s, q);
    var r := Run(p, c, TPlace(e.receiver), s, q);
    if r.o.Slot? { More(p, c, TPlace(e), s, [AnswerOf(r)], r.q, q); }
  }

  // ----- operands and the constructs that read them -----------------------------------------------

  lemma RunOperands(p: Package, c: Ctx, e: Expr, vs: seq<Typed>, s: Scope, q: nat)
    ensures Run(p, c, TOperands(e, vs), s, q) ==
            var next := NextOperand(p, c, e, vs);
            if next.Stuck? then Result(Stop(next.failure), s, q)
            else if next.Ready? then Result(Operands(vs), s, q)
            else
              var r := Run(p, InValue(c), TExpr(OperandExprs(e)[next.i]), s, q);
              if r.o.Val? then Run(p, c, TOperands(e, vs + [r.o.v]), r.s, r.q) else r
  {
    hide Run, Drive, Underway, ResumeExpr, ResumeArms, ResumeStmts, ResumeStmt, ResumePlace, ResumeLoop, ResumeBlock;
    hide NextOperand;
    var t := TOperands(e, vs);
    match NextOperand(p, c, e, vs)
    case Stuck(_) => Zero(p, c, t, s, q);
    case Ready => Zero(p, c, t, s, q);
    case Need(i) =>
      One(p, c, t, s, q);
      var r := Run(p, InValue(c), TExpr(OperandExprs(e)[i]), s, q);
      if r.o.Val? { More(p, c, t, s, [AnswerOf(r)], r.q, q); }
  }

  /** The constructs that read their operands and answer; `true` for the ones that pay. */
  predicate ReadsOperands(p: Package, c: Ctx, e: Expr, tick: bool) {
    match e
    case Call(_, _, _) => if tick then PlanCall(p, c, e).IntrinsicCall? else PlanCall(p, c, e).CtorCall?
    case Unary(_, _, _) | Borrow(_, _) | Binary(_, _, _, _) | CastTo(_, _) | Field(_, _, _) | Index(_, _, _)
       | Question(_, _) | TupleExpr(_, _) | ArrayExpr(_, _) | RepeatExpr(_, _, _) | StructExpr(_, _, _) => !tick
    case _ => false
  }

  lemma StrictForm(p: Package, c: Ctx, e: Expr, s: Scope, h: seq<Answer>, tick: bool)
    requires ReadsOperands(p, c, e, tick)
    ensures Resume(p, c, TExpr(e), s, h) == ResumeStrict(p, c, e, s, h, tick)
  {
    hide PlanCall, ResumeStrict;
  }

  lemma RunStrict(p: Package, c: Ctx, e: Expr, s: Scope, q: nat, tick: bool)
    requires ReadsOperands(p, c, e, tick)
    ensures var cost := if tick then 1 else 0;
            Run(p, c, TExpr(e), s, q) ==
            if q < cost then Result(Stop(Budget), s, q)
            else
              var r := Run(p, InValue(c), TOperands(e, []), s, q - cost);
              if r.o.Operands? then r.(o := Finish(p, c, e, r.o.vs)) else r
  {
    hide Run, Drive, Underway, Resume, Finish, ReadsOperands;
    StrictForm(p, c, e, s, [], tick);
    if q < (if tick then 1 else 0) {
      StrictForm(p, c, e, s, [Answer(Stop(Budget), s)], tick);
      Broke(p, c, TExpr(e), s, q);
    } else {
      One(p, c, TExpr(e), s, q);
      StrictForm(p, c, e, s, [AnswerOf(Run(p, InValue(c), TOperands(e, []), s, q - if tick then 1 else 0))], tick);
    }
  }

  // ----- control --------------------------------------------------------------------------------

  /** The constructs that answer at once. */
  lemma RunLeaf(p: Package, c: Ctx, e: Expr, s: Scope, q: nat)
    requires ResumeExpr(p, c, e, s, []).Done?
    ensures var step := ResumeExpr(p, c, e, s, []);
            Run(p, c, TExpr(e), s, q) ==
            if q < Tick(step) then Result(Stop(Budget), step.s, q) else Result(step.o, step.s, q - Tick(step))
  {
    hide Run, Drive, Underway, ResumeExpr;
    Zero(p, c, TExpr(e), s, q);
  }

  /** A const item pays, and evaluates its initializer one level down in a scope of its own. */
  lemma RunConst(p: Package, c: Ctx, e: Expr, s: Scope, q: nat)
    requires e.Path? && PlanPath(p, c, e, s).PathConst? && c.depth < MAX_CALL_DEPTH
    ensures Run(p, c, TExpr(e), s, q) ==
            if q == 0 then Result(Stop(Budget), s, q)
            else Run(p, Deeper(c), TExpr(PlanPath(p, c, e, s).init), FreshScope, q - 1).(s := s)
  {
    hide Run, Drive, Underway, ResumeOperands, ResumeArms, ResumeStmts, ResumeStmt, ResumePlace, ResumeLoop;
    hide ResumeBlock;
    hide PlanPath;
    if q == 0 { Broke(p, c, TExpr(e), s, q); } else { One(p, c, TExpr(e), s, q); }
  }

  /** A jump leaves an expression in statement position, and is refused unevaluated anywhere else. */
  lemma RunJump(p: Package, c: Ctx, e: Expr, s: Scope, q: nat)
    requires e.Break? || e.Continue? || e.Return?
    ensures !c.stmtPos ==> Run(p, c, TExpr(e), s, q) == Result(Stop(Program), s, q)
    ensures c.stmtPos && e.Break? ==> Run(p, c, TExpr(e), s, q) == Result(Leave(JBreak, VoidVal(p)), s, q)
    ensures c.stmtPos && e.Continue? ==> Run(p, c, TExpr(e), s, q) == Result(Leave(JContinue, VoidVal(p)), s, q)
    ensures c.stmtPos && e.Return? && e.answer.None? ==>
      Run(p, c, TExpr(e), s, q) == Result(Leave(JReturn, VoidVal(p)), s, q)
    ensures c.stmtPos && e.Return? && e.answer.Some? ==>
      var r := Run(p, InValue(c), TExpr(e.answer.value), s, q);
      Run(p, c, TExpr(e), s, q) == if r.o.Val? then r.(o := Leave(JReturn, r.o.v)) else r
  {
    hide Run, Drive, Underway;
    if c.stmtPos && e.Return? && e.answer.Some? {
      RunReturn(p, c, e, s, q);
    } else {
      RunLeaf(p, c, e, s, q);
    }
  }

  lemma RunReturn(p: Package, c: Ctx, e: Expr, s: Scope, q: nat)
    requires e.Return? && e.answer.Some? && c.stmtPos
    ensures var r := Run(p, InValue(c), TExpr(e.answer.value), s, q);
            Run(p, c, TExpr(e), s, q) == if r.o.Val? then r.(o := Leave(JReturn, r.o.v)) else r
  {
    hide Run, Drive, Underway, ResumeOperands, ResumeArms, ResumeStmts, ResumeStmt, ResumePlace, ResumeLoop;
    hide ResumeBlock;
    One(p, c, TExpr(e), s, q);
  }

  lemma RunBlockExpr(p: Package, c: Ctx, e: Expr, s: Scope, q: nat)
    requires e.BlockExpr?
    ensures var r := Run(p, c, TBlock(e.block), s, q);
            Run(p, c, TExpr(e), s, q) == r.(o := Conclude(p, c, e.id, r.o))
  {
    hide Run, Drive, Underway, ResumeOperands, ResumeArms, ResumeStmts, ResumeStmt, ResumePlace, ResumeLoop;
    hide ResumeBlock;
    hide Conclude;
    One(p, c, TExpr(e), s, q);
  }

  lemma RunIf(p: Package, c: Ctx, e: Expr, s: Scope, q: nat)
    requires e.If?
    ensures var r := Run(p, InValue(c), TExpr(CondExpr(e.cond)), s, q);
            Run(p, c, TExpr(e), s, q) ==
            if !r.o.Val? then r
            else
              var d := Decide(p, e.cond, r.o.v);
              if d.Broken? then r.(o := Stop(d.failure))
              else if d.Enter? then
                var b := Run(p, c, TBlock(e.thenBlock), Open(e.cond, r.s, d.bindings), r.q);
                Result(Conclude(p, c, e.id, b.o), Close(e.cond, b.s), b.q)
              else if e.elseBlock.None? then r.(o := Val(Typed(VVoid, ExprType(p, c, e.id))))
              else
                var b := Run(p, c, TBlock(e.elseBlock.value), r.s, r.q);
                b.(o := Conclude(p, c, e.id, b.o))
  {
    hide Run, Drive, Underway, ResumeOperands, ResumeArms, ResumeStmts, ResumeStmt, ResumePlace, ResumeLoop;
    hide ResumeBlock;
    hide Conclude, Decide, Open, Close, ExprType;
    var t := TExpr(e);
    One(p, c, t, s, q);
    var r := Run(p, InValue(c), TExpr(CondExpr(e.cond)), s, q);
    if r.o.Val? && ResumeIf(p, c, e, s, [AnswerOf(r)]).Ask? { More(p, c, t, s, [AnswerOf(r)], r.q, q); }
  }

  lemma RunMatch(p: Package, c: Ctx, e: Expr, s: Scope, q: nat)
    requires e.Match?
    ensures var r := Run(p, InValue(c), TExpr(e.scrutinee), s, q);
            Run(p, c, TExpr(e), s, q) == if r.o.Val? then Run(p, c, TArms(e, 0, r.o.v), r.s, r.q) else r
  {
    hide Run, Drive, Underway, ResumeOperands, ResumeArms, ResumeStmts, ResumeStmt, ResumePlace, ResumeLoop;
    hide ResumeBlock;
    One(p, c, TExpr(e), s, q);
    var r := Run(p, InValue(c), TExpr(e.scrutinee), s, q);
    if r.o.Val? { More(p, c, TExpr(e), s, [AnswerOf(r)], r.q, q); }
  }

  /** No arm left, or an arm whose pattern does not match. */
  lemma RunArmPassed(p: Package, c: Ctx, e: Expr, i: nat, v: Typed, s: Scope, q: nat)
    requires e.Match?
    ensures i >= |e.arms| ==> Run(p, c, TArms(e, i, v), s, q) == Result(Stop(Program), s, q)
    ensures i < |e.arms| && MatchPattern(p, e.arms[i].pat, v).PatFail? ==>
              Run(p, c, TArms(e, i, v), s, q) == Result(Stop(MatchPattern(p, e.arms[i].pat, v).failure), s, q)
    ensures i < |e.arms| && MatchPattern(p, e.arms[i].pat, v).NoMatch? ==>
              Run(p, c, TArms(e, i, v), s, q) == Run(p, c, TArms(e, i + 1, v), s, q)
  {
    hide Run, Drive, Underway, ResumeExpr, ResumeOperands, ResumeStmts, ResumeStmt, ResumePlace, ResumeLoop;
    hide ResumeBlock;
    hide MatchPattern;
    var t := TArms(e, i, v);
    if i >= |e.arms| || MatchPattern(p, e.arms[i].pat, v).PatFail? {
      Zero(p, c, t, s, q);
    } else if MatchPattern(p, e.arms[i].pat, v).NoMatch? {
      One(p, c, t, s, q);
    }
  }

  /** An arm that matched: its guard, then its body, in the frame its bindings make. */
  lemma RunArmMatched(p: Package, c: Ctx, e: Expr, i: nat, v: Typed, s: Scope, q: nat, bs: Frame)
    requires e.Match? && i < |e.arms| && MatchPattern(p, e.arms[i].pat, v) == Matched(bs)
    ensures var arm, inner := e.arms[i], Push(s, bs);
            var g := if arm.guard.None? then Result(Val(Typed(VBool(true), 0)), inner, q)
                     else Run(p, InValue(c), TExpr(arm.guard.value), inner, q);
            Run(p, c, TArms(e, i, v), s, q) ==
            if !g.o.Val? then g.(s := Pop(g.s))
            else if !g.o.v.value.VBool? then Result(Stop(Program), Pop(g.s), g.q)
            else if !g.o.v.value.truth then Run(p, c, TArms(e, i + 1, v), Pop(g.s), g.q)
            else
              var b := Run(p, InStmt(c), TExpr(arm.body), g.s, g.q);
              Result(Conclude(p, c, e.id, b.o), Pop(b.s), b.q)
  {
    hide Run, Drive, Underway, ResumeExpr, ResumeOperands, ResumeStmts, ResumeStmt, ResumePlace, ResumeLoop;
    hide ResumeBlock;
    hide MatchPattern, Conclude, Push, Pop;
    var t, arm, inner := TArms(e, i, v), e.arms[i], Push(s, bs);
    One(p, c, t, s, q);
    if arm.guard.Some? {
      var g := Run(p, InValue(c), TExpr(arm.guard.value), inner, q);
      if g.o.Val? && g.o.v.value.VBool? { More(p, c, t, s, [AnswerOf(g)], g.q, q); }
    }
  }

  // ----- loops ----------------------------------------------------------------------------------

  /** Entering a loop, or going round again: pay, then run the rest. */
  function LoopFrom(p: Package, c: Ctx, cond: Option<Cond>, body: Block, s: Scope, q: nat): Result {
    if q == 0 then Result(Stop(Budget), s, q) else Run(p, c, TLoop(cond, body), s, q - 1)
  }

  lemma RunLooping(p: Package, c: Ctx, e: Expr, cond: Option<Cond>, body: Block, s: Scope, q: nat)
    requires (e.Loop? && cond == None && body == e.body) || (e.While? && cond == Some(e.cond) && body == e.body)
    ensures var r := LoopFrom(p, c, cond, body, s, q);
            Run(p, c, TExpr(e), s, q) == if r.o.Stop? then r else r.(o := Val(Typed(VVoid, ExprType(p, c, e.id))))
  {
    hide Run, Drive, Underway, ResumeOperands, ResumeArms, ResumeStmts, ResumeStmt, ResumePlace, ResumeLoop;
    hide ResumeBlock;
    hide ExprType;
    if q == 0 { Broke(p, c, TExpr(e), s, q); } else { One(p, c, TExpr(e), s, q); }
  }

  /** What follows the body of a turn. */
  function Turned(p: Package, c: Ctx, cond: Option<Cond>, body: Block, b: Result): Result {
    if b.o.Stop? || (b.o.Leave? && b.o.how == JReturn) then b
    else if b.o.Leave? && b.o.how == JBreak then b.(o := Val(VoidVal(p)))
    else LoopFrom(p, c, cond, body, b.s, b.q)
  }

  /** A step in mid-run that could not be paid for. */
  lemma BrokeLater(p: Package, c: Ctx, t: Task, s: Scope, h: seq<Answer>, q: nat, q0: nat)
    requires Underway(p, c, t, s, h, q, q0)
    requires Resume(p, c, t, s, h).Ask? && q < Tick(Resume(p, c, t, s, h))
    ensures Drive(p, c, t, s, h, q, q0)
         == Result(Stop(Budget), Resume(p, c, t, s, h + [Answer(Stop(Budget), Resume(p, c, t, s, h).s)]).s, q)
  {
    hide Resume, Pays;
  }

  lemma RunLoopTurn(p: Package, c: Ctx, body: Block, s: Scope, q: nat)
    ensures Run(p, c, TLoop(None, body), s, q) == Turned(p, c, None, body, Run(p, c, TBlock(body), s, q))
  {
    hide Run, Drive, Underway, ResumeExpr, ResumeOperands, ResumeArms, ResumeStmts, ResumeStmt, ResumePlace;
    hide ResumeBlock;
    var t := TLoop(None, body);
    One(p, c, t, s, q);
    var b := Run(p, c, TBlock(body), s, q);
    var h := [AnswerOf(b)];
    if ResumeLoop(p, c, None, body, s, h).Ask? {
      if b.q == 0 { BrokeLater(p, c, t, s, h, b.q, q); } else { More(p, c, t, s, h, b.q, q); }
    }
  }

  lemma RunWhileTurn(p: Package, c: Ctx, cond: Cond, body: Block, s: Scope, q: nat)
    ensures var r := Run(p, InValue(c), TExpr(CondExpr(cond)), s, q);
            Run(p, c, TLoop(Some(cond), body), s, q) ==
            if !r.o.Val? then r
            else
              var d := Decide(p, cond, r.o.v);
              if d.Broken? then r.(o := Stop(d.failure))
              else if d.Skip? then r.(o := Val(VoidVal(p)))
              else
                var b := Run(p, c, TBlock(body), Open(cond, r.s, d.bindings), r.q);
                Turned(p, c, Some(cond), body, b.(s := Close(cond, b.s)))
  {
    hide Run, Drive, Underway, ResumeExpr, ResumeOperands, ResumeArms, ResumeStmts, ResumeStmt, ResumePlace;
    hide ResumeBlock;
    hide Decide, Open, Close;
    var t := TLoop(Some(cond), body);
    One(p, c, t, s, q);
    var r := Run(p, InValue(c), TExpr(CondExpr(cond)), s, q);
    if r.o.Val? && Decide(p, cond, r.o.v).Enter? {
      var d := Decide(p, cond, r.o.v);
      More(p, c, t, s, [AnswerOf(r)], r.q, q);
      var b := Run(p, c, TBlock(body), Open(cond, r.s, d.bindings), r.q);
      var h := [AnswerOf(r)] + [AnswerOf(b)];
      if ResumeLoop(p, c, Some(cond), body, s, h).Ask? {
        if b.q == 0 { BrokeLater(p, c, t, s, h, b.q, q); } else { More(p, c, t, s, h, b.q, q); }
      }
    }
  }

  // ----- calls ----------------------------------------------------------------------------------

  /** The outcome of a call, from the outcome of its body. */
  function Returned(fn: Callee, o: Out): Out { FromBody(fn, o, Scope([], [])).o }

  /** Binding done, the body runs one level down; the caller's scope is `s`. */
  function CallBody(p: Package, c: Ctx, fn: Callee, b: BindResult, s: Scope, q: nat): Result
    requires fn.item.Some?
  {
    if !b.ok then Result(Stop(b.failure), s, q)
    else if fn.item.value.body.None? then Result(Stop(NoFailure), s, q)
    else
      var r := Run(p, Ctx(fn.mod, fn.inst, c.depth + 1, false), TBlock(fn.item.value.body.value),
        Scope([], [b.bindings]), q);
      Result(Returned(fn, r.o), s, r.q)
  }

  predicate Callable(e: Expr, fn: Callee) {
    e.Call? && fn.item.Some? && |e.args| == fn.arity == |fn.item.value.formals|
  }

  lemma RunFnCall(p: Package, c: Ctx, e: Expr, fn: Callee, s: Scope, q: nat)
    requires e.Call? && PlanCall(p, c, e) == FnCall(fn) && Callable(e, fn) && c.depth < MAX_CALL_DEPTH
    ensures Run(p, c, TExpr(e), s, q) ==
            if q == 0 then Result(Stop(Budget), s, q)
            else
              var r := Run(p, Deeper(c), TOperands(e, []), s, q - 1);
              if r.o.Operands? then CallBody(p, c, fn, BindArgs(p, CallPatterns(fn), r.o.vs), r.s, r.q) else r
  {
    hide Run, Drive, Underway, ResumeOperands, ResumeArms, ResumeStmts, ResumeStmt, ResumePlace, ResumeLoop;
    hide ResumeBlock;
    hide PlanCall, BindArgs, CallPatterns;
    var t := TExpr(e);
    if q == 0 {
      Broke(p, c, t, s, q);
    } else {
      One(p, c, t, s, q);
      var r := Run(p, Deeper(c), TOperands(e, []), s, q - 1);
      if ResumeFnCall(p, c, e, fn, s, [AnswerOf(r)]).Ask? { More(p, c, t, s, [AnswerOf(r)], r.q, q); }
    }
  }

  lemma RunMethodCall(p: Package, c: Ctx, e: Expr, s: Scope, q: nat)
    requires e.MethodCall?
    ensures Run(p, c, TExpr(e), s, q) ==
            if q == 0 then Result(Stop(Budget), s, q)
            else
              var r := Run(p, InValue(c), TExpr(e.receiver), s, q - 1);
              if !r.o.Val? then r
              else if PlanMethod(p, c, e).None? || c.depth >= MAX_CALL_DEPTH then r.(o := Stop(Program))
              else
                var fn := PlanMethod(p, c, e).value;
                var a := Run(p, Deeper(c), TOperands(e, [r.o.v]), r.s, r.q);
                if a.o.Operands? then CallBody(p, c, fn, BindArgs(p, MethodPatterns(fn), a.o.vs), a.s, a.q) else a
  {
    hide Run, Drive, Underway, ResumeOperands, ResumeArms, ResumeStmts, ResumeStmt, ResumePlace, ResumeLoop;
    hide ResumeBlock;
    hide BindArgs, MethodPatterns;
    var t := TExpr(e);
    if q == 0 {
      Broke(p, c, t, s, q);
    } else {
      One(p, c, t, s, q);
      var r := Run(p, InValue(c), TExpr(e.receiver), s, q - 1);
      var h := [AnswerOf(r)];
      if ResumeMethodCall(p, c, e, s, h).Ask? {
        More(p, c, t, s, h, r.q, q);
        var a := Run(p, Deeper(c), TOperands(e, [r.o.v]), r.s, r.q);
        var g := h + [AnswerOf(a)];
        if ResumeMethodCall(p, c, e, s, g).Ask? { More(p, c, t, s, g, a.q, q); }
      }
    }
  }
}
