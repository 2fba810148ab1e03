/**
 What the two readings say about the evaluator: it refines a big-step semantics, more quota
 never changes an answer, and no evaluation disturbs the shape of the scope it runs in.
 */
module BigStep {
  import opened Machine
  import opened Lang
  import opened Semantics
  import opened Steps
  import opened Runs
  import opened Equations
  import opened ScopeShape

  /** The judgement: in this context and scope a Task comes to this answer at this cost. */
  ghost predicate Derives(p: Package, c: Ctx, t: Task, s: Scope, ans: Answer, cost: nat) {
    exists d :: Valid(p, d) && d.c == c && d.t == t && d.s == s && d.ans == ans && d.cost == cost
  }

  /** Soundness and completeness: the run is the one derivation the quota can pay for. */
  lemma RunRefinesBigStep(p: Package, c: Ctx, t: Task, s: Scope, q: nat, ans: Answer, cost: nat)
    ensures Derives(p, c, t, s, ans, cost) && cost <= q
       <==> ans.o != Stop(Budget) && cost <= q && Run(p, c, t, s, q) == Result(ans.o, ans.s, q - cost)
  {
    hide Resume, Run, Valid;
    if Derives(p, c, t, s, ans, cost) && cost <= q {
      var d :| Valid(p, d) && d.c == c && d.t == t && d.s == s && d.ans == ans && d.cost == cost;
      DerivationRuns(p, d, q);
      NeverBudget(p, d);
    }
    if ans.o != Stop(Budget) && cost <= q && Run(p, c, t, s, q) == Result(ans.o, ans.s, q - cost) {
      var d := RunDerives(p, c, t, s, q);
    }
  }

  /** The quota runs out exactly when no derivation is cheap enough. */
  lemma BudgetExactly(p: Package, c: Ctx, t: Task, s: Scope, q: nat)
    ensures Run(p, c, t, s, q).o == Stop(Budget) <==>
      !exists ans, cost: nat :: Derives(p, c, t, s, ans, cost) && cost <= q
  {
    hide Resume, Run, Derives;
    var r := Run(p, c, t, s, q);
    if r.o != Stop(Budget) {
      RunRefinesBigStep(p, c, t, s, q, Answer(r.o, r.s), q - r.q);
      assert Derives(p, c, t, s, Answer(r.o, r.s), q - r.q);
    } else if exists ans, cost: nat :: Derives(p, c, t, s, ans, cost) && cost <= q {
      var ans, cost: nat :| Derives(p, c, t, s, ans, cost) && cost <= q;
      RunRefinesBigStep(p, c, t, s, q, ans, cost);
      assert false;
    }
  }

  /** An outcome that is not an exhausted quota is the same, at the same price, under any larger one. */
  lemma MoreQuotaSameAnswer(p: Package, c: Ctx, t: Task, s: Scope, q: nat, more: nat)
    requires Run(p, c, t, s, q).o != Stop(Budget)
    ensures var r := Run(p, c, t, s, q); Run(p, c, t, s, q + more) == Result(r.o, r.s, r.q + more)
  {
    hide Resume, Run, Derives;
    var r := Run(p, c, t, s, q);
    RunRefinesBigStep(p, c, t, s, q, Answer(r.o, r.s), q - r.q);
    RunRefinesBigStep(p, c, t, s, q + more, Answer(r.o, r.s), q - r.q);
  }

  /** The judgement is deterministic: one answer, one cost. */
  lemma OneAnswer(p: Package, c: Ctx, t: Task, s: Scope, a: Answer, m: nat, b: Answer, n: nat)
    requires Derives(p, c, t, s, a, m) && Derives(p, c, t, s, b, n)
    ensures a == b && m == n
  {
    hide Resume, Run, Derives;
    RunRefinesBigStep(p, c, t, s, m + n, a, m);
    RunRefinesBigStep(p, c, t, s, m + n, b, n);
  }

  // ----- calls ----------------------------------------------------------------------------------

  /** A body cannot reach its caller's bindings: a call leaves the scope its arguments left. */
  lemma CallLeavesCallerAlone(p: Package, c: Ctx, e: Expr, fn: Callee, s: Scope, q: nat)
    requires e.Call? && PlanCall(p, c, e) == FnCall(fn) && Callable(e, fn) && c.depth < MAX_CALL_DEPTH && q > 0
    ensures Run(p, c, TExpr(e), s, q).s == Run(p, Deeper(c), TOperands(e, []), s, q - 1).s
  {
    hide Resume, Run, PlanCall;
    RunFnCall(p, c, e, fn, s, q);
  }

  /** Nor can a method's: the scope is what the receiver and the arguments left. */
  lemma MethodLeavesCallerAlone(p: Package, c: Ctx, e: Expr, s: Scope, q: nat)
    requires e.MethodCall? && PlanMethod(p, c, e).Some? && c.depth < MAX_CALL_DEPTH && q > 0
    ensures var r := Run(p, InValue(c), TExpr(e.receiver), s, q - 1);
      Run(p, c, TExpr(e), s, q).s == if r.o.Val? then Run(p, Deeper(c), TOperands(e, [r.o.v]), r.s, r.q).s else r.s
  {
    hide Resume, Run, PlanMethod;
    RunMethodCall(p, c, e, s, q);
  }

  // ----- `ret` inside a loop ----------------------------------------------------------------------

  /** What a loop should answer: a `ret` in its body ends the evaluation with its value. */
  function AsSpecified(p: Package, c: Ctx, id: nat, o: Out): Out {
    match o
    case Stop(_) => o
    case Leave(_, _) => if c.stmtPos then o else Stop(Program)
    case _ => Val(Typed(VVoid, ExprType(p, c, id)))
  }

  /**
   The evaluator drops the flow a loop answers. It does what the specification says exactly
   when the loop did not end by a `ret`; a body with no `ret` to hand out never does.
   */
  lemma LoopAsSpecifiedExactly(p: Package, c: Ctx, e: Expr, cond: Option<Cond>, s: Scope, q: nat)
    requires (e.Loop? && cond == None) || (e.While? && cond == Some(e.cond))
    ensures var inner := LoopFrom(p, c, cond, e.body, s, q).o;
            && (Run(p, c, TExpr(e), s, q).o == AsSpecified(p, c, e.id, inner) <==> !inner.Leave?)
            && (!BlockReturns(e.body, 0) ==> !inner.Leave?)
  {
    hide Resume, Run;
    RunLooping(p, c, e, cond, e.body, s, q);
    if q > 0 { RunKind(p, c, TLoop(cond, e.body), s, q - 1); }
  }

  /** `loop { ret 7 }` in statement position: the seven is lost and the loop is an empty value. */
  lemma ReturnLostInLoop(p: Package, c: Ctx, s: Scope, q: nat)
    requires c.stmtPos && q > 0 && TagOf(p, ExprType(p, c, 3)) != Error
    ensures var seven := Lit(3, IntLit(7, false));
            var e := Loop(1, Block([], Some(Return(2, Some(seven)))));
            && LoopFrom(p, c, None, e.body, s, q).o == Leave(JReturn, Typed(VInt(7), ExprType(p, c, 3)))
            && Run(p, c, TExpr(e), s, q).o == Val(Typed(VVoid, ExprType(p, c, 1)))
  {
    hide Run, Drive, ResumeExpr, Resume;
    var seven := Lit(3, IntLit(7, false));
    var ret := Return(2, Some(seven));
    var body := Block([], Some(ret));
    var inner := Push(s, []);
    RunLooping(p, c, Loop(1, body), None, body, s, q);
    RunLoopTurn(p, c, body, s, q - 1);
    RunBlock(p, c, body, s, q - 1);
    RunTail(p, c, body, 0, inner, q - 1);
    RunReturn(p, InStmt(c), ret, inner, q - 1);
    SevenIsALeaf(p, c, inner);
    RunLeaf(p, InValue(c), seven, inner, q - 1);
  }

  lemma SevenIsALeaf(p: Package, c: Ctx, s: Scope)
    requires TagOf(p, ExprType(p, c, 3)) != Error
    ensures ResumeExpr(p, InValue(c), Lit(3, IntLit(7, false)), s, []) ==
      Done(Val(Typed(VInt(7), ExprType(p, c, 3))), s, false)
  {
  }
}
