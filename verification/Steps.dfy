/**
 `Resume`: what each construct does next, given the answers so far. Also the measure that
 makes every run finite: a step either spends quota or moves to a smaller piece of syntax.
 */
module Steps {
  import opened Machine
  import opened Lang
  import opened Patterns
  import opened Semantics

  // ----- syntax size ------------------------------------------------------------------------

  function SizeOpt(o: Option<Expr>): nat { match o case None => 0 case Some(e) => Size(e) }

  function SizeCond(cond: Cond): nat { match cond case Test(e) => Size(e) case Binds(_, e) => Size(e) }

  function SizeAll(es: seq<Expr>): (n: nat)
    ensures forall i :: 0 <= i < |es| ==> Size(es[i]) <= n
  {
    if es == [] then 0 else Size(es[0]) + SizeAll(es[1..])
  }

  function SizeInits(xs: seq<FieldInit>): (n: nat)
    ensures forall i :: 0 <= i < |xs| ==> Size(xs[i].value) <= n
  {
    if xs == [] then 0 else Size(xs[0].value) + SizeInits(xs[1..])
  }

  function SizeArm(a: Arm): nat { Size(a.body) + SizeOpt(a.guard) }

  function SizeArms(xs: seq<Arm>): (n: nat)
    ensures forall i :: 0 <= i < |xs| ==> SizeArm(xs[i]) <= n
  {
    if xs == [] then 0 else SizeArm(xs[0]) + SizeArms(xs[1..])
  }

  function SizeStmt(s: Stmt): nat {
    1 + match s
        case Decl(_, e) => Size(e)
        case Reassign(place, _, v) => Size(place) + Size(v)
        case ExprStmt(e) => Size(e)
  }

  function SizeStmts(xs: seq<Stmt>): (n: nat)
    ensures forall i :: 0 <= i < |xs| ==> SizeStmt(xs[i]) <= n
  {
    if xs == [] then 0 else SizeStmt(xs[0]) + SizeStmts(xs[1..])
  }

  function SizeBlock(b: Block): nat { 1 + SizeStmts(b.stmts) + SizeOpt(b.tail) }

  function Size(e: Expr): nat {
    1 + match e
        case Lit(_, _) => 0
        case Path(_, _, _) => 0
        case Unary(_, _, x) => Size(x)
        case Borrow(_, x) => Size(x)
        case Deref(_, x) => Size(x)
        case Binary(_, _, l, r) => Size(l) + Size(r)
        case CastTo(_, x) => Size(x)
        case Call(_, f, xs) => Size(f) + SizeAll(xs)
        case MethodCall(_, x, xs) => Size(x) + SizeAll(xs)
        case Field(_, x, _) => Size(x)
        case Index(_, x, i) => Size(x) + Size(i)
        case Question(_, x) => Size(x)
        case If(_, cond, a, b) => SizeCond(cond) + SizeBlock(a) + (if b.Some? then SizeBlock(b.value) else 0)
        case Match(_, x, arms) => Size(x) + SizeArms(arms)
        case BlockExpr(_, b) => SizeBlock(b)
        case Loop(_, b) => SizeBlock(b)
        case While(_, cond, b) => SizeCond(cond) + SizeBlock(b)
        case Break(_) => 0
        case Continue(_) => 0
        case Return(_, x) => SizeOpt(x)
        case TupleExpr(_, xs) => SizeAll(xs)
        case ArrayExpr(_, xs) => SizeAll(xs)
        case RepeatExpr(_, x, _) => Size(x)
        case StructExpr(_, inits, base) => SizeInits(inits) + SizeOpt(base)
        case OpaqueExpr(_) => 0
  }

  lemma OperandSmaller(e: Expr, i: nat)
    requires i < |OperandExprs(e)|
    ensures Size(OperandExprs(e)[i]) < Size(e)
  {
    match e
    case TupleExpr(_, xs) => assert Size(xs[i]) <= SizeAll(xs);
    case ArrayExpr(_, xs) => assert Size(xs[i]) <= SizeAll(xs);
    case Call(_, _, xs) => assert Size(xs[i]) <= SizeAll(xs);
    case MethodCall(_, _, xs) => if i > 0 { assert Size(xs[i - 1]) <= SizeAll(xs); }
    case StructExpr(_, inits, _) => if i < |inits| { assert Size(inits[i].value) <= SizeInits(inits); }
    case _ =>
  }

  function Major(t: Task): nat {
    match t
    case TExpr(e) => 3 * Size(e) + 2
    case TOperands(e, _) => 3 * Size(e) + 1
    case TArms(e, _, _) => 3 * Size(e) + 1
    case TBlock(b) => 3 * SizeBlock(b) + 2
    case TStmts(b, _) => 3 * SizeBlock(b) + 1
    case TStmt(s) => 3 * SizeStmt(s) + 2
    case TPlace(e) => 3 * Size(e) + 2
    case TLoop(None, b) => 3 * SizeBlock(b) + 3
    case TLoop(Some(cond), b) => 3 * (SizeCond(cond) + SizeBlock(b)) + 3
  }

  function Left(n: nat, i: nat): nat { if i < n then n - i else 0 }

  function Minor(t: Task): nat {
    match t
    case TOperands(e, vs) => Left(|OperandExprs(e)|, |vs|)
    case TArms(Match(_, _, arms), i, _) => Left(|arms|, i)
    case TStmts(b, i) => Left(|b.stmts|, i)
    case _ => 0
  }

  predicate Lower(a: Task, b: Task) { Major(a) < Major(b) || (Major(a) == Major(b) && Minor(a) < Minor(b)) }

  // ----- where a `ret` can come out -----------------------------------------------------------

  /** A `ret` an expression can hand to the construct around it; a loop hands on none. */
  predicate ExprReturns(e: Expr)
    decreases e
  {
    match e
    case Return(_, _) => true
    case BlockExpr(_, b) => BlockReturns(b, 0)
    case If(_, _, a, b) => BlockReturns(a, 0) || (b.Some? && BlockReturns(b.value, 0))
    case Match(_, _, _) => ArmsReturn(e, 0)
    case _ => false
  }

  predicate BlockReturns(b: Block, i: nat)
    decreases b, |b.stmts| - i
  {
    if i < |b.stmts| then (b.stmts[i].ExprStmt? && ExprReturns(b.stmts[i].e)) || BlockReturns(b, i + 1)
    else b.tail.Some? && ExprReturns(b.tail.value)
  }

  predicate ArmsReturn(e: Expr, i: nat)
    requires e.Match?
    decreases e, |e.arms| - i
  {
    i < |e.arms| && (ExprReturns(e.arms[i].body) || ArmsReturn(e, i + 1))
  }

  predicate Returns(t: Task) {
    match t
    case TExpr(e) => ExprReturns(e)
    case TArms(e, i, _) => e.Match? && ArmsReturn(e, i)
    case TBlock(b) => BlockReturns(b, 0)
    case TStmts(b, i) => BlockReturns(b, i)
    case TStmt(stmt) => stmt.ExprStmt? && ExprReturns(stmt.e)
    case TLoop(_, body) => BlockReturns(body, 0)
    case _ => false
  }

  // ----- the constructs ---------------------------------------------------------------------

  /** A subtask that stopped, or left, ends the Task that asked for it the same way. */
  function Give(a: Answer): Step { Done(a.o, a.s, false) }

  function ResumeOperands(p: Package, c: Ctx, e: Expr, vs: seq<Typed>, s: Scope, h: seq<Answer>): Step {
    if h == [] then
      match NextOperand(p, c, e, vs)
      case Stuck(f) => Done(Stop(f), s, false)
      case Ready => Done(Operands(vs), s, false)
      case Need(i) => Ask(InValue(c), TExpr(OperandExprs(e)[i]), s, false)
    else if |h| == 1 && h[0].o.Val? && |vs| < |OperandExprs(e)| then
      Ask(c, TOperands(e, vs + [h[0].o.v]), h[0].s, false)
    else Give(h[|h| - 1])
  }

  function ResumeArms(p: Package, c: Ctx, e: Expr, i: nat, v: Typed, s: Scope, h: seq<Answer>): Step {
    if !e.Match? || i >= |e.arms| then Done(Stop(Program), s, false)
    else
      var arm := e.arms[i];
      var next := TArms(e, i + 1, v);
      match MatchPattern(p, arm.pat, v)
      case PatFail(f) => Done(Stop(f), s, false)
      case NoMatch => if h == [] then Ask(c, next, s, false) else Give(h[|h| - 1])
      case Matched(bs) =>
        var inner := Push(s, bs);
        if arm.guard.None? then
          (if h == [] then Ask(InStmt(c), TExpr(arm.body), inner, false)
           else Done(Conclude(p, c, e.id, h[|h| - 1].o), Pop(h[|h| - 1].s), false))
        else if h == [] then Ask(InValue(c), TExpr(arm.guard.value), inner, false)
        else
          var g := h[0];
          if !g.o.Val? then Done(g.o, Pop(g.s), false)
          else if !g.o.v.value.VBool? then Done(Stop(Program), Pop(g.s), false)
          else if !g.o.v.value.truth then
            (if |h| == 1 then Ask(c, next, Pop(g.s), false) else Give(h[|h| - 1]))
          else if |h| == 1 then Ask(InStmt(c), TExpr(arm.body), g.s, false)
          else Done(Conclude(p, c, e.id, h[|h| - 1].o), Pop(h[|h| - 1].s), false)
  }

  function ResumeBlock(c: Ctx, b: Block, s: Scope, h: seq<Answer>): Step {
    if h == [] then Ask(c, TStmts(b, 0), Push(s, []), false)
    else Done(h[|h| - 1].o, Pop(h[|h| - 1].s), false)
  }

  function ResumeStmts(p: Package, c: Ctx, b: Block, i: nat, s: Scope, h: seq<Answer>): Step {
    if i >= |b.stmts| then
      match b.tail
      case None => Done(Val(VoidVal(p)), s, false)
      case Some(e) => if h == [] then Ask(InStmt(c), TExpr(e), s, false) else Give(h[|h| - 1])
    else if h == [] then Ask(c, TStmt(b.stmts[i]), s, false)
    else if |h| == 1 && h[0].o.Val? then Ask(c, TStmts(b, i + 1), h[0].s, false)
    else Give(h[|h| - 1])
  }

  function Recorded(f: Failure): Failure { if f == NoFailure then Program else f }

  function ResumeStmt(p: Package, c: Ctx, stmt: Stmt, s: Scope, h: seq<Answer>): Step {
    match stmt
    case Decl(pat, init) =>
      if h == [] then Ask(InValue(c), TExpr(init), s, false)
      else if !h[|h| - 1].o.Val? then Give(h[|h| - 1])
      else
        var b := BindPattern(p, pat, h[|h| - 1].o.v);
        Done(if b.ok then Val(VoidVal(p)) else Stop(b.failure), Extend(h[|h| - 1].s, b.bindings), false)
    case Reassign(place, compound, value) =>
      if h == [] then Ask(InValue(c), TExpr(value), s, false)
      else if !h[0].o.Val? then Give(h[|h| - 1])
      else if |h| == 1 then Ask(InValue(c), TPlace(place), h[0].s, false)
      else
        var slot := h[|h| - 1];
        if slot.o.Stop? then Done(Stop(Recorded(slot.o.failure)), slot.s, false)
        else if !slot.o.Slot? then Done(Stop(Program), slot.s, false)
        else
          var a := Assigned(p, slot.s, slot.o.place, compound, h[0].o.v);
          Done(a.o, a.s, false)
    case ExprStmt(e) =>
      if h == [] then Ask(InStmt(c), TExpr(e), s, false)
      else if h[|h| - 1].o.Val? then Done(Val(VoidVal(p)), h[|h| - 1].s, false)
      else Give(h[|h| - 1])
  }

  function ResumePlace(p: Package, c: Ctx, e: Expr, s: Scope, h: seq<Answer>): Step {
    match e
    case Path(_, _, segments) =>
      (if |segments| != 1 then Done(Stop(NoFailure), s, false)
       else match PlaceOf(s, segments[0])
         case None => Done(Stop(NoFailure), s, false)
         case Some(l) =>
           if HasLoc(s, l) then Done(Slot(Place(l, [], At(s, l).ty)), s, false) else Done(Stop(NoFailure), s, false))
    case Field(_, receiver, name) =>
      (if h == [] then Ask(c, TPlace(receiver), s, false)
       else
         var base := h[|h| - 1];
         if !base.o.Slot? then Give(base) else Done(FieldPlace(p, base.s, base.o.place, name), base.s, false))
    case Index(_, receiver, index) =>
      (if h == [] then Ask(c, TPlace(receiver), s, false)
       else if !h[0].o.Slot? then Give(h[|h| - 1])
       else if |h| == 1 then Ask(InValue(c), TExpr(index), h[0].s, false)
       else
         var i := h[|h| - 1];
         if !i.o.Val? then Give(i) else Done(IndexPlace(p, i.s, h[0].o.place, i.o.v), i.s, false))
    case _ => Done(Stop(NoFailure), s, false)
  }

  /** After the body of one turn: leave the loop, or pay for another turn. */
  function AfterTurn(p: Package, c: Ctx, cond: Option<Cond>, body: Block, o: Out, s: Scope): Step {
    match o
    case Leave(JBreak, _) => Done(Val(VoidVal(p)), s, false)
    case Leave(JReturn, _) => Done(o, s, false)
    case Stop(_) => Done(o, s, false)
    case _ => Ask(c, TLoop(cond, body), s, true)
  }

  function ResumeLoop(p: Package, c: Ctx, cond: Option<Cond>, body: Block, s: Scope, h: seq<Answer>): Step {
    match cond
    case None =>
      if h == [] then Ask(c, TBlock(body), s, false)
      else if |h| == 1 then AfterTurn(p, c, cond, body, h[0].o, h[0].s)
      else Give(h[|h| - 1])
    case Some(test) =>
      if h == [] then Ask(InValue(c), TExpr(CondExpr(test)), s, false)
      else if !h[0].o.Val? then Give(h[|h| - 1])
      else match Decide(p, test, h[0].o.v)
        case Broken(f) => Done(Stop(f), h[0].s, false)
        case Skip => Done(Val(VoidVal(p)), h[0].s, false)
        case Enter(bs) =>
          if |h| == 1 then Ask(c, TBlock(body), Open(test, h[0].s, bs), false)
          else if |h| == 2 then AfterTurn(p, c, cond, body, h[1].o, Close(test, h[1].s))
          else Give(h[|h| - 1])
  }

  function ResumeIf(p: Package, c: Ctx, e: Expr, s: Scope, h: seq<Answer>): Step
    requires e.If?
  {
    if h == [] then Ask(InValue(c), TExpr(CondExpr(e.cond)), s, false)
    else if !h[0].o.Val? then Give(h[|h| - 1])
    else match Decide(p, e.cond, h[0].o.v)
      case Broken(f) => Done(Stop(f), h[0].s, false)
      case Enter(bs) =>
        if |h| == 1 then Ask(c, TBlock(e.thenBlock), Open(e.cond, h[0].s, bs), false)
        else Done(Conclude(p, c, e.id, h[|h| - 1].o), Close(e.cond, h[|h| - 1].s), false)
      case Skip =>
        if e.elseBlock.None? then Done(Val(Typed(VVoid, ExprType(p, c, e.id))), h[0].s, false)
        else if |h| == 1 then Ask(c, TBlock(e.elseBlock.value), h[0].s, false)
        else Done(Conclude(p, c, e.id, h[|h| - 1].o), h[|h| - 1].s, false)
  }

  /** What a call answers once the body has run; the caller's scope is `s`. */
  function FromBody(fn: Callee, o: Out, s: Scope): Step {
    match o
    case Val(v) => Done(Val(v.(ty := fn.ret)), s, false)
    case Leave(JReturn, v) => Done(Val(v.(ty := fn.ret)), s, false)
    case Leave(_, _) => Done(Stop(Program), s, false)
    case _ => Done(o, s, false)
  }

  /** The body runs in a scope of its own, which holds the arguments and nothing else. */
  function EnterBody(p: Package, c: Ctx, fn: Callee, b: BindResult, s: Scope): Step
    requires fn.item.Some?
  {
    if !b.ok then Done(Stop(b.failure), s, false)
    else match fn.item.value.body
      case None => Done(Stop(NoFailure), s, false)
      case Some(body) => Ask(Ctx(fn.mod, fn.inst, c.depth + 1, false), TBlock(body), Scope([], [b.bindings]), false)
  }

  function ResumeFnCall(p: Package, c: Ctx, e: Expr, fn: Callee, s: Scope, h: seq<Answer>): Step
    requires e.Call?
  {
    if fn.item.None? || |e.args| != fn.arity || |e.args| != |fn.item.value.formals| then Done(Stop(Program), s, false)
    else if h == [] then
      (if c.depth >= MAX_CALL_DEPTH then Done(Stop(Program), s, true) else Ask(Deeper(c), TOperands(e, []), s, true))
    else if !h[0].o.Operands? then Give(h[|h| - 1])
    else if |h| == 1 then EnterBody(p, c, fn, BindArgs(p, CallPatterns(fn), h[0].o.vs), h[0].s)
    else FromBody(fn, h[|h| - 1].o, h[0].s)
  }

  function ResumeMethodCall(p: Package, c: Ctx, e: Expr, s: Scope, h: seq<Answer>): Step
    requires e.MethodCall?
  {
    if h == [] then Ask(InValue(c), TExpr(e.receiver), s, true)
    else if !h[0].o.Val? then Give(h[|h| - 1])
    else match PlanMethod(p, c, e)
      case None => Done(Stop(Program), h[0].s, false)
      case Some(fn) =>
        if c.depth >= MAX_CALL_DEPTH then Done(Stop(Program), h[0].s, false)
        else if |h| == 1 then Ask(Deeper(c), TOperands(e, [h[0].o.v]), h[0].s, false)
        else if !h[1].o.Operands? then Give(h[|h| - 1])
        else if |h| == 2 then EnterBody(p, c, fn, BindArgs(p, MethodPatterns(fn), h[1].o.vs), h[1].s)
        else FromBody(fn, h[|h| - 1].o, h[1].s)
  }

  /** Reads every operand, then answers. */
  function ResumeStrict(p: Package, c: Ctx, e: Expr, s: Scope, h: seq<Answer>, tick: bool): Step {
    if h == [] then Ask(InValue(c), TOperands(e, []), s, tick)
    else if h[|h| - 1].o.Operands? then Done(Finish(p, c, e, h[|h| - 1].o.vs), h[|h| - 1].s, false)
    else Give(h[|h| - 1])
  }

  function ResumeExpr(p: Package, c: Ctx, e: Expr, s: Scope, h: seq<Answer>): Step {
    match e
    case Lit(id, lit) => Done(Literally(p, c, id, lit), s, false)
    case Path(_, _, _) =>
      (match PlanPath(p, c, e, s)
       case PathVal(v) => Done(Val(v), s, false)
       case PathFail => Done(Stop(Program), s, false)
       case PathConst(init) =>
         if h != [] then Done(h[|h| - 1].o, s, false)
         else if c.depth >= MAX_CALL_DEPTH then Done(Stop(Program), s, true)
         else Ask(Deeper(c), TExpr(init), FreshScope, true))
    case Deref(_, _) => Done(Stop(NoFailure), s, false)
    case OpaqueExpr(_) => Done(Stop(Program), s, false)
    case Break(_) => Done(if c.stmtPos then Leave(JBreak, VoidVal(p)) else Stop(Program), s, false)
    case Continue(_) => Done(if c.stmtPos then Leave(JContinue, VoidVal(p)) else Stop(Program), s, false)
    case Return(_, answer) =>
      if !c.stmtPos then Done(Stop(Program), s, false)
      else if answer.None? then Done(Leave(JReturn, VoidVal(p)), s, false)
      else if h == [] then Ask(InValue(c), TExpr(answer.value), s, false)
      else if h[|h| - 1].o.Val? then Done(Leave(JReturn, h[|h| - 1].o.v), h[|h| - 1].s, false)
      else Give(h[|h| - 1])
    case BlockExpr(id, b) =>
      if h == [] then Ask(c, TBlock(b), s, false)
      else Done(Conclude(p, c, id, h[|h| - 1].o), h[|h| - 1].s, false)
    case If(_, _, _, _) => ResumeIf(p, c, e, s, h)
    case Match(_, scrutinee, _) =>
      if h == [] then Ask(InValue(c), TExpr(scrutinee), s, false)
      else if |h| == 1 && h[0].o.Val? then Ask(c, TArms(e, 0, h[0].o.v), h[0].s, false)
      else Give(h[|h| - 1])
    case Loop(id, body) => ResumeLooping(p, c, id, None, body, s, h)
    case While(id, cond, body) => ResumeLooping(p, c, id, Some(cond), body, s, h)
    case Call(_, _, _) =>
      (match PlanCall(p, c, e)
       case BadCall => Done(Stop(Program), s, false)
       case CtorCall(_) => ResumeStrict(p, c, e, s, h, false)
       case IntrinsicCall(_) => ResumeStrict(p, c, e, s, h, true)
       case FnCall(fn) => ResumeFnCall(p, c, e, fn, s, h))
    case MethodCall(_, _, _) => ResumeMethodCall(p, c, e, s, h)
    case _ => ResumeStrict(p, c, e, s, h, false)
  }

  /** A loop is an empty value; whatever flow the loop itself answered is dropped. */
  function ResumeLooping(p: Package, c: Ctx, id: nat, cond: Option<Cond>, body: Block, s: Scope, h: seq<Answer>): Step {
    if h == [] then Ask(c, TLoop(cond, body), s, true)
    else if h[|h| - 1].o.Stop? then Give(h[|h| - 1])
    else Done(Val(Typed(VVoid, ExprType(p, c, id))), h[|h| - 1].s, false)
  }

  function Resume(p: Package, c: Ctx, t: Task, s: Scope, h: seq<Answer>): Step {
    match t
    case TExpr(e) => ResumeExpr(p, c, e, s, h)
    case TOperands(e, vs) => ResumeOperands(p, c, e, vs, s, h)
    case TArms(e, i, v) => ResumeArms(p, c, e, i, v, s, h)
    case TBlock(b) => ResumeBlock(c, b, s, h)
    case TStmts(b, i) => ResumeStmts(p, c, b, i, s, h)
    case TStmt(stmt) => ResumeStmt(p, c, stmt, s, h)
    case TPlace(e) => ResumePlace(p, c, e, s, h)
    case TLoop(cond, body) => ResumeLoop(p, c, cond, body, s, h)
  }

  // ----- what every step guarantees -----------------------------------------------------------

  /** Calls pay first, so that the body they reach may be any size. */
  predicate Pays(p: Package, c: Ctx, t: Task) {
    t.TExpr? && (t.e.MethodCall? || (t.e.Call? && PlanCall(p, c, t.e).FnCall?))
  }

  ghost predicate Progress(p: Package, c: Ctx, t: Task, h: seq<Answer>, step: Step) {
    step.Ask? ==>
      && |h| < 3
      && (step.tick || (h != [] && Pays(p, c, t)) || Lower(step.t, t))
      && (h == [] && Pays(p, c, t) ==> step.tick)
  }

  /** A recorded failure of a subtask is its asker's own, and no step invents an exhausted quota. */
  ghost predicate Faithful(h: seq<Answer>, step: Step) {
    && (h != [] && h[|h| - 1].o.Stop? && h[|h| - 1].o.failure != NoFailure ==>
          step.Done? && !step.tick && step.o == h[|h| - 1].o)
    && (step.Done? && step.o == Stop(Budget) ==> h != [] && h[|h| - 1].o == Stop(Budget))
  }

  /** A history a run can build: its last answer was asked for. */
  ghost predicate Asked(p: Package, c: Ctx, t: Task, s: Scope, h: seq<Answer>) {
    |h| <= 3 && (h != [] ==> Resume(p, c, t, s, h[..|h| - 1]).Ask?)
  }

  lemma OperandsStep(p: Package, c: Ctx, e: Expr, vs: seq<Typed>, s: Scope, h: seq<Answer>)
    requires |h| <= 3 && (h != [] ==> ResumeOperands(p, c, e, vs, s, h[..|h| - 1]).Ask?)
    ensures Progress(p, c, TOperands(e, vs), h, ResumeOperands(p, c, e, vs, s, h))
    ensures Faithful(h, ResumeOperands(p, c, e, vs, s, h))
  {
    if NextOperand(p, c, e, vs).Need? { OperandSmaller(e, NextOperand(p, c, e, vs).i); }
  }

  lemma ArmsStep(p: Package, c: Ctx, e: Expr, i: nat, v: Typed, s: Scope, h: seq<Answer>)
    requires |h| <= 3 && (h != [] ==> ResumeArms(p, c, e, i, v, s, h[..|h| - 1]).Ask?)
    ensures Progress(p, c, TArms(e, i, v), h, ResumeArms(p, c, e, i, v, s, h))
    ensures Faithful(h, ResumeArms(p, c, e, i, v, s, h))
  {
    if e.Match? && i < |e.arms| { assert SizeArm(e.arms[i]) <= SizeArms(e.arms); }
  }

  lemma BlockStep(p: Package, c: Ctx, b: Block, s: Scope, h: seq<Answer>)
    requires |h| <= 3 && (h != [] ==> ResumeBlock(c, b, s, h[..|h| - 1]).Ask?)
    ensures Progress(p, c, TBlock(b), h, ResumeBlock(c, b, s, h))
    ensures Faithful(h, ResumeBlock(c, b, s, h))
  {
  }

  lemma StmtsStep(p: Package, c: Ctx, b: Block, i: nat, s: Scope, h: seq<Answer>)
    requires |h| <= 3 && (h != [] ==> ResumeStmts(p, c, b, i, s, h[..|h| - 1]).Ask?)
    ensures Progress(p, c, TStmts(b, i), h, ResumeStmts(p, c, b, i, s, h))
    ensures Faithful(h, ResumeStmts(p, c, b, i, s, h))
  {
    assert SizeBlock(b) == 1 + SizeStmts(b.stmts) + SizeOpt(b.tail);
    if i < |b.stmts| { assert SizeStmt(b.stmts[i]) <= SizeStmts(b.stmts); }
  }

  lemma StmtStep(p: Package, c: Ctx, stmt: Stmt, s: Scope, h: seq<Answer>)
    requires |h| <= 3 && (h != [] ==> ResumeStmt(p, c, stmt, s, h[..|h| - 1]).Ask?)
    ensures Progress(p, c, TStmt(stmt), h, ResumeStmt(p, c, stmt, s, h))
    ensures Faithful(h, ResumeStmt(p, c, stmt, s, h))
  {
  }

  lemma PlaceStep(p: Package, c: Ctx, e: Expr, s: Scope, h: seq<Answer>)
    requires |h| <= 3 && (h != [] ==> ResumePlace(p, c, e, s, h[..|h| - 1]).Ask?)
    ensures Progress(p, c, TPlace(e), h, ResumePlace(p, c, e, s, h))
    ensures Faithful(h, ResumePlace(p, c, e, s, h))
  {
  }

  lemma LoopStep(p: Package, c: Ctx, cond: Option<Cond>, body: Block, s: Scope, h: seq<Answer>)
    requires |h| <= 3 && (h != [] ==> ResumeLoop(p, c, cond, body, s, h[..|h| - 1]).Ask?)
    ensures Progress(p, c, TLoop(cond, body), h, ResumeLoop(p, c, cond, body, s, h))
    ensures Faithful(h, ResumeLoop(p, c, cond, body, s, h))
  {
  }

  lemma IfStep(p: Package, c: Ctx, e: Expr, s: Scope, h: seq<Answer>)
    requires e.If?
    requires |h| <= 3 && (h != [] ==> ResumeIf(p, c, e, s, h[..|h| - 1]).Ask?)
    ensures Progress(p, c, TExpr(e), h, ResumeIf(p, c, e, s, h))
    ensures Faithful(h, ResumeIf(p, c, e, s, h))
  {
    assert SizeCond(e.cond) == Size(CondExpr(e.cond));
  }

  lemma FnCallStep(p: Package, c: Ctx, e: Expr, fn: Callee, s: Scope, h: seq<Answer>)
    requires e.Call? && PlanCall(p, c, e) == FnCall(fn)
    requires |h| <= 3 && (h != [] ==> ResumeFnCall(p, c, e, fn, s, h[..|h| - 1]).Ask?)
    ensures Progress(p, c, TExpr(e), h, ResumeFnCall(p, c, e, fn, s, h))
    ensures Faithful(h, ResumeFnCall(p, c, e, fn, s, h))
  {
  }

  lemma MethodCallStep(p: Package, c: Ctx, e: Expr, s: Scope, h: seq<Answer>)
    requires e.MethodCall?
    requires |h| <= 3 && (h != [] ==> ResumeMethodCall(p, c, e, s, h[..|h| - 1]).Ask?)
    ensures Progress(p, c, TExpr(e), h, ResumeMethodCall(p, c, e, s, h))
    ensures Faithful(h, ResumeMethodCall(p, c, e, s, h))
  {
  }

  lemma FinishNeverBudget(p: Package, c: Ctx, e: Expr, vs: seq<Typed>)
    ensures Finish(p, c, e, vs) != Stop(Budget)
  {
  }

  lemma StrictStep(p: Package, c: Ctx, e: Expr, s: Scope, h: seq<Answer>, tick: bool)
    requires !Pays(p, c, TExpr(e))
    requires |h| <= 3 && (h != [] ==> ResumeStrict(p, c, e, s, h[..|h| - 1], tick).Ask?)
    ensures Progress(p, c, TExpr(e), h, ResumeStrict(p, c, e, s, h, tick))
    ensures Faithful(h, ResumeStrict(p, c, e, s, h, tick))
  {
    hide NextOperand, PlanMethod;
    if h != [] { FinishNeverBudget(p, c, e, if h[0].o.Operands? then h[0].o.vs else []); }
  }

  /** The constructs that end or carry control. */
  lemma ControlStep(p: Package, c: Ctx, e: Expr, s: Scope, h: seq<Answer>)
    requires e.Path? || e.Return? || e.BlockExpr? || e.Match? || e.Loop? || e.While?
    requires |h| <= 3 && (h != [] ==> ResumeExpr(p, c, e, s, h[..|h| - 1]).Ask?)
    ensures Progress(p, c, TExpr(e), h, ResumeExpr(p, c, e, s, h))
    ensures Faithful(h, ResumeExpr(p, c, e, s, h))
  {
    hide Finish, ResumeIf, ResumeMethodCall, ResumeFnCall, ResumeStrict;
    hide PlanPath;
    if e.Return? && e.answer.Some? { assert SizeOpt(e.answer) == Size(e.answer.value); }
  }

  lemma LeafStep(p: Package, c: Ctx, e: Expr, s: Scope, h: seq<Answer>)
    requires e.Lit? || e.Deref? || e.OpaqueExpr? || e.Break? || e.Continue?
    requires |h| <= 3 && (h != [] ==> ResumeExpr(p, c, e, s, h[..|h| - 1]).Ask?)
    ensures Progress(p, c, TExpr(e), h, ResumeExpr(p, c, e, s, h))
    ensures Faithful(h, ResumeExpr(p, c, e, s, h))
  {
    hide Finish, ResumeIf, ResumeMethodCall, ResumeFnCall, ResumeStrict;
  }

  lemma CallStep(p: Package, c: Ctx, e: Expr, s: Scope, h: seq<Answer>)
    requires e.Call?
    requires |h| <= 3 && (h != [] ==> ResumeExpr(p, c, e, s, h[..|h| - 1]).Ask?)
    ensures Progress(p, c, TExpr(e), h, ResumeExpr(p, c, e, s, h))
    ensures Faithful(h, ResumeExpr(p, c, e, s, h))
  {
    hide Finish, ResumeIf, ResumeMethodCall, ResumeFnCall, ResumeStrict;
    match PlanCall(p, c, e)
    case BadCall =>
    case CtorCall(_) => StrictStep(p, c, e, s, h, false);
    case IntrinsicCall(_) => StrictStep(p, c, e, s, h, true);
    case FnCall(fn) => FnCallStep(p, c, e, fn, s, h);
  }

  lemma ReadingStep(p: Package, c: Ctx, e: Expr, s: Scope, h: seq<Answer>)
    requires forall g :: ResumeExpr(p, c, e, s, g) == ResumeStrict(p, c, e, s, g, false)
    requires !e.Call? && !e.MethodCall?
    requires |h| <= 3 && (h != [] ==> ResumeExpr(p, c, e, s, h[..|h| - 1]).Ask?)
    ensures Progress(p, c, TExpr(e), h, ResumeExpr(p, c, e, s, h))
    ensures Faithful(h, ResumeExpr(p, c, e, s, h))
  {
    hide ResumeExpr, ResumeStrict;
    StrictStep(p, c, e, s, h, false);
  }

  lemma ExprStep(p: Package, c: Ctx, e: Expr, s: Scope, h: seq<Answer>)
    requires |h| <= 3 && (h != [] ==> ResumeExpr(p, c, e, s, h[..|h| - 1]).Ask?)
    ensures Progress(p, c, TExpr(e), h, ResumeExpr(p, c, e, s, h))
    ensures Faithful(h, ResumeExpr(p, c, e, s, h))
  {
    hide Progress, Faithful, ResumeIf, ResumeMethodCall, ResumeStrict;
    match e
    case If(_, _, _, _) => IfStep(p, c, e, s, h);
    case MethodCall(_, _, _) => MethodCallStep(p, c, e, s, h);
    case Call(_, _, _) => CallStep(p, c, e, s, h);
    case Lit(_, _) | Deref(_, _) | OpaqueExpr(_) | Break(_) | Continue(_) => LeafStep(p, c, e, s, h);
    case Path(_, _, _) | Return(_, _) | BlockExpr(_, _) | Match(_, _, _) | Loop(_, _) | While(_, _, _) =>
      ControlStep(p, c, e, s, h);
    case _ => ReadingStep(p, c, e, s, h);
  }

  /** Every step of every task makes progress and reports faithfully. */
  lemma StepGuarantees(p: Package, c: Ctx, t: Task, s: Scope, h: seq<Answer>)
    requires Asked(p, c, t, s, h)
    ensures Progress(p, c, t, h, Resume(p, c, t, s, h))
    ensures Faithful(h, Resume(p, c, t, s, h))
  {
    hide ResumeExpr, ResumeOperands, ResumeArms, ResumeStmts, ResumeStmt, ResumePlace, ResumeLoop;
    match t
    case TExpr(e) => ExprStep(p, c, e, s, h);
    case TOperands(e, vs) => OperandsStep(p, c, e, vs, s, h);
    case TArms(e, i, v) => ArmsStep(p, c, e, i, v, s, h);
    case TBlock(b) => BlockStep(p, c, b, s, h);
    case TStmts(b, i) => StmtsStep(p, c, b, i, s, h);
    case TStmt(stmt) => StmtStep(p, c, stmt, s, h);
    case TPlace(e) => PlaceStep(p, c, e, s, h);
    case TLoop(cond, body) => LoopStep(p, c, cond, body, s, h);
  }
}
