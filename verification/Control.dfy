/**
 What branches, loops, blocks and calls do with the runs of their parts: which part runs, in which
 frames, and what becomes of its outcome. Nothing here is stated through the decisions the table
 of steps makes. Sources: src/analyzer/comp_evaluator.cc, comp_eval_block, comp_eval_stmt,
 comp_eval_loop, comp_run_fn, comp_eval_method_call and comp_eval_expr.
 */
module Control {
  import opened Machine
  import opened Lang
  import opened Patterns
  import opened Semantics
  import opened Steps
  import opened Runs
  import opened Equations
  import opened Answers
  import opened NamesAndIntrinsics
  import ScopeShape

  // ----- frames -------------------------------------------------------------------------------------

  /** A scope with one more frame, the innermost. */
  function Within(s: Scope, f: Frame): Scope { Scope(s.outer, s.frames + [f]) }

  /** The same frames as far as another scope has them. */
  function Outside(s: Scope, n: nat): Scope
    requires n <= |s.frames|
  {
    Scope(s.outer, s.frames[..n])
  }

  lemma Framed(p: Package, c: Ctx, t: Task, s: Scope, f: Frame, q: nat)
    requires !t.TStmts? && !t.TStmt?
    ensures Within(s, f) == Push(s, f)
    ensures var r := Run(p, c, t, Within(s, f), q);
      |r.s.frames| == |s.frames| + 1 && Pop(r.s) == Outside(r.s, |s.frames|)
  {
    hide Run;
    ScopeShape.FramesCounted(p, c, t, Within(s, f), q);
  }

  // ----- what a construct makes of a flow -----------------------------------------------------------

  /** A block's value takes the construct's type; a jump leaves it from statement position only. */
  ghost predicate Kept(p: Package, c: Ctx, id: nat, b: Result, whole: Result) {
    && whole.s == b.s && whole.q == b.q && KeptOut(p, c, id, b.o, whole.o)
  }

  ghost predicate KeptOut(p: Package, c: Ctx, id: nat, b: Out, whole: Out) {
    && (b.Stop? ==> whole == b)
    && (b.Val? ==> whole == Val(Typed(b.v.value, ExprType(p, c, id))))
    && (b.Leave? ==> whole == if c.stmtPos then b else Stop(Program))
  }

  lemma ConcludeKeeps(p: Package, c: Ctx, id: nat, o: Out)
    ensures KeptOut(p, c, id, o, Conclude(p, c, id, o))
  {
  }

  lemma RunBraces(p: Package, c: Ctx, id: nat, b: Block, s: Scope, q: nat)
    ensures Kept(p, c, id, Run(p, c, TBlock(b), s, q), Run(p, c, TExpr(BlockExpr(id, b)), s, q))
  {
    hide Run, KeptOut, Conclude;
    RunBlockExpr(p, c, BlockExpr(id, b), s, q);
    ConcludeKeeps(p, c, id, Run(p, c, TBlock(b), s, q).o);
  }

  // ----- branches -----------------------------------------------------------------------------------

  /** A true condition runs the first block, a false one the second or nothing, and no other value decides. */
  lemma RunIfTest(p: Package, c: Ctx, id: nat, x: Expr, yes: Block, no: Option<Block>, s: Scope, q: nat)
    ensures var a := Part(p, c, x, s, q);
            var whole := Run(p, c, TExpr(If(id, Test(x), yes, no)), s, q);
      && (!a.o.Val? ==> whole == a)
      && (a.o.Val? && !a.o.v.value.VBool? ==> whole == a.(o := Stop(Program)))
      && (a.o.Val? && a.o.v.value == VBool(true) ==> Kept(p, c, id, Run(p, c, TBlock(yes), a.s, a.q), whole))
      && (a.o.Val? && a.o.v.value == VBool(false) && no.Some? ==>
            Kept(p, c, id, Run(p, c, TBlock(no.value), a.s, a.q), whole))
      && (a.o.Val? && a.o.v.value == VBool(false) && no.None? ==>
            whole == a.(o := Val(Typed(VVoid, ExprType(p, c, id)))))
  {
    hide Run, KeptOut, Conclude;
    var e := If(id, Test(x), yes, no);
    var a := Part(p, c, x, s, q);
    RunIf(p, c, e, s, q);
    ConcludeKeeps(p, c, id, Run(p, c, TBlock(yes), a.s, a.q).o);
    if no.Some? { ConcludeKeeps(p, c, id, Run(p, c, TBlock(no.value), a.s, a.q).o); }
  }

  /** What a pattern binds is in a frame of its own around the first block, gone after it. */
  lemma RunIfBinds(p: Package, c: Ctx, id: nat, pat: Pattern, x: Expr, yes: Block, no: Option<Block>, s: Scope, q: nat)
    ensures var a := Part(p, c, x, s, q);
            var whole := Run(p, c, TExpr(If(id, Binds(pat, x), yes, no)), s, q);
      && (!a.o.Val? ==> whole == a)
      && (a.o.Val? ==>
            var m := MatchPattern(p, pat, a.o.v);
            && (m.PatFail? ==> whole == a.(o := Stop(m.failure)))
            && (m.Matched? ==>
                  var b := Run(p, c, TBlock(yes), Within(a.s, m.bindings), a.q);
                  |b.s.frames| == |a.s.frames| + 1 && Kept(p, c, id, b.(s := Outside(b.s, |a.s.frames|)), whole))
            && (m.NoMatch? && no.Some? ==> Kept(p, c, id, Run(p, c, TBlock(no.value), a.s, a.q), whole))
            && (m.NoMatch? && no.None? ==> whole == a.(o := Val(Typed(VVoid, ExprType(p, c, id))))))
  {
    hide Run, KeptOut, Conclude, MatchPattern, Pop;
    var e := If(id, Binds(pat, x), yes, no);
    var a := Part(p, c, x, s, q);
    RunIf(p, c, e, s, q);
    if a.o.Val? && MatchPattern(p, pat, a.o.v).Matched? {
      var bs := MatchPattern(p, pat, a.o.v).bindings;
      Framed(p, c, TBlock(yes), a.s, bs, a.q);
      ConcludeKeeps(p, c, id, Run(p, c, TBlock(yes), Within(a.s, bs), a.q).o);
    }
    if no.Some? { ConcludeKeeps(p, c, id, Run(p, c, TBlock(no.value), a.s, a.q).o); }
  }

  // ----- blocks and declarations --------------------------------------------------------------------

  /** A block's statements run in one new, empty frame, which is gone after it. */
  lemma RunInFrame(p: Package, c: Ctx, b: Block, s: Scope, q: nat)
    ensures var r := Run(p, c, TStmts(b, 0), Within(s, []), q);
      && |r.s.frames| == |s.frames| + 1
      && Run(p, c, TBlock(b), s, q) == r.(s := Outside(r.s, |s.frames|))
  {
    hide Run;
    RunBlock(p, c, b, s, q);
    ScopeShape.FramesCounted(p, c, TStmts(b, 0), Within(s, []), q);
  }

  /** A declaration adds its bindings at the end of the innermost frame, those made before a failure too. */
  lemma RunDeclared(p: Package, c: Ctx, pat: Pattern, x: Expr, s: Scope, q: nat)
    requires s.frames != []
    ensures var a := Part(p, c, x, s, q);
            var whole := Run(p, c, TStmt(Decl(pat, x)), s, q);
      && (!a.o.Val? ==> whole == a)
      && (a.o.Val? ==>
            var b, n := BindPattern(p, pat, a.o.v), |s.frames| - 1;
            && |a.s.frames| == n + 1
            && whole.s == Scope(a.s.outer, a.s.frames[..n] + [a.s.frames[n] + b.bindings]) && whole.q == a.q
            && whole.o == if b.ok then Val(Typed(VVoid, p.voidType)) else Stop(b.failure))
  {
    hide Run, BindPattern;
    RunDecl(p, c, pat, x, s, q);
    ScopeShape.FramesCounted(p, InValue(c), TExpr(x), s, q);
  }

  // ----- loops --------------------------------------------------------------------------------------

  /** What follows the block of a turn: the loop over again, or its end as an empty value. */
  ghost predicate Next(p: Package, c: Ctx, e: Expr, b: Result, whole: Result) {
    && (b.o.Stop? ==> whole == b)
    && (b.o.Leave? && b.o.how != JContinue ==> whole == b.(o := Val(Typed(VVoid, ExprType(p, c, e.id)))))
    && (b.o.Val? || (b.o.Leave? && b.o.how == JContinue) ==> whole == Run(p, c, TExpr(e), b.s, b.q))
  }

  lemma RoundAgain(p: Package, c: Ctx, e: Expr, cond: Option<Cond>, body: Block, b: Result)
    requires (e.Loop? && cond == None && body == e.body) || (e.While? && cond == Some(e.cond) && body == e.body)
    requires b.o.Stop? || b.o.Val? || b.o.Leave?
    ensures var r := Turned(p, c, cond, body, b);
      Next(p, c, e, b, if r.o.Stop? then r else r.(o := Val(Typed(VVoid, ExprType(p, c, e.id)))))
  {
    hide Run;
    RunLooping(p, c, e, cond, body, b.s, b.q);
  }

  /** Every loop pays before it does anything. */
  lemma RunLoopBroke(p: Package, c: Ctx, e: Expr, s: Scope)
    requires e.Loop? || e.While?
    ensures Run(p, c, TExpr(e), s, 0) == Result(Stop(Budget), s, 0)
  {
    hide Run;
    RunLooping(p, c, e, if e.Loop? then None else Some(e.cond), e.body, s, 0);
  }

  /** A turn of `loop` costs a unit; `break` and `ret` end it, and anything else goes round again. */
  lemma RunLoopAgain(p: Package, c: Ctx, id: nat, body: Block, s: Scope, q: nat)
    ensures var e := Loop(id, body);
      && (q > 0 ==> Next(p, c, e, Run(p, c, TBlock(body), s, q - 1), Run(p, c, TExpr(e), s, q)))
  {
    hide Run, Next, Turned;
    var e := Loop(id, body);
    if q > 0 {
      RunLooping(p, c, e, None, body, s, q);
      RunLoopTurn(p, c, body, s, q - 1);
      ScopeShape.RunKind(p, c, TBlock(body), s, q - 1);
      RoundAgain(p, c, e, None, body, Run(p, c, TBlock(body), s, q - 1));
    }
  }

  lemma RunWhileTest(p: Package, c: Ctx, id: nat, x: Expr, body: Block, s: Scope, q: nat)
    requires q > 0
    ensures var e := While(id, Test(x), body);
            var a := Part(p, c, x, s, q - 1);
            var whole := Run(p, c, TExpr(e), s, q);
      && (!a.o.Val? ==> whole == a)
      && (a.o.Val? && !a.o.v.value.VBool? ==> whole == a.(o := Stop(Program)))
      && (a.o.Val? && a.o.v.value == VBool(false) ==> whole == a.(o := Val(Typed(VVoid, ExprType(p, c, id)))))
      && (a.o.Val? && a.o.v.value == VBool(true) ==> Next(p, c, e, Run(p, c, TBlock(body), a.s, a.q), whole))
  {
    hide Run, Next, Turned;
    var e := While(id, Test(x), body);
    var a := Part(p, c, x, s, q - 1);
    PartKind(p, c, x, s, q - 1);
    RunLooping(p, c, e, Some(Test(x)), body, s, q);
    RunWhileTurn(p, c, Test(x), body, s, q - 1);
    ScopeShape.RunKind(p, c, TBlock(body), a.s, a.q);
    RoundAgain(p, c, e, Some(Test(x)), body, Run(p, c, TBlock(body), a.s, a.q));
  }

  lemma RunWhileBinds(p: Package, c: Ctx, id: nat, pat: Pattern, x: Expr, body: Block, s: Scope, q: nat)
    requires q > 0
    ensures var e := While(id, Binds(pat, x), body);
            var a := Part(p, c, x, s, q - 1);
            var whole := Run(p, c, TExpr(e), s, q);
      && (!a.o.Val? ==> whole == a)
      && (a.o.Val? ==>
            var m := MatchPattern(p, pat, a.o.v);
            && (m.PatFail? ==> whole == a.(o := Stop(m.failure)))
            && (m.NoMatch? ==> whole == a.(o := Val(Typed(VVoid, ExprType(p, c, id)))))
            && (m.Matched? ==>
                  var b := Run(p, c, TBlock(body), Within(a.s, m.bindings), a.q);
                  |b.s.frames| == |a.s.frames| + 1 && Next(p, c, e, b.(s := Outside(b.s, |a.s.frames|)), whole)))
  {
    hide Run, Next, Turned, MatchPattern, Pop;
    var cond := Binds(pat, x);
    var e := While(id, cond, body);
    var a := Part(p, c, x, s, q - 1);
    PartKind(p, c, x, s, q - 1);
    RunLooping(p, c, e, Some(cond), body, s, q);
    RunWhileTurn(p, c, cond, body, s, q - 1);
    if a.o.Val? && MatchPattern(p, pat, a.o.v).Matched? {
      var bs := MatchPattern(p, pat, a.o.v).bindings;
      Framed(p, c, TBlock(body), a.s, bs, a.q);
      ScopeShape.RunKind(p, c, TBlock(body), Within(a.s, bs), a.q);
      var b := Run(p, c, TBlock(body), Within(a.s, bs), a.q);
      RoundAgain(p, c, e, Some(cond), body, b.(s := Outside(b.s, |a.s.frames|)));
    }
  }

  // ----- calls --------------------------------------------------------------------------------------

  /** What a callee binds: all of a `comp fn`'s parameters, the `comp` ones of any other. */
  function Bound<T>(item: FnItem, formals: seq<FnParam>, xs: seq<T>): seq<T>
    requires |formals| == |xs|
  {
    if xs == [] then []
    else (if item.isComp || formals[0].isComp then [xs[0]] else []) + Bound(item, formals[1..], xs[1..])
  }

  function Picked<T>(xs: seq<T>, which: seq<nat>): (r: seq<T>)
    requires forall k :: 0 <= k < |which| ==> which[k] < |xs|
    ensures |r| == |which|
  {
    seq(|which|, k requires 0 <= k < |which| => xs[which[k]])
  }

  lemma {:induction false} PickedIsBound<T>(item: FnItem, xs: seq<T>, from: nat)
    requires |xs| == |item.formals| && from <= |xs|
    ensures Picked(xs, BoundFormals(item, from)) == Bound(item, item.formals[from..], xs[from..])
    decreases |xs| - from
  {
    if from < |xs| {
      PickedIsBound(item, xs, from + 1);
      var rest := BoundFormals(item, from + 1);
      PickedMore(xs, from, rest);
      assert xs[from..][1..] == xs[from + 1..] && item.formals[from..][1..] == item.formals[from + 1..];
      hide Picked;
      assert [] + rest == rest;
    }
  }

  lemma PickedMore<T>(xs: seq<T>, from: nat, rest: seq<nat>)
    requires from < |xs| && forall k :: 0 <= k < |rest| ==> rest[k] < |xs|
    ensures Picked(xs, [from] + rest) == [xs[from]] + Picked(xs, rest)
  {
  }

  function ParamPatterns(item: FnItem): (r: seq<Pattern>)
    ensures |r| == |item.formals|
  {
    seq(|item.formals|, k requires 0 <= k < |item.formals| => item.formals[k].pat)
  }

  /** The callee's arguments one after the other, in the caller's scope. */
  lemma {:induction false} ArgsRun(p: Package, c: Ctx, e: Expr, fn: Callee, vs: seq<Typed>, s: Scope, q: nat)
    requires e.Call? && PlanCall(p, c, e) == FnCall(fn) && Callable(e, fn) && c == InValue(c)
    requires |vs| <= |BoundFormals(fn.item.value, 0)|
    ensures var which := BoundFormals(fn.item.value, 0)[|vs|..];
      && (forall k :: 0 <= k < |which| ==> which[k] < |e.args|)
      && Run(p, c, TOperands(e, vs), s, q) == Ended(vs, Chain(p, c, Picked(e.args, which), s, q), Ready)
    decreases |BoundFormals(fn.item.value, 0)| - |vs|
  {
    hide Run, PlanCall, BoundFormals, ResumeExpr, ResumeOperands, ResumeArms, ResumeStmts, ResumeStmt;
    hide ResumePlace, ResumeLoop, ResumeBlock;
    var all := BoundFormals(fn.item.value, 0);
    var which := all[|vs|..];
    assert forall k :: 0 <= k < |which| ==> which[k] == all[|vs| + k];
    RunOperands(p, c, e, vs, s, q);
    assert NextOperand(p, c, e, vs) == if which == [] then Ready else Need(which[0]);
    hide NextOperand;
    if which == [] {
      assert vs + [] == vs;
    } else {
      var es := Picked(e.args, which);
      var a := Part(p, c, es[0], s, q);
      PartKind(p, c, es[0], s, q);
      if a.o.Val? {
        ArgsRun(p, c, e, fn, vs + [a.o.v], a.s, a.q);
        assert es[1..] == Picked(e.args, all[|vs| + 1..]);
        var rest := Chain(p, c, es[1..], a.s, a.q);
        if rest.o.Operands? { assert vs + [a.o.v] + rest.o.vs == vs + ([a.o.v] + rest.o.vs); }
      }
    }
  }

  /** What a body's outcome makes of the call, back in the caller's scope. */
  ghost predicate Returns(fn: Callee, b: Result, s: Scope, whole: Result) {
    && whole.s == s && whole.q == b.q
    && (b.o.Stop? ==> whole.o == b.o)
    && (b.o.Val? || (b.o.Leave? && b.o.how == JReturn) ==> whole.o == Val(Typed(b.o.v.value, fn.ret)))
    && (b.o.Leave? && b.o.how != JReturn ==> whole.o == Stop(Program))
  }

  /** The arguments bound in order, the body runs where the function was declared and sees nothing else. */
  ghost predicate Enters(p: Package, c: Ctx, fn: Callee, pats: seq<Pattern>, r: Result, whole: Result)
    requires fn.item.Some? && r.o.Operands? && |pats| == |r.o.vs|
  {
    var bound := BindEach(p, pats, r.o.vs);
    && (!bound.ok ==> whole == r.(o := Stop(bound.failure)))
    && (bound.ok && fn.item.value.body.None? ==> whole == r.(o := Stop(NoFailure)))
    && (bound.ok && fn.item.value.body.Some? ==>
          Returns(fn,
            Run(p, Ctx(fn.mod, fn.inst, c.depth + 1, false), TBlock(fn.item.value.body.value),
              Scope([], [bound.bindings]), r.q),
            r.s, whole))
  }

  lemma BodyEnters(p: Package, c: Ctx, fn: Callee, pats: seq<Pattern>, r: Result)
    requires fn.item.Some? && r.o.Operands? && |pats| == |r.o.vs|
    ensures Enters(p, c, fn, pats, r, CallBody(p, c, fn, BindArgs(p, pats, r.o.vs), r.s, r.q))
  {
    hide Run, BindEach;
    assert pats[..|r.o.vs|] == pats;
    if BindEach(p, pats, r.o.vs).ok && fn.item.value.body.Some? {
      ScopeShape.RunKind(p, Ctx(fn.mod, fn.inst, c.depth + 1, false), TBlock(fn.item.value.body.value),
        Scope([], [BindEach(p, pats, r.o.vs).bindings]), r.q);
    }
  }

  /** A call's callee: a function, or a method without a receiver. */
  ghost predicate Calls(p: Package, c: Ctx, e: Expr, fn: Callee) {
    && Named(e) && CallSite(c, e) in p.targets
    && (p.targets[CallSite(c, e)] == FnTarget(fn) || (p.targets[CallSite(c, e)] == MethodTarget(fn) && !fn.hasReceiver))
  }

  /**
   A call of the wrong arity is refused; any other pays, goes one level deeper, 64 at most, and
   evaluates the arguments it binds from left to right before it enters the body.
   */
  lemma RunCall(p: Package, c: Ctx, e: Expr, fn: Callee, s: Scope, q: nat)
    requires Calls(p, c, e, fn)
    ensures var whole := Run(p, c, TExpr(e), s, q);
      if fn.item.None? || |e.args| != fn.arity || |e.args| != |fn.item.value.formals| then
        whole == Result(Stop(Program), s, q)
      else if q == 0 then whole == Result(Stop(Budget), s, 0)
      else if c.depth >= 64 then whole == Result(Stop(Program), s, q - 1)
      else
        var item := fn.item.value;
        var r := Chain(p, Ctx(c.mod, c.inst, c.depth + 1, false), Bound(item, item.formals, e.args), s, q - 1);
        var pats := Bound(item, item.formals, ParamPatterns(item));
        if !r.o.Operands? then whole == r
        else |pats| == |r.o.vs| && Enters(p, c, fn, pats, r, whole)
  {
    hide Run, Enters, BindEach, Bound, ParamPatterns, ResumeOperands, ResumeArms, ResumeStmts, ResumeStmt;
    hide ResumePlace, ResumeLoop, ResumeBlock;
    CallPlanned(p, c, e, fn);
    hide PlanCall, Calls;
    if !Callable(e, fn) || c.depth >= 64 {
      RunLeaf(p, c, e, s, q);
    } else {
      hide ResumeExpr, CallBody, BindArgs, CallPatterns;
      RunFnCall(p, c, e, fn, s, q);
      if q > 0 {
        AllArgsRun(p, Deeper(c), e, fn, s, q - 1);
        var r := Run(p, Deeper(c), TOperands(e, []), s, q - 1);
        if r.o.Operands? { BodyEnters(p, c, fn, CallPatterns(fn), r); }
      }
    }
  }

  lemma CallPlanned(p: Package, c: Ctx, e: Expr, fn: Callee)
    requires Calls(p, c, e, fn)
    ensures PlanCall(p, c, e) == FnCall(fn) == PlanCall(p, Deeper(c), e)
  {
  }

  lemma AllArgsRun(p: Package, c: Ctx, e: Expr, fn: Callee, s: Scope, q: nat)
    requires e.Call? && PlanCall(p, c, e) == FnCall(fn) && Callable(e, fn) && c == InValue(c)
    ensures var item := fn.item.value;
            var r := Chain(p, c, Bound(item, item.formals, e.args), s, q);
      && Run(p, c, TOperands(e, []), s, q) == r && (r.o.Operands? || r.o.Stop?)
      && CallPatterns(fn) == Bound(item, item.formals, ParamPatterns(item))
      && (r.o.Operands? ==> |r.o.vs| == |CallPatterns(fn)|)
  {
    hide Run, PlanCall, Chain;
    var item := fn.item.value;
    var which := BoundFormals(item, 0);
    PickedIsBound(item, e.args, 0);
    PickedIsBound(item, ParamPatterns(item), 0);
    assert item.formals[0..] == item.formals && e.args[0..] == e.args;
    assert ParamPatterns(item)[0..] == ParamPatterns(item);
    assert which[0..] == which;
    ArgsRun(p, c, e, fn, [], s, q);
    var r := Chain(p, c, Picked(e.args, which), s, q);
    ChainCount(p, c, Picked(e.args, which), s, q);
    hide BoundFormals, Bound;
    assert CallPatterns(fn) == Picked(ParamPatterns(item), which);
    if r.o.Operands? { assert [] + r.o.vs == r.o.vs; }
  }

  // ----- method calls -------------------------------------------------------------------------------

  /** A method binds each value before it evaluates the next argument, and stops at the first it cannot bind. */
  function Received(p: Package, c: Ctx, pats: seq<Pattern>, vs: seq<Typed>, es: seq<Expr>, s: Scope, q: nat): Result
    requires |pats| == |vs| + |es|
    decreases |es|
  {
    var bound := BindEach(p, pats[..|vs|], vs);
    if !bound.ok then Result(Stop(bound.failure), s, q)
    else if es == [] then Result(Operands(vs), s, q)
    else
      var a := Part(p, c, es[0], s, q);
      if a.o.Val? then Received(p, c, pats, vs + [a.o.v], es[1..], a.s, a.q) else a
  }

  lemma {:induction false} ReceivedRuns(
    p: Package, c: Ctx, e: Expr, fn: Callee, vs: seq<Typed>, s: Scope, q: nat
  )
    requires e.MethodCall? && PlanMethod(p, c, e) == Some(fn) && fn.item.Some? && c == InValue(c)
    requires |fn.item.value.formals| == |e.args| + 1 && 1 <= |vs| <= |e.args| + 1
    ensures Run(p, c, TOperands(e, vs), s, q) ==
      Received(p, c, ParamPatterns(fn.item.value), vs, e.args[|vs| - 1..], s, q)
    ensures var r := Run(p, c, TOperands(e, vs), s, q); r.o.Stop? || (r.o.Operands? && |r.o.vs| == |e.args| + 1)
    decreases |e.args| + 1 - |vs|
  {
    hide Run, PlanMethod, BindEach;
    var pats := ParamPatterns(fn.item.value);
    assert MethodPatterns(fn) == pats;
    var next := NextOperand(p, c, e, vs);
    assert next == if !BindEach(p, pats[..|vs|], vs).ok then Stuck(BindEach(p, pats[..|vs|], vs).failure)
      else if |vs| == |e.args| + 1 then Ready else Need(|vs|);
    hide NextOperand, MethodPatterns, ParamPatterns;
    RunOperands(p, c, e, vs, s, q);
    if next.Need? {
      assert OperandExprs(e)[|vs|] == e.args[|vs| - 1];
      var es := e.args[|vs| - 1..];
      var a := Part(p, c, es[0], s, q);
      PartKind(p, c, es[0], s, q);
      if a.o.Val? {
        assert es[1..] == e.args[|vs|..];
        ReceivedRuns(p, c, e, fn, vs + [a.o.v], a.s, a.q);
      }
    }
  }

  /** A method with a receiver, a body's item, and as many parameters as the call has arguments and a receiver. */
  ghost predicate Invokes(p: Package, c: Ctx, e: Expr, fn: Callee)
    requires e.MethodCall?
  {
    var site := Site(c.mod, e.id, c.inst);
    && site in p.targets && p.targets[site] == MethodTarget(fn) && fn.hasReceiver && fn.item.Some?
    && |e.args| + 1 == fn.arity && |e.args| + 1 == |fn.item.value.formals|
  }

  /** A method call pays and evaluates its receiver first; only then is it looked up, refused or entered. */
  lemma RunInvoked(p: Package, c: Ctx, e: Expr, s: Scope, q: nat)
    requires e.MethodCall?
    ensures Run(p, c, TExpr(e), s, 0) == Result(Stop(Budget), s, 0)
    ensures q > 0 ==>
      var a := Part(p, c, e.receiver, s, q - 1);
      var whole := Run(p, c, TExpr(e), s, q);
      && (!a.o.Val? ==> whole == a)
      && (a.o.Val? && c.depth >= 64 ==> whole == a.(o := Stop(Program)))
      && (a.o.Val? && (forall fn :: !Invokes(p, c, e, fn)) ==> whole == a.(o := Stop(Program)))
      && (forall fn :: a.o.Val? && c.depth < 64 && Invokes(p, c, e, fn) ==>
            var pats := ParamPatterns(fn.item.value);
            var r := Received(p, Ctx(c.mod, c.inst, c.depth + 1, false), pats, [a.o.v], e.args, a.s, a.q);
            if !r.o.Operands? then whole == r else |r.o.vs| == |pats| && Enters(p, c, fn, pats, r, whole))
  {
    hide Run, Enters, BindEach, Received, ParamPatterns, PlanMethod, CallBody, BindArgs, MethodPatterns;
    RunMethodCall(p, c, e, s, 0);
    RunMethodCall(p, c, e, s, q);
    MethodFound(p, c, e);
    if q > 0 {
      var a := Part(p, c, e.receiver, s, q - 1);
      PartKind(p, c, e.receiver, s, q - 1);
      forall fn | a.o.Val? && c.depth < 64 && Invokes(p, c, e, fn)
        ensures var pats := ParamPatterns(fn.item.value);
                var r := Received(p, Deeper(c), pats, [a.o.v], e.args, a.s, a.q);
                var whole := Run(p, c, TExpr(e), s, q);
          if !r.o.Operands? then whole == r else |r.o.vs| == |pats| && Enters(p, c, fn, pats, r, whole)
      {
        assert e.args[0..] == e.args;
        ReceivedRuns(p, Deeper(c), e, fn, [a.o.v], a.s, a.q);
        assert MethodPatterns(fn) == ParamPatterns(fn.item.value) by { MethodPatternsAre(fn); }
        var r := Run(p, Deeper(c), TOperands(e, [a.o.v]), a.s, a.q);
        if r.o.Operands? { BodyEnters(p, c, fn, ParamPatterns(fn.item.value), r); }
      }
    }
  }

  lemma MethodPatternsAre(fn: Callee)
    requires fn.item.Some?
    ensures MethodPatterns(fn) == ParamPatterns(fn.item.value)
  {
  }

  lemma MethodFound(p: Package, c: Ctx, e: Expr)
    requires e.MethodCall?
    ensures forall fn :: Invokes(p, c, e, fn) <==> PlanMethod(p, c, e) == Some(fn)
    ensures forall fn :: Invokes(p, c, e, fn) ==> PlanMethod(p, Deeper(c), e) == Some(fn)
    ensures PlanMethod(p, c, e).None? <==> forall fn :: !Invokes(p, c, e, fn)
  {
    if PlanMethod(p, c, e).Some? { assert Invokes(p, c, e, PlanMethod(p, c, e).value); }
  }
}
