/**
 What each construct of the language answers, from the runs of its parts alone: the operators
 over the values they are applied to, the literals over the table of types, the aggregates over
 their elements. Nothing here is stated through the evaluator's own tables of steps and answers.
 Sources: src/analyzer/comp_evaluator.cc, comp_eval_expr, comp_eval_binary, comp_eval_struct.
 */
module Answers {
  import opened Machine
  import opened Lang
  import opened Tables
  import opened Patterns
  import opened Semantics
  import opened Steps
  import opened Runs
  import opened Equations
  import ScopeShape
  import Fmt

  /** The run of a part, which is always in value position. */
  function Part(p: Package, c: Ctx, e: Expr, s: Scope, q: nat): Result { Run(p, InValue(c), TExpr(e), s, q) }

  /** A part answers a value or stops the construct it is part of. */
  lemma PartKind(p: Package, c: Ctx, e: Expr, s: Scope, q: nat)
    ensures Part(p, c, e, s, q).o.Val? || Part(p, c, e, s, q).o.Stop?
    ensures forall c' :: c' == InValue(c) ==> InValue(c') == c'
  {
    hide Run;
    ScopeShape.RunKind(p, InValue(c), TExpr(e), s, q);
  }

  // ----- operands in a row --------------------------------------------------------------------------

  /** Expressions evaluated from left to right, each in the scope the one before it left. */
  function Chain(p: Package, c: Ctx, es: seq<Expr>, s: Scope, q: nat): Result {
    if es == [] then Result(Operands([]), s, q)
    else
      var a := Part(p, c, es[0], s, q);
      if !a.o.Val? then a
      else
        var rest := Chain(p, c, es[1..], a.s, a.q);
        if rest.o.Operands? then rest.(o := Operands([a.o.v] + rest.o.vs)) else rest
  }

  /** The first `n` operands are read in a row, and then the construct is ready or stuck. */
  ghost predicate Reads(p: Package, c: Ctx, e: Expr, n: nat, end: Next) {
    && n <= |OperandExprs(e)| && !end.Need?
    && forall vs :: |vs| <= n ==> NextOperand(p, c, e, vs) == if |vs| < n then Need(|vs|) else end
  }

  /** The construct reads all its operands before it answers. */
  ghost predicate ReadsAll(p: Package, c: Ctx, e: Expr) { Reads(p, c, e, |OperandExprs(e)|, Ready) }

  function Ended(vs: seq<Typed>, r: Result, end: Next): Result {
    if !r.o.Operands? then r
    else if end.Stuck? then r.(o := Stop(end.failure))
    else r.(o := Operands(vs + r.o.vs))
  }

  lemma {:induction false} ChainRuns(
    p: Package, c: Ctx, e: Expr, n: nat, end: Next, vs: seq<Typed>, s: Scope, q: nat
  )
    requires |vs| <= n && Reads(p, c, e, n, end) && c == InValue(c)
    ensures Run(p, c, TOperands(e, vs), s, q) == Ended(vs, Chain(p, c, OperandExprs(e)[|vs|..n], s, q), end)
    decreases n - |vs|
  {
    hide Run, NextOperand, OperandExprs;
    RunOperands(p, c, e, vs, s, q);
    var es := OperandExprs(e)[|vs|..n];
    if es == [] {
      assert vs + [] == vs;
    } else {
      var a := Part(p, c, es[0], s, q);
      PartKind(p, c, es[0], s, q);
      assert es[1..] == OperandExprs(e)[|vs| + 1..n];
      if a.o.Val? {
        ChainRuns(p, c, e, n, end, vs + [a.o.v], a.s, a.q);
        var rest := Chain(p, c, es[1..], a.s, a.q);
        if rest.o.Operands? { assert vs + [a.o.v] + rest.o.vs == vs + ([a.o.v] + rest.o.vs); }
      }
    }
  }

  lemma {:induction false} ChainCount(p: Package, c: Ctx, es: seq<Expr>, s: Scope, q: nat)
    ensures var r := Chain(p, c, es, s, q); r.o.Stop? || (r.o.Operands? && |r.o.vs| == |es|)
    decreases |es|
  {
    hide Run;
    if es != [] {
      PartKind(p, c, es[0], s, q);
      var a := Part(p, c, es[0], s, q);
      ChainCount(p, c, es[1..], a.s, a.q);
    }
  }

  /** A construct that reads operands and then answers, or is refused on the way. */
  lemma RunReads(p: Package, c: Ctx, e: Expr, n: nat, end: Next, s: Scope, q: nat, tick: bool)
    requires ReadsOperands(p, c, e, tick) && Reads(p, InValue(c), e, n, end)
    ensures var cost := if tick then 1 else 0;
      cost <= q ==>
        var r := Chain(p, InValue(c), OperandExprs(e)[..n], s, q - cost);
        Run(p, c, TExpr(e), s, q) ==
          if !r.o.Operands? then r
          else if end.Stuck? then r.(o := Stop(end.failure))
          else r.(o := Finish(p, c, e, r.o.vs))
    ensures q < (if tick then 1 else 0) ==> Run(p, c, TExpr(e), s, q) == Result(Stop(Budget), s, q)
  {
    hide Run, Finish, ReadsOperands, OperandExprs, NextOperand;
    RunStrict(p, c, e, s, q, tick);
    var cost := if tick then 1 else 0;
    if cost <= q {
      ChainRuns(p, InValue(c), e, n, end, [], s, q - cost);
      var r := Chain(p, InValue(c), OperandExprs(e)[..n], s, q - cost);
      assert OperandExprs(e)[0..n] == OperandExprs(e)[..n];
      assert r.o.Operands? ==> [] + r.o.vs == r.o.vs;
    }
  }

  lemma RunAll(p: Package, c: Ctx, e: Expr, s: Scope, q: nat, tick: bool)
    requires ReadsOperands(p, c, e, tick) && ReadsAll(p, InValue(c), e)
    ensures var cost := if tick then 1 else 0;
      cost <= q ==>
        var r := Chain(p, InValue(c), OperandExprs(e), s, q - cost);
        Run(p, c, TExpr(e), s, q) == if r.o.Operands? then r.(o := Finish(p, c, e, r.o.vs)) else r
    ensures q < (if tick then 1 else 0) ==> Run(p, c, TExpr(e), s, q) == Result(Stop(Budget), s, q)
  {
    hide Run, Finish, ReadsOperands, OperandExprs, Reads;
    RunReads(p, c, e, |OperandExprs(e)|, Ready, s, q, tick);
    assert OperandExprs(e)[..|OperandExprs(e)|] == OperandExprs(e);
  }

  predicate OneOperand(e: Expr) {
    e.Unary? || e.Borrow? || e.CastTo? || e.Question? || e.RepeatExpr? || e.Field?
  }

  predicate TwoOperands(e: Expr) { (e.Binary? && e.bop != And && e.bop != Or) || e.Index? }

  lemma RunOne(p: Package, c: Ctx, e: Expr, s: Scope, q: nat)
    requires OneOperand(e)
    ensures |OperandExprs(e)| == 1
    ensures var a := Part(p, c, OperandExprs(e)[0], s, q);
      Run(p, c, TExpr(e), s, q) == if a.o.Val? then a.(o := Finish(p, c, e, [a.o.v])) else a
  {
    hide Run, Finish;
    assert ReadsAll(p, InValue(c), e);
    RunAll(p, c, e, s, q, false);
    hide NextOperand, ReadsOperands;
    ChainOfOne(p, InValue(c), OperandExprs(e), s, q);
  }

  lemma ChainOfOne(p: Package, c: Ctx, es: seq<Expr>, s: Scope, q: nat)
    requires |es| == 1 && c == InValue(c)
    ensures var a := Part(p, c, es[0], s, q);
      && (a.o.Val? || a.o.Stop?)
      && Chain(p, c, es, s, q) == if a.o.Val? then a.(o := Operands([a.o.v])) else a
  {
    hide Run;
    PartKind(p, c, es[0], s, q);
    assert es[1..] == [];
    var a := Part(p, c, es[0], s, q);
    if a.o.Val? { assert [a.o.v] + [] == [a.o.v]; }
  }

  lemma RunTwo(p: Package, c: Ctx, e: Expr, s: Scope, q: nat)
    requires TwoOperands(e)
    ensures |OperandExprs(e)| == 2
    ensures var a := Part(p, c, OperandExprs(e)[0], s, q);
            var b := Part(p, c, OperandExprs(e)[1], a.s, a.q);
      Run(p, c, TExpr(e), s, q) ==
        if !a.o.Val? then a else if !b.o.Val? then b else b.(o := Finish(p, c, e, [a.o.v, b.o.v]))
  {
    hide Run, Finish;
    assert ReadsAll(p, InValue(c), e);
    RunAll(p, c, e, s, q, false);
    ChainOfTwo(p, InValue(c), OperandExprs(e), s, q);
  }

  lemma ChainOfTwo(p: Package, c: Ctx, es: seq<Expr>, s: Scope, q: nat)
    requires |es| == 2 && c == InValue(c)
    ensures var a := Part(p, c, es[0], s, q);
            var b := Part(p, c, es[1], a.s, a.q);
      && (a.o.Val? || a.o.Stop?) && (b.o.Val? || b.o.Stop?)
      && Chain(p, c, es, s, q) ==
           if !a.o.Val? then a else if !b.o.Val? then b else b.(o := Operands([a.o.v, b.o.v]))
  {
    hide Run;
    var a := Part(p, c, es[0], s, q);
    var b := Part(p, c, es[1], a.s, a.q);
    PartKind(p, c, es[0], s, q);
    PartKind(p, c, es[1], a.s, a.q);
    assert es[1..] == [es[1]] && es[1..][1..] == [];
    if a.o.Val? && b.o.Val? {
      assert Chain(p, c, es[1..], a.s, a.q) == b.(o := Operands([b.o.v])) by { assert [b.o.v] + [] == [b.o.v]; }
      assert [a.o.v] + [b.o.v] == [a.o.v, b.o.v];
    }
  }

  // ----- logical operators --------------------------------------------------------------------------

  /** `&&`: the right operand runs exactly when the left is true, and then it is the answer. */
  lemma RunAnd(p: Package, c: Ctx, id: nat, l: Expr, r: Expr, s: Scope, q: nat)
    ensures var a := Part(p, c, l, s, q);
            var b := Part(p, c, r, a.s, a.q);
            var whole := Run(p, c, TExpr(Binary(id, And, l, r)), s, q);
      && (!a.o.Val? ==> whole == a)
      && (a.o.Val? && !a.o.v.value.VBool? ==> whole == a.(o := Stop(Program)))
      && (a.o.Val? && a.o.v.value == VBool(false) ==>
            whole == a.(o := Val(Typed(VBool(false), ExprType(p, c, id)))))
      && (a.o.Val? && a.o.v.value == VBool(true) ==>
            && (!b.o.Val? ==> whole == b)
            && (b.o.Val? && !b.o.v.value.VBool? ==> whole == b.(o := Stop(Program)))
            && (b.o.Val? && b.o.v.value.VBool? ==>
                  whole == b.(o := Val(Typed(b.o.v.value, ExprType(p, c, id))))))
  {
    RunLogical(p, c, Binary(id, And, l, r), s, q);
  }

  /** `||`: the right operand runs exactly when the left is false, and then it is the answer. */
  lemma RunOr(p: Package, c: Ctx, id: nat, l: Expr, r: Expr, s: Scope, q: nat)
    ensures var a := Part(p, c, l, s, q);
            var b := Part(p, c, r, a.s, a.q);
            var whole := Run(p, c, TExpr(Binary(id, Or, l, r)), s, q);
      && (!a.o.Val? ==> whole == a)
      && (a.o.Val? && !a.o.v.value.VBool? ==> whole == a.(o := Stop(Program)))
      && (a.o.Val? && a.o.v.value == VBool(true) ==>
            whole == a.(o := Val(Typed(VBool(true), ExprType(p, c, id)))))
      && (a.o.Val? && a.o.v.value == VBool(false) ==>
            && (!b.o.Val? ==> whole == b)
            && (b.o.Val? && !b.o.v.value.VBool? ==> whole == b.(o := Stop(Program)))
            && (b.o.Val? && b.o.v.value.VBool? ==>
                  whole == b.(o := Val(Typed(b.o.v.value, ExprType(p, c, id))))))
  {
    RunLogical(p, c, Binary(id, Or, l, r), s, q);
  }

  lemma RunLogical(p: Package, c: Ctx, e: Expr, s: Scope, q: nat)
    requires e.Binary? && (e.bop == And || e.bop == Or)
    ensures var a := Part(p, c, e.lhs, s, q);
            var b := Part(p, c, e.rhs, a.s, a.q);
            var t := ExprType(p, c, e.id);
      Run(p, c, TExpr(e), s, q) ==
        if !a.o.Val? then a
        else if !a.o.v.value.VBool? then a.(o := Stop(Program))
        else if a.o.v.value.truth == (e.bop == Or) then a.(o := Val(Typed(VBool(e.bop == Or), t)))
        else if !b.o.Val? then b
        else if !b.o.v.value.VBool? then b.(o := Stop(Program))
        else b.(o := Val(Typed(b.o.v.value, t)))
  {
    hide Run;
    var a := Part(p, c, e.lhs, s, q);
    var b := Part(p, c, e.rhs, a.s, a.q);
    PartKind(p, c, e.lhs, s, q);
    PartKind(p, c, e.rhs, a.s, a.q);
    RunStrict(p, c, e, s, q, false);
    RunOperands(p, InValue(c), e, [], s, q);
    if a.o.Val? {
      assert [] + [a.o.v] == [a.o.v];
      RunOperands(p, InValue(c), e, [a.o.v], a.s, a.q);
      if b.o.Val? {
        assert [a.o.v] + [b.o.v] == [a.o.v, b.o.v];
        RunOperands(p, InValue(c), e, [a.o.v, b.o.v], b.s, b.q);
      }
    }
  }

  // ----- operators ----------------------------------------------------------------------------------

  /** The integer a value's pattern means at a type, the pattern cut to the type first. */
  function Meant(p: Package, t: TypeIdx, x: Value): int
    requires x.VInt?
  {
    ValueOf(TagOf(p, t), x.bits % Modulus(TagOf(p, t)))
  }

  /** Two operands that answer values, and the operator's answer where the second left off. */
  ghost predicate Applied(
    p: Package, c: Ctx, e: Expr, x: Expr, y: Expr, s: Scope, q: nat, l: Typed, r: Typed, o: Out
  )
  {
    var a := Part(p, c, x, s, q);
    var b := Part(p, c, y, a.s, a.q);
    && (!a.o.Val? ==> Run(p, c, TExpr(e), s, q) == a)
    && (a.o.Val? && !b.o.Val? ==> Run(p, c, TExpr(e), s, q) == b)
    && (a.o == Val(l) && b.o == Val(r) ==> Run(p, c, TExpr(e), s, q) == b.(o := o))
  }

  lemma RunApplied(p: Package, c: Ctx, e: Expr, s: Scope, q: nat, l: Typed, r: Typed)
    requires TwoOperands(e)
    ensures |OperandExprs(e)| == 2
    ensures Applied(p, c, e, OperandExprs(e)[0], OperandExprs(e)[1], s, q, l, r, Finish(p, c, e, [l, r]))
  {
    hide Run, Finish;
    RunTwo(p, c, e, s, q);
  }

  lemma RunBinary(p: Package, c: Ctx, id: nat, op: BinaryOp, x: Expr, y: Expr, s: Scope, q: nat, l: Typed, r: Typed)
    requires op != And && op != Or
    ensures Applied(p, c, Binary(id, op, x, y), x, y, s, q, l, r, BinaryAnswer(p, ExprType(p, c, id), op, [l, r]))
  {
    hide Applied, BinaryAnswer, ExprType;
    RunApplied(p, c, Binary(id, op, x, y), s, q, l, r);
  }

  lemma ComparesMeant(p: Package, t: TypeIdx, l: Typed, r: Typed)
    requires l.value.VInt? && r.value.VInt?
    ensures var a, b := Meant(p, l.ty, l.value), Meant(p, l.ty, r.value);
      && BinaryAnswer(p, t, Lt, [l, r]) == Val(Typed(VBool(a < b), t))
      && BinaryAnswer(p, t, LtEq, [l, r]) == Val(Typed(VBool(a <= b), t))
      && BinaryAnswer(p, t, Gt, [l, r]) == Val(Typed(VBool(a > b), t))
      && BinaryAnswer(p, t, GtEq, [l, r]) == Val(Typed(VBool(a >= b), t))
  {
    hide Apply, Decode, Modulus;
  }

  /** The four comparisons order the values the patterns mean at the left operand's type. */
  lemma RunCompared(p: Package, c: Ctx, id: nat, x: Expr, y: Expr, s: Scope, q: nat, l: Typed, r: Typed)
    requires l.value.VInt? && r.value.VInt?
    ensures var a, b, t := Meant(p, l.ty, l.value), Meant(p, l.ty, r.value), ExprType(p, c, id);
      && Applied(p, c, Binary(id, Lt, x, y), x, y, s, q, l, r, Val(Typed(VBool(a < b), t)))
      && Applied(p, c, Binary(id, LtEq, x, y), x, y, s, q, l, r, Val(Typed(VBool(a <= b), t)))
      && Applied(p, c, Binary(id, Gt, x, y), x, y, s, q, l, r, Val(Typed(VBool(a > b), t)))
      && Applied(p, c, Binary(id, GtEq, x, y), x, y, s, q, l, r, Val(Typed(VBool(a >= b), t)))
  {
    hide Applied, Meant, BinaryAnswer, ExprType;
    ComparesMeant(p, ExprType(p, c, id), l, r);
    RunBinary(p, c, id, Lt, x, y, s, q, l, r);
    RunBinary(p, c, id, LtEq, x, y, s, q, l, r);
    RunBinary(p, c, id, Gt, x, y, s, q, l, r);
    RunBinary(p, c, id, GtEq, x, y, s, q, l, r);
  }

  /** Two values an equality compares, and whether they are one; integers by the bits their types keep. */
  ghost predicate SameValue(p: Package, l: Typed, r: Typed, same: bool) {
    || (&& l.value.VInt? && r.value.VInt?
        && same == (l.value.bits % Modulus(TagOf(p, l.ty)) == r.value.bits % Modulus(TagOf(p, r.ty))))
    || (l.value.VBool? && r.value.VBool? && same == (l.value == r.value))
    || (l.value.VStr? && r.value.VStr? && same == (l.value == r.value))
  }

  lemma EqualsMeant(p: Package, t: TypeIdx, l: Typed, r: Typed, same: bool)
    requires SameValue(p, l, r, same)
    ensures BinaryAnswer(p, t, Eq, [l, r]) == Val(Typed(VBool(same), t))
    ensures BinaryAnswer(p, t, NotEq, [l, r]) == Val(Typed(VBool(!same), t))
    ensures l.value.VInt? && TagOf(p, l.ty) == TagOf(p, r.ty) ==>
      (same <==> Meant(p, l.ty, l.value) == Meant(p, r.ty, r.value))
  {
    hide Apply;
    if l.value.VInt? {
      var tag := TagOf(p, l.ty);
      var m := Modulus(tag);
      PatternOfValue(tag, l.value.bits % m);
      PatternOfValue(tag, r.value.bits % m);
    }
  }

  lemma RunEqual(p: Package, c: Ctx, id: nat, x: Expr, y: Expr, s: Scope, q: nat, l: Typed, r: Typed, same: bool)
    requires SameValue(p, l, r, same)
    ensures l.value.VInt? && TagOf(p, l.ty) == TagOf(p, r.ty) ==>
      (same <==> Meant(p, l.ty, l.value) == Meant(p, r.ty, r.value))
    ensures Applied(p, c, Binary(id, Eq, x, y), x, y, s, q, l, r, Val(Typed(VBool(same), ExprType(p, c, id))))
    ensures Applied(p, c, Binary(id, NotEq, x, y), x, y, s, q, l, r, Val(Typed(VBool(!same), ExprType(p, c, id))))
  {
    hide Applied, BinaryAnswer, ExprType, Meant, Modulus;
    EqualsMeant(p, ExprType(p, c, id), l, r, same);
    RunBinary(p, c, id, Eq, x, y, s, q, l, r);
    RunBinary(p, c, id, NotEq, x, y, s, q, l, r);
  }

  /** Values of two kinds, or of a kind that has no equality, are not compared; only integers have the others. */
  lemma RunIncomparable(
    p: Package, c: Ctx, id: nat, op: BinaryOp, x: Expr, y: Expr, s: Scope, q: nat, l: Typed, r: Typed
  )
    requires op != And && op != Or
    requires !(l.value.VInt? && r.value.VInt?)
    requires op == Eq || op == NotEq ==> !(l.value.VBool? && r.value.VBool?) && !(l.value.VStr? && r.value.VStr?)
    ensures Applied(p, c, Binary(id, op, x, y), x, y, s, q, l, r, Stop(Program))
  {
    hide Applied, Apply, ExprType;
    RunBinary(p, c, id, op, x, y, s, q, l, r);
  }

  predicate Arithmetic(op: BinaryOp) {
    op in {Add, Sub, Mul, Pow, Div, Mod, BitAnd, BitOr, BitXor, Shl, Shr}
  }

  /** The other operators compute `Machine.Apply` on the patterns cut to the left operand's type. */
  lemma RunArithmetic(
    p: Package, c: Ctx, id: nat, op: BinaryOp, x: Expr, y: Expr, s: Scope, q: nat, l: Typed, r: Typed
  )
    requires Arithmetic(op) && l.value.VInt? && r.value.VInt?
    ensures var tag := TagOf(p, l.ty);
            var answer := Apply(op, tag, l.value.bits % Modulus(tag), r.value.bits % Modulus(tag));
      Applied(p, c, Binary(id, op, x, y), x, y, s, q, l, r,
        if answer.IntOk? then Val(Typed(VInt(answer.bits), ExprType(p, c, id))) else Stop(answer.failure))
  {
    hide Applied, Apply, ExprType, Modulus;
    RunBinary(p, c, id, op, x, y, s, q, l, r);
  }

  // ----- one operand --------------------------------------------------------------------------------

  /** The operand's value, and the construct's answer where it left off. */
  ghost predicate Given(p: Package, c: Ctx, e: Expr, x: Expr, s: Scope, q: nat, v: Typed, o: Out) {
    var a := Part(p, c, x, s, q);
    && (a.o == Val(v) ==> Run(p, c, TExpr(e), s, q) == a.(o := o))
    && (!a.o.Val? ==> Run(p, c, TExpr(e), s, q) == a)
  }

  lemma RunTurned(p: Package, c: Ctx, e: Expr, s: Scope, q: nat, v: Typed)
    requires OneOperand(e)
    ensures |OperandExprs(e)| == 1 && Given(p, c, e, OperandExprs(e)[0], s, q, v, Finish(p, c, e, [v]))
  {
    hide Run, Finish;
    RunOne(p, c, e, s, q);
  }

  /** `-x`, `~x` and `!x`; minus and bit-not encode the value, and each refuses what is not of its kind. */
  lemma RunUnary(p: Package, c: Ctx, id: nat, x: Expr, s: Scope, q: nat, v: Typed)
    ensures var t, tag := ExprType(p, c, id), TagOf(p, v.ty);
      && Given(p, c, Unary(id, Not, x), x, s, q, v,
           if v.value.VBool? then Val(Typed(VBool(!v.value.truth), t)) else Stop(Program))
      && Given(p, c, Unary(id, Neg, x), x, s, q, v,
           if v.value.VInt? then Val(Typed(VInt(Encode(tag, -Meant(p, v.ty, v.value))), t)) else Stop(Program))
      && Given(p, c, Unary(id, BitNot, x), x, s, q, v,
           if v.value.VInt? then Val(Typed(VInt(Encode(tag, -Meant(p, v.ty, v.value) - 1)), t)) else Stop(Program))
  {
    hide Given, ExprType;
    RunTurned(p, c, Unary(id, Not, x), s, q, v);
    RunTurned(p, c, Unary(id, Neg, x), s, q, v);
    RunTurned(p, c, Unary(id, BitNot, x), s, q, v);
    if v.value.VInt? {
      UnaryMeans(p, ExprType(p, c, id), Neg, v);
      UnaryMeans(p, ExprType(p, c, id), BitNot, v);
      hide UnaryAnswer, Encode, Meant;
    }
  }

  lemma RunBorrow(p: Package, c: Ctx, id: nat, x: Expr, s: Scope, q: nat, v: Typed)
    ensures Given(p, c, Borrow(id, x), x, s, q, v, Val(v))
  {
    hide Given;
    RunTurned(p, c, Borrow(id, x), s, q, v);
  }

  /** `as`: to a bool whether it is set, from a bool one or zero, between integers the value modulo the target. */
  lemma RunCast(p: Package, c: Ctx, id: nat, x: Expr, s: Scope, q: nat, v: Typed)
    ensures var t := ExprType(p, c, id);
            var whole := CastTo(id, x);
      && (TagOf(p, t) == I1 && v.value.VBool? ==>
            Given(p, c, whole, x, s, q, v, Val(Typed(v.value, t))))
      && (TagOf(p, t) == I1 && v.value.VInt? ==>
            Given(p, c, whole, x, s, q, v, Val(Typed(VBool(v.value.bits != 0), t))))
      && (TagOf(p, t) != I1 && v.value.VBool? ==>
            Given(p, c, whole, x, s, q, v, Val(Typed(VInt(if v.value.truth then 1 else 0), t))))
      && (TagOf(p, t) != I1 && v.value.VInt? ==>
            var held: int := if IsSigned(TagOf(p, v.ty)) then Meant(p, v.ty, v.value) else v.value.bits;
            Given(p, c, whole, x, s, q, v, Val(Typed(VInt(Encode(TagOf(p, t), held)), t))))
      && (TagOf(p, t) != I1 && !v.value.VBool? && !v.value.VInt? ==>
            Given(p, c, whole, x, s, q, v, Stop(Program)))
  {
    hide Given, ExprType;
    RunTurned(p, c, CastTo(id, x), s, q, v);
    if v.value.VInt? { CastMeans(TagOf(p, v.ty), TagOf(p, ExprType(p, c, id)), v.value.bits); }
    hide Cast, Encode, Modulus, ValueOf;
  }

  lemma CastMeans(source: Tag, target: Tag, bits: nat)
    ensures Cast(source, target, bits) ==
      Encode(target, if IsSigned(source) then ValueOf(source, bits % Modulus(source)) else bits)
  {
    ModulusEven(source);
    if IsSigned(source) {
      SignExtendIsValue(source, bits % Modulus(source));
      ModulusEven(target);
      WrapThenMask(Modulus(target), ValueOf(source, bits % Modulus(source)));
    }
  }

  /** `?` takes the first payload of the first variant and refuses everything else. */
  lemma RunQuestion(p: Package, c: Ctx, id: nat, x: Expr, s: Scope, q: nat, v: Typed)
    ensures forall payload, more :: v.value == VEnum(0, [payload] + more) ==>
      Given(p, c, Question(id, x), x, s, q, v, Val(Typed(payload, ExprType(p, c, id))))
    ensures (!v.value.VEnum? || v.value.variant != 0 || v.value.fields == []) ==>
      Given(p, c, Question(id, x), x, s, q, v, Stop(Program))
  {
    hide Given, ExprType;
    RunTurned(p, c, Question(id, x), s, q, v);
  }

  /** `[x; n]` holds as many as its array type says, or as are written where it has none. */
  lemma RunRepeat(p: Package, c: Ctx, id: nat, x: Expr, n: nat, s: Scope, q: nat, v: Typed) returns (fields: seq<Value>)
    ensures forall element, k :: Row(p, ExprType(p, c, id)) == ArrayRow(element, k) ==> |fields| == k
    ensures !Row(p, ExprType(p, c, id)).ArrayRow? ==> |fields| == n
    ensures forall i :: 0 <= i < |fields| ==> fields[i] == v.value
    ensures Given(p, c, RepeatExpr(id, x, n), x, s, q, v, Val(Typed(VArray(fields), ExprType(p, c, id))))
  {
    hide Given, ExprType;
    RunTurned(p, c, RepeatExpr(id, x, n), s, q, v);
    var count := match Row(p, ExprType(p, c, id)) case ArrayRow(_, k) => k case _ => n;
    fields := seq(count, _ => v.value);
    assert RepeatAnswer(p, ExprType(p, c, id), v, n) == Val(Typed(VArray(fields), ExprType(p, c, id)));
  }

  // ----- fields and elements ------------------------------------------------------------------------

  lemma {:induction false} PositionIsDecimal(name: string)
    requires Fmt.AllDigits(name)
    ensures Position(name) == Fmt.Decimal(name) % Fmt.WORD32
    decreases |name|
  {
    if name != [] {
      PositionIsDecimal(name[..|name| - 1]);
      Fmt.Wraps(Fmt.Decimal(name[..|name| - 1]), name[|name| - 1] as int - '0' as int);
    }
  }

  /** A tuple's field is named by its position in decimal digits, read in 32 bits. */
  lemma RunTupleField(p: Package, c: Ctx, id: nat, x: Expr, name: string, s: Scope, q: nat, v: Typed)
    requires v.value.VTuple?
    ensures var whole := Field(id, x, name);
      && (name != "" && Fmt.AllDigits(name) ==>
            var i := Fmt.Decimal(name) % Fmt.WORD32;
            Given(p, c, whole, x, s, q, v,
              if i < |v.value.fields| then Val(Typed(v.value.fields[i], ExprType(p, c, id))) else Stop(Program)))
      && (name == "" || !Fmt.AllDigits(name) ==> Given(p, c, whole, x, s, q, v, Stop(Program)))
  {
    hide Given, ExprType, Position, Fmt.Decimal;
    RunTurned(p, c, Field(id, x, name), s, q, v);
    if Fmt.AllDigits(name) { PositionIsDecimal(name); }
  }

  /** Counting from zero: `x.i` is the field at position `i`. */
  lemma RunNthField(p: Package, c: Ctx, id: nat, x: Expr, i: nat, s: Scope, q: nat, v: Typed)
    requires v.value.VTuple? && i < |v.value.fields| && i < Fmt.WORD32
    ensures Given(p, c, Field(id, x, Fmt.Digits(i)), x, s, q, v, Val(Typed(v.value.fields[i], ExprType(p, c, id))))
  {
    hide Given, ExprType, Fmt.Decimal, Fmt.Digits;
    Fmt.DecimalOfDigits(i);
    RunTupleField(p, c, id, x, Fmt.Digits(i), s, q, v);
  }

  /** A struct's field is the one at the place its name is declared at. */
  lemma RunStructField(
    p: Package, c: Ctx, id: nat, x: Expr, name: string, s: Scope, q: nat, v: Typed, names: seq<string>, i: nat
  )
    requires v.value.VStruct? && DeclaresFields(p, v.ty, names)
    ensures NamedAt(names, name, i) && i < |v.value.fields| ==>
      Given(p, c, Field(id, x, name), x, s, q, v, Val(Typed(v.value.fields[i], ExprType(p, c, id))))
    ensures NamedAt(names, name, i) && i >= |v.value.fields| ==>
      Given(p, c, Field(id, x, name), x, s, q, v, Stop(Program))
    ensures name !in names ==> Given(p, c, Field(id, x, name), x, s, q, v, Stop(Program))
  {
    hide Given, ExprType, IndexOf, NamedAt;
    RunTurned(p, c, Field(id, x, name), s, q, v);
    IndexOfIsFirst(names, name);
  }

  lemma RunFieldless(p: Package, c: Ctx, id: nat, x: Expr, name: string, s: Scope, q: nat, v: Typed)
    requires !v.value.VTuple? && !v.value.VStruct?
    ensures Given(p, c, Field(id, x, name), x, s, q, v, Stop(Program))
  {
    hide Given;
    RunTurned(p, c, Field(id, x, name), s, q, v);
  }

  /** An index takes the element at that position, and is out of bounds from the array's length on. */
  lemma RunIndexed(p: Package, c: Ctx, id: nat, x: Expr, y: Expr, s: Scope, q: nat, l: Typed, r: Typed)
    ensures Applied(p, c, Index(id, x, y), x, y, s, q, l, r,
      if !l.value.VArray? || !r.value.VInt? then Stop(Program)
      else if r.value.bits < |l.value.fields| then Val(Typed(l.value.fields[r.value.bits], ExprType(p, c, id)))
      else Stop(OutOfBounds))
  {
    hide Applied, ExprType;
    RunApplied(p, c, Index(id, x, y), s, q, l, r);
  }

  // ----- aggregates ---------------------------------------------------------------------------------

  /** The operands in a row, and the construct's answer where the last left off. */
  ghost predicate Gathered(p: Package, c: Ctx, e: Expr, es: seq<Expr>, s: Scope, q: nat, vs: seq<Typed>, o: Out) {
    var r := Chain(p, InValue(c), es, s, q);
    && (r.o == Operands(vs) ==> Run(p, c, TExpr(e), s, q) == r.(o := o))
    && (!r.o.Operands? ==> Run(p, c, TExpr(e), s, q) == r)
  }

  lemma RunGathered(p: Package, c: Ctx, e: Expr, s: Scope, q: nat, vs: seq<Typed>)
    requires ReadsOperands(p, c, e, false) && ReadsAll(p, InValue(c), e)
    ensures Gathered(p, c, e, OperandExprs(e), s, q, vs, Finish(p, c, e, vs))
  {
    hide Run, Chain, Finish, ReadsOperands, ReadsAll, OperandExprs;
    RunAll(p, c, e, s, q, false);
  }

  ghost predicate Hold(fields: seq<Value>, vs: seq<Typed>) {
    |fields| == |vs| && forall i :: 0 <= i < |vs| ==> fields[i] == vs[i].value
  }

  /** A tuple and an array hold their elements' values in order. */
  lemma RunElements(p: Package, c: Ctx, id: nat, xs: seq<Expr>, s: Scope, q: nat, vs: seq<Typed>, fields: seq<Value>)
    requires Hold(fields, vs)
    ensures Gathered(p, c, TupleExpr(id, xs), xs, s, q, vs, Val(Typed(VTuple(fields), ExprType(p, c, id))))
    ensures Gathered(p, c, ArrayExpr(id, xs), xs, s, q, vs, Val(Typed(VArray(fields), ExprType(p, c, id))))
  {
    hide Gathered, ExprType, NextOperand, ReadsAll, Run;
    assert fields == Values(vs);
    ElementsReadAll(p, c, id, xs);
    RunGathered(p, c, TupleExpr(id, xs), s, q, vs);
    RunGathered(p, c, ArrayExpr(id, xs), s, q, vs);
  }

  lemma ElementsReadAll(p: Package, c: Ctx, id: nat, xs: seq<Expr>)
    ensures ReadsAll(p, InValue(c), TupleExpr(id, xs)) && ReadsAll(p, InValue(c), ArrayExpr(id, xs))
  {
  }

  function BaseExpr(base: Option<Expr>): seq<Expr> { if base.Some? then [base.value] else [] }

  /** Initializer `k` is the last for field `i`, the first declared of its name. */
  ghost predicate Fills(names: seq<string>, inits: seq<FieldInit>, i: nat, k: nat) {
    && i < |names| && k < |inits| && NamedAt(names, inits[k].name, i)
    && forall j :: k < j < |inits| ==> inits[j].name != inits[k].name
  }

  ghost predicate LastGiven(names: seq<string>, inits: seq<FieldInit>, vs: seq<Typed>, i: nat, given: Option<Value>)
    requires |inits| <= |vs|
  {
    && (forall k: nat :: Fills(names, inits, i, k) ==> given == Some(vs[k].value))
    && ((forall k: nat :: !Fills(names, inits, i, k)) ==> given == None)
  }

  /** Every field is the last value given for it, else the base's, else empty. */
  ghost predicate Filled(
    names: seq<string>, inits: seq<FieldInit>, vs: seq<Typed>, base: Option<seq<Value>>, fields: seq<Value>
  )
    requires |inits| <= |vs| && (base.Some? ==> |base.value| == |names|)
  {
    && |fields| == |names|
    && (forall i, k: nat :: 0 <= i < |names| && Fills(names, inits, i, k) ==> fields[i] == vs[k].value)
    && forall i :: 0 <= i < |names| && (forall k: nat :: !Fills(names, inits, i, k)) ==>
         fields[i] == if base.Some? then base.value[i] else VVoid
  }

  lemma {:induction false} InitsFill(
    p: Package, t: TypeIdx, names: seq<string>, inits: seq<FieldInit>, vs: seq<Typed>, i: nat
  )
    requires |inits| <= |vs| && StructFields(p, t) == Some(names) && i < |names|
    ensures LastGiven(names, inits, vs, i, InitFields(p, t, inits, vs, |names|)[i])
    decreases |inits|
  {
    if inits != [] {
      var k := |inits| - 1;
      InitsFill(p, t, names, inits[..k], vs, i);
      IndexOfIsFirst(names, inits[k].name);
      hide IndexOf, NamedAt;
      assert NamedAt(names, inits[k].name, i) ==> Fills(names, inits, i, k);
      forall l: nat | l < k ensures Fills(names, inits, i, l) ==> Fills(names, inits[..k], i, l) {
        assert inits[..k][l] == inits[l];
      }
      if !NamedAt(names, inits[k].name, i) {
        forall l: nat | Fills(names, inits[..k], i, l) ensures Fills(names, inits, i, l) {
          NameApart(names, inits, i, l, k);
        }
      }
    }
  }

  lemma NameApart(names: seq<string>, inits: seq<FieldInit>, i: nat, l: nat, k: nat)
    requires k < |inits| && k == |inits| - 1 && Fills(names, inits[..k], i, l) && !NamedAt(names, inits[k].name, i)
    ensures Fills(names, inits, i, l)
  {
    hide NamedAt;
    forall j | l < j < |inits| ensures inits[j].name != inits[l].name {
      if j < k { assert inits[..k][j] == inits[j]; }
    }
  }

  lemma StructFilled(p: Package, t: TypeIdx, names: seq<string>, inits: seq<FieldInit>, hasBase: bool, vs: seq<Typed>)
    returns (fields: seq<Value>)
    requires StructFields(p, t) == Some(names) && |vs| == |inits| + (if hasBase then 1 else 0)
    requires hasBase ==> vs[|inits|].value.VStruct? && |vs[|inits|].value.fields| == |names|
    ensures Filled(names, inits, vs, if hasBase then Some(vs[|inits|].value.fields) else None, fields)
    ensures StructAnswer(p, t, inits, hasBase, vs) == Val(Typed(VStruct(fields), t))
  {
    hide Fills, StructFields;
    forall i: nat | i < |names|
      ensures LastGiven(names, inits, vs, i, InitFields(p, t, inits, vs, |names|)[i])
    {
      InitsFill(p, t, names, inits, vs, i);
    }
    hide InitFields;
    var given := InitFields(p, t, inits, vs, |names|);
    var base := if hasBase then vs[|inits|].value else VVoid;
    fields := seq(|names|, i requires 0 <= i < |names| =>
      if given[i].Some? then given[i].value else if hasBase then base.fields[i] else VVoid);
  }

  /** A struct literal evaluates its initializers and its base in order and fills the declared fields. */
  lemma RunStruct(
    p: Package, c: Ctx, id: nat, inits: seq<FieldInit>, base: Option<Expr>, s: Scope, q: nat,
    names: seq<string>, vs: seq<Typed>
  ) returns (fields: seq<Value>)
    requires TagOf(p, ExprType(p, c, id)) == Struct && DeclaresFields(p, ExprType(p, c, id), names)
    requires forall k :: 0 <= k < |inits| ==> inits[k].name in names
    requires |vs| == |inits| + |BaseExpr(base)|
    ensures var e, es := StructExpr(id, inits, base), InitValues(inits) + BaseExpr(base);
      if base.Some? && !(vs[|inits|].value.VStruct? && |vs[|inits|].value.fields| == |names|) then
        Gathered(p, c, e, es, s, q, vs, Stop(Program))
      else
        && Filled(names, inits, vs, if base.Some? then Some(vs[|inits|].value.fields) else None, fields)
        && Gathered(p, c, e, es, s, q, vs, Val(Typed(VStruct(fields), ExprType(p, c, id))))
  {
    var t, e := ExprType(p, c, id), StructExpr(id, inits, base);
    hide Gathered, ExprType, Fills, Filled;
    KnownFields(p, t, inits, names);
    AllNamed(p, c, e);
    RunGathered(p, c, e, s, q, vs);
    fields := [];
    if base.Some? && !(vs[|inits|].value.VStruct? && |vs[|inits|].value.fields| == |names|) {
      assert StructAnswer(p, t, inits, true, vs) == Stop(Program);
    } else {
      fields := StructFilled(p, t, names, inits, base.Some?, vs);
    }
    hide StructAnswer;
  }

  lemma KnownFields(p: Package, t: TypeIdx, inits: seq<FieldInit>, names: seq<string>)
    requires DeclaresFields(p, t, names) && forall k :: 0 <= k < |inits| ==> inits[k].name in names
    ensures StructFields(p, t) == Some(names)
    ensures forall k :: 0 <= k < |inits| ==> StructFieldIndex(p, t, inits[k].name).Some?
  {
    forall k | 0 <= k < |inits| ensures StructFieldIndex(p, t, inits[k].name).Some? {
      IndexOfIsFirst(names, inits[k].name);
    }
  }

  lemma AllNamed(p: Package, c: Ctx, e: Expr)
    requires e.StructExpr? && TagOf(p, ExprType(p, c, e.id)) == Struct && StructFields(p, ExprType(p, c, e.id)).Some?
    requires forall k :: 0 <= k < |e.inits| ==> StructFieldIndex(p, ExprType(p, c, e.id), e.inits[k].name).Some?
    ensures ReadsAll(p, InValue(c), e)
  {
    hide StructFields, StructFieldIndex;
  }

  /** An unknown field is refused when its turn comes, its value not evaluated. */
  lemma RunUnknownField(
    p: Package, c: Ctx, id: nat, inits: seq<FieldInit>, base: Option<Expr>, s: Scope, q: nat,
    names: seq<string>, n: nat
  )
    requires TagOf(p, ExprType(p, c, id)) == Struct && DeclaresFields(p, ExprType(p, c, id), names)
    requires n < |inits| && inits[n].name !in names && forall k :: 0 <= k < n ==> inits[k].name in names
    ensures var r := Chain(p, InValue(c), InitValues(inits[..n]), s, q);
      Run(p, c, TExpr(StructExpr(id, inits, base)), s, q) == if r.o.Operands? then r.(o := Stop(Program)) else r
  {
    hide Run, Finish;
    var t, e := ExprType(p, c, id), StructExpr(id, inits, base);
    KnownFields(p, t, inits[..n], names);
    IndexOfIsFirst(names, inits[n].name);
    NamedUpTo(p, c, e, n);
    RunReads(p, c, e, n, Stuck(Program), s, q, false);
    assert OperandExprs(e)[..n] == InitValues(inits[..n]);
  }

  lemma NamedUpTo(p: Package, c: Ctx, e: Expr, n: nat)
    requires e.StructExpr? && TagOf(p, ExprType(p, c, e.id)) == Struct && StructFields(p, ExprType(p, c, e.id)).Some?
    requires n < |e.inits| && StructFieldIndex(p, ExprType(p, c, e.id), e.inits[n].name).None?
    requires forall k :: 0 <= k < n ==> StructFieldIndex(p, ExprType(p, c, e.id), e.inits[..n][k].name).Some?
    ensures Reads(p, InValue(c), e, n, Stuck(Program))
  {
    hide StructFields, StructFieldIndex;
    assert forall k :: 0 <= k < n ==> e.inits[..n][k] == e.inits[k];
  }

  /** Without a struct type, or a declaration of it, nothing is evaluated. */
  lemma RunNoStruct(p: Package, c: Ctx, id: nat, inits: seq<FieldInit>, base: Option<Expr>, s: Scope, q: nat)
    requires var t := ExprType(p, c, id);
      TagOf(p, t) != Struct || (if t in p.origins then p.origins[t] else t) !in p.structs
    ensures Run(p, c, TExpr(StructExpr(id, inits, base)), s, q) == Result(Stop(Program), s, q)
  {
    hide Run, Finish;
    RunReads(p, c, StructExpr(id, inits, base), 0, Stuck(Program), s, q, false);
  }
}
