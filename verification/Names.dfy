/**
 What names stand for when they are evaluated: literals, bindings and items, variants and their
 constructors, intrinsics. Each is stated over the tables the checker left and the runs of the
 parts. Sources: src/analyzer/comp_evaluator.cc, comp_eval_literal, comp_eval_expr,
 comp_eval_call and comp_eval_intrinsic; src/comp/comp_value.cc, lookup.
 */
module NamesAndIntrinsics {
  import opened Machine
  import opened Lang
  import opened Tables
  import opened Patterns
  import opened Semantics
  import opened Steps
  import opened Runs
  import opened Equations
  import opened Answers
  import Fmt

  // ----- literals -----------------------------------------------------------------------------------

  /** A literal is itself, at the type the checker gave it; an integer is kept in 64 bits. */
  lemma RunLiteral(p: Package, c: Ctx, id: nat, lit: Literal, s: Scope, q: nat)
    requires Site(c.mod, id, c.inst) in p.exprTypes
    ensures var t := p.exprTypes[Site(c.mod, id, c.inst)];
            var whole := Run(p, c, TExpr(Lit(id, lit)), s, q);
      && ExprType(p, c, id) == t
      && (TagOf(p, t) == Error || lit.OtherLit? ==> whole == Result(Stop(Program), s, q))
      && (TagOf(p, t) != Error && lit.BoolLit? ==> whole == Result(Val(Typed(VBool(lit.b), t)), s, q))
      && (TagOf(p, t) != Error && lit.StrLit? ==> whole == Result(Val(Typed(VStr(lit.s), t)), s, q))
      && (TagOf(p, t) != Error && lit.IntLit? && !lit.negative ==>
            whole == Result(Val(Typed(VInt(lit.magnitude), t)), s, q))
      && (TagOf(p, t) != Error && lit.IntLit? && lit.negative && 0 < lit.magnitude <= WORD ==>
            whole == Result(Val(Typed(VInt(WORD - lit.magnitude), t)), s, q))
      && (TagOf(p, t) != Error && lit == IntLit(0, true) ==> whole == Result(Val(Typed(VInt(0), t)), s, q))
  {
    hide Run;
    RunLeaf(p, c, Lit(id, lit), s, q);
    if lit.IntLit? && lit.negative && 0 < lit.magnitude <= WORD {
      ModUnique(-(lit.magnitude as int), -1, WORD - lit.magnitude, WORD);
    }
  }

  /** An expression the checker gave no type has the error type. */
  lemma Untyped(p: Package, c: Ctx, id: nat)
    requires Site(c.mod, id, c.inst) !in p.exprTypes
    ensures ExprType(p, c, id) == p.errorType
  {
  }

  // ----- bindings -----------------------------------------------------------------------------------

  ghost predicate Unbound(f: Frame, name: string) { forall j :: 0 <= j < |f| ==> f[j].name != name }

  /** A slot of a frame and the value it holds, with no slot of the name after it. */
  ghost predicate LastSlot(f: Frame, name: string, j: nat) {
    j < |f| && f[j].name == name && Unbound(f[j + 1..], name)
  }

  ghost predicate FirstSlot(f: Frame, name: string, j: nat) {
    j < |f| && f[j].name == name && Unbound(f[..j], name)
  }

  lemma {:induction false} LastInIs(f: Frame, name: string)
    ensures LastIn(f, name).None? <==> Unbound(f, name)
    ensures forall j: nat :: LastSlot(f, name, j) <==> LastIn(f, name) == Some(j)
    decreases |f|
  {
    if f != [] {
      var k := |f| - 1;
      LastInIs(f[..k], name);
      assert f[k + 1..] == [];
      forall j: nat | j < k ensures LastSlot(f, name, j) <==> f[k].name != name && LastSlot(f[..k], name, j) {
        assert f[j + 1..] == f[..k][j + 1..] + [f[k]];
      }
    }
  }

  lemma {:induction false} FirstInIs(f: Frame, name: string)
    ensures FirstIn(f, name).None? <==> Unbound(f, name)
    ensures forall j: nat :: FirstSlot(f, name, j) <==> FirstIn(f, name) == Some(j)
    decreases |f|
  {
    if f != [] {
      var rest := f[1..];
      FirstInIs(rest, name);
      UnboundFrom(f, name);
      forall j: nat ensures FirstSlot(f, name, j) <==>
        if f[0].name == name then j == 0 else j > 0 && FirstSlot(rest, name, j - 1)
      {
        if 0 < j < |f| {
          assert f[..j] == [f[0]] + rest[..j - 1];
          UnboundFrom(f[..j], name);
        }
      }
    }
  }

  lemma UnboundFrom(f: Frame, name: string)
    requires f != []
    ensures Unbound(f, name) <==> f[0].name != name && Unbound(f[1..], name)
  {
  }

  /** A binding in the innermost frame that binds the name, or else in the outer bindings. */
  ghost predicate Innermost(s: Scope, name: string, l: Loc) {
    match l
    case InFrame(i, j) => i < |s.frames| && forall k :: i < k < |s.frames| ==> Unbound(s.frames[k], name)
    case InOuter(j) => forall k :: 0 <= k < |s.frames| ==> Unbound(s.frames[k], name)
  }

  ghost predicate Read(s: Scope, name: string, l: Loc) {
    && Innermost(s, name, l)
    && match l case InFrame(i, j) => LastSlot(s.frames[i], name, j) case InOuter(j) => LastSlot(s.outer, name, j)
  }

  ghost predicate Written(s: Scope, name: string, l: Loc) {
    && Innermost(s, name, l)
    && match l case InFrame(i, j) => FirstSlot(s.frames[i], name, j) case InOuter(j) => FirstSlot(s.outer, name, j)
  }

  ghost predicate BoundNowhere(s: Scope, name: string) {
    Unbound(s.outer, name) && forall k :: 0 <= k < |s.frames| ==> Unbound(s.frames[k], name)
  }

  /** A read takes the last binding of the name in the innermost frame that has one. */
  lemma {:induction false} LookupIs(s: Scope, name: string)
    ensures forall l :: LookupOf(s, name) == Some(l) <==> Read(s, name, l)
    ensures LookupOf(s, name).None? <==> BoundNowhere(s, name)
    decreases |s.frames|
  {
    hide LastIn, Unbound, LastSlot;
    if s.frames == [] {
      LastInIs(s.outer, name);
    } else {
      var k := |s.frames| - 1;
      var inner := s.(frames := s.frames[..k]);
      LastInIs(s.frames[k], name);
      LookupIs(inner, name);
      forall l ensures Read(s, name, l) <==>
        if LastIn(s.frames[k], name).Some? then l == InFrame(k, LastIn(s.frames[k], name).value)
        else Read(inner, name, l)
      {
        if LastIn(s.frames[k], name).Some? { NotUnbound(s.frames[k], name, LastIn(s.frames[k], name).value); }
        if l.InFrame? && l.frame == k && LastIn(s.frames[k], name).None? {
          assert !LastSlot(s.frames[k], name, l.slot);
        }
      }
    }
  }

  lemma NotUnbound(f: Frame, name: string, j: nat)
    requires LastSlot(f, name, j)
    ensures !Unbound(f, name)
  {
  }

  /** An assignment takes the first binding of the name in the innermost frame that has one. */
  lemma {:induction false} PlaceIs(s: Scope, name: string)
    ensures forall l :: PlaceOf(s, name) == Some(l) <==> Written(s, name, l)
    ensures PlaceOf(s, name).None? <==> BoundNowhere(s, name)
    decreases |s.frames|
  {
    hide FirstIn, Unbound, FirstSlot;
    if s.frames == [] {
      FirstInIs(s.outer, name);
    } else {
      var k := |s.frames| - 1;
      var inner := s.(frames := s.frames[..k]);
      FirstInIs(s.frames[k], name);
      PlaceIs(inner, name);
      forall l ensures Written(s, name, l) <==>
        if FirstIn(s.frames[k], name).Some? then l == InFrame(k, FirstIn(s.frames[k], name).value)
        else Written(inner, name, l)
      {
        if FirstIn(s.frames[k], name).Some? { FirstBound(s.frames[k], name, FirstIn(s.frames[k], name).value); }
        if l.InFrame? && l.frame == k && FirstIn(s.frames[k], name).None? {
          assert !FirstSlot(s.frames[k], name, l.slot);
        }
      }
    }
  }

  lemma FirstBound(f: Frame, name: string, j: nat)
    requires FirstSlot(f, name, j)
    ensures !Unbound(f, name)
  {
  }

  // ----- paths --------------------------------------------------------------------------------------

  ghost predicate ReadHere(s: Scope, name: string, l: Loc, v: Typed) {
    Read(s, name, l) && HasLoc(s, l) && At(s, l) == v
  }

  lemma LookedUp(s: Scope, name: string, l: Loc, v: Typed)
    ensures ReadHere(s, name, l, v) ==> Lookup(s, name) == Some(v)
    ensures BoundNowhere(s, name) ==> Lookup(s, name) == None
  {
    LookupIs(s, name);
    hide Read, LookupOf, BoundNowhere;
  }

  /** A single name is a binding before it is anything else. */
  lemma RunBound(p: Package, c: Ctx, e: Expr, s: Scope, q: nat, l: Loc, v: Typed)
    requires e.Path? && |e.segments| == 1 && ReadHere(s, e.segments[0], l, v)
    ensures Run(p, c, TExpr(e), s, q) == Result(Val(v), s, q)
  {
    hide Run, Lookup, Read, At;
    LookedUp(s, e.segments[0], l, v);
    RunLeaf(p, c, e, s, q);
  }

  /** A single name nothing binds, and that is no value parameter, is a const item where there is one. */
  ghost predicate Free(p: Package, c: Ctx, e: Expr, s: Scope) {
    && e.Path? && (|e.segments| == 1 ==> BoundNowhere(s, e.segments[0]) && Site(c.mod, e.id, c.inst) !in p.splices)
  }

  lemma RunSpliced(p: Package, c: Ctx, e: Expr, s: Scope, q: nat)
    requires e.Path? && |e.segments| == 1 && BoundNowhere(s, e.segments[0]) && Site(c.mod, e.id, c.inst) in p.splices
    ensures var splice := p.splices[Site(c.mod, e.id, c.inst)];
      Run(p, c, TExpr(e), s, q) == Result(Val(Typed(VInt(splice.bits), splice.ty)), s, q)
  {
    hide Run, Lookup;
    LookedUp(s, e.segments[0], InOuter(0), Typed(VVoid, 0));
    RunLeaf(p, c, e, s, q);
  }

  /** A const item costs a unit and evaluates its initializer in an empty frame, one level deeper, 64 levels at most. */
  lemma RunConstItem(p: Package, c: Ctx, e: Expr, s: Scope, q: nat)
    requires Free(p, c, e, s) && |e.segments| == 1 && (c.mod, e.segments[0]) in p.consts
    ensures var whole := Run(p, c, TExpr(e), s, q);
      && (q == 0 ==> whole == Result(Stop(Budget), s, 0))
      && (q > 0 && c.depth >= 64 ==> whole == Result(Stop(Program), s, q - 1))
      && (q > 0 && c.depth < 64 ==>
            var init := p.consts[(c.mod, e.segments[0])];
            whole == Run(p, Ctx(c.mod, c.inst, c.depth + 1, false), TExpr(init), Scope([], [[]]), q - 1).(s := s))
  {
    hide Run, Lookup;
    LookedUp(s, e.segments[0], InOuter(0), Typed(VVoid, 0));
    assert PlanPath(p, c, e, s) == PathConst(p.consts[(c.mod, e.segments[0])]);
    if c.depth < 64 { RunConst(p, c, e, s, q); } else { RunLeaf(p, c, e, s, q); }
  }

  /** Any other path is a variant without payload, or is refused. */
  lemma RunUnitVariant(p: Package, c: Ctx, e: Expr, s: Scope, q: nat)
    requires Free(p, c, e, s) && (|e.segments| == 1 ==> (c.mod, e.segments[0]) !in p.consts)
    ensures var whole := Run(p, c, TExpr(e), s, q);
      && ((e.pathId, c.inst) !in p.variantUses ==> whole == Result(Stop(Program), s, q))
      && ((e.pathId, c.inst) in p.variantUses ==>
            var use := p.variantUses[(e.pathId, c.inst)];
            forall payloads :: Row(p, use.enumType) == EnumRow(payloads) && use.variant < |payloads| ==>
              whole == Result(if payloads[use.variant] == [] then Val(Typed(VEnum(use.variant, []), use.enumType))
                              else Stop(Program), s, q))
  {
    hide Run, Lookup;
    if |e.segments| == 1 { LookedUp(s, e.segments[0], InOuter(0), Typed(VVoid, 0)); }
    RunLeaf(p, c, e, s, q);
  }

  // ----- what a call calls --------------------------------------------------------------------------

  /** A callee that is a path, and not the single name of something without a compile-time form. */
  ghost predicate Named(e: Expr) {
    && e.Call? && e.callee.Path?
    && (|e.callee.segments| == 1 ==>
          var name := e.callee.segments[0];
          name != "print" && name != "println" && name != "eprint" && name != "eprintln" && name != "panic")
  }

  function CallSite(c: Ctx, e: Expr): Site
    requires e.Call?
  {
    Site(c.mod, e.callee.id, c.inst)
  }

  /** Without a callee, or with one that has no compile-time form, nothing is evaluated. */
  lemma RunUncallable(p: Package, c: Ctx, e: Expr, s: Scope, q: nat)
    requires e.Call?
    requires || !Named(e)
             || (CallSite(c, e) !in p.targets && (e.callee.pathId, c.inst) !in p.variantUses)
             || (CallSite(c, e) in p.targets && (p.targets[CallSite(c, e)].DanglingTarget?
                   || (p.targets[CallSite(c, e)].MethodTarget? && p.targets[CallSite(c, e)].fn.hasReceiver)))
    ensures Run(p, c, TExpr(e), s, q) == Result(Stop(Program), s, q)
  {
    hide Run;
    assert PlanCall(p, c, e) == BadCall;
    RunLeaf(p, c, e, s, q);
  }

  /** A call without a target constructs a variant, from as many arguments as its payload has. */
  lemma RunConstructor(p: Package, c: Ctx, e: Expr, s: Scope, q: nat, vs: seq<Typed>, fields: seq<Value>,
    payloads: seq<seq<TypeIdx>>)
    requires Named(e) && CallSite(c, e) !in p.targets && (e.callee.pathId, c.inst) in p.variantUses
    requires var use := p.variantUses[(e.callee.pathId, c.inst)];
      Row(p, use.enumType) == EnumRow(payloads) && use.variant < |payloads|
    requires Hold(fields, vs)
    ensures var use := p.variantUses[(e.callee.pathId, c.inst)];
      && (|e.args| == |payloads[use.variant]| ==>
            Gathered(p, c, e, e.args, s, q, vs, Val(Typed(VEnum(use.variant, fields), use.enumType))))
      && (|e.args| != |payloads[use.variant]| ==> Run(p, c, TExpr(e), s, q) == Result(Stop(Program), s, q))
  {
    hide Run, Gathered;
    var use := p.variantUses[(e.callee.pathId, c.inst)];
    assert PlanCall(p, c, e) == CtorCall(use) == PlanCall(p, InValue(c), e);
    assert fields == Values(vs);
    hide PlanCall;
    if |e.args| == |payloads[use.variant]| {
      assert ReadsAll(p, InValue(c), e);
      RunGathered(p, c, e, s, q, vs);
    } else {
      assert Reads(p, InValue(c), e, 0, Stuck(Program));
      RunReads(p, c, e, 0, Stuck(Program), s, q, false);
    }
  }

  // ----- intrinsics ---------------------------------------------------------------------------------

  ghost predicate Intrinsically(p: Package, c: Ctx, e: Expr, i: Intrinsic) {
    Named(e) && CallSite(c, e) in p.targets && p.targets[CallSite(c, e)] == IntrinsicTarget(i)
  }

  lemma IntrinsicPlanned(p: Package, c: Ctx, e: Expr, i: Intrinsic)
    requires Intrinsically(p, c, e, i)
    ensures PlanCall(p, c, e) == IntrinsicCall(i) == PlanCall(p, InValue(c), e)
    ensures ReadsOperands(p, c, e, true)
  {
  }

  /** Every intrinsic pays before it reads. */
  lemma RunIntrinsicBroke(p: Package, c: Ctx, e: Expr, i: Intrinsic, s: Scope)
    requires Intrinsically(p, c, e, i)
    ensures Run(p, c, TExpr(e), s, 0) == Result(Stop(Budget), s, 0)
  {
    hide Run, ReadsOperands;
    IntrinsicPlanned(p, c, e, i);
    RunStrict(p, c, e, s, 0, true);
  }

  /** The wrapping operators encode the operation on the meant values, at the type they return. */
  lemma RunWrapping(p: Package, c: Ctx, e: Expr, i: Intrinsic, s: Scope, q: nat)
    requires Intrinsically(p, c, e, i) && (i.name.WrappingAdd? || i.name.WrappingSub? || i.name.WrappingMul?) && q > 0
    requires |e.args| == 2
    ensures var a := Part(p, c, e.args[0], s, q - 1);
            var b := Part(p, c, e.args[1], a.s, a.q);
            var whole := Run(p, c, TExpr(e), s, q);
      && (!a.o.Val? ==> whole == a)
      && (a.o.Val? && !b.o.Val? ==> whole == b)
      && (a.o.Val? && b.o.Val? && a.o.v.value.VInt? && b.o.v.value.VInt? ==>
            var l, r := Meant(p, i.ret, a.o.v.value), Meant(p, i.ret, b.o.v.value);
            var v := if i.name.WrappingAdd? then l + r else if i.name.WrappingSub? then l - r else l * r;
            whole == b.(o := Val(Typed(VInt(Encode(TagOf(p, i.ret), v)), i.ret))))
      && (a.o.Val? && b.o.Val? && !(a.o.v.value.VInt? && b.o.v.value.VInt?) ==> whole == b.(o := Stop(Program)))
  {
    hide Run, ReadsOperands, PlanCall, IntrinsicAnswer, Encode, Meant, ResumeExpr, ResumeOperands;
    IntrinsicPlanned(p, c, e, i);
    var a := Part(p, c, e.args[0], s, q - 1);
    var b := Part(p, c, e.args[1], a.s, a.q);
    assert ReadsAll(p, InValue(c), e);
    RunAll(p, c, e, s, q, true);
    ChainOfTwo(p, InValue(c), e.args, s, q - 1);
    if a.o.Val? && b.o.Val? { WrappingAnswers(p, i, a.o.v, b.o.v); }
  }

  lemma WrappingAnswers(p: Package, i: Intrinsic, x: Typed, y: Typed)
    requires i.name.WrappingAdd? || i.name.WrappingSub? || i.name.WrappingMul?
    ensures IntrinsicAnswer(p, i, [x, y]) ==
      if !(x.value.VInt? && y.value.VInt?) then Stop(Program)
      else
        var l, r := Meant(p, i.ret, x.value), Meant(p, i.ret, y.value);
        var v := if i.name.WrappingAdd? then l + r else if i.name.WrappingSub? then l - r else l * r;
        Val(Typed(VInt(Encode(TagOf(p, i.ret), v)), i.ret))
  {
    if x.value.VInt? && y.value.VInt? {
      WrappingMeans(WrappingOp(i.name), TagOf(p, i.ret), x.value.bits, y.value.bits);
    }
    hide Wrapping, Encode, ValueOf;
  }

  lemma WrappingMeans(op: BinaryOp, t: Tag, a: nat, b: nat)
    requires op == Add || op == Sub || op == Mul
    ensures var l, r := ValueOf(t, a % Modulus(t)), ValueOf(t, b % Modulus(t));
      Wrapping(op, t, a % Modulus(t), b % Modulus(t)) ==
        Encode(t, if op == Add then l + r else if op == Sub then l - r else l * r)
  {
    ModulusEven(t);
    PatternArithmetic(Modulus(t), IsSigned(t), a % Modulus(t), b % Modulus(t));
  }

  /** A layout query answers the layout pass and reads nothing. */
  lemma RunLayout(p: Package, c: Ctx, e: Expr, i: Intrinsic, s: Scope, q: nat)
    requires Intrinsically(p, c, e, i) && (i.name.SizeOf? || i.name.AlignOf?) && q > 0
    ensures Run(p, c, TExpr(e), s, q) ==
      Result(if i.layout.Some? then Val(Typed(VInt(i.layout.value), p.usizeType)) else Stop(Program), s, q - 1)
  {
    hide Run, ReadsOperands, PlanCall;
    IntrinsicPlanned(p, c, e, i);
    var end := if i.layout.Some? then Ready else Stuck(Program);
    assert Reads(p, InValue(c), e, 0, end);
    RunReads(p, c, e, 0, end, s, q, true);
  }

  /** Every other intrinsic but the three of strings is refused once it has paid. */
  lemma RunRuntimeOnly(p: Package, c: Ctx, e: Expr, i: Intrinsic, s: Scope, q: nat)
    requires Intrinsically(p, c, e, i) && i.name.RuntimeOnly? && q > 0
    ensures Run(p, c, TExpr(e), s, q) == Result(Stop(Program), s, q - 1)
  {
    hide Run, ReadsOperands, PlanCall;
    IntrinsicPlanned(p, c, e, i);
    assert Reads(p, InValue(c), e, 0, Stuck(Program));
    RunReads(p, c, e, 0, Stuck(Program), s, q, true);
  }

  lemma RunStrLen(p: Package, c: Ctx, e: Expr, i: Intrinsic, s: Scope, q: nat)
    requires Intrinsically(p, c, e, i) && i.name.StrLen? && |e.args| == 1 && q > 0
    ensures var a := Part(p, c, e.args[0], s, q - 1);
      Run(p, c, TExpr(e), s, q) ==
        if !a.o.Val? then a
        else if !a.o.v.value.VStr? then a.(o := Stop(Program))
        else a.(o := Val(Typed(VInt(|a.o.v.value.text|), p.usizeType)))
  {
    hide Run, ReadsOperands, PlanCall;
    IntrinsicPlanned(p, c, e, i);
    var a := Part(p, c, e.args[0], s, q - 1);
    PartKind(p, c, e.args[0], s, q - 1);
    RunStrict(p, c, e, s, q, true);
    RunOperands(p, InValue(c), e, [], s, q - 1);
    if a.o.Val? {
      assert [] + [a.o.v] == [a.o.v];
      RunOperands(p, InValue(c), e, [a.o.v], a.s, a.q);
    }
  }

  /** A byte of a string, in bounds; the position is read only when there is a string. */
  lemma RunStrByte(p: Package, c: Ctx, e: Expr, i: Intrinsic, s: Scope, q: nat)
    requires Intrinsically(p, c, e, i) && i.name.StrByte? && |e.args| == 2 && q > 0
    ensures var a := Part(p, c, e.args[0], s, q - 1);
            var b := Part(p, c, e.args[1], a.s, a.q);
      Run(p, c, TExpr(e), s, q) ==
        if !a.o.Val? then a
        else if !a.o.v.value.VStr? then a.(o := Stop(Program))
        else if !b.o.Val? then b
        else if !b.o.v.value.VInt? then b.(o := Stop(Program))
        else
          var text, k := a.o.v.value.text, b.o.v.value.bits;
          b.(o := if k < |text| then Val(Typed(VInt(text[k] as int % 256), p.u8Type)) else Stop(OutOfBounds))
  {
    hide Run, ReadsOperands, PlanCall;
    IntrinsicPlanned(p, c, e, i);
    var a := Part(p, c, e.args[0], s, q - 1);
    var b := Part(p, c, e.args[1], a.s, a.q);
    PartKind(p, c, e.args[0], s, q - 1);
    PartKind(p, c, e.args[1], a.s, a.q);
    RunStrict(p, c, e, s, q, true);
    RunOperands(p, InValue(c), e, [], s, q - 1);
    if a.o.Val? {
      assert [] + [a.o.v] == [a.o.v];
      RunOperands(p, InValue(c), e, [a.o.v], a.s, a.q);
      if b.o.Val? {
        assert [a.o.v] + [b.o.v] == [a.o.v, b.o.v];
        RunOperands(p, InValue(c), e, [a.o.v, b.o.v], b.s, b.q);
      }
    }
  }

  /** A slice of a string, from one position up to another, both within it and in order. */
  lemma RunStrSlice(p: Package, c: Ctx, e: Expr, i: Intrinsic, s: Scope, q: nat)
    requires Intrinsically(p, c, e, i) && i.name.StrSlice? && |e.args| == 3 && q > 0
    ensures var a := Part(p, c, e.args[0], s, q - 1);
            var b := Part(p, c, e.args[1], a.s, a.q);
            var d := Part(p, c, e.args[2], b.s, b.q);
      Run(p, c, TExpr(e), s, q) ==
        if !a.o.Val? then a
        else if !a.o.v.value.VStr? then a.(o := Stop(Program))
        else if !b.o.Val? then b
        else if !b.o.v.value.VInt? then b.(o := Stop(Program))
        else if !d.o.Val? then d
        else if !d.o.v.value.VInt? then d.(o := Stop(Program))
        else
          var text, from, to := a.o.v.value.text, b.o.v.value.bits, d.o.v.value.bits;
          d.(o := if from <= to <= |text| then Val(Typed(VStr(text[from..to]), a.o.v.ty)) else Stop(Program))
  {
    hide Run, ReadsOperands, PlanCall;
    IntrinsicPlanned(p, c, e, i);
    var a := Part(p, c, e.args[0], s, q - 1);
    var b := Part(p, c, e.args[1], a.s, a.q);
    var d := Part(p, c, e.args[2], b.s, b.q);
    PartKind(p, c, e.args[0], s, q - 1);
    PartKind(p, c, e.args[1], a.s, a.q);
    PartKind(p, c, e.args[2], b.s, b.q);
    RunStrict(p, c, e, s, q, true);
    RunOperands(p, InValue(c), e, [], s, q - 1);
    if a.o.Val? {
      assert [] + [a.o.v] == [a.o.v];
      RunOperands(p, InValue(c), e, [a.o.v], a.s, a.q);
      if b.o.Val? {
        assert [a.o.v] + [b.o.v] == [a.o.v, b.o.v];
        RunOperands(p, InValue(c), e, [a.o.v, b.o.v], b.s, b.q);
        if d.o.Val? {
          assert [a.o.v, b.o.v] + [d.o.v] == [a.o.v, b.o.v, d.o.v];
          RunOperands(p, InValue(c), e, [a.o.v, b.o.v, d.o.v], d.s, d.q);
        }
      }
    }
  }

  // ----- assignment places --------------------------------------------------------------------------

  /** A single bound name is a place; no other path is. */
  lemma RunNamedPlace(p: Package, c: Ctx, e: Expr, s: Scope, q: nat, l: Loc)
    requires e.Path?
    ensures |e.segments| == 1 && Written(s, e.segments[0], l) && HasLoc(s, l) ==>
      Run(p, c, TPlace(e), s, q) == Result(Slot(Place(l, [], At(s, l).ty)), s, q)
    ensures |e.segments| != 1 || BoundNowhere(s, e.segments[0]) ==>
      Run(p, c, TPlace(e), s, q) == Result(Stop(NoFailure), s, q)
  {
    if |e.segments| == 1 { PlaceIs(s, e.segments[0]); }
    hide Run, Written, BoundNowhere, PlaceOf, At, HasLoc;
    RunPlaceLeaf(p, c, e, s, q);
  }

  /** A field of a place: one step further, at the type the aggregate behind any references declares. */
  ghost predicate StepsTo(p: Package, pl: Place, chain: seq<TypeIdx>, i: nat, o: Out) {
    Behind(p, chain) && |chain| - 1 <= |p.types| && chain[0] == pl.ty ==>
      var row := Row(p, chain[|chain| - 1]);
      && (row.TupleRow? ==>
            o == if i < |row.elements| then Slot(Place(pl.loc, pl.path + [i], row.elements[i])) else Stop(Internal))
      && (row.StructRow? ==>
            o == if i < |row.fields| then Slot(Place(pl.loc, pl.path + [i], row.fields[i])) else Stop(Internal))
      && (!row.TupleRow? && !row.StructRow? ==> o == Stop(Internal))
  }

  lemma RunFieldOfPlace(p: Package, c: Ctx, e: Expr, s: Scope, q: nat, pl: Place, v: Value, chain: seq<TypeIdx>)
    requires e.Field?
    ensures var r := Run(p, c, TPlace(e.receiver), s, q);
            var whole := Run(p, c, TPlace(e), s, q);
      && (!r.o.Slot? ==> whole == r)
      && (r.o == Slot(pl) ==> whole.s == r.s && whole.q == r.q)
      && (r.o == Slot(pl) && ReadPlace(r.s, pl) == Some(v) ==>
            && (v.VTuple? && e.name != "" && Fmt.AllDigits(e.name) ==>
                  var i := Fmt.Decimal(e.name) % Fmt.WORD32;
                  if i < |v.fields| then StepsTo(p, pl, chain, i, whole.o) else whole.o == Stop(Program))
            && (forall names, i: nat :: v.VStruct? && DeclaresFields(p, pl.ty, names) && NamedAt(names, e.name, i) ==>
                  if i < |v.fields| then StepsTo(p, pl, chain, i, whole.o) else whole.o == Stop(Program))
            && (!v.VTuple? && !v.VStruct? ==> whole.o == Stop(Program)))
  {
    hide Run, ReadPlace, Position, Fmt.Decimal, FieldType, Behind, NamedAt, DeclaresFields;
    RunFieldPlace(p, c, e, s, q);
    if Fmt.AllDigits(e.name) { PositionIsDecimal(e.name); }
    forall names, i: nat | DeclaresFields(p, pl.ty, names) && NamedAt(names, e.name, i)
      ensures StructFieldIndex(p, pl.ty, e.name) == Some(i)
    {
      FieldsDeclared(p, pl.ty, names, e.name, i);
    }
    hide StructFieldIndex;
    forall i: nat
      ensures StepsTo(p, pl, chain, i,
        match FieldType(p, pl.ty, i) case None => Stop(Internal) case Some(t) => Slot(Place(pl.loc, pl.path + [i], t)))
    {
      FieldSteps(p, pl, chain, i);
    }
    hide StepsTo;
  }

  lemma FieldSteps(p: Package, pl: Place, chain: seq<TypeIdx>, i: nat)
    ensures StepsTo(p, pl, chain, i,
      match FieldType(p, pl.ty, i) case None => Stop(Internal) case Some(t) => Slot(Place(pl.loc, pl.path + [i], t)))
  {
    if Behind(p, chain) && |chain| - 1 <= |p.types| && chain[0] == pl.ty { FieldTyped(p, chain, i); }
    hide FieldType, Behind;
  }

  /** An element of a place: an integer below the array's length, at the element type of the array's row. */
  lemma RunIndexOfPlace(p: Package, c: Ctx, e: Expr, s: Scope, q: nat, pl: Place, v: Value)
    requires e.Index?
    ensures var r := Run(p, c, TPlace(e.receiver), s, q);
            var i := Part(p, c, e.index, r.s, r.q);
            var whole := Run(p, c, TPlace(e), s, q);
      && (!r.o.Slot? ==> whole == r)
      && (r.o.Slot? && !i.o.Val? ==> whole == i)
      && (r.o == Slot(pl) && i.o.Val? && ReadPlace(i.s, pl) == Some(v) ==>
            whole == i.(o :=
              if !v.VArray? || !i.o.v.value.VInt? then Stop(Program)
              else if i.o.v.value.bits >= |v.fields| then Stop(OutOfBounds)
              else if !Row(p, pl.ty).ArrayRow? then Stop(Program)
              else Slot(Place(pl.loc, pl.path + [i.o.v.value.bits], Row(p, pl.ty).element))))
  {
    hide Run, ReadPlace;
    RunIndexPlace(p, c, e, s, q);
  }

  /** An assignment writes the value, or what a compound operator makes of it and the integer that is there. */
  lemma RunAssigned(p: Package, c: Ctx, place: Expr, op: BinaryOp, value: Expr, s: Scope, q: nat, pl: Place)
    ensures var r := Part(p, c, value, s, q);
            var slot := Run(p, InValue(c), TPlace(place), r.s, r.q);
      r.o.Val? && slot.o == Slot(pl) ==>
        && Run(p, c, TStmt(Reassign(place, None, value)), s, q)
           == Result(Val(Typed(VVoid, p.voidType)), WritePlace(slot.s, pl, r.o.v.value), slot.q)
        && var whole := Run(p, c, TStmt(Reassign(place, Some(op), value)), s, q);
           var held := ReadPlace(slot.s, pl);
           if held.None? || !held.value.VInt? || !r.o.v.value.VInt? then
             whole == slot.(o := Stop(Program))
           else
             var tag := TagOf(p, pl.ty);
             match Apply(op, tag, held.value.bits % Modulus(tag), r.o.v.value.bits % Modulus(tag))
             case IntErr(f) => whole == slot.(o := Stop(f))
             case IntOk(bits) =>
               whole == Result(Val(Typed(VVoid, p.voidType)), WritePlace(slot.s, pl, VInt(bits)), slot.q)
  {
    hide Run, ReadPlace, WritePlace, Apply, Modulus;
    RunReassign(p, c, place, None, value, s, q);
    RunReassign(p, c, place, Some(op), value, s, q);
  }
}
