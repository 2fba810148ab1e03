/**
 The compile-time evaluator itself (src/analyzer/comp_evaluator.cc, CompEvaluator): a class
 whose methods spend the quota, raise and lower the call depth, swap the instantiation,
 push and pop frames, write through places and keep the first failure. Every method answers
 exactly what `Run` answers, and leaves the depth and the instantiation as it found them.
 */
module Evaluators {
  import opened Machine
  import opened Lang
  import opened Patterns
  import opened Semantics
  import opened Steps
  import opened Runs
  import opened Equations
  import opened ScopeShape
  import Operators

  const BRANCH_QUOTA: nat := 1_000_000

  class CompScope {
    var outer: Frame
    var frames: seq<Frame>

    constructor (outer: Frame, frames: seq<Frame>)
      ensures this.outer == outer && this.frames == frames
    {
      this.outer, this.frames := outer, frames;
    }

    ghost function Snap(): Scope
      reads this
    {
      Scope(outer, frames)
    }

    method PushFrame()
      modifies this`frames
      ensures Snap() == Push(old(Snap()), []) && |frames| == |old(frames)| + 1
    {
      frames := frames + [[]];
    }

    method PopFrame()
      requires frames != []
      modifies this`frames
      ensures Snap() == Pop(old(Snap())) && |frames| == |old(frames)| - 1
    {
      frames := frames[..|frames| - 1];
    }

    /** `frames.back().emplace_back(...)` */
    method Declare(b: Binding)
      requires frames != []
      modifies this`frames
      ensures Snap() == Extend(old(Snap()), [b])
    {
      var n := |frames| - 1;
      frames := frames[..n] + [frames[n] + [b]];
    }

    /** `frames.back().resize(mark)` */
    method Resize(mark: nat)
      requires frames != [] && mark <= |frames[|frames| - 1]|
      modifies this`frames
      ensures frames == old(frames)[..|old(frames)| - 1] + [old(frames)[|old(frames)| - 1][..mark]]
    {
      var n := |frames| - 1;
      frames := frames[..n] + [frames[n][..mark]];
    }
  }

  lemma ExtendTwice(s: Scope, a: Frame, b: Frame)
    ensures Extend(Extend(s, a), b) == Extend(s, a + b)
    ensures Extend(s, []) == s
  {
    if s.frames != [] {
      var n := |s.frames| - 1;
      assert Extend(s, a).frames[..n] == s.frames[..n];
      assert s.frames[n] + (a + b) == (s.frames[n] + a) + b;
      assert s.frames[n] + [] == s.frames[n];
      assert s.frames[..n] + [s.frames[n]] == s.frames;
    }
  }

  /** Cutting the innermost frame back to its mark undoes whatever was added to it. */
  lemma ResizeRestores(s: Scope, added: Frame)
    requires s.frames != []
    ensures var n, grown := |s.frames| - 1, Extend(s, added).frames;
            |grown| == n + 1 && |s.frames[n]| <= |grown[n]| && grown[..n] + [grown[n][..|s.frames[n]|]] == s.frames
  {
    var n, grown := |s.frames| - 1, Extend(s, added).frames;
    assert grown[..n] == s.frames[..n];
    assert grown[n][..|s.frames[n]|] == s.frames[n];
    assert s.frames[..n] + [s.frames[n]] == s.frames;
  }

  lemma PushedFrame(s: Scope, bs: Frame)
    ensures Extend(Push(s, []), bs) == Push(s, bs) && Pop(Push(s, bs)) == s
    ensures s == Scope([], []) ==> Push(s, []) == FreshScope && Push(s, bs) == Scope([], [bs])
  {
    assert Push(s, []).frames[..|s.frames|] == s.frames;
    assert [] + bs == bs;
    assert Scope([], []).frames + [bs] == [bs] && Scope([], []).frames + [[]] == [[]];
    assert Push(s, bs).frames[..|s.frames|] == s.frames;
  }

  lemma ThenTwice(r: PatResult, a: Frame, b: Frame)
    ensures Then(Then(r, b), a) == Then(r, a + b)
  {
    if r.Matched? { assert a + (b + r.bindings) == (a + b) + r.bindings; }
  }

  lemma AfterTwice(r: BindResult, a: Frame, b: Frame)
    ensures After(After(r, b), a) == After(r, a + b)
  {
    assert a + (b + r.bindings) == (a + b) + r.bindings;
  }

  lemma LoopSize(e: Expr, cond: Option<Cond>)
    requires (e.Loop? && cond == None) || (e.While? && cond == Some(e.cond))
    ensures Major(TLoop(cond, e.body)) < Major(TExpr(e)) + 1
  {
  }

  lemma MethodPlanned(p: Package, c: Ctx, e: Expr)
    requires e.MethodCall? && PlanMethod(p, c, e).Some?
    ensures PlanMethod(p, c, e).value.item.Some?
  {
  }

  class CompEvaluator {
    const p: Package
    var inst: nat
    var quota: nat
    var callDepth: nat
    var failure: Failure

    constructor (p: Package)
      ensures this.p == p && failure == NoFailure
    {
      this.p := p;
      inst, quota, callDepth, failure := 0, 0, 0, NoFailure;
    }

    function Here(mod: nat, stmtPos: bool): Ctx
      reads this
    {
      Ctx(mod, inst, callDepth, stmtPos)
    }

    /** The state a run leaves, and the failure register it leaves behind. */
    ghost predicate Settled(r: Result, o: Out, scope: CompScope)
      reads this, scope
    {
      && o == r.o && scope.Snap() == r.s && quota == r.q
      && failure == (if r.o.Stop? then r.o.failure else NoFailure)
    }

    /** The first failure is kept; later ones are consequences of it. */
    method FailAs(kind: Failure) returns (o: Out)
      modifies this`failure
      ensures failure == if old(failure) == NoFailure then kind else old(failure)
      ensures o == Stop(failure)
    {
      if failure == NoFailure {
        failure := kind;
      }
      o := Stop(failure);
    }

    method Spend() returns (ok: bool)
      modifies this`quota, this`failure
      ensures ok <==> old(quota) > 0
      ensures ok ==> quota == old(quota) - 1 && failure == old(failure)
      ensures !ok ==> quota == old(quota) && failure == if old(failure) == NoFailure then Budget else old(failure)
    {
      if quota == 0 {
        var _ := FailAs(Budget);
        return false;
      }
      quota := quota - 1;
      ok := true;
    }

    // ----- patterns -----------------------------------------------------------------------------

    /** What a match leaves: the bindings on success, the frame untouched otherwise. */
    ghost predicate MatchLeaves(r: PatResult, ok: bool, before: Scope, scope: CompScope)
      reads this, scope
    {
      && ok == r.Matched?
      && scope.Snap() == (if r.Matched? then Extend(before, r.bindings) else before)
      && failure == (if r.PatFail? then r.failure else NoFailure)
    }

    method MatchPatternIn(pat: Pattern, v: Typed, scope: CompScope) returns (ok: bool)
      requires failure == NoFailure && scope.frames != []
      modifies this`failure, scope`frames
      ensures MatchLeaves(MatchPattern(p, pat, v), ok, old(scope.Snap()), scope)
      ensures |scope.frames| == |old(scope.frames)|
      decreases pat
    {
      ExtendTwice(scope.Snap(), [], []);
      match pat
      case Wild => ok := true;
      case Ident(name) =>
        scope.Declare(Binding(name, v));
        ok := true;
      case LitPat(lit) =>
        var r := MatchLiteral(p, lit, v);
        if r.PatFail? { var _ := FailAs(r.failure); }
        ok := r.Matched?;
      case TuplePat(elements) =>
        if !v.value.VTuple? || |elements| != |v.value.fields| { return false; }
        ok := MatchElements(elements,
          seq(|elements|, i requires 0 <= i < |elements| => Typed(v.value.fields[i], v.ty)), scope);
      case VariantPat(path, elements) =>
        var status, payloads := VariantFields(p, path, v).0, VariantFields(p, path, v).1;
        if status.PatFail? { var _ := FailAs(status.failure); return false; }
        if status.NoMatch? || |elements| != |payloads| { return false; }
        ok := MatchElements(elements, payloads, scope);
      case StructPat(members) =>
        if !v.value.VStruct? { return false; }
        ok := MatchMembersIn(members, v, scope);
      case RefPat(inner) =>
        ok := MatchPatternIn(inner, v, scope);
      case OrPat(alternatives) =>
        ok := MatchAlternatives(alternatives, v, scope);
    }

    method MatchElements(pats: seq<Pattern>, vs: seq<Typed>, scope: CompScope) returns (ok: bool)
      requires failure == NoFailure && scope.frames != [] && |pats| == |vs|
      modifies this`failure, scope`frames
      ensures MatchLeaves(MatchEach(p, pats, vs), ok, old(scope.Snap()), scope)
      ensures |scope.frames| == |old(scope.frames)|
      decreases pats, 0
    {
      ghost var before := scope.Snap();
      ghost var done: Frame := [];
      var n := |scope.frames| - 1;
      var mark := |scope.frames[n]|;
      ExtendTwice(before, [], []);
      var i := 0;
      assert pats[i..] == pats && vs[i..] == vs;
      while i < |pats|
        invariant 0 <= i <= |pats|
        invariant failure == NoFailure && scope.outer == before.outer && |scope.frames| == |before.frames|
        invariant scope.Snap() == Extend(before, done)
        invariant MatchEach(p, pats, vs) == Then(MatchEach(p, pats[i..], vs[i..]), done)
      {
        ghost var head := MatchPattern(p, pats[i], vs[i]);
        var matched := MatchPatternIn(pats[i], vs[i], scope);
        assert pats[i..][0] == pats[i] && vs[i..][0] == vs[i];
        assert pats[i..][1..] == pats[i + 1..] && vs[i..][1..] == vs[i + 1..];
        if !matched {
          ResizeRestores(before, done);
          scope.Resize(mark);
          return false;
        }
        ThenTwice(MatchEach(p, pats[i + 1..], vs[i + 1..]), done, head.bindings);
        ExtendTwice(before, done, head.bindings);
        done := done + head.bindings;
        i := i + 1;
      }
      assert done + [] == done;
      ok := true;
    }

    method MatchMembersIn(members: seq<FieldPat>, v: Typed, scope: CompScope) returns (ok: bool)
      requires failure == NoFailure && scope.frames != [] && v.value.VStruct?
      modifies this`failure, scope`frames
      ensures MatchLeaves(MatchMembers(p, members, v), ok, old(scope.Snap()), scope)
      ensures |scope.frames| == |old(scope.frames)|
      decreases members, 0
    {
      ghost var before := scope.Snap();
      ghost var done: Frame := [];
      var n := |scope.frames| - 1;
      var mark := |scope.frames[n]|;
      ExtendTwice(before, [], []);
      var i := 0;
      assert members[i..] == members;
      while i < |members|
        invariant 0 <= i <= |members|
        invariant failure == NoFailure && scope.outer == before.outer && |scope.frames| == |before.frames|
        invariant scope.Snap() == Extend(before, done)
        invariant MatchMembers(p, members, v) == Then(MatchMembers(p, members[i..], v), done)
      {
        assert members[i..][0] == members[i] && members[i..][1..] == members[i + 1..];
        var member := StructMember(p, v, members[i].name);
        if member.NoMember? {
          ResizeRestores(before, done);
          scope.Resize(mark);
          var _ := FailAs(member.failure);
          return false;
        }
        ghost var head := MatchPattern(p, members[i].pat, member.val);
        var matched := MatchPatternIn(members[i].pat, member.val, scope);
        if !matched {
          ResizeRestores(before, done);
          scope.Resize(mark);
          return false;
        }
        ThenTwice(MatchMembers(p, members[i + 1..], v), done, head.bindings);
        ExtendTwice(before, done, head.bindings);
        done := done + head.bindings;
        i := i + 1;
      }
      assert done + [] == done;
      ok := true;
    }

    method MatchAlternatives(pats: seq<Pattern>, v: Typed, scope: CompScope) returns (ok: bool)
      requires failure == NoFailure && scope.frames != []
      modifies this`failure, scope`frames
      ensures MatchLeaves(MatchFirst(p, pats, v), ok, old(scope.Snap()), scope)
      ensures |scope.frames| == |old(scope.frames)|
      decreases pats, 0
    {
      ghost var before := scope.Snap();
      var n := |scope.frames| - 1;
      var mark := |scope.frames[n]|;
      var i := 0;
      assert pats[i..] == pats;
      while i < |pats|
        invariant 0 <= i <= |pats|
        invariant failure == NoFailure && scope.Snap() == before
        invariant MatchFirst(p, pats, v) == MatchFirst(p, pats[i..], v)
      {
        assert pats[i..][0] == pats[i] && pats[i..][1..] == pats[i + 1..];
        var matched := MatchPatternIn(pats[i], v, scope);
        if matched { return true; }
        ExtendTwice(before, [], []);
        ResizeRestores(before, []);
        if failure != NoFailure {
          scope.Resize(mark);
          return false;
        }
        scope.Resize(mark);
        i := i + 1;
      }
      ok := false;
    }

    // ----- binding ------------------------------------------------------------------------------

    /** What binding leaves: the bindings made, all of them on success. */
    ghost predicate BindLeaves(r: BindResult, ok: bool, before: Scope, scope: CompScope)
      reads this, scope
    {
      && ok == r.ok
      && scope.Snap() == Extend(before, r.bindings)
      && failure == r.failure
    }

    method BindPatternIn(pat: Pattern, v: Typed, scope: CompScope) returns (ok: bool)
      requires failure == NoFailure && scope.frames != []
      modifies this`failure, scope`frames
      ensures BindLeaves(BindPattern(p, pat, v), ok, old(scope.Snap()), scope)
      ensures |scope.frames| == |old(scope.frames)|
      decreases pat
    {
      ExtendTwice(scope.Snap(), [], []);
      match pat
      case Wild => ok := true;
      case Ident(name) =>
        scope.Declare(Binding(name, v));
        ok := true;
      case LitPat(_) =>
        var _ := FailAs(Program);
        ok := false;
      case TuplePat(elements) =>
        var shape := TupleShape(p, v.ty);
        if !v.value.VTuple? || |elements| != |v.value.fields| || |elements| != |shape| {
          var _ := FailAs(Program);
          return false;
        }
        ok := BindElements(elements, seq(|elements|,
          i requires 0 <= i < |elements| => Typed(v.value.fields[i], shape[i])), scope);
      case StructPat(members) =>
        if !v.value.VStruct? {
          var _ := FailAs(Program);
          return false;
        }
        ok := BindMembersIn(members, v, scope);
      case VariantPat(_, _) => ok := MatchPatternIn(pat, v, scope);
      case RefPat(_) => ok := MatchPatternIn(pat, v, scope);
      case OrPat(_) => ok := MatchPatternIn(pat, v, scope);
    }

    method BindElements(pats: seq<Pattern>, vs: seq<Typed>, scope: CompScope) returns (ok: bool)
      requires failure == NoFailure && scope.frames != [] && |pats| == |vs|
      modifies this`failure, scope`frames
      ensures BindLeaves(BindEach(p, pats, vs), ok, old(scope.Snap()), scope)
      ensures |scope.frames| == |old(scope.frames)|
      decreases pats, 0
    {
      ghost var before := scope.Snap();
      ghost var done: Frame := [];
      ExtendTwice(before, [], []);
      var i := 0;
      assert pats[i..] == pats && vs[i..] == vs;
      assert [] + BindEach(p, pats, vs).bindings == BindEach(p, pats, vs).bindings;
      while i < |pats|
        invariant 0 <= i <= |pats|
        invariant failure == NoFailure && scope.outer == before.outer && |scope.frames| == |before.frames|
        invariant scope.Snap() == Extend(before, done)
        invariant BindEach(p, pats, vs) == After(BindEach(p, pats[i..], vs[i..]), done)
      {
        ghost var head := BindPattern(p, pats[i], vs[i]);
        var bound := BindPatternIn(pats[i], vs[i], scope);
        assert pats[i..][0] == pats[i] && vs[i..][0] == vs[i];
        assert pats[i..][1..] == pats[i + 1..] && vs[i..][1..] == vs[i + 1..];
        ExtendTwice(before, done, head.bindings);
        if !bound {
          return false;
        }
        AfterTwice(BindEach(p, pats[i + 1..], vs[i + 1..]), done, head.bindings);
        done := done + head.bindings;
        i := i + 1;
      }
      assert done + [] == done;
      ok := true;
    }

    method BindMembersIn(members: seq<FieldPat>, v: Typed, scope: CompScope) returns (ok: bool)
      requires failure == NoFailure && scope.frames != [] && v.value.VStruct?
      modifies this`failure, scope`frames
      ensures BindLeaves(BindMembers(p, members, v), ok, old(scope.Snap()), scope)
      ensures |scope.frames| == |old(scope.frames)|
      decreases members, 0
    {
      ghost var before := scope.Snap();
      ghost var done: Frame := [];
      ExtendTwice(before, [], []);
      var i := 0;
      assert members[i..] == members;
      assert [] + BindMembers(p, members, v).bindings == BindMembers(p, members, v).bindings;
      while i < |members|
        invariant 0 <= i <= |members|
        invariant failure == NoFailure && scope.outer == before.outer && |scope.frames| == |before.frames|
        invariant scope.Snap() == Extend(before, done)
        invariant BindMembers(p, members, v) == After(BindMembers(p, members[i..], v), done)
      {
        assert members[i..][0] == members[i] && members[i..][1..] == members[i + 1..];
        var member := StructMember(p, v, members[i].name);
        if member.NoMember? {
          assert done + [] == done;
          var _ := FailAs(member.failure);
          return false;
        }
        ghost var head := BindPattern(p, members[i].pat, member.val);
        var bound := BindPatternIn(members[i].pat, member.val, scope);
        ExtendTwice(before, done, head.bindings);
        if !bound {
          return false;
        }
        AfterTwice(BindMembers(p, members[i + 1..], v), done, head.bindings);
        done := done + head.bindings;
        i := i + 1;
      }
      assert done + [] == done;
      ok := true;
    }

    // ----- answers --------------------------------------------------------------------------------

    /** The register agrees with an outcome. */
    ghost predicate Registered(o: Out)
      reads this`failure
    {
      failure == if o.Stop? then o.failure else NoFailure
    }

    /** Records a refusal the tables decided on. */
    method Answered(o: Out) returns (r: Out)
      requires failure == NoFailure
      modifies this`failure
      ensures r == o && Registered(o)
    {
      if o.Stop? && o.failure != NoFailure {
        r := FailAs(o.failure);
      } else {
        r := o;
      }
    }

    /** A jump that cannot leave the construct becomes a program failure. */
    method Concluded(mod: nat, stmtPos: bool, id: nat, o: Out) returns (r: Out)
      requires Registered(o)
      modifies this`failure
      ensures r == Conclude(p, old(Here(mod, stmtPos)), id, o) && Registered(r)
    {
      if o.Leave? && !stmtPos {
        r := FailAs(Program);
      } else {
        r := Conclude(p, Here(mod, stmtPos), id, o);
      }
    }

    /** Operators over integers go through the checked arithmetic; the rest is table lookup. */
    method Finished(mod: nat, stmtPos: bool, e: Expr, vs: seq<Typed>) returns (r: Out)
      requires failure == NoFailure
      modifies this`failure
      ensures r == Finish(p, old(Here(mod, stmtPos)), e, vs) && Registered(r)
    {
      var c := Here(mod, stmtPos);
      if e.Binary? && |vs| == 2 && vs[0].value.VInt? && vs[1].value.VInt?
         && e.bop !in {And, Or, Eq, NotEq, Gt, Lt, GtEq, LtEq}
      {
        hide Apply;
        var tag := TagOf(p, vs[0].ty);
        var a := Operators.IntBinary(e.bop, tag, vs[0].value.bits % Modulus(tag), vs[1].value.bits % Modulus(tag));
        r := Answered(if a.IntOk? then Val(Typed(VInt(a.bits), ExprType(p, c, e.id))) else Stop(a.failure));
      } else {
        r := Answered(Finish(p, c, e, vs));
      }
    }

    // ----- places ---------------------------------------------------------------------------------

    /** The place, or none; a failure on the way is on record. */
    ghost predicate Placed(r: Result, pl: Option<Place>, scope: CompScope)
      reads this, scope
    {
      && scope.Snap() == r.s && quota == r.q
      && if failure != NoFailure then r.o == Stop(failure)
         else r.o == if pl.Some? then Slot(pl.value) else Stop(NoFailure)
    }

    method EvalPlace(mod: nat, e: Expr, scope: CompScope) returns (pl: Option<Place>)
      requires failure == NoFailure
      modifies this, scope
      ensures inst == old(inst) && callDepth == old(callDepth)
      ensures Placed(Run(p, old(Here(mod, false)), TPlace(e), old(scope.Snap()), old(quota)), pl, scope)
      decreases quota, Major(TPlace(e)), 0, 2
    {
      hide Run, Drive, Resume;
      ghost var c, s0, q0 := Here(mod, false), scope.Snap(), quota;
      if e.Field? {
        RunFieldPlace(p, c, e, s0, q0);
        var base := EvalPlace(mod, e.receiver, scope);
        if base.None? { return None; }
        var value := ReadPlace(Scope(scope.outer, scope.frames), base.value);
        if value.None? {
          var _ := FailAs(Program);
          return None;
        }
        var index := FieldAt(p, base.value.ty, value.value, e.name);
        if index.None? {
          var _ := FailAs(Program);
          return None;
        }
        var ty := FieldType(p, base.value.ty, index.value);
        if ty.None? {
          var _ := FailAs(Internal);
          return Some(Place(base.value.loc, base.value.path + [index.value], p.errorType));
        }
        return Some(Place(base.value.loc, base.value.path + [index.value], ty.value));
      }
      if e.Index? {
        RunIndexPlace(p, c, e, s0, q0);
        var base := EvalPlace(mod, e.receiver, scope);
        if base.None? { return None; }
        RunKind(p, c, TExpr(e.index), scope.Snap(), quota);
        var position := EvalExpr(mod, e.index, scope, false);
        if !position.Val? { return None; }
        var o := IndexPlace(p, Scope(scope.outer, scope.frames), base.value, position.v);
        if o.Slot? { return Some(o.place); }
        var _ := FailAs(if o.Stop? then o.failure else Program);
        return None;
      }
      RunPlaceLeaf(p, c, e, s0, q0);
      if e.Path? && |e.segments| == 1 {
        var l := PlaceOf(Scope(scope.outer, scope.frames), e.segments[0]);
        if l.Some? && HasLoc(Scope(scope.outer, scope.frames), l.value) {
          return Some(Place(l.value, [], At(Scope(scope.outer, scope.frames), l.value).ty));
        }
      }
      pl := None;
    }

    // ----- operands -------------------------------------------------------------------------------

    method EvalOperands(mod: nat, e: Expr, first: seq<Typed>, scope: CompScope) returns (o: Out)
      requires failure == NoFailure
      modifies this, scope
      ensures inst == old(inst) && callDepth == old(callDepth)
      ensures Settled(Run(p, old(Here(mod, false)), TOperands(e, first), old(scope.Snap()), old(quota)), o, scope)
      ensures quota <= old(quota)
      decreases quota, Major(TOperands(e, [])), 0, 1
    {
      hide Run, Drive, Resume, NextOperand;
      ghost var c, goal := Here(mod, false), Run(p, Here(mod, false), TOperands(e, first), scope.Snap(), quota);
      var vs := first;
      while true
        invariant failure == NoFailure && inst == old(inst) && callDepth == old(callDepth) && quota <= old(quota)
        invariant goal == Run(p, c, TOperands(e, vs), scope.Snap(), quota)
        decreases if |vs| < |OperandExprs(e)| then |OperandExprs(e)| - |vs| else 0
      {
        RunOperands(p, c, e, vs, scope.Snap(), quota);
        var next := NextOperand(p, Here(mod, false), e, vs);
        if next.Stuck? {
          o := Answered(Stop(next.failure));
          return;
        }
        if next.Ready? { return Operands(vs); }
        OperandSmaller(e, next.i);
        var r := EvalExpr(mod, OperandExprs(e)[next.i], scope, false);
        if !r.Val? { return r; }
        vs := vs + [r.v];
      }
    }

    method EvalStrict(mod: nat, e: Expr, scope: CompScope, stmtPos: bool, tick: bool) returns (o: Out)
      requires failure == NoFailure && ReadsOperands(p, Here(mod, stmtPos), e, tick)
      modifies this, scope
      ensures inst == old(inst) && callDepth == old(callDepth)
      ensures Settled(Run(p, old(Here(mod, stmtPos)), TExpr(e), old(scope.Snap()), old(quota)), o, scope)
      decreases quota, Major(TExpr(e)), 0, 1
    {
      hide Run, Drive, Resume, ReadsOperands, Finish;
      RunStrict(p, Here(mod, stmtPos), e, scope.Snap(), quota, tick);
      if tick {
        var paid := Spend();
        if !paid { return Stop(Budget); }
      }
      o := EvalOperands(mod, e, [], scope);
      if o.Operands? {
        o := Finished(mod, stmtPos, e, o.vs);
      }
    }

    // ----- blocks and statements --------------------------------------------------------------------

    method EvalBlock(mod: nat, b: Block, scope: CompScope, stmtPos: bool) returns (o: Out)
      requires failure == NoFailure
      modifies this, scope
      ensures inst == old(inst) && callDepth == old(callDepth)
      ensures Settled(Run(p, old(Here(mod, stmtPos)), TBlock(b), old(scope.Snap()), old(quota)), o, scope)
      decreases quota, Major(TBlock(b)), 0, 1
    {
      hide Run, Drive, Resume;
      ghost var c, s0, q0 := Here(mod, stmtPos), scope.Snap(), quota;
      RunBlock(p, c, b, s0, q0);
      scope.PushFrame();
      ghost var goal := Run(p, c, TStmts(b, 0), scope.Snap(), quota);
      FramesCounted(p, c, TStmts(b, 0), scope.Snap(), quota);
      var i := 0;
      while i < |b.stmts|
        invariant 0 <= i <= |b.stmts|
        invariant failure == NoFailure && inst == old(inst) && callDepth == old(callDepth) && quota <= q0
        invariant |scope.frames| == |s0.frames| + 1
        invariant goal == Run(p, c, TStmts(b, i), scope.Snap(), quota)
      {
        RunNextStmt(p, c, b, i, scope.Snap(), quota);
        assert SizeStmt(b.stmts[i]) <= SizeStmts(b.stmts);
        o := EvalStmt(mod, b.stmts[i], scope, stmtPos);
        if !o.Val? {
          scope.PopFrame();
          return;
        }
        i := i + 1;
      }
      RunTail(p, c, b, i, scope.Snap(), quota);
      if b.tail.None? {
        scope.PopFrame();
        return Val(VoidVal(p));
      }
      o := EvalTail(mod, b, scope);
      scope.PopFrame();
    }

    /** A trailing jump is the block's value in the syntax and a change of flow in the run. */
    method EvalTail(mod: nat, b: Block, scope: CompScope) returns (o: Out)
      requires failure == NoFailure && b.tail.Some?
      modifies this, scope
      ensures inst == old(inst) && callDepth == old(callDepth)
      ensures Settled(Run(p, old(Here(mod, true)), TExpr(b.tail.value), old(scope.Snap()), old(quota)), o, scope)
      decreases quota, Major(TBlock(b)), 0, 0
    {
      hide Run, Drive, Resume;
      var e := b.tail.value;
      assert SizeBlock(b) == 1 + SizeStmts(b.stmts) + SizeOpt(b.tail) && SizeOpt(b.tail) == Size(e);
      if e.Return? {
        if e.answer.None? {
          RunLeaf(p, Here(mod, true), e, scope.Snap(), quota);
          return Leave(JReturn, VoidVal(p));
        }
        RunReturn(p, Here(mod, true), e, scope.Snap(), quota);
        assert Size(e) == 1 + SizeOpt(e.answer) && SizeOpt(e.answer) == Size(e.answer.value);
        o := EvalExpr(mod, e.answer.value, scope, false);
        return if o.Val? then Leave(JReturn, o.v) else o;
      }
      if e.Break? || e.Continue? {
        RunLeaf(p, Here(mod, true), e, scope.Snap(), quota);
        return Leave(if e.Break? then JBreak else JContinue, VoidVal(p));
      }
      o := EvalExpr(mod, e, scope, true);
    }

    method EvalStmt(mod: nat, stmt: Stmt, scope: CompScope, stmtPos: bool) returns (o: Out)
      requires failure == NoFailure && scope.frames != []
      modifies this, scope
      ensures inst == old(inst) && callDepth == old(callDepth)
      ensures Settled(Run(p, old(Here(mod, stmtPos)), TStmt(stmt), old(scope.Snap()), old(quota)), o, scope)
      ensures |scope.frames| == |old(scope.frames)|
      decreases quota, Major(TStmt(stmt)), 0, 1
    {
      hide Run, Drive, Resume;
      ghost var c, s0, q0 := Here(mod, stmtPos), scope.Snap(), quota;
      FramesCounted(p, c, TStmt(stmt), s0, q0);
      match stmt
      case Decl(pat, init) =>
        RunDecl(p, c, pat, init, s0, q0);
        FramesCounted(p, InValue(c), TExpr(init), s0, q0);
        o := EvalExpr(mod, init, scope, false);
        if !o.Val? { return; }
        var bound := BindPatternIn(pat, o.v, scope);
        o := if bound then Val(VoidVal(p)) else Stop(failure);
      case Reassign(place, compound, value) =>
        RunReassign(p, c, place, compound, value, s0, q0);
        o := EvalExpr(mod, value, scope, false);
        if !o.Val? { return; }
        var slot := EvalPlace(mod, place, scope);
        if failure != NoFailure { return Stop(failure); }
        if slot.None? {
          o := FailAs(Program);
          return;
        }
        o := Assign(slot.value, compound, o.v, scope);
      case ExprStmt(e) =>
        RunExprStmt(p, c, e, s0, q0);
        FramesCounted(p, InStmt(c), TExpr(e), s0, q0);
        o := EvalExpr(mod, e, scope, true);
        if o.Val? { o := Val(VoidVal(p)); }
    }

    /** Writes through the place; a compound operator reads it first. */
    method Assign(pl: Place, compound: Option<BinaryOp>, v: Typed, scope: CompScope) returns (o: Out)
      requires failure == NoFailure
      modifies this`failure, scope
      ensures var a := Assigned(p, old(scope.Snap()), pl, compound, v); o == a.o && scope.Snap() == a.s
      ensures Registered(o)
    {
      hide Apply;
      var s := Scope(scope.outer, scope.frames);
      if compound.None? {
        s := WritePlace(s, pl, v.value);
        scope.outer, scope.frames := s.outer, s.frames;
        return Val(VoidVal(p));
      }
      var held := ReadPlace(s, pl);
      if held.None? || !held.value.VInt? || !v.value.VInt? {
        o := FailAs(Program);
        return;
      }
      var tag := TagOf(p, pl.ty);
      var answer := Operators.IntBinary(compound.value, tag, held.value.bits % Modulus(tag),
        v.value.bits % Modulus(tag));
      if answer.IntErr? {
        o := Answered(Stop(answer.failure));
        return;
      }
      s := WritePlace(s, pl, VInt(answer.bits));
      scope.outer, scope.frames := s.outer, s.frames;
      o := Val(VoidVal(p));
    }

    // ----- branches and loops -----------------------------------------------------------------------

    /** Decides a condition; a matched pattern leaves its bindings in a frame of their own. */
    method DecideIn(cond: Cond, v: Typed, scope: CompScope) returns (enter: bool)
      requires failure == NoFailure
      modifies this`failure, scope`frames
      ensures var d := Decide(p, cond, v);
              && enter == d.Enter?
              && scope.Snap() == (if d.Enter? then Open(cond, old(scope.Snap()), d.bindings) else old(scope.Snap()))
              && (failure == if d.Broken? then d.failure else NoFailure)
              && (d.Broken? ==> failure != NoFailure)
              && |scope.frames| == |old(scope.frames)| + (if enter && cond.Binds? then 1 else 0)
    {
      hide MatchPattern, Extend, Push, Pop;
      if cond.Test? {
        if !v.value.VBool? {
          var _ := FailAs(Program);
          return false;
        }
        return v.value.truth;
      }
      ghost var s0 := scope.Snap();
      scope.PushFrame();
      enter := MatchPatternIn(cond.pat, v, scope);
      PushedFrame(s0, if enter then MatchPattern(p, cond.pat, v).bindings else []);
      if !enter {
        scope.PopFrame();
      }
    }

    method EvalIf(mod: nat, e: Expr, scope: CompScope, stmtPos: bool) returns (o: Out)
      requires failure == NoFailure && e.If?
      modifies this, scope
      ensures inst == old(inst) && callDepth == old(callDepth)
      ensures Settled(Run(p, old(Here(mod, stmtPos)), TExpr(e), old(scope.Snap()), old(quota)), o, scope)
      decreases quota, Major(TExpr(e)), 0, 1
    {
      hide Run, Drive, Resume, Decide, Conclude, Pop;
      assert SizeCond(e.cond) == Size(CondExpr(e.cond));
      ghost var c := Here(mod, stmtPos);
      RunIf(p, c, e, scope.Snap(), quota);
      o := EvalExpr(mod, CondExpr(e.cond), scope, false);
      if !o.Val? { return; }
      var takeThen := DecideIn(e.cond, o.v, scope);
      if failure != NoFailure { return Stop(failure); }
      if takeThen {
        FramesCounted(p, c, TBlock(e.thenBlock), scope.Snap(), quota);
        o := EvalBlock(mod, e.thenBlock, scope, stmtPos);
        if e.cond.Binds? { scope.PopFrame(); }
      } else if e.elseBlock.None? {
        return Val(Typed(VVoid, ExprType(p, Here(mod, stmtPos), e.id)));
      } else {
        o := EvalBlock(mod, e.elseBlock.value, scope, stmtPos);
      }
      o := Concluded(mod, stmtPos, e.id, o);
    }

    method EvalMatch(mod: nat, e: Expr, scope: CompScope, stmtPos: bool) returns (o: Out)
      requires failure == NoFailure && e.Match?
      modifies this, scope
      ensures inst == old(inst) && callDepth == old(callDepth)
      ensures Settled(Run(p, old(Here(mod, stmtPos)), TExpr(e), old(scope.Snap()), old(quota)), o, scope)
      decreases quota, Major(TExpr(e)), 0, 1
    {
      hide Run, Drive, Resume, Conclude, MatchPattern;
      ghost var c := Here(mod, stmtPos);
      RunMatch(p, c, e, scope.Snap(), quota);
      o := EvalExpr(mod, e.scrutinee, scope, false);
      if !o.Val? { return; }
      var v := o.v;
      ghost var goal := Run(p, c, TArms(e, 0, v), scope.Snap(), quota);
      var i := 0;
      while i < |e.arms|
        invariant 0 <= i <= |e.arms|
        invariant failure == NoFailure && inst == old(inst) && callDepth == old(callDepth) && quota <= old(quota)
        invariant goal == Run(p, c, TArms(e, i, v), scope.Snap(), quota)
      {
        RunArmPassed(p, c, e, i, v, scope.Snap(), quota);
        assert SizeArm(e.arms[i]) <= SizeArms(e.arms);
        var passed;
        o, passed := EvalArm(mod, e, i, v, scope, stmtPos);
        if !passed { return; }
        i := i + 1;
      }
      RunArmPassed(p, c, e, i, v, scope.Snap(), quota);
      o := FailAs(Program);
    }

    /** One arm: matched, guarded and run, or passed over. */
    method EvalArm(mod: nat, e: Expr, i: nat, v: Typed, scope: CompScope, stmtPos: bool) returns (o: Out, passed: bool)
      requires failure == NoFailure && e.Match? && i < |e.arms|
      modifies this, scope
      ensures inst == old(inst) && callDepth == old(callDepth) && quota <= old(quota)
      ensures var goal := Run(p, old(Here(mod, stmtPos)), TArms(e, i, v), old(scope.Snap()), old(quota));
              if passed then failure == NoFailure &&
                goal == Run(p, old(Here(mod, stmtPos)), TArms(e, i + 1, v), scope.Snap(), quota)
              else Settled(goal, o, scope)
      decreases quota, Major(TExpr(e)), 0, 0
    {
      hide Run, Drive, Resume, Conclude, MatchPattern, Push, Pop, Extend;
      assert SizeArm(e.arms[i]) <= SizeArms(e.arms);
      var arm := e.arms[i];
      ghost var c, s0, q0 := Here(mod, stmtPos), scope.Snap(), quota;
      RunArmPassed(p, c, e, i, v, s0, q0);
      o := Stop(NoFailure);
      scope.PushFrame();
      var matched := MatchPatternIn(arm.pat, v, scope);
      ghost var bs := if matched then MatchPattern(p, arm.pat, v).bindings else [];
      PushedFrame(s0, bs);
      if failure != NoFailure {
        scope.PopFrame();
        return Stop(failure), false;
      }
      if !matched {
        scope.PopFrame();
        return o, true;
      }
      RunArmMatched(p, c, e, i, v, s0, q0, bs);
      if arm.guard.Some? {
        FramesCounted(p, InValue(c), TExpr(arm.guard.value), scope.Snap(), quota);
        assert Size(arm.guard.value) <= SizeArm(arm);
        o := EvalExpr(mod, arm.guard.value, scope, false);
        if !o.Val? {
          scope.PopFrame();
          return o, false;
        }
        if !o.v.value.VBool? {
          scope.PopFrame();
          o := FailAs(Program);
          return o, false;
        }
        if !o.v.value.truth {
          scope.PopFrame();
          return o, true;
        }
      }
      FramesCounted(p, InStmt(c), TExpr(arm.body), scope.Snap(), quota);
      o := EvalExpr(mod, arm.body, scope, true);
      scope.PopFrame();
      o := Concluded(mod, stmtPos, e.id, o);
      passed := false;
    }

    /** Unrolls a loop body while its condition holds; every turn spends a unit first. */
    method EvalLoop(mod: nat, cond: Option<Cond>, body: Block, scope: CompScope, stmtPos: bool) returns (o: Out)
      requires failure == NoFailure
      modifies this, scope
      ensures inst == old(inst) && callDepth == old(callDepth)
      ensures Settled(LoopFrom(p, old(Here(mod, stmtPos)), cond, body, old(scope.Snap()), old(quota)), o, scope)
      decreases quota, Major(TLoop(cond, body)), 0, 1
    {
      hide Run, Drive, Resume, Decide;
      ghost var c, goal := Here(mod, stmtPos), LoopFrom(p, Here(mod, stmtPos), cond, body, scope.Snap(), quota);
      while true
        invariant failure == NoFailure && inst == old(inst) && callDepth == old(callDepth) && quota <= old(quota)
        invariant goal == LoopFrom(p, c, cond, body, scope.Snap(), quota)
        decreases quota
      {
        var paid := Spend();
        if !paid { return Stop(Budget); }
        if cond.Some? {
          RunWhileTurn(p, c, cond.value, body, scope.Snap(), quota);
          o := EvalExpr(mod, CondExpr(cond.value), scope, false);
          if !o.Val? { return; }
          var enter := DecideIn(cond.value, o.v, scope);
          if failure != NoFailure { return Stop(failure); }
          if !enter { return Val(VoidVal(p)); }
        } else {
          RunLoopTurn(p, c, body, scope.Snap(), quota);
        }
        FramesCounted(p, c, TBlock(body), scope.Snap(), quota);
        o := EvalBlock(mod, body, scope, stmtPos);
        if cond.Some? && cond.value.Binds? { scope.PopFrame(); }
        if o.Stop? { return; }
        if o.Leave? && o.how == JBreak { return Val(VoidVal(p)); }
        if o.Leave? && o.how == JReturn { return; }
      }
    }

    // ----- calls ------------------------------------------------------------------------------------

    /** A const initializer sees items, never a caller's bindings; it counts as a call. */
    method EvalConstItem(mod: nat, init: Expr) returns (o: Out)
      requires failure == NoFailure
      modifies this
      ensures inst == old(inst) && callDepth == old(callDepth)
      ensures var c := old(Here(mod, false));
              var r := if old(quota) == 0 then Result(Stop(Budget), FreshScope, 0)
                       else if c.depth >= MAX_CALL_DEPTH then Result(Stop(Program), FreshScope, (old(quota) - 1) as nat)
                       else Run(p, Deeper(c), TExpr(init), FreshScope, (old(quota) - 1) as nat);
              o == r.o && quota == r.q && Registered(o)
      decreases quota, 0, 0, 0
    {
      hide Run, Drive, Resume;
      var paid := Spend();
      if !paid { return Stop(Budget); }
      if callDepth >= MAX_CALL_DEPTH {
        o := FailAs(Program);
        return;
      }
      callDepth := callDepth + 1;
      var scope := new CompScope([], [[]]);
      o := EvalExpr(mod, init, scope, false);
      callDepth := callDepth - 1;
    }

    /** Runs a callee's body over the arguments it binds, in a scope and an instantiation of its own. */
    method EnterCallee(fn: Callee, pats: seq<Pattern>, vs: seq<Typed>) returns (o: Out)
      requires failure == NoFailure && fn.item.Some? && callDepth > 0
      modifies this
      ensures inst == old(inst) && callDepth == old(callDepth)
      ensures var c := Ctx(0, 0, (old(callDepth) - 1) as nat, false);
              var r := CallBody(p, c, fn, BindArgs(p, pats, vs), FreshScope, old(quota));
              o == r.o && quota == r.q && Registered(o)
      decreases quota + 1, 0, 0, 0
    {
      hide Run, Drive, Resume, Extend, BindEach, BindPattern, MatchPattern, Major, Minor;
      var calleeScope := new CompScope([], [[]]);
      var saved := inst;
      inst := fn.inst;
      if |vs| > |pats| {
        inst := saved;
        o := FailAs(Program);
        return;
      }
      var bound := BindElements(pats[..|vs|], vs, calleeScope);
      PushedFrame(Scope([], []), BindArgs(p, pats, vs).bindings);
      if !bound || fn.item.value.body.None? {
        inst := saved;
        return Stop(failure);
      }
      o := EvalBlock(fn.mod, fn.item.value.body.value, calleeScope, false);
      inst := saved;
      if o.Val? || (o.Leave? && o.how == JReturn) { return Val(o.v.(ty := fn.ret)); }
      if o.Leave? { o := FailAs(Program); }
    }

    method EvalFnCall(mod: nat, e: Expr, fn: Callee, scope: CompScope, stmtPos: bool) returns (o: Out)
      requires failure == NoFailure && e.Call? && PlanCall(p, Here(mod, stmtPos), e) == FnCall(fn)
      modifies this, scope
      ensures inst == old(inst) && callDepth == old(callDepth)
      ensures Settled(Run(p, old(Here(mod, stmtPos)), TExpr(e), old(scope.Snap()), old(quota)), o, scope)
      decreases quota, Major(TExpr(e)), 0, 1
    {
      hide Run, Drive, Resume, PlanCall, BindPattern, MatchPattern, BindEach, Finish;
      ghost var c := Here(mod, stmtPos);
      if fn.item.None? || |e.args| != fn.arity || |e.args| != |fn.item.value.formals| {
        RunLeaf(p, c, e, scope.Snap(), quota);
        o := FailAs(Program);
        return;
      }
      if callDepth >= MAX_CALL_DEPTH {
        RunLeaf(p, c, e, scope.Snap(), quota);
        var paid := Spend();
        o := FailAs(Program);
        return;
      }
      RunFnCall(p, c, e, fn, scope.Snap(), quota);
      var paid := Spend();
      if !paid { return Stop(Budget); }
      RunKind(p, Deeper(c), TOperands(e, []), scope.Snap(), quota);
      callDepth := callDepth + 1;
      o := EvalOperands(mod, e, [], scope);
      if o.Operands? {
        o := EnterCallee(fn, CallPatterns(fn), o.vs);
      }
      callDepth := callDepth - 1;
    }

    method EvalMethodCall(mod: nat, e: Expr, scope: CompScope, stmtPos: bool) returns (o: Out)
      requires failure == NoFailure && e.MethodCall?
      modifies this, scope
      ensures inst == old(inst) && callDepth == old(callDepth)
      ensures Settled(Run(p, old(Here(mod, stmtPos)), TExpr(e), old(scope.Snap()), old(quota)), o, scope)
      decreases quota, Major(TExpr(e)), 0, 1
    {
      hide Run, Drive, Resume, PlanMethod;
      ghost var c := Here(mod, stmtPos);
      RunMethodCall(p, c, e, scope.Snap(), quota);
      var paid := Spend();
      if !paid { return Stop(Budget); }
      o := EvalExpr(mod, e.receiver, scope, false);
      if !o.Val? { return; }
      var fn := PlanMethod(p, Here(mod, stmtPos), e);
      if fn.None? || callDepth >= MAX_CALL_DEPTH {
        o := FailAs(Program);
        return;
      }
      RunKind(p, Deeper(c), TOperands(e, [o.v]), scope.Snap(), quota);
      callDepth := callDepth + 1;
      o := EvalOperands(mod, e, [o.v], scope);
      if o.Operands? {
        MethodPlanned(p, c, e);
        o := EnterCallee(fn.value, MethodPatterns(fn.value), o.vs);
      }
      callDepth := callDepth - 1;
    }

    method EvalCall(mod: nat, e: Expr, scope: CompScope, stmtPos: bool) returns (o: Out)
      requires failure == NoFailure && e.Call?
      modifies this, scope
      ensures inst == old(inst) && callDepth == old(callDepth)
      ensures Settled(Run(p, old(Here(mod, stmtPos)), TExpr(e), old(scope.Snap()), old(quota)), o, scope)
      decreases quota, Major(TExpr(e)), 0, 2
    {
      hide Run, Drive, Resume, PlanCall;
      var plan := PlanCall(p, Here(mod, stmtPos), e);
      match plan
      case BadCall =>
        RunLeaf(p, Here(mod, stmtPos), e, scope.Snap(), quota);
        o := FailAs(Program);
      case CtorCall(_) => o := EvalStrict(mod, e, scope, stmtPos, false);
      case IntrinsicCall(_) => o := EvalStrict(mod, e, scope, stmtPos, true);
      case FnCall(fn) => o := EvalFnCall(mod, e, fn, scope, stmtPos);
    }

    method EvalPath(mod: nat, e: Expr, scope: CompScope, stmtPos: bool) returns (o: Out)
      requires failure == NoFailure && e.Path?
      modifies this, scope
      ensures inst == old(inst) && callDepth == old(callDepth)
      ensures Settled(Run(p, old(Here(mod, stmtPos)), TExpr(e), old(scope.Snap()), old(quota)), o, scope)
      decreases quota, Major(TExpr(e)), 0, 2
    {
      hide Run, Drive, Resume, PlanPath;
      ghost var c, s0, q0 := Here(mod, stmtPos), scope.Snap(), quota;
      var plan := PlanPath(p, Here(mod, stmtPos), e, Scope(scope.outer, scope.frames));
      match plan
      case PathVal(v) =>
        RunLeaf(p, c, e, s0, q0);
        o := Val(v);
      case PathFail =>
        RunLeaf(p, c, e, s0, q0);
        o := FailAs(Program);
      case PathConst(init) =>
        if callDepth >= MAX_CALL_DEPTH {
          RunLeaf(p, c, e, s0, q0);
        } else {
          RunConst(p, c, e, s0, q0);
        }
        o := EvalConstItem(mod, init);
    }

    method EvalReturn(mod: nat, e: Expr, scope: CompScope, stmtPos: bool) returns (o: Out)
      requires failure == NoFailure && e.Return?
      modifies this, scope
      ensures inst == old(inst) && callDepth == old(callDepth)
      ensures Settled(Run(p, old(Here(mod, stmtPos)), TExpr(e), old(scope.Snap()), old(quota)), o, scope)
      decreases quota, Major(TExpr(e)), 0, 1
    {
      hide Run, Drive, Resume;
      assert e.answer.Some? ==> SizeOpt(e.answer) == Size(e.answer.value);
      ghost var c, s0, q0 := Here(mod, stmtPos), scope.Snap(), quota;
      if !stmtPos {
        RunLeaf(p, c, e, s0, q0);
        o := FailAs(Program);
      } else if e.answer.None? {
        RunLeaf(p, c, e, s0, q0);
        o := Leave(JReturn, VoidVal(p));
      } else {
        RunReturn(p, c, e, s0, q0);
        o := EvalExpr(mod, e.answer.value, scope, false);
        if o.Val? { o := Leave(JReturn, o.v); }
      }
    }

    /** Literals, and the forms with nothing to evaluate. */
    method EvalLeaf(mod: nat, e: Expr, scope: CompScope, stmtPos: bool) returns (o: Out)
      requires failure == NoFailure && (e.Lit? || e.Deref? || e.OpaqueExpr? || e.Break? || e.Continue?)
      modifies this`failure
      ensures Settled(Run(p, old(Here(mod, stmtPos)), TExpr(e), old(scope.Snap()), old(quota)), o, scope)
    {
      hide Run, Drive, Resume;
      RunLeaf(p, Here(mod, stmtPos), e, scope.Snap(), quota);
      match e
      case Lit(id, lit) => o := Answered(Literally(p, Here(mod, stmtPos), id, lit));
      case Deref(_, _) => o := Stop(NoFailure);
      case Break(_) => o := Answered(if stmtPos then Leave(JBreak, VoidVal(p)) else Stop(Program));
      case Continue(_) => o := Answered(if stmtPos then Leave(JContinue, VoidVal(p)) else Stop(Program));
      case OpaqueExpr(_) => o := FailAs(Program);
    }

    /** A loop is an empty value, whatever flow the loop itself answered. */
    method EvalLooping(mod: nat, e: Expr, cond: Option<Cond>, scope: CompScope, stmtPos: bool) returns (o: Out)
      requires failure == NoFailure
      requires (e.Loop? && cond == None) || (e.While? && cond == Some(e.cond))
      modifies this, scope
      ensures inst == old(inst) && callDepth == old(callDepth)
      ensures Settled(Run(p, old(Here(mod, stmtPos)), TExpr(e), old(scope.Snap()), old(quota)), o, scope)
      decreases quota, Major(TExpr(e)) + 1, 0, 0
    {
      hide Run, Drive, Resume;
      LoopSize(e, cond);
      RunLooping(p, Here(mod, stmtPos), e, cond, e.body, scope.Snap(), quota);
      o := EvalLoop(mod, cond, e.body, scope, stmtPos);
      if !o.Stop? { o := Val(Typed(VVoid, ExprType(p, Here(mod, stmtPos), e.id))); }
    }

    method EvalExpr(mod: nat, e: Expr, scope: CompScope, stmtPos: bool) returns (o: Out)
      modifies this, scope
      ensures inst == old(inst) && callDepth == old(callDepth)
      ensures old(failure) != NoFailure ==>
                o == Stop(old(failure)) && scope.Snap() == old(scope.Snap()) && quota == old(quota) &&
                  failure == old(failure)
      ensures old(failure) == NoFailure ==>
                Settled(Run(p, old(Here(mod, stmtPos)), TExpr(e), old(scope.Snap()), old(quota)), o, scope)
      decreases quota, Major(TExpr(e)) + 1, 0, 3
    {
      hide Run, Drive, Resume, Settled;
      if failure != NoFailure { return Stop(failure); }
      match e
      case Lit(_, _) | Deref(_, _) | OpaqueExpr(_) | Break(_) | Continue(_) => o := EvalLeaf(mod, e, scope, stmtPos);
      case Path(_, _, _) => o := EvalPath(mod, e, scope, stmtPos);
      case Return(_, _) => o := EvalReturn(mod, e, scope, stmtPos);
      case BlockExpr(_, _) => o := EvalBlockExpr(mod, e, scope, stmtPos);
      case If(_, _, _, _) => o := EvalIf(mod, e, scope, stmtPos);
      case Match(_, _, _) => o := EvalMatch(mod, e, scope, stmtPos);
      case Loop(_, _) => o := EvalLooping(mod, e, None, scope, stmtPos);
      case While(_, cond, _) => o := EvalLooping(mod, e, Some(cond), scope, stmtPos);
      case Call(_, _, _) => o := EvalCall(mod, e, scope, stmtPos);
      case MethodCall(_, _, _) => o := EvalMethodCall(mod, e, scope, stmtPos);
      case _ => o := EvalStrict(mod, e, scope, stmtPos, false);
    }

    method EvalBlockExpr(mod: nat, e: Expr, scope: CompScope, stmtPos: bool) returns (o: Out)
      requires failure == NoFailure && e.BlockExpr?
      modifies this, scope
      ensures inst == old(inst) && callDepth == old(callDepth)
      ensures Settled(Run(p, old(Here(mod, stmtPos)), TExpr(e), old(scope.Snap()), old(quota)), o, scope)
      decreases quota, Major(TExpr(e)), 0, 1
    {
      hide Run, Drive, Resume, Conclude;
      RunBlockExpr(p, Here(mod, stmtPos), e, scope.Snap(), quota);
      o := EvalBlock(mod, e.block, scope, stmtPos);
      o := Concluded(mod, stmtPos, e.id, o);
    }

    // ----- entry points -------------------------------------------------------------------------------

    /** One expression, with the quota and the depth reset; `outer` holds the persistent bindings. */
    method Evaluate(mod: nat, e: Expr, checkedUnder: nat, outer: Frame) returns (o: Out, outer': Frame)
      modifies this
      ensures inst == checkedUnder && callDepth == 0
      ensures old(failure) == NoFailure ==>
                var r := Run(p, Ctx(mod, checkedUnder, 0, false), TExpr(e), Scope(outer, [[]]), 1_000_000);
                o == r.o && outer' == r.s.outer && quota == r.q && Registered(o)
      ensures old(failure) != NoFailure ==> o.Stop? && outer' == outer && failure == old(failure)
    {
      hide Run, Drive, Resume;
      var scope := new CompScope(outer, [[]]);
      quota, callDepth, inst := BRANCH_QUOTA, 0, checkedUnder;
      o := EvalExpr(mod, e, scope, false);
      outer' := scope.outer;
    }
  }
}
