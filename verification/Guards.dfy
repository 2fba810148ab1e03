/**
 Guards and alternatives. The specification distributes an or-pattern into one arm per
 alternative (docs/spec/control.md, Match), and a false guard falls through to the next arm.
 The evaluator (src/analyzer/comp_evaluator.cc, comp_eval_match) keeps one arm, takes the first
 alternative that matches and leaves the whole arm when the guard is false there.
 */
module Guards {
  import opened Machine
  import opened Lang
  import opened Patterns
  import opened Semantics
  import opened Steps
  import opened Runs
  import opened Equations
  import opened Tuples

  // ----- the arms an or-pattern stands for ----------------------------------------------------------

  function Map<T, U>(f: T -> U, xs: seq<T>): (ys: seq<U>)
    ensures |ys| == |xs|
  {
    seq(|xs|, i requires 0 <= i < |xs| => f(xs[i]))
  }

  /** Every head before every tail, the first head's first. */
  function Product<T>(heads: seq<T>, tails: seq<seq<T>>): seq<seq<T>> {
    if heads == [] then [] else Map(t => [heads[0]] + t, tails) + Product(heads[1..], tails)
  }

  /** The patterns a pattern distributes into, leftmost alternatives first. */
  function Forms(pat: Pattern): seq<Pattern>
    decreases pat
  {
    match pat
    case TuplePat(elements) => Map(es => TuplePat(es), FormsOfAll(elements))
    case VariantPat(path, elements) => Map(es => VariantPat(path, es), FormsOfAll(elements))
    case StructPat(members) => Map(ms => StructPat(ms), FormsOfMembers(members))
    case RefPat(inner) => Map(q => RefPat(q), Forms(inner))
    case OrPat(alternatives) => FormsOfAny(alternatives)
    case Wild => [pat]
    case Ident(_) => [pat]
    case LitPat(_) => [pat]
  }

  function FormsOfAll(pats: seq<Pattern>): seq<seq<Pattern>>
    decreases pats
  {
    if pats == [] then [[]] else Product(Forms(pats[0]), FormsOfAll(pats[1..]))
  }

  function FormsOfMembers(members: seq<FieldPat>): seq<seq<FieldPat>>
    decreases members
  {
    if members == [] then [[]]
    else Product(Map(q => FieldPat(members[0].name, q), Forms(members[0].pat)), FormsOfMembers(members[1..]))
  }

  function FormsOfAny(pats: seq<Pattern>): seq<Pattern>
    decreases pats
  {
    if pats == [] then [] else Forms(pats[0]) + FormsOfAny(pats[1..])
  }

  lemma {:induction false} InProduct<T>(heads: seq<T>, tails: seq<seq<T>>, l: seq<T>)
    ensures l in Product(heads, tails) <==> |l| > 0 && l[0] in heads && l[1..] in tails
    decreases |heads|
  {
    if heads != [] {
      var row := Map(t => [heads[0]] + t, tails);
      InProduct(heads[1..], tails, l);
      assert forall i :: 0 <= i < |row| ==> row[i] == [heads[0]] + tails[i] && row[i][1..] == tails[i];
      if |l| > 0 && l[0] == heads[0] && l[1..] in tails {
        var i :| 0 <= i < |tails| && tails[i] == l[1..];
        assert row[i] == l;
      }
    }
  }

  lemma InMap<T, U>(f: T -> U, xs: seq<T>, y: U)
    ensures y in Map(f, xs) <==> exists x :: x in xs && f(x) == y
  {
    var ys := Map(f, xs);
    assert forall i :: 0 <= i < |xs| ==> ys[i] == f(xs[i]) && xs[i] in xs && ys[i] in ys;
  }

  /** The forms of a pattern are its choices of one alternative at each `|`. */
  lemma {:induction false} FormsAreChoices(pat: Pattern, q: Pattern)
    ensures q in Forms(pat) <==> ChoiceOf(pat, q)
    decreases pat
  {
    match pat
    case TuplePat(elements) =>
      InMap(es => TuplePat(es), FormsOfAll(elements), q);
      if q.TuplePat? { AllAreChoices(elements, q.elements); }
    case VariantPat(path, elements) =>
      InMap(es => VariantPat(path, es), FormsOfAll(elements), q);
      if q.VariantPat? { AllAreChoices(elements, q.elements); }
    case StructPat(members) =>
      InMap(ms => StructPat(ms), FormsOfMembers(members), q);
      if q.StructPat? { MembersAreChoices(members, q.members); }
    case RefPat(inner) =>
      InMap(x => RefPat(x), Forms(inner), q);
      if q.RefPat? { FormsAreChoices(inner, q.inner); }
    case OrPat(alternatives) => AnyIsChoice(alternatives, q);
    case Wild =>
    case Ident(_) =>
    case LitPat(_) =>
  }

  lemma {:induction false} AllAreChoices(pats: seq<Pattern>, qs: seq<Pattern>)
    ensures qs in FormsOfAll(pats) <==> |qs| == |pats| && forall i :: 0 <= i < |pats| ==> ChoiceOf(pats[i], qs[i])
    decreases pats
  {
    hide ChoiceOf, Forms;
    if pats != [] {
      InProduct(Forms(pats[0]), FormsOfAll(pats[1..]), qs);
      if qs != [] {
        FormsAreChoices(pats[0], qs[0]);
        AllAreChoices(pats[1..], qs[1..]);
        assert |qs| == |pats| ==> forall i :: 0 < i < |pats| ==> pats[i] == pats[1..][i - 1] && qs[i] == qs[1..][i - 1];
      }
    }
  }

  lemma {:induction false} MembersAreChoices(members: seq<FieldPat>, qs: seq<FieldPat>)
    ensures qs in FormsOfMembers(members) <==>
      && |qs| == |members|
      && forall i :: 0 <= i < |members| ==> qs[i].name == members[i].name && ChoiceOf(members[i].pat, qs[i].pat)
    decreases members
  {
    hide ChoiceOf, Forms;
    if members != [] {
      var m, rest := members[0], members[1..];
      var heads := Map(x => FieldPat(m.name, x), Forms(m.pat));
      InProduct(heads, FormsOfMembers(rest), qs);
      if qs != [] {
        InMap(x => FieldPat(m.name, x), Forms(m.pat), qs[0]);
        FormsAreChoices(m.pat, qs[0].pat);
        MembersAreChoices(rest, qs[1..]);
        assert |qs| == |members| ==> forall i :: 0 < i < |qs| ==> members[i] == rest[i - 1] && qs[i] == qs[1..][i - 1];
      }
    }
  }

  lemma {:induction false} AnyIsChoice(pats: seq<Pattern>, q: Pattern)
    ensures q in FormsOfAny(pats) <==> exists i :: 0 <= i < |pats| && ChoiceOf(pats[i], q)
    decreases pats
  {
    hide ChoiceOf, Forms;
    if pats != [] {
      FormsAreChoices(pats[0], q);
      AnyIsChoice(pats[1..], q);
      assert forall i :: 0 < i < |pats| ==> pats[i] == pats[1..][i - 1];
      assert forall i :: 0 <= i < |pats[1..]| ==> pats[1..][i] == pats[i + 1];
    }
  }

  // ----- the first of several results ---------------------------------------------------------------

  function FirstBy<T>(f: T -> PatResult, xs: seq<T>): PatResult {
    if xs == [] then NoMatch else if f(xs[0]).NoMatch? then FirstBy(f, xs[1..]) else f(xs[0])
  }

  function Both(head: PatResult, tail: PatResult): PatResult {
    if head.Matched? then Then(tail, head.bindings) else head
  }

  /** The same result, unless a form is refused: a form may be tried where the pattern was given up. */
  ghost predicate Near(a: PatResult, b: PatResult) { a == b || b.PatFail? }

  lemma {:induction false} FirstOfSum<T>(f: T -> PatResult, xs: seq<T>, ys: seq<T>)
    ensures FirstBy(f, xs + ys) == if FirstBy(f, xs).NoMatch? then FirstBy(f, ys) else FirstBy(f, xs)
    decreases |xs|
  {
    if xs == [] {
      assert xs + ys == ys;
    } else {
      assert (xs + ys)[1..] == xs[1..] + ys;
      FirstOfSum(f, xs[1..], ys);
    }
  }

  lemma {:induction false} FirstOfMap<T, U>(f: U -> PatResult, g: T -> U, h: T -> PatResult, xs: seq<T>)
    requires forall i :: 0 <= i < |xs| ==> f(g(xs[i])) == h(xs[i])
    ensures FirstBy(f, Map(g, xs)) == FirstBy(h, xs)
    decreases |xs|
  {
    if xs != [] {
      assert Map(g, xs)[1..] == Map(g, xs[1..]);
      FirstOfMap(f, g, h, xs[1..]);
    }
  }

  lemma {:induction false} FirstWithHead<T>(g: T -> PatResult, head: PatResult, h: T -> PatResult, xs: seq<T>)
    requires xs != [] && forall i :: 0 <= i < |xs| ==> h(xs[i]) == Both(head, g(xs[i]))
    ensures FirstBy(h, xs) == Both(head, FirstBy(g, xs))
    decreases |xs|
  {
    assert h(xs[0]) == Both(head, g(xs[0]));
    if |xs| > 1 { FirstWithHead(g, head, h, xs[1..]); }
  }

  /** What combines head by head and tail by tail combines first by first. */
  lemma {:induction false} FirstOfProduct<T>(
    f: T -> PatResult, g: seq<T> -> PatResult, fg: seq<T> -> PatResult, heads: seq<T>, tails: seq<seq<T>>
  )
    requires tails != []
    requires forall h, i :: 0 <= i < |tails| && h in heads ==> fg([h] + tails[i]) == Both(f(h), g(tails[i]))
    ensures Near(Both(FirstBy(f, heads), FirstBy(g, tails)), FirstBy(fg, Product(heads, tails)))
    ensures FirstBy(g, tails).NoMatch? ==> !FirstBy(fg, Product(heads, tails)).Matched?
    decreases |heads|
  {
    if heads != [] {
      var h := heads[0];
      var row := Map(t => [h] + t, tails);
      var whole := t => fg([h] + t);
      FirstOfMap(fg, t => [h] + t, whole, tails);
      FirstWithHead(g, f(h), whole, tails);
      FirstOfSum(fg, row, Product(heads[1..], tails));
      FirstOfProduct(f, g, fg, heads[1..], tails);
    }
  }

  // ----- a pattern and its forms --------------------------------------------------------------------

  function Matcher(p: Package, v: Typed): Pattern -> PatResult { q => MatchPattern(p, q, v) }

  function EachMatcher(p: Package, vs: seq<Typed>): seq<Pattern> -> PatResult {
    es => if |es| == |vs| then MatchEach(p, es, vs) else NoMatch
  }

  function MemberMatcher(p: Package, v: Typed): FieldPat -> PatResult {
    (m: FieldPat) =>
      if !v.value.VStruct? then NoMatch
      else match StructMember(p, v, m.name)
        case NoMember(f) => PatFail(f)
        case Member(x) => MatchPattern(p, m.pat, x)
  }

  function MembersMatcher(p: Package, v: Typed): seq<FieldPat> -> PatResult {
    ms => if v.value.VStruct? then MatchMembers(p, ms, v) else NoMatch
  }

  lemma {:induction false} MatchFirstBy(p: Package, pats: seq<Pattern>, v: Typed)
    ensures MatchFirst(p, pats, v) == FirstBy(Matcher(p, v), pats)
    decreases |pats|
  {
    hide MatchPattern;
    if pats != [] { MatchFirstBy(p, pats[1..], v); }
  }

  lemma {:induction false} FormsExist(pat: Pattern)
    requires Full(pat)
    ensures Forms(pat) != []
    decreases pat
  {
    match pat
    case TuplePat(elements) => AllExist(elements);
    case VariantPat(_, elements) => AllExist(elements);
    case StructPat(members) => MembersExist(members);
    case RefPat(inner) => FormsExist(inner);
    case OrPat(alternatives) => FormsExist(alternatives[0]);
    case _ =>
  }

  /** Each list of forms is as long as the list it is a form of. */
  ghost predicate AllLong<T>(lists: seq<seq<T>>, n: nat) { forall i :: 0 <= i < |lists| ==> |lists[i]| == n }

  lemma {:induction false} ProductExists<T>(heads: seq<T>, tails: seq<seq<T>>, n: nat)
    requires heads != [] && tails != [] && AllLong(tails, n)
    ensures Product(heads, tails) != [] && AllLong(Product(heads, tails), n + 1)
    decreases |heads|
  {
    var row := Map(t => [heads[0]] + t, tails);
    assert forall i :: 0 <= i < |row| ==> row[i] == [heads[0]] + tails[i];
    if |heads| > 1 { ProductExists(heads[1..], tails, n); }
  }

  lemma {:induction false} AllExist(pats: seq<Pattern>)
    requires forall i :: 0 <= i < |pats| ==> Full(pats[i])
    ensures FormsOfAll(pats) != [] && AllLong(FormsOfAll(pats), |pats|)
    decreases pats
  {
    hide Full;
    if pats != [] {
      FormsExist(pats[0]);
      AllExist(pats[1..]);
      ProductExists(Forms(pats[0]), FormsOfAll(pats[1..]), |pats| - 1);
    }
  }

  lemma {:induction false} MembersExist(members: seq<FieldPat>)
    requires forall i :: 0 <= i < |members| ==> Full(members[i].pat)
    ensures FormsOfMembers(members) != [] && AllLong(FormsOfMembers(members), |members|)
    decreases members
  {
    hide Full;
    if members != [] {
      FormsExist(members[0].pat);
      MembersExist(members[1..]);
      ProductExists(Map(q => FieldPat(members[0].name, q), Forms(members[0].pat)), FormsOfMembers(members[1..]),
        |members| - 1);
    }
  }

  /** A pattern answers as the first of its forms that does not miss. */
  lemma {:induction false} FormsMatch(p: Package, pat: Pattern, v: Typed)
    requires Full(pat)
    ensures Near(MatchPattern(p, pat, v), MatchFirst(p, Forms(pat), v))
    decreases pat
  {
    MatchFirstBy(p, Forms(pat), v);
    var f := Matcher(p, v);
    match pat
    case TuplePat(elements) =>
      var lists := FormsOfAll(elements);
      AllExist(elements);
      if v.value.VTuple? && |elements| == |v.value.fields| {
        var vs := seq(|elements|, i requires 0 <= i < |elements| => Typed(v.value.fields[i], v.ty));
        FirstOfMap(f, es => TuplePat(es), EachMatcher(p, vs), lists);
        AllMatch(p, elements, vs);
      } else {
        AllMissed(f, es => TuplePat(es), lists);
      }
    case VariantPat(path, elements) => VariantForms(p, path, elements, v);
    case StructPat(members) =>
      FirstOfMap(f, ms => StructPat(ms), MembersMatcher(p, v), FormsOfMembers(members));
      if v.value.VStruct? {
        MembersMatch(p, members, v);
      } else {
        AllMissed(f, ms => StructPat(ms), FormsOfMembers(members));
      }
    case RefPat(inner) =>
      FirstOfMap(f, q => RefPat(q), f, Forms(inner));
      MatchFirstBy(p, Forms(inner), v);
      FormsMatch(p, inner, v);
    case OrPat(alternatives) =>
      OrIsFirst(p, alternatives, v);
      AnyMatch(p, alternatives, v);
    case Wild =>
    case Ident(_) =>
    case LitPat(_) =>
  }

  lemma {:induction false} AllMissed<T, U>(f: U -> PatResult, g: T -> U, xs: seq<T>)
    requires forall i :: 0 <= i < |xs| ==> f(g(xs[i])) == NoMatch
    ensures FirstBy(f, Map(g, xs)) == NoMatch
    decreases |xs|
  {
    if xs != [] {
      assert Map(g, xs)[1..] == Map(g, xs[1..]);
      AllMissed(f, g, xs[1..]);
    }
  }

  lemma {:induction false} VariantForms(p: Package, path: seq<string>, elements: seq<Pattern>, v: Typed)
    requires forall i :: 0 <= i < |elements| ==> Full(elements[i])
    ensures var pat := VariantPat(path, elements);
      Near(MatchPattern(p, pat, v), FirstBy(Matcher(p, v), Forms(pat)))
    decreases elements, 1
  {
    hide VariantFields;
    var lists := FormsOfAll(elements);
    AllExist(elements);
    var (status, payloads) := VariantFields(p, path, v);
    var f, g := Matcher(p, v), (es: seq<Pattern>) => VariantPat(path, es);
    if !status.Matched? {
      assert f(g(lists[0])) == status;
      if status.NoMatch? { AllMissed(f, g, lists); }
    } else if |elements| != |payloads| {
      AllMissed(f, g, lists);
    } else {
      FirstOfMap(f, g, EachMatcher(p, payloads), lists);
      AllMatch(p, elements, payloads);
    }
  }

  lemma {:induction false} AllMatch(p: Package, pats: seq<Pattern>, vs: seq<Typed>)
    requires |pats| == |vs| && forall i :: 0 <= i < |pats| ==> Full(pats[i])
    ensures Near(MatchEach(p, pats, vs), FirstBy(EachMatcher(p, vs), FormsOfAll(pats)))
    decreases pats, 0
  {
    hide Full, MatchPattern;
    if pats != [] {
      var heads, tails := Forms(pats[0]), FormsOfAll(pats[1..]);
      AllExist(pats[1..]);
      FormsMatch(p, pats[0], vs[0]);
      MatchFirstBy(p, heads, vs[0]);
      AllMatch(p, pats[1..], vs[1..]);
      forall h, i | 0 <= i < |tails| && h in heads
        ensures EachMatcher(p, vs)([h] + tails[i]) == Both(MatchPattern(p, h, vs[0]), EachMatcher(p, vs[1..])(tails[i]))
      {
        assert ([h] + tails[i])[1..] == tails[i];
      }
      FirstOfProduct(Matcher(p, vs[0]), EachMatcher(p, vs[1..]), EachMatcher(p, vs), heads, tails);
    }
  }

  lemma {:induction false} MembersMatch(p: Package, members: seq<FieldPat>, v: Typed)
    requires v.value.VStruct? && forall i :: 0 <= i < |members| ==> Full(members[i].pat)
    ensures Near(MatchMembers(p, members, v), FirstBy(MembersMatcher(p, v), FormsOfMembers(members)))
    decreases members
  {
    hide Full, MatchPattern, StructMember;
    if members != [] {
      var m := members[0];
      var forms, tails := Forms(m.pat), FormsOfMembers(members[1..]);
      var heads := Map(q => FieldPat(m.name, q), forms);
      MembersExist(members[1..]);
      FormsExist(m.pat);
      MembersMatch(p, members[1..], v);
      forall h, i | 0 <= i < |tails| && h in heads
        ensures MembersMatcher(p, v)([h] + tails[i]) == Both(MemberMatcher(p, v)(h), MembersMatcher(p, v)(tails[i]))
      {
        assert ([h] + tails[i])[1..] == tails[i];
      }
      FirstOfProduct(MemberMatcher(p, v), MembersMatcher(p, v), MembersMatcher(p, v), heads, tails);
      match StructMember(p, v, m.name)
      case NoMember(f) => assert MemberMatcher(p, v)(heads[0]) == PatFail(f);
      case Member(x) =>
        FormsMatch(p, m.pat, x);
        MatchFirstBy(p, forms, x);
        FirstOfMap(MemberMatcher(p, v), q => FieldPat(m.name, q), Matcher(p, x), forms);
    }
  }

  lemma {:induction false} AnyMatch(p: Package, pats: seq<Pattern>, v: Typed)
    requires forall i :: 0 <= i < |pats| ==> Full(pats[i])
    ensures Near(MatchFirst(p, pats, v), FirstBy(Matcher(p, v), FormsOfAny(pats)))
    decreases pats
  {
    hide Full, MatchPattern;
    if pats != [] {
      FormsMatch(p, pats[0], v);
      MatchFirstBy(p, Forms(pats[0]), v);
      AnyMatch(p, pats[1..], v);
      FirstOfSum(Matcher(p, v), Forms(pats[0]), FormsOfAny(pats[1..]));
    }
  }

  // ----- the arms of a match ------------------------------------------------------------------------

  /** The arms tried in order on a value the scrutinee answered. */
  function Arms(p: Package, c: Ctx, id: nat, arms: seq<Arm>, v: Typed, s: Scope, q: nat): Result {
    Run(p, c, TArms(Match(id, OpaqueExpr(0), arms), 0, v), s, q)
  }

  /** Only the arms that are left decide what a match does. */
  lemma {:induction false} ArmsLeft(p: Package, c: Ctx, a: Expr, i: nat, b: Expr, j: nat, v: Typed, s: Scope, q: nat)
    requires a.Match? && b.Match? && a.id == b.id && i <= |a.arms| && j <= |b.arms| && a.arms[i..] == b.arms[j..]
    ensures Run(p, c, TArms(a, i, v), s, q) == Run(p, c, TArms(b, j, v), s, q)
    decreases |a.arms| - i
  {
    hide Run, MatchPattern;
    RunArmPassed(p, c, a, i, v, s, q);
    RunArmPassed(p, c, b, j, v, s, q);
    if i < |a.arms| {
      assert a.arms[i] == a.arms[i..][0] == b.arms[j..][0] == b.arms[j];
      assert a.arms[i + 1..] == a.arms[i..][1..] == b.arms[j + 1..];
      match MatchPattern(p, a.arms[i].pat, v)
      case PatFail(_) =>
      case NoMatch => ArmsLeft(p, c, a, i + 1, b, j + 1, v, s, q);
      case Matched(bs) =>
        RunArmMatched(p, c, a, i, v, s, q, bs);
        RunArmMatched(p, c, b, j, v, s, q, bs);
        var g := Guarded(p, c, a.arms[i].guard, Push(s, bs), q);
        ArmsLeft(p, c, a, i + 1, b, j + 1, v, Pop(g.s), g.q);
    }
  }

  /** An arm's guard; none is a true one. */
  function Guarded(p: Package, c: Ctx, guard: Option<Expr>, s: Scope, q: nat): Result {
    if guard.None? then Result(Val(Typed(VBool(true), 0)), s, q) else Run(p, InValue(c), TExpr(guard.value), s, q)
  }

  predicate Falls(g: Result) { g.o.Val? && g.o.v.value == VBool(false) }

  /** What an arm whose guard did not answer false makes of the match. */
  function Decided(p: Package, c: Ctx, id: nat, body: Expr, g: Result): Result {
    if !g.o.Val? then g.(s := Pop(g.s))
    else if !g.o.v.value.VBool? then Result(Stop(Program), Pop(g.s), g.q)
    else
      var b := Run(p, InStmt(c), TExpr(body), g.s, g.q);
      Result(Conclude(p, c, id, b.o), Pop(b.s), b.q)
  }

  /** What an arm's pattern answered makes of the match, with the arms after a miss and after a false guard. */
  function Taken(
    p: Package, c: Ctx, id: nat, r: PatResult, arm: Arm, missed: seq<Arm>, fallen: seq<Arm>, v: Typed, s: Scope, q: nat
  ): Result
  {
    match r
    case PatFail(f) => Result(Stop(f), s, q)
    case NoMatch => Arms(p, c, id, missed, v, s, q)
    case Matched(bs) =>
      var g := Guarded(p, c, arm.guard, Push(s, bs), q);
      if Falls(g) then Arms(p, c, id, fallen, v, Pop(g.s), g.q) else Decided(p, c, id, arm.body, g)
  }

  lemma FirstArm(p: Package, c: Ctx, id: nat, arm: Arm, rest: seq<Arm>, v: Typed, s: Scope, q: nat)
    ensures Arms(p, c, id, [arm] + rest, v, s, q)
         == Taken(p, c, id, MatchPattern(p, arm.pat, v), arm, rest, rest, v, s, q)
  {
    hide Run, MatchPattern, Push, Pop, Conclude;
    var a, b := Match(id, OpaqueExpr(0), [arm] + rest), Match(id, OpaqueExpr(0), rest);
    assert a.arms[1..] == b.arms[0..];
    match MatchPattern(p, arm.pat, v)
    case PatFail(_) => RunArmPassed(p, c, a, 0, v, s, q);
    case NoMatch =>
      RunArmPassed(p, c, a, 0, v, s, q);
      ArmsLeft(p, c, a, 1, b, 0, v, s, q);
    case Matched(bs) =>
      RunArmMatched(p, c, a, 0, v, s, q, bs);
      var g := Guarded(p, c, arm.guard, Push(s, bs), q);
      ArmsLeft(p, c, a, 1, b, 0, v, Pop(g.s), g.q);
  }

  /** One arm per form, each with the arm's guard and body. */
  function Spread(pats: seq<Pattern>, arm: Arm): seq<Arm> { Map(q => arm.(pat := q), pats) }

  function Distributed(arm: Arm): seq<Arm> { Spread(Forms(arm.pat), arm) }

  lemma SpreadStep(pats: seq<Pattern>, arm: Arm, rest: seq<Arm>)
    ensures pats == [] ==> Spread(pats, arm) + rest == rest
    ensures pats != [] ==> Spread(pats, arm) + rest == [arm.(pat := pats[0])] + (Spread(pats[1..], arm) + rest)
  {
    if pats != [] { assert Spread(pats, arm)[1..] == Spread(pats[1..], arm); }
  }

  /** The first form that does not miss decides, and a false guard goes on with the forms after it. */
  lemma {:induction false} SpreadRuns(
    p: Package, c: Ctx, id: nat, pats: seq<Pattern>, arm: Arm, rest: seq<Arm>, v: Typed, s: Scope, q: nat
  ) returns (k: nat)
    ensures k <= |pats| && forall i :: 0 <= i < k ==> MatchPattern(p, pats[i], v) == NoMatch
    ensures k < |pats| ==> MatchPattern(p, pats[k], v) == MatchFirst(p, pats, v) != NoMatch
    ensures k == |pats| ==> MatchFirst(p, pats, v) == NoMatch
    ensures var later := if k < |pats| then Spread(pats[k + 1..], arm) + rest else rest;
      Arms(p, c, id, Spread(pats, arm) + rest, v, s, q)
      == Taken(p, c, id, MatchFirst(p, pats, v), arm, rest, later, v, s, q)
    decreases |pats|
  {
    hide Run, MatchPattern, Push, Pop, Conclude, Arms, Guarded, Decided;
    SpreadStep(pats, arm, rest);
    k := 0;
    if pats != [] {
      FirstArm(p, c, id, arm.(pat := pats[0]), Spread(pats[1..], arm) + rest, v, s, q);
      if MatchPattern(p, pats[0], v) == NoMatch {
        var j := SpreadRuns(p, c, id, pats[1..], arm, rest, v, s, q);
        k := j + 1;
        assert pats[1..][j..] == pats[k..];
        if j < |pats[1..]| { assert pats[1..][j] == pats[k] && pats[1..][j + 1..] == pats[k + 1..]; }
        forall i | 0 <= i < k ensures MatchPattern(p, pats[i], v) == NoMatch {
          if i > 0 { assert pats[i] == pats[1..][i - 1]; }
        }
      }
    }
  }

  // ----- when the two agree -------------------------------------------------------------------------

  /** The arm as it is written and its distributed arms do the same before the same following arms. */
  ghost predicate Agree(p: Package, c: Ctx, id: nat, arm: Arm, rest: seq<Arm>, v: Typed, s: Scope, q: nat) {
    Arms(p, c, id, [arm] + rest, v, s, q) == Arms(p, c, id, Distributed(arm) + rest, v, s, q)
  }

  /** Whatever guard, body, following arms, scope and quota there are. */
  ghost predicate Interchangeable(p: Package, pat: Pattern, v: Typed) {
    forall c, id, guard, body, rest, s, q :: Agree(p, c, id, Arm(pat, guard, body), rest, v, s, q)
  }

  /** Every form after the first to match misses. */
  ghost predicate Alone(p: Package, pats: seq<Pattern>, v: Typed) {
    forall k: nat, j, bs :: FirstToMatch(p, pats, v, bs, k) && k < j < |pats| ==> MatchPattern(p, pats[j], v) == NoMatch
  }

  /** The pattern and its forms answer alike; else a form is refused that the pattern does not try. */
  ghost predicate SameAnswer(p: Package, pat: Pattern, v: Typed) {
    MatchPattern(p, pat, v) == MatchFirst(p, Forms(pat), v)
  }

  lemma LaterMiss(
    p: Package, c: Ctx, id: nat, pats: seq<Pattern>, k: nat, arm: Arm, rest: seq<Arm>, v: Typed, s: Scope, q: nat
  )
    requires k < |pats| && forall j :: k < j < |pats| ==> MatchPattern(p, pats[j], v) == NoMatch
    ensures Arms(p, c, id, Spread(pats[k + 1..], arm) + rest, v, s, q) == Arms(p, c, id, rest, v, s, q)
  {
    hide Arms, MatchPattern;
    var later := pats[k + 1..];
    assert forall i :: 0 <= i < |later| ==> later[i] == pats[k + 1 + i];
    var _ := SpreadRuns(p, c, id, later, arm, rest, v, s, q);
  }

  /** The same, unless the guard is false on the first form to match and a later form does not miss. */
  lemma AgreesHere(p: Package, c: Ctx, id: nat, arm: Arm, rest: seq<Arm>, v: Typed, s: Scope, q: nat)
    requires SameAnswer(p, arm.pat, v)
    requires var r := MatchPattern(p, arm.pat, v);
      r.Matched? && Falls(Guarded(p, c, arm.guard, Push(s, r.bindings), q)) ==> Alone(p, Forms(arm.pat), v)
    ensures Agree(p, c, id, arm, rest, v, s, q)
  {
    hide Arms, MatchPattern, Guarded, Push, Pop, Forms, MatchFirst;
    var pats, r := Forms(arm.pat), MatchPattern(p, arm.pat, v);
    FirstArm(p, c, id, arm, rest, v, s, q);
    var k := SpreadRuns(p, c, id, pats, arm, rest, v, s, q);
    if r.Matched? && Falls(Guarded(p, c, arm.guard, Push(s, r.bindings), q)) {
      var g := Guarded(p, c, arm.guard, Push(s, r.bindings), q);
      assert FirstToMatch(p, pats, v, r.bindings, k);
      LaterMiss(p, c, id, pats, k, arm, rest, v, Pop(g.s), g.q);
    }
  }

  // ----- when they part -----------------------------------------------------------------------------

  const UNARMED := Arm(Wild, None, Break(0))
  const OUTSIDE := Ctx(0, 0, 0, true)

  /** An arm that matches anything and jumps. */
  lemma UnarmedLeaves(p: Package, v: Typed, s: Scope, q: nat)
    ensures Arms(p, OUTSIDE, 0, [UNARMED], v, s, q).o == Leave(JBreak, VoidVal(p))
  {
    hide Run;
    assert [UNARMED] + [] == [UNARMED];
    FirstArm(p, OUTSIDE, 0, UNARMED, [], v, s, q);
    RunJump(p, InStmt(OUTSIDE), Break(0), Push(s, []), q);
  }

  /** A refused form the pattern does not try ends the match. */
  lemma RefusedFormParts(p: Package, pat: Pattern, v: Typed)
    requires Full(pat) && !SameAnswer(p, pat, v)
    ensures !Agree(p, OUTSIDE, 0, Arm(pat, None, Break(0)), [UNARMED], v, FreshScope, 0)
  {
    hide Arms, MatchPattern, MatchFirst, Forms, Run;
    var arm := Arm(pat, None, Break(0));
    FormsMatch(p, pat, v);
    FirstArm(p, OUTSIDE, 0, arm, [UNARMED], v, FreshScope, 0);
    var k := SpreadRuns(p, OUTSIDE, 0, Forms(pat), arm, [UNARMED], v, FreshScope, 0);
    UnarmedLeaves(p, v, FreshScope, 0);
    var r := MatchPattern(p, pat, v);
    if r.Matched? { RunJump(p, InStmt(OUTSIDE), Break(0), Push(FreshScope, r.bindings), 0); }
  }

  /** A name longer than any a frame binds. */
  function Unbound(f: Frame): (name: string)
    ensures forall i :: 0 <= i < |f| ==> |f[i].name| < |name|
  {
    if f == [] then "x" else Unbound(f[1..]) + f[0].name
  }

  /** `{ while x {} ; x }`: false where `x` is, for one unit of the quota. */
  function Paid(name: string): Expr {
    var x := Path(1, 0, [name]);
    BlockExpr(0, Block([ExprStmt(While(2, Test(x), Block([], None)))], Some(x)))
  }

  function Around(name: string): Scope { Scope([Binding(name, Typed(VBool(false), 0))], []) }

  lemma {:induction false} NotIn(f: Frame, name: string)
    requires forall i :: 0 <= i < |f| ==> f[i].name != name
    ensures LastIn(f, name) == None
    decreases |f|
  {
    if f != [] { NotIn(f[..|f| - 1], name); }
  }

  lemma ReadsAround(p: Package, c: Ctx, name: string, bs: Frame, frames: seq<Frame>, q: nat)
    requires forall i :: 0 <= i < |bs| ==> bs[i].name != name
    requires frames == [bs] || frames == [bs, []]
    ensures var s := Around(name).(frames := frames);
      Run(p, c, TExpr(Path(1, 0, [name])), s, q) == Result(Val(Typed(VBool(false), 0)), s, q)
  {
    hide Run;
    var around := Around(name);
    var s, one := around.(frames := frames), around.(frames := [bs]);
    NotIn(bs, name);
    assert [bs][..0] == [] && [bs, []][..1] == [bs];
    assert LookupOf(around, name) == Some(InOuter(0));
    assert LookupOf(one, name) == LookupOf(around, name);
    assert LookupOf(s, name) == Some(InOuter(0));
    RunLeaf(p, c, Path(1, 0, [name]), s, q);
  }

  lemma PaidRuns(p: Package, c: Ctx, name: string, bs: Frame, q: nat)
    requires forall i :: 0 <= i < |bs| ==> bs[i].name != name
    ensures var s := Push(Around(name), bs);
            var r := Run(p, c, TExpr(Paid(name)), s, q);
      if q == 0 then r.o == Stop(Budget) else Falls(r) && r.s == s && r.q == q - 1
  {
    hide Run;
    var s, e, x := Push(Around(name), bs), Paid(name), Path(1, 0, [name]);
    var block := e.block;
    var inner := Push(s, []);
    assert inner.frames == [bs, []];
    RunBlockExpr(p, c, e, s, q);
    RunBlock(p, c, block, s, q);
    RunNextStmt(p, c, block, 0, inner, q);
    RunExprStmt(p, c, block.stmts[0].e, inner, q);
    RunLooping(p, InStmt(c), block.stmts[0].e, Some(Test(x)), Block([], None), inner, q);
    if q > 0 {
      RunWhileTurn(p, InStmt(c), Test(x), Block([], None), inner, q - 1);
      ReadsAround(p, InValue(InStmt(c)), name, bs, inner.frames, q - 1);
      RunTail(p, c, block, 1, inner, q - 1);
      ReadsAround(p, InStmt(c), name, bs, inner.frames, q - 1);
      assert Pop(inner) == s;
    }
  }

  /** A later form that does not miss is met after a false guard, by the distributed arms only. */
  lemma LaterFormParts(p: Package, pat: Pattern, v: Typed, bs: Frame, k: nat, j: nat)
    requires Full(pat) && SameAnswer(p, pat, v) && FirstToMatch(p, Forms(pat), v, bs, k)
    requires k < j < |Forms(pat)| && MatchPattern(p, Forms(pat)[j], v) != NoMatch
    ensures !Interchangeable(p, pat, v)
  {
    hide Arms, MatchPattern, MatchFirst, Forms, Run, Full;
    var pats := Forms(pat);
    var second := MatchFirst(p, pats[k + 1..], v);
    var later := if second.Matched? then second.bindings else [];
    var name := Unbound(bs + later);
    var arm, s := Arm(pat, Some(Paid(name)), Break(0)), Around(name);
    FirstOf(p, pats, v, bs);
    assert forall i :: 0 <= i < |bs| ==> bs[i] == (bs + later)[i];
    PaidRuns(p, InValue(OUTSIDE), name, bs, 1);
    FirstArm(p, OUTSIDE, 0, arm, [UNARMED], v, s, 1);
    assert Pop(Push(s, bs)) == s;
    UnarmedLeaves(p, v, s, 0);
    var i := SpreadRuns(p, OUTSIDE, 0, pats, arm, [UNARMED], v, s, 1);
    assert i == k;
    assert pats[k + 1..][j - k - 1] == pats[j];
    LaterFormStops(p, pats[k + 1..], arm, v, bs, j - k - 1);
    assert !Agree(p, OUTSIDE, 0, arm, [UNARMED], v, s, 1);
  }

  lemma LaterFormStops(p: Package, later: seq<Pattern>, arm: Arm, v: Typed, bs: Frame, j: nat)
    requires j < |later| && MatchPattern(p, later[j], v) != NoMatch
    requires var second := MatchFirst(p, later, v);
      arm.guard == Some(Paid(Unbound(bs + if second.Matched? then second.bindings else [])))
    ensures var second := MatchFirst(p, later, v);
            var name := Unbound(bs + if second.Matched? then second.bindings else []);
      Arms(p, OUTSIDE, 0, Spread(later, arm) + [UNARMED], v, Around(name), 0).o.Stop?
  {
    hide Arms, MatchPattern, MatchFirst, Run;
    var second := MatchFirst(p, later, v);
    var name := Unbound(bs + if second.Matched? then second.bindings else []);
    var _ := SpreadRuns(p, OUTSIDE, 0, later, arm, [UNARMED], v, Around(name), 0);
    if second.Matched? { SecondGuard(p, name, bs, second.bindings); }
  }

  /** The quota is spent when the guard is read a second time. */
  lemma SecondGuard(p: Package, name: string, bs: Frame, second: Frame)
    requires name == Unbound(bs + second)
    ensures Run(p, InValue(OUTSIDE), TExpr(Paid(name)), Push(Around(name), second), 0).o == Stop(Budget)
  {
    hide Run;
    assert forall i :: 0 <= i < |second| ==> second[i] == (bs + second)[|bs| + i];
    PaidRuns(p, InValue(OUTSIDE), name, second, 0);
  }

  /**
   An arm can be exchanged for its distributed arms on a value, whatever its guard, if and only if
   the forms answer as the pattern does and every form after the first to match misses the value.
   */
  lemma GuardsDistributeExactly(p: Package, pat: Pattern, v: Typed)
    requires Full(pat)
    ensures Interchangeable(p, pat, v) <==> SameAnswer(p, pat, v) && Alone(p, Forms(pat), v)
  {
    hide Arms, MatchPattern, MatchFirst, Forms, Agree;
    if !SameAnswer(p, pat, v) {
      RefusedFormParts(p, pat, v);
    } else if !Alone(p, Forms(pat), v) {
      var k: nat, j, bs :| FirstToMatch(p, Forms(pat), v, bs, k) && k < j < |Forms(pat)|
        && MatchPattern(p, Forms(pat)[j], v) != NoMatch;
      LaterFormParts(p, pat, v, bs, k, j);
    } else {
      forall c, id, guard, body, rest, s, q ensures Agree(p, c, id, Arm(pat, guard, body), rest, v, s, q) {
        AgreesHere(p, c, id, Arm(pat, guard, body), rest, v, s, q);
      }
    }
  }

  /** Without a guard only the first condition is left. */
  lemma UnguardedDistributesExactly(p: Package, pat: Pattern, v: Typed)
    requires Full(pat)
    ensures (forall c, id, body, rest, s, q :: Agree(p, c, id, Arm(pat, None, body), rest, v, s, q))
       <==> SameAnswer(p, pat, v)
  {
    hide Arms, MatchPattern, MatchFirst, Forms, Agree;
    if SameAnswer(p, pat, v) {
      forall c, id, body, rest, s, q ensures Agree(p, c, id, Arm(pat, None, body), rest, v, s, q) {
        AgreesHere(p, c, id, Arm(pat, None, body), rest, v, s, q);
      }
    } else {
      RefusedFormParts(p, pat, v);
    }
  }

  // ----- whole matches ------------------------------------------------------------------------------

  function DistributedAll(arms: seq<Arm>): seq<Arm> {
    if arms == [] then [] else Distributed(arms[0]) + DistributedAll(arms[1..])
  }

  /** On this value the arm may be distributed. */
  ghost predicate Apt(p: Package, arm: Arm, v: Typed) {
    SameAnswer(p, arm.pat, v) && (arm.guard.Some? ==> Alone(p, Forms(arm.pat), v))
  }

  lemma {:induction false} ArmsDistribute(p: Package, c: Ctx, id: nat, arms: seq<Arm>, v: Typed, s: Scope, q: nat)
    requires forall i :: 0 <= i < |arms| ==> Apt(p, arms[i], v)
    ensures Arms(p, c, id, DistributedAll(arms), v, s, q) == Arms(p, c, id, arms, v, s, q)
    decreases |arms|
  {
    hide Arms, MatchPattern, MatchFirst, Forms;
    if arms != [] {
      var arm, rest, all := arms[0], arms[1..], DistributedAll(arms[1..]);
      assert arms == [arm] + rest;
      assert Apt(p, arm, v);
      FirstArm(p, c, id, arm, rest, v, s, q);
      FirstArm(p, c, id, arm, all, v, s, q);
      AgreesHere(p, c, id, arm, all, v, s, q);
      forall i | 0 <= i < |rest| ensures Apt(p, rest[i], v) { assert rest[i] == arms[i + 1]; }
      var r := MatchPattern(p, arm.pat, v);
      if r.NoMatch? {
        ArmsDistribute(p, c, id, rest, v, s, q);
      } else if r.Matched? {
        var g := Guarded(p, c, arm.guard, Push(s, r.bindings), q);
        ArmsDistribute(p, c, id, rest, v, Pop(g.s), g.q);
      }
    }
  }

  /** A match whose arms are apt on what its scrutinee answers is the match over the distributed arms. */
  lemma MatchDistributes(p: Package, c: Ctx, e: Expr, s: Scope, q: nat)
    requires e.Match?
    requires var r := Run(p, InValue(c), TExpr(e.scrutinee), s, q);
      r.o.Val? ==> forall i :: 0 <= i < |e.arms| ==> Apt(p, e.arms[i], r.o.v)
    ensures Run(p, c, TExpr(e.(arms := DistributedAll(e.arms))), s, q) == Run(p, c, TExpr(e), s, q)
  {
    hide Run, Apt, Size;
    var d := e.(arms := DistributedAll(e.arms));
    RunMatch(p, c, e, s, q);
    RunMatch(p, c, d, s, q);
    var r := Run(p, InValue(c), TExpr(e.scrutinee), s, q);
    if r.o.Val? {
      ArmsDistribute(p, c, e.id, e.arms, r.o.v, r.s, r.q);
      ArmsLeft(p, c, e, 0, Match(e.id, OpaqueExpr(0), e.arms), 0, r.o.v, r.s, r.q);
      ArmsLeft(p, c, d, 0, Match(e.id, OpaqueExpr(0), d.arms), 0, r.o.v, r.s, r.q);
    }
  }

  // ----- `(a, _) | (_, a) if a > 5 => a` on `(1, 10)` -----------------------------------------------------

  const LEFT := TuplePat([Ident("a"), Wild])
  const RIGHT := TuplePat([Wild, Ident("a")])
  const LARGE := Binary(1, Gt, Path(2, 0, ["a"]), Lit(3, IntLit(5, false)))
  const EITHER := Arm(OrPat([LEFT, RIGHT]), Some(LARGE), Path(4, 0, ["a"]))

  function Pair(t: TypeIdx): Typed { Typed(VTuple([VInt(1), VInt(10)]), t) }

  function Named(n: nat, t: TypeIdx): Frame { [Binding("a", Typed(VInt(n), t))] }

  lemma PairMatches(p: Package, t: TypeIdx)
    ensures MatchPattern(p, LEFT, Pair(t)) == Matched(Named(1, t))
    ensures MatchPattern(p, RIGHT, Pair(t)) == Matched(Named(10, t))
  {
    var fields := [VInt(1), VInt(10)];
    assert Pair(t) == Typed(VTuple(fields), t);
    var vs := seq(2, i requires 0 <= i < 2 => Typed(fields[i], t));
    assert vs[0] == Typed(VInt(1), t) && vs[1] == Typed(VInt(10), t);
    MatchTwo(p, Ident("a"), Wild, vs);
    MatchTwo(p, Wild, Ident("a"), vs);
  }

  lemma EitherForms()
    ensures Forms(EITHER.pat) == [LEFT, RIGHT]
  {
    FormsOfTwo(Ident("a"), Wild);
    FormsOfTwo(Wild, Ident("a"));
    assert FormsOfAny([RIGHT]) == [RIGHT] by { assert [RIGHT][1..] == []; }
    assert [LEFT, RIGHT][1..] == [RIGHT];
  }

  lemma MatchTwo(p: Package, x: Pattern, y: Pattern, vs: seq<Typed>)
    requires |vs| == 2
    ensures MatchEach(p, [x, y], vs) == Both(MatchPattern(p, x, vs[0]), Both(MatchPattern(p, y, vs[1]), Matched([])))
  {
    hide MatchPattern;
    assert [x, y][1..] == [y] && vs[1..] == [vs[1]] && [y][1..] == [] && vs[1..][1..] == [];
    assert MatchEach(p, [y], vs[1..]) == Both(MatchPattern(p, y, vs[1]), Matched([]));
  }

  lemma FormsOfTwo(x: Pattern, y: Pattern)
    requires Forms(x) == [x] && Forms(y) == [y]
    ensures Forms(TuplePat([x, y])) == [TuplePat([x, y])]
  {
    assert [x, y][1..] == [y] && [y][1..] == [];
    ProductOfOne(y, []);
    ProductOfOne(x, [y]);
    assert FormsOfAll([]) == [[]];
    assert [y] + [] == [y] && [x] + [y] == [x, y];
    assert FormsOfAll([y]) == Product(Forms(y), FormsOfAll([y][1..])) == [[y]];
    assert FormsOfAll([x, y]) == Product(Forms(x), FormsOfAll([x, y][1..])) == [[x, y]];
  }

  lemma ProductOfOne<T>(x: T, tail: seq<T>)
    ensures Product([x], [tail]) == [[x] + tail]
  {
    assert Product([x][1..], [tail]) == [];
    assert Map(t => [x] + t, [tail])[0] == [x] + tail;
  }

  lemma NamedFound(s: Scope, n: nat, t: TypeIdx)
    ensures Lookup(Push(s, Named(n, t)), "a") == Some(Typed(VInt(n), t))
  {
  }

  lemma LargeAnswers(p: Package, c: Ctx, n: nat, t: TypeIdx, u: TypeIdx)
    requires TagOf(p, t) == Tuple && n < WORD
    ensures Finish(p, c, LARGE, [Typed(VInt(n), t), Typed(VInt(5), u)]) == Val(Typed(VBool(n > 5), ExprType(p, c, 1)))
  {
    SmallResidue(n, WORD);
    SmallResidue(5, WORD);
    hide Apply;
  }

  lemma OperandsOfLarge(p: Package, c: Ctx, n: nat, t: TypeIdx, s: Scope, q: nat)
    requires TagOf(p, ExprType(p, c, 3)) != Error
    ensures var inner := Push(s, Named(n, t));
      && Run(p, c, TExpr(LARGE.lhs), inner, q) == Result(Val(Typed(VInt(n), t)), inner, q)
      && Run(p, c, TExpr(LARGE.rhs), inner, q) == Result(Val(Typed(VInt(5), ExprType(p, c, 3))), inner, q)
  {
    hide Run, Lookup, Push;
    NamedFound(s, n, t);
    RunLeaf(p, c, LARGE.lhs, Push(s, Named(n, t)), q);
    RunLeaf(p, c, LARGE.rhs, Push(s, Named(n, t)), q);
  }

  lemma LargeRuns(p: Package, c: Ctx, n: nat, t: TypeIdx, s: Scope, q: nat)
    requires TagOf(p, t) == Tuple && TagOf(p, ExprType(p, c, 3)) != Error && n < WORD
    ensures var inner := Push(s, Named(n, t));
      Run(p, InValue(c), TExpr(LARGE), inner, q) == Result(Val(Typed(VBool(n > 5), ExprType(p, c, 1))), inner, q)
  {
    hide Run, Finish, Push, Resume, ResumeExpr, ResumeOperands, Apply, Conclude;
    var inner, five, x := Push(s, Named(n, t)), Typed(VInt(5), ExprType(p, c, 3)), Typed(VInt(n), t);
    OperandsOfLarge(p, InValue(c), n, t, s, q);
    RunStrict(p, InValue(c), LARGE, inner, q, false);
    RunOperands(p, InValue(c), LARGE, [], inner, q);
    assert [] + [x] == [x] && [x] + [five] == [x, five];
    RunOperands(p, InValue(c), LARGE, [x], inner, q);
    RunOperands(p, InValue(c), LARGE, [x, five], inner, q);
    LargeAnswers(p, InValue(c), n, t, five.ty);
  }

  /** The evaluator takes `a` to be 1 and has no arm left; the distributed arms answer 10. */
  lemma GuardLeavesAlternative(p: Package, c: Ctx, id: nat, t: TypeIdx, s: Scope, q: nat)
    requires TagOf(p, t) == Tuple && TagOf(p, ExprType(p, c, 3)) != Error
    ensures Arms(p, c, id, [EITHER], Pair(t), s, q).o == Stop(Program)
    ensures Arms(p, c, id, Distributed(EITHER), Pair(t), s, q).o == Val(Typed(VInt(10), ExprType(p, c, id)))
  {
    hide Run, MatchPattern, Forms, Resume;
    var v, right := Pair(t), EITHER.(pat := RIGHT);
    PairMatches(p, t);
    EitherForms();
    assert MatchPattern(p, EITHER.pat, v) == Matched(Named(1, t)) by {
      OrIsFirst(p, [LEFT, RIGHT], v);
      assert MatchFirst(p, [LEFT, RIGHT], v) == Matched(Named(1, t));
    }
    LargeRuns(p, c, 1, t, s, q);
    assert Pop(Push(s, Named(1, t))) == s;
    assert [EITHER] + [] == [EITHER] && [EITHER.(pat := LEFT)] + [right] == Distributed(EITHER);
    FirstArm(p, c, id, EITHER, [], v, s, q);
    RunArmPassed(p, c, Match(id, OpaqueExpr(0), []), 0, v, s, q);
    FirstArm(p, c, id, EITHER.(pat := LEFT), [right], v, s, q);
    RightAnswers(p, c, id, t, s, q);
  }

  lemma RightAnswers(p: Package, c: Ctx, id: nat, t: TypeIdx, s: Scope, q: nat)
    requires TagOf(p, t) == Tuple && TagOf(p, ExprType(p, c, 3)) != Error
    ensures Arms(p, c, id, [EITHER.(pat := RIGHT)], Pair(t), s, q).o == Val(Typed(VInt(10), ExprType(p, c, id)))
  {
    hide Run, MatchPattern, Lookup, Push, Pop;
    var right, inner := EITHER.(pat := RIGHT), Push(s, Named(10, t));
    PairMatches(p, t);
    LargeRuns(p, c, 10, t, s, q);
    assert [right] + [] == [right];
    FirstArm(p, c, id, right, [], Pair(t), s, q);
    NamedFound(s, 10, t);
    RunLeaf(p, InStmt(c), EITHER.body, inner, q);
  }
}
