/**
 Matching inside an anonymous tuple (src/analyzer/comp_evaluator.cc, comp_match_pattern).

 The evaluator matches a tuple's elements under the tuple's own type, where binding them uses
 the element's. `MatchTyped` is the match the types call for; the lemmas say for every pattern
 when the evaluator's match is that one, and show what it does where it is not.
 */
module Tuples {
  import opened Machine
  import opened Lang
  import opened Patterns
  import opened Semantics

  // ----- the match the types call for -----------------------------------------------------------

  /** A match whose tuple elements have their own types (`typed`), or the tuple's, as in the source. */
  function MatchAs(p: Package, typed: bool, pat: Pattern, v: Typed): PatResult
    decreases pat
  {
    match pat
    case Wild => Matched([])
    case Ident(name) => Matched([Binding(name, v)])
    case LitPat(lit) => MatchLiteral(p, lit, v)
    case TuplePat(elements) =>
      if !v.value.VTuple? || |elements| != |v.value.fields| then NoMatch
      else if !typed then EachAs(p, typed, elements, With(v.value.fields, Same(v.ty, |elements|)))
      else if |TupleShape(p, v.ty)| != |elements| then NoMatch
      else EachAs(p, typed, elements, With(v.value.fields, TupleShape(p, v.ty)))
    case VariantPat(path, elements) =>
      var (status, payloads) := VariantFields(p, path, v);
      if !status.Matched? then status
      else if |elements| != |payloads| then NoMatch
      else EachAs(p, typed, elements, payloads)
    case StructPat(members) => if !v.value.VStruct? then NoMatch else MembersAs(p, typed, members, v)
    case RefPat(inner) => MatchAs(p, typed, inner, v)
    case OrPat(alternatives) => FirstAs(p, typed, alternatives, v)
  }

  function Same(t: TypeIdx, n: nat): (ts: seq<TypeIdx>)
    ensures |ts| == n
  {
    seq(n, _ => t)
  }

  /** Values with their types beside them. */
  function With(vs: seq<Value>, ts: seq<TypeIdx>): (r: seq<Typed>)
    requires |vs| == |ts|
    ensures |r| == |vs|
  {
    seq(|vs|, i requires 0 <= i < |vs| => Typed(vs[i], ts[i]))
  }

  function EachAs(p: Package, typed: bool, pats: seq<Pattern>, vs: seq<Typed>): PatResult
    requires |pats| == |vs|
    decreases pats
  {
    if pats == [] then Matched([])
    else
      var head := MatchAs(p, typed, pats[0], vs[0]);
      if head.Matched? then Then(EachAs(p, typed, pats[1..], vs[1..]), head.bindings) else head
  }

  function MembersAs(p: Package, typed: bool, members: seq<FieldPat>, v: Typed): PatResult
    requires v.value.VStruct?
    decreases members
  {
    if members == [] then Matched([])
    else match StructMember(p, v, members[0].name)
      case NoMember(f) => PatFail(f)
      case Member(m) =>
        var head := MatchAs(p, typed, members[0].pat, m);
        if head.Matched? then Then(MembersAs(p, typed, members[1..], v), head.bindings) else head
  }

  function FirstAs(p: Package, typed: bool, pats: seq<Pattern>, v: Typed): PatResult
    decreases pats
  {
    if pats == [] then NoMatch
    else
      var head := MatchAs(p, typed, pats[0], v);
      if head.NoMatch? then FirstAs(p, typed, pats[1..], v) else head
  }

  function MatchTyped(p: Package, pat: Pattern, v: Typed): PatResult { MatchAs(p, true, pat, v) }

  // ----- the evaluator's match is the untyped one ------------------------------------------------

  lemma {:induction false} AsWritten(p: Package, pat: Pattern, v: Typed)
    ensures MatchAs(p, false, pat, v) == MatchPattern(p, pat, v)
    decreases pat
  {
    hide StructMember, VariantFields, MatchLiteral;
    match pat
    case TuplePat(elements) =>
      if v.value.VTuple? && |elements| == |v.value.fields| {
        EachAsWritten(p, elements, With(v.value.fields, Same(v.ty, |elements|)));
        assert With(v.value.fields, Same(v.ty, |elements|))
            == seq(|elements|, i requires 0 <= i < |elements| => Typed(v.value.fields[i], v.ty));
      }
    case VariantPat(path, elements) =>
      var payloads := VariantFields(p, path, v).1;
      if |elements| == |payloads| { EachAsWritten(p, elements, payloads); }
    case StructPat(members) => if v.value.VStruct? { MembersAsWritten(p, members, v); }
    case RefPat(inner) => AsWritten(p, inner, v);
    case OrPat(alternatives) => FirstAsWritten(p, alternatives, v);
    case Wild =>
    case Ident(_) =>
    case LitPat(_) =>
  }

  lemma {:induction false} EachAsWritten(p: Package, pats: seq<Pattern>, vs: seq<Typed>)
    requires |pats| == |vs|
    ensures EachAs(p, false, pats, vs) == MatchEach(p, pats, vs)
    decreases pats
  {
    hide MatchAs, MatchPattern;
    if pats != [] {
      AsWritten(p, pats[0], vs[0]);
      EachAsWritten(p, pats[1..], vs[1..]);
    }
  }

  lemma {:induction false} MembersAsWritten(p: Package, members: seq<FieldPat>, v: Typed)
    requires v.value.VStruct?
    ensures MembersAs(p, false, members, v) == MatchMembers(p, members, v)
    decreases members
  {
    hide MatchAs, MatchPattern, StructMember;
    if members != [] {
      if StructMember(p, v, members[0].name).Member? {
        AsWritten(p, members[0].pat, StructMember(p, v, members[0].name).val);
      }
      MembersAsWritten(p, members[1..], v);
    }
  }

  lemma {:induction false} FirstAsWritten(p: Package, pats: seq<Pattern>, v: Typed)
    ensures FirstAs(p, false, pats, v) == MatchFirst(p, pats, v)
    decreases pats
  {
    hide MatchAs, MatchPattern;
    if pats != [] {
      AsWritten(p, pats[0], v);
      FirstAsWritten(p, pats[1..], v);
    }
  }

  // ----- patterns that cannot tell the types apart ----------------------------------------------

  /**
   A pattern that matches alike at type `a` and at type `b`. Where the two differ, inside a
   tuple, it is a wildcard, a literal whose bits both types keep alike, or a tuple, reference
   or alternative of those: no name, no variant, no struct with members.
   */
  ghost predicate Blind(p: Package, pat: Pattern, a: TypeIdx, b: TypeIdx)
    decreases pat
  {
    match pat
    case Wild => true
    case Ident(_) => a == b
    case LitPat(lit) =>
      lit.IntLit? ==> LiteralBits(lit) % Modulus(TagOf(p, a)) == LiteralBits(lit) % Modulus(TagOf(p, b))
    case TuplePat(elements) =>
      && |TupleShape(p, b)| == |elements|
      && forall i :: 0 <= i < |elements| ==> Blind(p, elements[i], a, TupleShape(p, b)[i])
    case VariantPat(path, elements) =>
      && a == b
      && (path != [] && VariantIndex(p, b, path[|path| - 1]).Some? ==>
            var types := VariantPayload(p, b, VariantIndex(p, b, path[|path| - 1]).value);
            |types| == |elements| ==> forall i :: 0 <= i < |elements| ==> Blind(p, elements[i], types[i], types[i]))
    case StructPat(members) =>
      members != [] ==> a == b && forall i, t :: 0 <= i < |members| && MemberType(p, b, members[i].name) == Some(t) ==>
        Blind(p, members[i].pat, t, t)
    case RefPat(inner) => Blind(p, inner, a, b)
    case OrPat(alternatives) => forall i :: 0 <= i < |alternatives| ==> Blind(p, alternatives[i], a, b)
  }

  function MemberType(p: Package, t: TypeIdx, name: string): Option<TypeIdx> {
    match StructFieldIndex(p, t, name) case None => None case Some(i) => FieldType(p, t, i)
  }

  lemma {:induction false} BlindAgrees(p: Package, pat: Pattern, a: TypeIdx, b: TypeIdx, x: Value)
    requires Blind(p, pat, a, b)
    ensures MatchAs(p, false, pat, Typed(x, a)) == MatchAs(p, true, pat, Typed(x, b))
    decreases pat
  {
    hide StructMember, FieldType;
    match pat
    case TuplePat(elements) =>
      if x.VTuple? && |elements| == |x.fields| {
        EachBlindAgrees(p, elements, With(x.fields, Same(a, |elements|)), With(x.fields, TupleShape(p, b)));
      }
    case VariantPat(path, elements) =>
      var payloads := VariantFields(p, path, Typed(x, b)).1;
      if |elements| == |payloads| && VariantFields(p, path, Typed(x, b)).0.Matched? {
        EachBlindAgrees(p, elements, payloads, payloads);
      }
    case StructPat(members) => if x.VStruct? && members != [] { MembersBlindAgree(p, members, Typed(x, b)); }
    case RefPat(inner) => BlindAgrees(p, inner, a, b, x);
    case OrPat(alternatives) => FirstBlindAgrees(p, alternatives, a, b, x);
    case Wild =>
    case Ident(_) =>
    case LitPat(_) =>
  }

  lemma {:induction false} EachBlindAgrees(p: Package, pats: seq<Pattern>, vs: seq<Typed>, ws: seq<Typed>)
    requires |pats| == |vs| == |ws|
    requires forall i :: 0 <= i < |pats| ==> vs[i].value == ws[i].value && Blind(p, pats[i], vs[i].ty, ws[i].ty)
    ensures EachAs(p, false, pats, vs) == EachAs(p, true, pats, ws)
    decreases pats
  {
    hide MatchAs, Blind;
    if pats != [] {
      BlindAgrees(p, pats[0], vs[0].ty, ws[0].ty, vs[0].value);
      EachBlindAgrees(p, pats[1..], vs[1..], ws[1..]);
    }
  }

  lemma {:induction false} MembersBlindAgree(p: Package, members: seq<FieldPat>, v: Typed)
    requires v.value.VStruct?
    requires forall i, t :: 0 <= i < |members| && MemberType(p, v.ty, members[i].name) == Some(t) ==>
      Blind(p, members[i].pat, t, t)
    ensures MembersAs(p, false, members, v) == MembersAs(p, true, members, v)
    decreases members
  {
    hide MatchAs, Blind, FieldType;
    if members != [] {
      var m := StructMember(p, v, members[0].name);
      if m.Member? { BlindAgrees(p, members[0].pat, m.val.ty, m.val.ty, m.val.value); }
      MembersBlindAgree(p, members[1..], v);
    }
  }

  lemma {:induction false} FirstBlindAgrees(p: Package, pats: seq<Pattern>, a: TypeIdx, b: TypeIdx, x: Value)
    requires forall i :: 0 <= i < |pats| ==> Blind(p, pats[i], a, b)
    ensures FirstAs(p, false, pats, Typed(x, a)) == FirstAs(p, true, pats, Typed(x, b))
    decreases pats
  {
    hide MatchAs, Blind;
    if pats != [] {
      BlindAgrees(p, pats[0], a, b, x);
      FirstBlindAgrees(p, pats[1..], a, b, x);
    }
  }

  // ----- patterns that can ------------------------------------------------------------------------

  ghost predicate OrFree(pat: Pattern) {
    match pat
    case TuplePat(elements) => forall i :: 0 <= i < |elements| ==> OrFree(elements[i])
    case VariantPat(_, elements) => forall i :: 0 <= i < |elements| ==> OrFree(elements[i])
    case StructPat(members) => forall i :: 0 <= i < |members| ==> OrFree(members[i].pat)
    case RefPat(inner) => OrFree(inner)
    case OrPat(_) => false
    case Wild => true
    case Ident(_) => true
    case LitPat(_) => true
  }

  /** A tuple type, which the tables of structs and enums do not list. */
  ghost predicate TupleType(p: Package, t: TypeIdx) {
    Row(p, t).TupleRow? && t !in p.enums && StructFields(p, t).None?
  }

  ghost predicate Tabled(p: Package) { forall t :: Row(p, t).TupleRow? ==> TupleType(p, t) }

  /** How many names a pattern without alternatives binds. */
  function NamesIn(pat: Pattern): nat
    decreases pat
  {
    match pat
    case Ident(_) => 1
    case TuplePat(elements) => NamesInAll(elements)
    case VariantPat(_, elements) => NamesInAll(elements)
    case StructPat(members) => NamesInMembers(members)
    case RefPat(inner) => NamesIn(inner)
    case Wild | LitPat(_) | OrPat(_) => 0
  }

  function NamesInAll(pats: seq<Pattern>): nat
    decreases pats
  {
    if pats == [] then 0 else NamesIn(pats[0]) + NamesInAll(pats[1..])
  }

  function NamesInMembers(members: seq<FieldPat>): nat
    decreases members
  {
    if members == [] then 0 else NamesIn(members[0].pat) + NamesInMembers(members[1..])
  }

  lemma {:induction false} BindsSoMany(p: Package, typed: bool, pat: Pattern, v: Typed)
    requires OrFree(pat)
    ensures var r := MatchAs(p, typed, pat, v); r.Matched? ==> |r.bindings| == NamesIn(pat)
    decreases pat
  {
    hide StructMember, VariantFields;
    match pat
    case TuplePat(elements) =>
      if v.value.VTuple? && |elements| == |v.value.fields| {
        EachBindsSoMany(p, typed, elements, With(v.value.fields, Same(v.ty, |elements|)));
        if |TupleShape(p, v.ty)| == |elements| {
          EachBindsSoMany(p, typed, elements, With(v.value.fields, TupleShape(p, v.ty)));
        }
      }
    case VariantPat(path, elements) =>
      var payloads := VariantFields(p, path, v).1;
      if |elements| == |payloads| { EachBindsSoMany(p, typed, elements, payloads); }
    case StructPat(members) => if v.value.VStruct? { MembersBindSoMany(p, typed, members, v); }
    case RefPat(inner) => BindsSoMany(p, typed, inner, v);
    case Wild =>
    case Ident(_) =>
    case LitPat(_) =>
  }

  lemma {:induction false} EachBindsSoMany(p: Package, typed: bool, pats: seq<Pattern>, vs: seq<Typed>)
    requires |pats| == |vs| && forall i :: 0 <= i < |pats| ==> OrFree(pats[i])
    ensures var r := EachAs(p, typed, pats, vs); r.Matched? ==> |r.bindings| == NamesInAll(pats)
    decreases pats
  {
    hide MatchAs, OrFree, NamesIn;
    if pats != [] {
      BindsSoMany(p, typed, pats[0], vs[0]);
      EachBindsSoMany(p, typed, pats[1..], vs[1..]);
    }
  }

  lemma {:induction false} MembersBindSoMany(p: Package, typed: bool, members: seq<FieldPat>, v: Typed)
    requires v.value.VStruct? && forall i :: 0 <= i < |members| ==> OrFree(members[i].pat)
    ensures var r := MembersAs(p, typed, members, v); r.Matched? ==> |r.bindings| == NamesInMembers(members)
    decreases members
  {
    hide MatchAs, OrFree, NamesIn, StructMember;
    if members != [] {
      var m := StructMember(p, v, members[0].name);
      if m.Member? { BindsSoMany(p, typed, members[0].pat, m.val); }
      MembersBindSoMany(p, typed, members[1..], v);
    }
  }

  ghost predicate Apart(p: Package, a: TypeIdx, b: TypeIdx) { a == b || TupleType(p, a) }

  /** One value matched alike, with like bindings, shows that the pattern is blind. */
  lemma {:induction false} MatchedAlikeIsBlind(p: Package, pat: Pattern, a: TypeIdx, b: TypeIdx, x: Value)
    requires Tabled(p) && OrFree(pat) && Apart(p, a, b)
    requires var r := MatchAs(p, true, pat, Typed(x, b)); r.Matched? && MatchAs(p, false, pat, Typed(x, a)) == r
    ensures Blind(p, pat, a, b)
    decreases pat
  {
    hide StructMember, FieldType, MatchLiteral, VariantFields;
    match pat
    case TuplePat(elements) =>
      var shape := TupleShape(p, b);
      if elements != [] { assert a == b ==> TupleType(p, a); }
      EachAlikeIsBlind(p, elements, With(x.fields, Same(a, |elements|)), With(x.fields, shape));
    case VariantPat(path, elements) => VariantAlike(p, path, elements, a, b, x);
    case StructPat(members) =>
      if members != [] {
        StructKnown(p, members[0].name, a, b, x);
        MembersAlikeIsBlind(p, members, Typed(x, b));
      }
    case RefPat(inner) => MatchedAlikeIsBlind(p, inner, a, b, x);
    case LitPat(lit) => LiteralAlike(p, lit, a, b, x);
    case Wild =>
    case Ident(_) =>
  }

  lemma {:induction false} VariantAlike(
    p: Package, path: seq<string>, elements: seq<Pattern>, a: TypeIdx, b: TypeIdx, x: Value
  )
    requires Tabled(p) && Apart(p, a, b) && forall i :: 0 <= i < |elements| ==> OrFree(elements[i])
    requires var v, w := VariantFields(p, path, Typed(x, a)), VariantFields(p, path, Typed(x, b));
      && v.0.Matched? && w.0.Matched? && |v.1| == |w.1| == |elements|
      && EachAs(p, true, elements, w.1).Matched? && EachAs(p, false, elements, v.1) == EachAs(p, true, elements, w.1)
    ensures Blind(p, VariantPat(path, elements), a, b)
    decreases elements, 1
  {
    EachAlikeIsBlind(p, elements, VariantFields(p, path, Typed(x, a)).1, VariantFields(p, path, Typed(x, b)).1);
  }

  lemma LiteralAlike(p: Package, lit: Literal, a: TypeIdx, b: TypeIdx, x: Value)
    requires MatchLiteral(p, lit, Typed(x, a)).Matched? && MatchLiteral(p, lit, Typed(x, b)).Matched?
    ensures Blind(p, LitPat(lit), a, b)
  {
  }

  /** A struct value has no member to show at a tuple type. */
  lemma StructKnown(p: Package, name: string, a: TypeIdx, b: TypeIdx, x: Value)
    requires x.VStruct? && Apart(p, a, b) && StructMember(p, Typed(x, a), name).Member?
    ensures a == b
  {
  }

  lemma {:induction false} EachAlikeIsBlind(p: Package, pats: seq<Pattern>, vs: seq<Typed>, ws: seq<Typed>)
    requires Tabled(p) && |pats| == |vs| == |ws| && forall i :: 0 <= i < |pats| ==> OrFree(pats[i])
    requires forall i :: 0 <= i < |pats| ==> vs[i].value == ws[i].value && Apart(p, vs[i].ty, ws[i].ty)
    requires var r := EachAs(p, true, pats, ws); r.Matched? && EachAs(p, false, pats, vs) == r
    ensures forall i :: 0 <= i < |pats| ==> Blind(p, pats[i], vs[i].ty, ws[i].ty)
    decreases pats, 0
  {
    hide MatchAs, Blind, OrFree, Tabled, Apart, NamesIn;
    if pats != [] {
      var h, g := MatchAs(p, true, pats[0], ws[0]), MatchAs(p, false, pats[0], vs[0]);
      var t, u := EachAs(p, true, pats[1..], ws[1..]), EachAs(p, false, pats[1..], vs[1..]);
      BindsSoMany(p, true, pats[0], ws[0]);
      BindsSoMany(p, false, pats[0], vs[0]);
      Halves(h.bindings, t.bindings, g.bindings, u.bindings);
      MatchedAlikeIsBlind(p, pats[0], vs[0].ty, ws[0].ty, vs[0].value);
      EachAlikeIsBlind(p, pats[1..], vs[1..], ws[1..]);
      forall i | 0 <= i < |pats| ensures Blind(p, pats[i], vs[i].ty, ws[i].ty) {
        if i > 0 { assert pats[i] == pats[1..][i - 1] && vs[i] == vs[1..][i - 1] && ws[i] == ws[1..][i - 1]; }
      }
    }
  }

  lemma Halves<T>(a: seq<T>, b: seq<T>, c: seq<T>, d: seq<T>)
    requires |a| == |c| && a + b == c + d
    ensures a == c && b == d
  {
    assert a == (a + b)[..|a|] && c == (c + d)[..|a|];
    assert b == (a + b)[|a|..] && d == (c + d)[|a|..];
  }

  lemma {:induction false} MembersAlikeIsBlind(p: Package, members: seq<FieldPat>, v: Typed)
    requires Tabled(p) && v.value.VStruct? && forall i :: 0 <= i < |members| ==> OrFree(members[i].pat)
    requires var r := MembersAs(p, true, members, v); r.Matched? && MembersAs(p, false, members, v) == r
    ensures forall i, t :: 0 <= i < |members| && MemberType(p, v.ty, members[i].name) == Some(t) ==>
      Blind(p, members[i].pat, t, t)
    decreases members
  {
    hide MatchAs, Blind, OrFree, Tabled, NamesIn, FieldType;
    if members != [] {
      var m := StructMember(p, v, members[0].name).val;
      var h, g := MatchAs(p, true, members[0].pat, m), MatchAs(p, false, members[0].pat, m);
      var t, u := MembersAs(p, true, members[1..], v), MembersAs(p, false, members[1..], v);
      BindsSoMany(p, true, members[0].pat, m);
      BindsSoMany(p, false, members[0].pat, m);
      Halves(h.bindings, t.bindings, g.bindings, u.bindings);
      MatchedAlikeIsBlind(p, members[0].pat, m.ty, m.ty, m.value);
      MembersAlikeIsBlind(p, members[1..], v);
    }
  }

  // ----- exactly when the evaluator matches as the types say ------------------------------------------

  /** Some value matches the pattern at its type. */
  ghost predicate Live(p: Package, pat: Pattern, t: TypeIdx) { exists x :: MatchTyped(p, pat, Typed(x, t)).Matched? }

  ghost predicate MatchesAsTyped(p: Package, pat: Pattern, t: TypeIdx) {
    forall x :: MatchPattern(p, pat, Typed(x, t)) == MatchTyped(p, pat, Typed(x, t))
  }

  /**
   The evaluator matches every value as the pattern's types say exactly when no tuple in the
   pattern holds anything that tells the tuple's type from the element's.
   */
  lemma MatchesAsTypedExactly(p: Package, pat: Pattern, t: TypeIdx)
    requires Tabled(p)
    ensures Blind(p, pat, t, t) ==> MatchesAsTyped(p, pat, t)
    ensures OrFree(pat) && Live(p, pat, t) ==> (MatchesAsTyped(p, pat, t) <==> Blind(p, pat, t, t))
  {
    hide MatchAs, MatchPattern, Blind, OrFree, Tabled;
    if Blind(p, pat, t, t) {
      forall x ensures MatchPattern(p, pat, Typed(x, t)) == MatchTyped(p, pat, Typed(x, t)) {
        AsWritten(p, pat, Typed(x, t));
        BlindAgrees(p, pat, t, t, x);
      }
    }
    if OrFree(pat) && Live(p, pat, t) && MatchesAsTyped(p, pat, t) {
      var x :| MatchTyped(p, pat, Typed(x, t)).Matched?;
      AsWritten(p, pat, Typed(x, t));
      MatchedAlikeIsBlind(p, pat, t, t, x);
    }
  }

  /** A pattern with one alternative taken at each `|`, as the specification distributes them. */
  ghost predicate ChoiceOf(pat: Pattern, q: Pattern)
    decreases pat
  {
    match pat
    case TuplePat(elements) =>
      && q.TuplePat? && |q.elements| == |elements|
      && forall i :: 0 <= i < |elements| ==> ChoiceOf(elements[i], q.elements[i])
    case VariantPat(path, elements) =>
      && q.VariantPat? && q.path == path && |q.elements| == |elements|
      && forall i :: 0 <= i < |elements| ==> ChoiceOf(elements[i], q.elements[i])
    case StructPat(members) =>
      && q.StructPat? && |q.members| == |members|
      && forall i :: 0 <= i < |members| ==>
        q.members[i].name == members[i].name && ChoiceOf(members[i].pat, q.members[i].pat)
    case RefPat(inner) => q.RefPat? && ChoiceOf(inner, q.inner)
    case OrPat(alternatives) => exists i :: 0 <= i < |alternatives| && ChoiceOf(alternatives[i], q)
    case Wild => q == pat
    case Ident(_) => q == pat
    case LitPat(_) => q == pat
  }

  /** Every `|` has something to choose from. */
  ghost predicate Full(pat: Pattern) {
    match pat
    case TuplePat(elements) => forall i :: 0 <= i < |elements| ==> Full(elements[i])
    case VariantPat(_, elements) => forall i :: 0 <= i < |elements| ==> Full(elements[i])
    case StructPat(members) => forall i :: 0 <= i < |members| ==> Full(members[i].pat)
    case RefPat(inner) => Full(inner)
    case OrPat(alternatives) => alternatives != [] && forall i :: 0 <= i < |alternatives| ==> Full(alternatives[i])
    case Wild => true
    case Ident(_) => true
    case LitPat(_) => true
  }

  /** The first alternative everywhere. */
  ghost function Leftmost(pat: Pattern): (q: Pattern)
    requires Full(pat)
    ensures ChoiceOf(pat, q)
    decreases pat
  {
    match pat
    case TuplePat(elements) => TuplePat(seq(|elements|, i requires 0 <= i < |elements| => Leftmost(elements[i])))
    case VariantPat(path, elements) =>
      VariantPat(path, seq(|elements|, i requires 0 <= i < |elements| => Leftmost(elements[i])))
    case StructPat(members) =>
      StructPat(seq(|members|, i requires 0 <= i < |members| => FieldPat(members[i].name, Leftmost(members[i].pat))))
    case RefPat(inner) => RefPat(Leftmost(inner))
    case OrPat(alternatives) => Leftmost(alternatives[0])
    case Wild => pat
    case Ident(_) => pat
    case LitPat(_) => pat
  }

  lemma {:induction false} ChoiceOrFree(pat: Pattern, q: Pattern)
    requires ChoiceOf(pat, q)
    ensures OrFree(q)
    decreases pat
  {
    match pat
    case TuplePat(elements) =>
      forall i | 0 <= i < |elements| ensures OrFree(q.elements[i]) { ChoiceOrFree(elements[i], q.elements[i]); }
    case VariantPat(_, elements) =>
      forall i | 0 <= i < |elements| ensures OrFree(q.elements[i]) { ChoiceOrFree(elements[i], q.elements[i]); }
    case StructPat(members) =>
      forall i | 0 <= i < |members| ensures OrFree(q.members[i].pat) { ChoiceOrFree(members[i].pat, q.members[i].pat); }
    case RefPat(inner) => ChoiceOrFree(inner, q.inner);
    case OrPat(alternatives) =>
      var i :| 0 <= i < |alternatives| && ChoiceOf(alternatives[i], q);
      ChoiceOrFree(alternatives[i], q);
    case Wild =>
    case Ident(_) =>
    case LitPat(_) =>
  }

  lemma {:induction false} ChoiceBlind(p: Package, pat: Pattern, q: Pattern, a: TypeIdx, b: TypeIdx)
    requires ChoiceOf(pat, q) && Blind(p, pat, a, b)
    ensures Blind(p, q, a, b)
    decreases pat
  {
    match pat
    case TuplePat(elements) =>
      forall i | 0 <= i < |elements| ensures Blind(p, q.elements[i], a, TupleShape(p, b)[i]) {
        ChoiceBlind(p, elements[i], q.elements[i], a, TupleShape(p, b)[i]);
      }
    case VariantPat(path, elements) =>
      if path != [] && VariantIndex(p, b, path[|path| - 1]).Some? {
        var types := VariantPayload(p, b, VariantIndex(p, b, path[|path| - 1]).value);
        if |types| == |elements| {
          forall i | 0 <= i < |elements| ensures Blind(p, q.elements[i], types[i], types[i]) {
            ChoiceBlind(p, elements[i], q.elements[i], types[i], types[i]);
          }
        }
      }
    case StructPat(members) =>
      forall i, t | 0 <= i < |members| && MemberType(p, b, members[i].name) == Some(t)
        ensures Blind(p, q.members[i].pat, t, t)
      {
        ChoiceBlind(p, members[i].pat, q.members[i].pat, t, t);
      }
    case RefPat(inner) => ChoiceBlind(p, inner, q.inner, a, b);
    case OrPat(alternatives) =>
      var i :| 0 <= i < |alternatives| && ChoiceOf(alternatives[i], q);
      ChoiceBlind(p, alternatives[i], q, a, b);
    case Wild =>
    case Ident(_) =>
    case LitPat(_) =>
  }

  ghost predicate EveryChoice(p: Package, pat: Pattern, a: TypeIdx, b: TypeIdx) {
    forall q :: ChoiceOf(pat, q) ==> Blind(p, q, a, b)
  }

  lemma {:induction false} EveryChoiceBlind(p: Package, pat: Pattern, a: TypeIdx, b: TypeIdx)
    requires Full(pat) && EveryChoice(p, pat, a, b)
    ensures Blind(p, pat, a, b)
    decreases pat, 1
  {
    assert Blind(p, Leftmost(pat), a, b);
    match pat
    case TuplePat(elements) =>
      forall i | 0 <= i < |elements| ensures Blind(p, elements[i], a, TupleShape(p, b)[i]) {
        forall q | ChoiceOf(elements[i], q) ensures Blind(p, q, a, TupleShape(p, b)[i]) {
          var all := TuplePat(Leftmost(pat).elements[i := q]);
          assert ChoiceOf(pat, all);
          assert all.elements[i] == q;
        }
        EveryChoiceBlind(p, elements[i], a, TupleShape(p, b)[i]);
      }
    case VariantPat(path, elements) => VariantChoices(p, pat, b);
    case StructPat(members) => if members != [] { StructChoices(p, pat, b); }
    case RefPat(inner) =>
      forall q | ChoiceOf(inner, q) ensures Blind(p, q, a, b) { assert ChoiceOf(pat, RefPat(q)); }
      EveryChoiceBlind(p, inner, a, b);
    case OrPat(alternatives) =>
      forall i | 0 <= i < |alternatives| ensures Blind(p, alternatives[i], a, b) {
        EveryChoiceBlind(p, alternatives[i], a, b);
      }
    case Wild =>
    case Ident(_) =>
    case LitPat(_) =>
  }

  lemma {:induction false} VariantChoices(p: Package, pat: Pattern, b: TypeIdx)
    requires pat.VariantPat? && Full(pat) && EveryChoice(p, pat, b, b)
    ensures Blind(p, pat, b, b)
    decreases pat, 0
  {
    var path, elements := pat.path, pat.elements;
    if path != [] && VariantIndex(p, b, path[|path| - 1]).Some? {
      var types := VariantPayload(p, b, VariantIndex(p, b, path[|path| - 1]).value);
      if |types| == |elements| {
        forall i | 0 <= i < |elements| ensures Blind(p, elements[i], types[i], types[i]) {
          forall q | ChoiceOf(elements[i], q) ensures Blind(p, q, types[i], types[i]) {
            var all := VariantPat(path, Leftmost(pat).elements[i := q]);
            assert ChoiceOf(pat, all);
            assert all.elements[i] == q;
          }
          EveryChoiceBlind(p, elements[i], types[i], types[i]);
        }
      }
    }
  }

  lemma {:induction false} StructChoices(p: Package, pat: Pattern, b: TypeIdx)
    requires pat.StructPat? && pat.members != [] && Full(pat) && EveryChoice(p, pat, b, b)
    ensures Blind(p, pat, b, b)
    decreases pat, 0
  {
    var members := pat.members;
    forall i, t | 0 <= i < |members| && MemberType(p, b, members[i].name) == Some(t)
      ensures Blind(p, members[i].pat, t, t)
    {
      forall q | ChoiceOf(members[i].pat, q) ensures Blind(p, q, t, t) {
        var all := StructPat(Leftmost(pat).members[i := FieldPat(members[i].name, q)]);
        assert ChoiceOf(pat, all);
        assert all.members[i].pat == q;
      }
      EveryChoiceBlind(p, members[i].pat, t, t);
    }
  }

  /**
   With alternatives: the evaluator matches each distributed form of the pattern as its types
   say exactly when the pattern as a whole is blind, and then it matches the pattern so too.
   */
  lemma AlternativesMatchExactly(p: Package, pat: Pattern, t: TypeIdx)
    requires Tabled(p) && Full(pat)
    ensures (forall q :: ChoiceOf(pat, q) ==> Live(p, q, t)) ==>
      ((forall q :: ChoiceOf(pat, q) ==> MatchesAsTyped(p, q, t)) <==> Blind(p, pat, t, t))
    ensures Blind(p, pat, t, t) ==> MatchesAsTyped(p, pat, t)
  {
    hide Blind, MatchesAsTyped, Live, ChoiceOf, Full, Tabled;
    MatchesAsTypedExactly(p, pat, t);
    forall q | ChoiceOf(pat, q) ensures Live(p, q, t) ==> (MatchesAsTyped(p, q, t) <==> Blind(p, q, t, t)) {
      ChoiceOrFree(pat, q);
      MatchesAsTypedExactly(p, q, t);
    }
    if EveryChoice(p, pat, t, t) { EveryChoiceBlind(p, pat, t, t); }
    if Blind(p, pat, t, t) {
      forall q | ChoiceOf(pat, q) ensures Blind(p, q, t, t) { ChoiceBlind(p, pat, q, t, t); }
    }
  }

  // ----- what it does otherwise -------------------------------------------------------------------------

  /** No value matches a tuple pattern with a variant in it: the variant is looked up in the tuple's type. */
  lemma VariantNeverMatches(p: Package, elements: seq<Pattern>, i: nat, x: Value, t: TypeIdx)
    requires TupleType(p, t) && i < |elements| && elements[i].VariantPat?
    ensures !MatchPattern(p, TuplePat(elements), Typed(x, t)).Matched?
  {
    if x.VTuple? && |elements| == |x.fields| {
      var vs := seq(|elements|, k requires 0 <= k < |elements| => Typed(x.fields[k], t));
      EachStopsAtVariant(p, elements, vs, i);
    }
  }

  lemma {:induction false} EachStopsAtVariant(p: Package, pats: seq<Pattern>, vs: seq<Typed>, i: nat)
    requires |pats| == |vs| && i < |pats| && pats[i].VariantPat? && TupleType(p, vs[i].ty)
    ensures !MatchEach(p, pats, vs).Matched?
    decreases i
  {
    if i == 0 {
      hide MatchEach;
      assert !MatchPattern(p, pats[0], vs[0]).Matched?;
    } else {
      hide MatchPattern;
      EachStopsAtVariant(p, pats[1..], vs[1..], i - 1);
    }
  }

  /** By its type the variant would match. */
  lemma VariantInTuple(p: Package, t: TypeIdx, e: TypeIdx, path: seq<string>, k: nat)
    requires TupleType(p, t) && TupleShape(p, t) == [e] && path != []
    requires VariantIndex(p, e, path[|path| - 1]) == Some(k) && VariantPayload(p, e, k) == []
    ensures var held := Typed(VTuple([VEnum(k, [])]), t);
      && MatchTyped(p, TuplePat([VariantPat(path, [])]), held) == Matched([])
      && MatchPattern(p, TuplePat([VariantPat(path, [])]), held) == NoMatch
  {
    var pat, x := VariantPat(path, []), VEnum(k, []);
    assert With([x], [e]) == [Typed(x, e)] && With([x], Same(t, 1)) == [Typed(x, t)];
    OneElement(p, true, pat, Typed(x, e));
    OneElement(p, false, pat, Typed(x, t));
    AsWritten(p, TuplePat([pat]), Typed(VTuple([x]), t));
  }

  lemma OneElement(p: Package, typed: bool, pat: Pattern, v: Typed)
    ensures EachAs(p, typed, [pat], [v]) == MatchAs(p, typed, pat, v)
  {
    hide MatchAs;
    assert [pat][1..] == [] && [v][1..] == [];
    var r := MatchAs(p, typed, pat, v);
    assert r.Matched? ==> r.bindings + [] == r.bindings;
  }

  /** `(a, b)` against `(200u8, 100u8)`: both names have the tuple's type, and their sum does not overflow. */
  lemma NamesInTuple(p: Package, t: TypeIdx, e: TypeIdx, r: TypeIdx)
    requires TupleType(p, t) && TupleShape(p, t) == [e, e] && TagOf(p, e) == U8
    ensures var pat := TuplePat([Ident("a"), Ident("b")]);
            var held := Typed(VTuple([VInt(200), VInt(100)]), t);
      && MatchTyped(p, pat, held) == Matched([Binding("a", Typed(VInt(200), e)), Binding("b", Typed(VInt(100), e))])
      && MatchPattern(p, pat, held) == Matched([Binding("a", Typed(VInt(200), t)), Binding("b", Typed(VInt(100), t))])
      && BinaryAnswer(p, r, Add, [Typed(VInt(200), e), Typed(VInt(100), e)]) == Stop(Overflow)
      && BinaryAnswer(p, r, Add, [Typed(VInt(200), t), Typed(VInt(100), t)]) == Val(Typed(VInt(300), r))
  {
    SumOverflows(p, t, e, r);
    hide BinaryAnswer, EachAs;
    var pats, x, y := [Ident("a"), Ident("b")], VInt(200), VInt(100);
    TwoNames(p, true, Typed(x, e), Typed(y, e));
    TwoNames(p, false, Typed(x, t), Typed(y, t));
    assert With([x, y], [e, e]) == [Typed(x, e), Typed(y, e)];
    assert With([x, y], Same(t, 2)) == [Typed(x, t), Typed(y, t)];
    AsWritten(p, TuplePat(pats), Typed(VTuple([x, y]), t));
    hide MatchPattern;
  }

  lemma SumOverflows(p: Package, t: TypeIdx, e: TypeIdx, r: TypeIdx)
    requires TagOf(p, t) == Tuple && TagOf(p, e) == U8
    ensures BinaryAnswer(p, r, Add, [Typed(VInt(200), e), Typed(VInt(100), e)]) == Stop(Overflow)
    ensures BinaryAnswer(p, r, Add, [Typed(VInt(200), t), Typed(VInt(100), t)]) == Val(Typed(VInt(300), r))
  {
    hide Apply, Equal, Ordered;
    ThreeHundred();
    assert 200 % Modulus(U8) == 200 && 100 % Modulus(U8) == 100 && 200 % Modulus(Tuple) == 200 &&
      100 % Modulus(Tuple) == 100;
    hide TagOf;
  }

  lemma ThreeHundred()
    ensures Apply(Add, U8, 200, 100) == IntErr(Overflow) && Apply(Add, Tuple, 200, 100) == IntOk(300)
  {
  }

  lemma TwoNames(p: Package, typed: bool, v: Typed, w: Typed)
    ensures EachAs(p, typed, [Ident("a"), Ident("b")], [v, w]) == Matched([Binding("a", v), Binding("b", w)])
  {
    var pats := [Ident("a"), Ident("b")];
    assert pats[1..] == [Ident("b")] && [v, w][1..] == [w] && [Ident("b")][1..] == [] && [w][1..] == [];
    assert EachAs(p, typed, [Ident("b")], [w]) == Matched([Binding("b", w)]);
  }
}
