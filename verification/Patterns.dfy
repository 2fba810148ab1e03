/**
 Pattern matching and binding (src/analyzer/comp_evaluator.cc, comp_match_pattern and
 comp_bind_pattern) as functions on values: which bindings a pattern makes of a value.
 */
module Patterns {
  import opened Machine
  import opened Lang

  datatype PatResult = Matched(bindings: Frame) | NoMatch | PatFail(failure: Failure)

  /** What binding did: on failure, the bindings already made stay made. */
  datatype BindResult = BindResult(ok: bool, bindings: Frame, failure: Failure)

  /** Matching records only these; everything else is a plain mismatch. */
  predicate PatternRecord(r: PatResult) { r.PatFail? ==> r.failure == Program || r.failure == Internal }

  /** The bits a literal stands for, before any mask. */
  function LiteralBits(lit: Literal): nat
    requires lit.IntLit?
  {
    if lit.negative then ToU64(-(lit.magnitude as int)) else lit.magnitude
  }

  function MatchLiteral(p: Package, lit: Literal, v: Typed): (r: PatResult)
    ensures PatternRecord(r)
  {
    match lit
    case BoolLit(b) => if v.value == VBool(b) then Matched([]) else NoMatch
    case IntLit(_, _) =>
      if v.value == VInt(LiteralBits(lit) % Modulus(TagOf(p, v.ty))) then Matched([]) else NoMatch
    case StrLit(s) => if v.value == VStr(s) then Matched([]) else NoMatch
    case OtherLit => PatFail(Program)
  }

  /** The payloads an enum value offers the variant `name`, or why it offers none. */
  function VariantFields(p: Package, path: seq<string>, v: Typed): (r: (PatResult, seq<Typed>))
    ensures PatternRecord(r.0)
  {
    if path == [] then (PatFail(Program), [])
    else if !v.value.VEnum? then (NoMatch, [])
    else if VariantIndex(p, v.ty, path[|path| - 1]) != Some(v.value.variant) then (NoMatch, [])
    else
      var types := VariantPayload(p, v.ty, v.value.variant);
      if |types| != |v.value.fields| then (PatFail(Program), [])
      else (Matched([]), seq(|types|, i requires 0 <= i < |types| => Typed(v.value.fields[i], types[i])))
  }

  /** One member of a struct value, or the failure reading it records. */
  datatype Member = Member(val: Typed) | NoMember(failure: Failure)

  function StructMember(p: Package, v: Typed, name: string): (r: Member)
    requires v.value.VStruct?
    ensures r.NoMember? ==> r.failure == Program || r.failure == Internal
  {
    match StructFieldIndex(p, v.ty, name)
    case None => NoMember(Program)
    case Some(i) =>
      if i >= |v.value.fields| then NoMember(Program)
      else match FieldType(p, v.ty, i)
           case None => NoMember(Internal)
           case Some(t) => Member(Typed(v.value.fields[i], t))
  }

  function MatchPattern(p: Package, pat: Pattern, v: Typed): (r: PatResult)
    ensures PatternRecord(r)
    decreases pat
  {
    match pat
    case Wild => Matched([])
    case Ident(name) => Matched([Binding(name, v)])
    case LitPat(lit) => MatchLiteral(p, lit, v)
    case TuplePat(elements) =>
      if !v.value.VTuple? || |elements| != |v.value.fields| then NoMatch
      // Every element is matched under the tuple's own type.
      else MatchEach(p, elements, seq(|elements|, i requires 0 <= i < |elements| => Typed(v.value.fields[i], v.ty)))
    case VariantPat(path, elements) =>
      var (status, payloads) := VariantFields(p, path, v);
      if !status.Matched? then status
      else if |elements| != |payloads| then NoMatch
      else MatchEach(p, elements, payloads)
    case StructPat(members) =>
      if !v.value.VStruct? then NoMatch else MatchMembers(p, members, v)
    case RefPat(inner) => MatchPattern(p, inner, v)
    case OrPat(alternatives) => MatchFirst(p, alternatives, v)
  }

  function Then(r: PatResult, bs: Frame): PatResult {
    if r.Matched? then Matched(bs + r.bindings) else r
  }

  function MatchEach(p: Package, pats: seq<Pattern>, vs: seq<Typed>): (r: PatResult)
    requires |pats| == |vs|
    ensures PatternRecord(r)
    decreases pats
  {
    if pats == [] then Matched([])
    else
      var head := MatchPattern(p, pats[0], vs[0]);
      if head.Matched? then Then(MatchEach(p, pats[1..], vs[1..]), head.bindings) else head
  }

  function MatchMembers(p: Package, members: seq<FieldPat>, v: Typed): (r: PatResult)
    requires v.value.VStruct?
    ensures PatternRecord(r)
    decreases members
  {
    if members == [] then Matched([])
    else match StructMember(p, v, members[0].name)
      case NoMember(f) => PatFail(f)
      case Member(m) =>
        var head := MatchPattern(p, members[0].pat, m);
        if head.Matched? then Then(MatchMembers(p, members[1..], v), head.bindings) else head
  }

  /** The first alternative that matches; a failure stops the search. */
  function MatchFirst(p: Package, pats: seq<Pattern>, v: Typed): (r: PatResult)
    ensures PatternRecord(r)
    decreases pats
  {
    if pats == [] then NoMatch
    else
      var head := MatchPattern(p, pats[0], v);
      if head.NoMatch? then MatchFirst(p, pats[1..], v) else head
  }

  function Bound(r: PatResult): BindResult {
    match r
    case Matched(bs) => BindResult(true, bs, NoFailure)
    case NoMatch => BindResult(false, [], NoFailure)
    case PatFail(f) => BindResult(false, [], f)
  }

  function TupleShape(p: Package, t: TypeIdx): seq<TypeIdx> {
    match Row(p, t) case TupleRow(elements) => elements case _ => []
  }

  function BindPattern(p: Package, pat: Pattern, v: Typed): (r: BindResult)
    ensures r.failure == NoFailure || (!r.ok && (r.failure == Program || r.failure == Internal))
    decreases pat
  {
    match pat
    case Wild => BindResult(true, [], NoFailure)
    case Ident(name) => BindResult(true, [Binding(name, v)], NoFailure)
    case LitPat(_) => BindResult(false, [], Program)
    case TuplePat(elements) =>
      var shape := TupleShape(p, v.ty);
      if !v.value.VTuple? || |elements| != |v.value.fields| || |elements| != |shape|
      then BindResult(false, [], Program)
      else BindEach(p, elements, seq(|elements|, i requires 0 <= i < |elements| => Typed(v.value.fields[i], shape[i])))
    case StructPat(members) =>
      if !v.value.VStruct? then BindResult(false, [], Program) else BindMembers(p, members, v)
    case _ => Bound(MatchPattern(p, pat, v))
  }

  function After(r: BindResult, bs: Frame): BindResult { r.(bindings := bs + r.bindings) }

  function BindEach(p: Package, pats: seq<Pattern>, vs: seq<Typed>): (r: BindResult)
    requires |pats| == |vs|
    ensures r.failure == NoFailure || (!r.ok && (r.failure == Program || r.failure == Internal))
    decreases pats
  {
    if pats == [] then BindResult(true, [], NoFailure)
    else
      var head := BindPattern(p, pats[0], vs[0]);
      if head.ok then After(BindEach(p, pats[1..], vs[1..]), head.bindings) else head
  }

  function BindMembers(p: Package, members: seq<FieldPat>, v: Typed): (r: BindResult)
    requires v.value.VStruct?
    ensures r.failure == NoFailure || (!r.ok && (r.failure == Program || r.failure == Internal))
    decreases members
  {
    if members == [] then BindResult(true, [], NoFailure)
    else match StructMember(p, v, members[0].name)
      case NoMember(f) => BindResult(false, [], f)
      case Member(m) =>
        var head := BindPattern(p, members[0].pat, m);
        if head.ok then After(BindMembers(p, members[1..], v), head.bindings) else head
  }

  // ----- what the functions mean --------------------------------------------------------------

  lemma OrIsFirst(p: Package, pats: seq<Pattern>, v: Typed)
    ensures MatchPattern(p, OrPat(pats), v) == MatchFirst(p, pats, v)
  {
    hide MatchFirst;
  }

  /** Alternative `i` matches with these bindings, and none before it matches. */
  ghost predicate FirstToMatch(p: Package, pats: seq<Pattern>, v: Typed, bs: Frame, i: nat) {
    && i < |pats| && MatchPattern(p, pats[i], v) == Matched(bs)
    && forall j :: 0 <= j < i ==> MatchPattern(p, pats[j], v) == NoMatch
  }

  lemma {:induction false} FirstOf(p: Package, pats: seq<Pattern>, v: Typed, bs: Frame)
    ensures MatchFirst(p, pats, v) == Matched(bs) <==> exists i :: FirstToMatch(p, pats, v, bs, i)
    decreases |pats|
  {
    hide MatchPattern;
    if pats != [] {
      var rest := pats[1..];
      FirstOf(p, rest, v, bs);
      forall i: nat | FirstToMatch(p, rest, v, bs, i) && MatchPattern(p, pats[0], v) == NoMatch
        ensures FirstToMatch(p, pats, v, bs, i + 1)
      {
        forall j | 0 <= j < i + 1 ensures MatchPattern(p, pats[j], v) == NoMatch {
          if j > 0 { assert pats[j] == rest[j - 1]; }
        }
      }
      forall i: nat | FirstToMatch(p, pats, v, bs, i) && i > 0 ensures FirstToMatch(p, rest, v, bs, i - 1) {
        forall j | 0 <= j < i - 1 ensures MatchPattern(p, rest[j], v) == NoMatch { assert rest[j] == pats[j + 1]; }
      }
      assert MatchPattern(p, pats[0], v) == Matched(bs) ==> FirstToMatch(p, pats, v, bs, 0);
    }
  }

  /** An alternative pattern binds what its first matching alternative binds. */
  lemma FirstAlternativeWins(p: Package, pats: seq<Pattern>, v: Typed, bs: Frame)
    ensures MatchPattern(p, OrPat(pats), v) == Matched(bs) <==> exists i :: FirstToMatch(p, pats, v, bs, i)
  {
    OrIsFirst(p, pats, v);
    FirstOf(p, pats, v, bs);
    hide MatchPattern, MatchFirst, FirstToMatch;
  }

  /** `-1` never matches an `i8` element of an anonymous tuple, though it matches the bare `i8`. */
  lemma NegativeLiteralInTuple(p: Package, t: TypeIdx, element: TypeIdx)
    requires TagOf(p, t) == Tuple && TagOf(p, element) == I8
    ensures var minusOne := LitPat(IntLit(1, true));
            && MatchPattern(p, minusOne, Typed(VInt(0xFF), element)) == Matched([])
            && MatchPattern(p, TuplePat([minusOne]), Typed(VTuple([VInt(0xFF)]), t)) == NoMatch
  {
    var pats, vs := [LitPat(IntLit(1, true))], [Typed(VInt(0xFF), t)];
    assert seq(1, i requires 0 <= i < 1 => Typed(VTuple([VInt(0xFF)]).fields[i], t)) == vs;
    assert MatchLiteral(p, IntLit(1, true), vs[0]) == NoMatch;
    assert MatchEach(p, pats, vs) == NoMatch;
  }

  // ----- which names, in which order ----------------------------------------------------------

  function Names(bs: Frame): seq<string> { seq(|bs|, i requires 0 <= i < |bs| => bs[i].name) }

  /** The names written in a pattern from left to right, one alternative chosen at each `|`. */
  ghost predicate Writes(pat: Pattern, names: seq<string>)
    decreases pat
  {
    match pat
    case Wild => names == []
    case LitPat(_) => names == []
    case Ident(name) => names == [name]
    case TuplePat(elements) => WritesAll(elements, names)
    case VariantPat(_, elements) => WritesAll(elements, names)
    case StructPat(members) => WritesMembers(members, names)
    case RefPat(inner) => Writes(inner, names)
    case OrPat(alternatives) => exists i :: 0 <= i < |alternatives| && Writes(alternatives[i], names)
  }

  ghost predicate WritesAll(pats: seq<Pattern>, names: seq<string>)
    decreases pats
  {
    if pats == [] then names == []
    else exists k :: 0 <= k <= |names| && Writes(pats[0], names[..k]) && WritesAll(pats[1..], names[k..])
  }

  ghost predicate WritesMembers(members: seq<FieldPat>, names: seq<string>)
    decreases members
  {
    if members == [] then names == []
    else exists k :: 0 <= k <= |names| && Writes(members[0].pat, names[..k]) && WritesMembers(members[1..], names[k..])
  }

  lemma NamesApart(a: Frame, b: Frame)
    ensures Names(a + b)[..|a|] == Names(a) && Names(a + b)[|a|..] == Names(b) && |Names(a + b)| == |a| + |b|
  {
  }

  /** A match binds the names its pattern writes, from left to right, and no others. */
  lemma {:induction false} MatchBindsWhatIsWritten(p: Package, pat: Pattern, v: Typed)
    ensures var r := MatchPattern(p, pat, v); r.Matched? ==> Writes(pat, Names(r.bindings))
    decreases pat
  {
    hide StructMember, VariantFields;
    match pat
    case Wild =>
    case Ident(_) =>
    case LitPat(_) =>
    case TuplePat(elements) =>
      if v.value.VTuple? && |elements| == |v.value.fields| {
        EachBindsWhatIsWritten(p, elements,
          seq(|elements|, i requires 0 <= i < |elements| => Typed(v.value.fields[i], v.ty)));
      }
    case VariantPat(path, elements) =>
      var payloads := VariantFields(p, path, v).1;
      if |elements| == |payloads| { EachBindsWhatIsWritten(p, elements, payloads); }
    case StructPat(members) => if v.value.VStruct? { MembersBindWhatIsWritten(p, members, v); }
    case RefPat(inner) => MatchBindsWhatIsWritten(p, inner, v);
    case OrPat(alternatives) => FirstBindsWhatIsWritten(p, alternatives, v);
  }

  lemma {:induction false} EachBindsWhatIsWritten(p: Package, pats: seq<Pattern>, vs: seq<Typed>)
    requires |pats| == |vs|
    ensures var r := MatchEach(p, pats, vs); r.Matched? ==> WritesAll(pats, Names(r.bindings))
    decreases pats
  {
    hide MatchPattern, Writes, Names;
    if pats == [] {
      assert Names([]) == [] by { NamesApart([], []); }
    } else {
      MatchBindsWhatIsWritten(p, pats[0], vs[0]);
      EachBindsWhatIsWritten(p, pats[1..], vs[1..]);
      var head, tail := MatchPattern(p, pats[0], vs[0]), MatchEach(p, pats[1..], vs[1..]);
      if head.Matched? && tail.Matched? { NamesApart(head.bindings, tail.bindings); }
    }
  }

  lemma {:induction false} MembersBindWhatIsWritten(p: Package, members: seq<FieldPat>, v: Typed)
    requires v.value.VStruct?
    ensures var r := MatchMembers(p, members, v); r.Matched? ==> WritesMembers(members, Names(r.bindings))
    decreases members
  {
    hide MatchPattern, Writes, Names, StructMember;
    if members == [] {
      assert Names([]) == [] by { NamesApart([], []); }
    } else if StructMember(p, v, members[0].name).Member? {
      var m := StructMember(p, v, members[0].name).val;
      MatchBindsWhatIsWritten(p, members[0].pat, m);
      MembersBindWhatIsWritten(p, members[1..], v);
      var head, tail := MatchPattern(p, members[0].pat, m), MatchMembers(p, members[1..], v);
      if head.Matched? && tail.Matched? { NamesApart(head.bindings, tail.bindings); }
    }
  }

  lemma {:induction false} FirstBindsWhatIsWritten(p: Package, pats: seq<Pattern>, v: Typed)
    ensures var r := MatchFirst(p, pats, v);
      r.Matched? ==> exists i :: 0 <= i < |pats| && Writes(pats[i], Names(r.bindings))
    decreases pats
  {
    hide MatchPattern, Writes, Names;
    if pats != [] {
      MatchBindsWhatIsWritten(p, pats[0], v);
      FirstBindsWhatIsWritten(p, pats[1..], v);
      var rest, r := pats[1..], MatchFirst(p, pats[1..], v);
      if MatchPattern(p, pats[0], v).NoMatch? && r.Matched? {
        var i :| 0 <= i < |rest| && Writes(rest[i], Names(r.bindings));
        assert Writes(pats[i + 1], Names(r.bindings));
      }
    }
  }

  // ----- binding and matching -------------------------------------------------------------------

  /** Patterns a declaration takes apart itself, without literals or anonymous tuples. */
  ghost predicate Declarable(pat: Pattern) {
    match pat
    case LitPat(_) => false
    case TuplePat(_) => false
    case StructPat(members) => forall i :: 0 <= i < |members| ==> Declarable(members[i].pat)
    case _ => true
  }

  /** There, a declaration binds exactly when a match would, and binds the same. */
  lemma {:induction false} BindAgreesWithMatch(p: Package, pat: Pattern, v: Typed)
    requires Declarable(pat)
    ensures var b, r := BindPattern(p, pat, v), MatchPattern(p, pat, v);
      (b.ok <==> r.Matched?) && (b.ok ==> b.bindings == r.bindings)
    decreases pat
  {
    if pat.StructPat? && v.value.VStruct? { MembersAgree(p, pat.members, v); }
  }

  lemma {:induction false} MembersAgree(p: Package, members: seq<FieldPat>, v: Typed)
    requires v.value.VStruct? && forall i :: 0 <= i < |members| ==> Declarable(members[i].pat)
    ensures var b, r := BindMembers(p, members, v), MatchMembers(p, members, v);
      (b.ok <==> r.Matched?) && (b.ok ==> b.bindings == r.bindings)
    decreases members
  {
    hide MatchPattern, BindPattern, StructMember;
    if members != [] && StructMember(p, v, members[0].name).Member? {
      BindAgreesWithMatch(p, members[0].pat, StructMember(p, v, members[0].name).val);
      MembersAgree(p, members[1..], v);
    }
  }
}
