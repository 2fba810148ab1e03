/**
 What each kind of pattern answers, from what its parts answer and from the tables of types alone
 (src/analyzer/comp_evaluator.cc, comp_match_pattern and comp_bind_pattern).
 */
module Matching {
  import opened Machine
  import opened Lang
  import opened Patterns
  import opened Tables

  // ----- parts in turn ------------------------------------------------------------------------------

  /** The bindings of parts that all match, one part's after the other's. */
  function Joined(rs: seq<PatResult>): Frame
    requires forall i :: 0 <= i < |rs| ==> rs[i].Matched?
  {
    if rs == [] then [] else rs[0].bindings + Joined(rs[1..])
  }

  ghost predicate FirstToFail(rs: seq<PatResult>, k: nat) {
    k < |rs| && !rs[k].Matched? && forall j :: 0 <= j < k ==> rs[j].Matched?
  }

  /** All parts match, and all their bindings are made; or the first that does not decides. */
  ghost predicate InTurn(rs: seq<PatResult>, r: PatResult) {
    && ((forall i :: 0 <= i < |rs| ==> rs[i].Matched?) ==> r == Matched(Joined(rs)))
    && (forall k: nat :: FirstToFail(rs, k) ==> r == rs[k])
  }

  /** The first alternative that does not miss decides, and without one the value is missed. */
  ghost predicate InChoice(rs: seq<PatResult>, r: PatResult) {
    && ((forall i :: 0 <= i < |rs| ==> rs[i].NoMatch?) ==> r == NoMatch)
    && (forall k: nat :: k < |rs| && !rs[k].NoMatch? && (forall j :: 0 <= j < k ==> rs[j].NoMatch?) ==> r == rs[k])
  }

  function Matches(p: Package, pats: seq<Pattern>, vs: seq<Typed>): (rs: seq<PatResult>)
    requires |pats| == |vs|
    ensures |rs| == |pats|
  {
    seq(|pats|, i requires 0 <= i < |pats| => MatchPattern(p, pats[i], vs[i]))
  }

  lemma InTurnMore(rs: seq<PatResult>, r: PatResult)
    requires rs != [] && (rs[0].Matched? ==> InTurn(rs[1..], r))
    ensures rs[0].Matched? ==> InTurn(rs, Then(r, rs[0].bindings))
    ensures !rs[0].Matched? ==> InTurn(rs, rs[0])
  {
    var rest := rs[1..];
    assert forall i :: 0 <= i < |rest| ==> rest[i] == rs[i + 1];
    assert forall i :: 0 < i < |rs| ==> rs[i] == rest[i - 1];
    if rs[0].Matched? {
      forall k: nat | FirstToFail(rs, k) ensures k > 0 && FirstToFail(rest, k - 1) {}
    }
  }

  lemma {:induction false} EachInTurn(p: Package, pats: seq<Pattern>, vs: seq<Typed>)
    requires |pats| == |vs|
    ensures InTurn(Matches(p, pats, vs), MatchEach(p, pats, vs))
    decreases |pats|
  {
    hide MatchPattern, InTurn;
    var rs := Matches(p, pats, vs);
    if pats == [] {
      assert InTurn([], Matched([])) by { NoParts(); }
    } else {
      EachInTurn(p, pats[1..], vs[1..]);
      assert rs[1..] == Matches(p, pats[1..], vs[1..]);
      InTurnMore(rs, MatchEach(p, pats[1..], vs[1..]));
    }
  }

  lemma NoParts()
    ensures InTurn([], Matched([]))
  {
  }

  /** The values of an aggregate's parts, each beside the type it is read at. */
  ghost predicate Beside(fields: seq<Value>, types: seq<TypeIdx>, vs: seq<Typed>) {
    |vs| == |fields| == |types| && forall i :: 0 <= i < |vs| ==> vs[i] == Typed(fields[i], types[i])
  }

  function Each(t: TypeIdx, n: nat): seq<TypeIdx> { seq(n, _ => t) }

  // ----- matching -----------------------------------------------------------------------------------

  /** A wildcard binds nothing, a name binds the value, and a reference is looked through. */
  lemma MatchSimple(p: Package, name: string, inner: Pattern, v: Typed)
    ensures MatchPattern(p, Wild, v) == Matched([])
    ensures MatchPattern(p, Ident(name), v) == Matched([Binding(name, v)])
    ensures MatchPattern(p, RefPat(inner), v) == MatchPattern(p, inner, v)
  {
  }

  /** A literal matches the value it writes; an integer is written at the value's type. */
  lemma MatchLiterals(p: Package, lit: Literal, v: Typed)
    ensures var r := MatchPattern(p, LitPat(lit), v);
      && (lit.OtherLit? ==> r == PatFail(Program))
      && (lit.BoolLit? ==> r == if v.value == VBool(lit.b) then Matched([]) else NoMatch)
      && (lit.StrLit? ==> r == if v.value == VStr(lit.s) then Matched([]) else NoMatch)
      && (lit.IntLit? ==>
            var written: int := if lit.negative then -(lit.magnitude as int) else lit.magnitude;
            r == if v.value == VInt(Encode(TagOf(p, v.ty), written)) then Matched([]) else NoMatch)
  {
    if lit.IntLit? {
      ModulusEven(TagOf(p, v.ty));
      WrapThenMask(Modulus(TagOf(p, v.ty)), -(lit.magnitude as int));
    }
  }

  /** A tuple's elements are matched in order, each at the tuple's own type. */
  lemma MatchTuples(p: Package, elements: seq<Pattern>, v: Typed, vs: seq<Typed>)
    ensures !v.value.VTuple? || |elements| != |v.value.fields| ==> MatchPattern(p, TuplePat(elements), v) == NoMatch
    ensures v.value.VTuple? && |elements| == |v.value.fields| && Beside(v.value.fields, Each(v.ty, |vs|), vs) ==>
        InTurn(Matches(p, elements, vs), MatchPattern(p, TuplePat(elements), v))
  {
    if v.value.VTuple? && |elements| == |v.value.fields| {
      var fields := seq(|elements|, i requires 0 <= i < |elements| => Typed(v.value.fields[i], v.ty));
      EachInTurn(p, elements, fields);
      hide InTurn;
      if Beside(v.value.fields, Each(v.ty, |vs|), vs) { assert vs == fields; }
    }
  }

  /** A variant matches by the last name of its path and its payloads at the types they are declared with. */
  lemma MatchVariants(
    p: Package, path: seq<string>, elements: seq<Pattern>, v: Typed, payloads: seq<seq<TypeIdx>>, vs: seq<Typed>
  )
    ensures var r := MatchPattern(p, VariantPat(path, elements), v);
      && (path == [] ==> r == PatFail(Program))
      && (path != [] ==>
            var last := path[|path| - 1];
            && (!v.value.VEnum? ==> r == NoMatch)
            && (v.value.VEnum? && (v.ty !in p.enums || !NamedAt(p.enums[v.ty], last, v.value.variant)) ==>
                  r == NoMatch)
            && (v.value.VEnum? && v.ty in p.enums && NamedAt(p.enums[v.ty], last, v.value.variant)
                && Row(p, v.ty) == EnumRow(payloads) && v.value.variant < |payloads| ==>
                  var types := payloads[v.value.variant];
                  && (|types| != |v.value.fields| ==> r == PatFail(Program))
                  && (|types| == |v.value.fields| && |elements| != |types| ==> r == NoMatch)
                  && (|elements| == |types| && Beside(v.value.fields, types, vs) ==>
                        InTurn(Matches(p, elements, vs), r))))
  {
    hide InTurn, MatchEach;
    if path != [] && v.value.VEnum? {
      var last, k := path[|path| - 1], v.value.variant;
      if v.ty in p.enums { IndexOfIsFirst(p.enums[v.ty], last); }
      hide IndexOf, NamedAt;
      if VariantIndex(p, v.ty, last) == Some(k) && Row(p, v.ty) == EnumRow(payloads) && k < |payloads|
        && |elements| == |payloads[k]| && Beside(v.value.fields, payloads[k], vs)
      {
        assert vs == VariantFields(p, path, v).1;
        EachInTurn(p, elements, vs);
      }
    }
  }

  function Tried(p: Package, pats: seq<Pattern>, v: Typed): (rs: seq<PatResult>)
    ensures |rs| == |pats|
  {
    seq(|pats|, i requires 0 <= i < |pats| => MatchPattern(p, pats[i], v))
  }

  /** An alternative is tried only when those before it have missed. */
  lemma MatchAlternatives(p: Package, pats: seq<Pattern>, v: Typed)
    ensures InChoice(Tried(p, pats, v), MatchPattern(p, OrPat(pats), v))
  {
    OrIsFirst(p, pats, v);
    FirstInChoice(p, pats, v);
    hide MatchPattern, InChoice;
  }

  lemma {:induction false} FirstInChoice(p: Package, pats: seq<Pattern>, v: Typed)
    ensures InChoice(Tried(p, pats, v), MatchFirst(p, pats, v))
    decreases |pats|
  {
    hide MatchPattern;
    if pats != [] {
      FirstInChoice(p, pats[1..], v);
      var rs := Tried(p, pats, v);
      var rest := rs[1..];
      assert rest == Tried(p, pats[1..], v);
      assert rs[0] == MatchPattern(p, pats[0], v);
      assert forall i :: 0 < i < |rs| ==> rs[i] == rest[i - 1];
      assert forall i :: 0 <= i < |rest| ==> rest[i] == rs[i + 1];
    }
  }

  // ----- members of a struct ------------------------------------------------------------------------

  /** The declared fields of a struct value's type, and their types. */
  ghost predicate Fielded(p: Package, t: TypeIdx, names: seq<string>, types: seq<TypeIdx>) {
    DeclaresFields(p, t, names) && Row(p, t) == StructRow(types)
  }

  /** What a member pattern answers for the value at the place its name is declared at. */
  ghost predicate MemberIs(
    p: Package, m: FieldPat, v: Typed, names: seq<string>, types: seq<TypeIdx>, r: PatResult
  )
    requires v.value.VStruct?
  {
    && (m.name !in names ==> r == PatFail(Program))
    && forall i: nat :: NamedAt(names, m.name, i) ==>
         r == if i >= |v.value.fields| then PatFail(Program)
              else if i >= |types| then PatFail(Internal)
              else MatchPattern(p, m.pat, Typed(v.value.fields[i], types[i]))
  }

  ghost predicate MembersAre(
    p: Package, members: seq<FieldPat>, v: Typed, names: seq<string>, types: seq<TypeIdx>, rs: seq<PatResult>
  )
    requires v.value.VStruct?
  {
    |rs| == |members| && forall i :: 0 <= i < |rs| ==> MemberIs(p, members[i], v, names, types, rs[i])
  }

  lemma MemberRead(p: Package, name: string, v: Typed, names: seq<string>, types: seq<TypeIdx>)
    requires v.value.VStruct? && Fielded(p, v.ty, names, types)
    ensures name !in names ==> StructMember(p, v, name) == NoMember(Program)
    ensures forall i: nat :: NamedAt(names, name, i) ==>
      StructMember(p, v, name) ==
        if i >= |v.value.fields| then NoMember(Program)
        else if i >= |types| then NoMember(Internal)
        else Member(Typed(v.value.fields[i], types[i]))
    ensures name in names ==> exists i: nat :: NamedAt(names, name, i)
  {
    IndexOfIsFirst(names, name);
    hide IndexOf, NamedAt;
    FieldsDeclared(p, v.ty, names, name, 0);
    forall i: nat ensures FieldType(p, v.ty, i) == if i < |types| then Some(types[i]) else None {
      FieldTyped(p, [v.ty], i);
    }
    hide FieldType;
  }

  /** A struct's members are matched in the order they are written. */
  lemma MatchStructs(
    p: Package, members: seq<FieldPat>, v: Typed, names: seq<string>, types: seq<TypeIdx>, rs: seq<PatResult>
  )
    ensures !v.value.VStruct? ==> MatchPattern(p, StructPat(members), v) == NoMatch
    ensures v.value.VStruct? && Fielded(p, v.ty, names, types) && MembersAre(p, members, v, names, types, rs) ==>
      InTurn(rs, MatchPattern(p, StructPat(members), v))
  {
    hide InTurn, MembersAre;
    if v.value.VStruct? && Fielded(p, v.ty, names, types) && MembersAre(p, members, v, names, types, rs) {
      MembersInTurn(p, members, v, names, types, rs);
    }
  }

  lemma {:induction false} MembersInTurn(
    p: Package, members: seq<FieldPat>, v: Typed, names: seq<string>, types: seq<TypeIdx>, rs: seq<PatResult>
  )
    requires v.value.VStruct? && Fielded(p, v.ty, names, types) && MembersAre(p, members, v, names, types, rs)
    ensures InTurn(rs, MatchMembers(p, members, v))
    decreases |members|
  {
    hide MatchPattern, InTurn, StructMember, NamedAt, Fielded;
    if members == [] {
      NoParts();
    } else {
      MemberRead(p, members[0].name, v, names, types);
      assert MemberIs(p, members[0], v, names, types, rs[0]);
      MembersInTurn(p, members[1..], v, names, types, rs[1..]);
      InTurnMore(rs, MatchMembers(p, members[1..], v));
    }
  }

  // ----- binding ------------------------------------------------------------------------------------

  /** What binding a part did: all it bound, or what was bound until it failed and why. */
  ghost predicate BoundInTurn(bs: seq<BindResult>, b: BindResult) {
    && ((forall i :: 0 <= i < |bs| ==> bs[i].ok) ==> b == BindResult(true, AllBound(bs), NoFailure))
    && (forall k: nat :: k < |bs| && !bs[k].ok && (forall j :: 0 <= j < k ==> bs[j].ok) ==>
          b == BindResult(false, AllBound(bs[..k + 1]), bs[k].failure))
  }

  function AllBound(bs: seq<BindResult>): Frame {
    if bs == [] then [] else bs[0].bindings + AllBound(bs[1..])
  }

  function Binds(p: Package, pats: seq<Pattern>, vs: seq<Typed>): (bs: seq<BindResult>)
    requires |pats| == |vs|
    ensures |bs| == |pats|
  {
    seq(|pats|, i requires 0 <= i < |pats| => BindPattern(p, pats[i], vs[i]))
  }

  lemma BoundMore(bs: seq<BindResult>, b: BindResult)
    requires bs != [] && (bs[0].ok ==> BoundInTurn(bs[1..], b) && bs[0].failure == NoFailure)
    ensures bs[0].ok ==> BoundInTurn(bs, After(b, bs[0].bindings))
    ensures !bs[0].ok ==> BoundInTurn(bs, BindResult(false, bs[0].bindings, bs[0].failure))
  {
    var rest := bs[1..];
    assert forall i :: 0 <= i < |rest| ==> rest[i] == bs[i + 1];
    assert forall i :: 0 < i < |bs| ==> bs[i] == rest[i - 1];
    assert bs[..1][1..] == [];
    assert bs[0].bindings + [] == bs[0].bindings;
    forall k: nat | 0 < k < |bs| ensures AllBound(bs[..k + 1]) == bs[0].bindings + AllBound(rest[..k]) {
      assert bs[..k + 1][1..] == rest[..k];
    }
  }

  lemma {:induction false} EachBoundInTurn(p: Package, pats: seq<Pattern>, vs: seq<Typed>)
    requires |pats| == |vs|
    ensures BoundInTurn(Binds(p, pats, vs), BindEach(p, pats, vs))
    decreases |pats|
  {
    hide BindPattern, BoundInTurn;
    var bs := Binds(p, pats, vs);
    if pats == [] {
      NothingBound();
    } else {
      EachBoundInTurn(p, pats[1..], vs[1..]);
      assert bs[1..] == Binds(p, pats[1..], vs[1..]);
      BoundMore(bs, BindEach(p, pats[1..], vs[1..]));
    }
  }

  lemma NothingBound()
    ensures BoundInTurn([], BindResult(true, [], NoFailure))
  {
  }

  /** A declared tuple pattern binds its elements at their own types; anything but such a tuple is refused. */
  lemma BindTuples(p: Package, elements: seq<Pattern>, v: Typed, types: seq<TypeIdx>, vs: seq<Typed>)
    requires Row(p, v.ty) == TupleRow(types)
    ensures var b := BindPattern(p, TuplePat(elements), v);
      && (!v.value.VTuple? || |elements| != |v.value.fields| || |elements| != |types| ==>
            b == BindResult(false, [], Program))
      && (v.value.VTuple? && |elements| == |types| && Beside(v.value.fields, types, vs) ==>
            BoundInTurn(Binds(p, elements, vs), b))
  {
    hide BoundInTurn, BindEach;
    if v.value.VTuple? && |elements| == |types| && Beside(v.value.fields, types, vs) {
      EachBoundInTurn(p, elements, vs);
      assert vs == seq(|elements|, i requires 0 <= i < |elements| => Typed(v.value.fields[i], types[i]));
    }
  }

  /** Wildcards and names bind as they match, literals cannot be declared. */
  lemma BindSimple(p: Package, name: string, lit: Literal, v: Typed)
    ensures BindPattern(p, Wild, v) == BindResult(true, [], NoFailure)
    ensures BindPattern(p, Ident(name), v) == BindResult(true, [Binding(name, v)], NoFailure)
    ensures BindPattern(p, LitPat(lit), v) == BindResult(false, [], Program)
  {
  }

  /** Variants, references and alternatives bind exactly what they match, and record what refused them. */
  lemma BindByMatching(p: Package, pat: Pattern, v: Typed)
    requires pat.VariantPat? || pat.RefPat? || pat.OrPat?
    ensures match MatchPattern(p, pat, v)
      case Matched(bs) => BindPattern(p, pat, v) == BindResult(true, bs, NoFailure)
      case NoMatch => BindPattern(p, pat, v) == BindResult(false, [], NoFailure)
      case PatFail(f) => BindPattern(p, pat, v) == BindResult(false, [], f)
  {
    hide MatchPattern;
  }

  ghost predicate MemberBinds(p: Package, m: FieldPat, v: Typed, names: seq<string>, types: seq<TypeIdx>, b: BindResult)
    requires v.value.VStruct?
  {
    && (m.name !in names ==> b == BindResult(false, [], Program))
    && forall i: nat :: NamedAt(names, m.name, i) ==>
         b == if i >= |v.value.fields| then BindResult(false, [], Program)
              else if i >= |types| then BindResult(false, [], Internal)
              else BindPattern(p, m.pat, Typed(v.value.fields[i], types[i]))
  }

  ghost predicate MembersBind(
    p: Package, members: seq<FieldPat>, v: Typed, names: seq<string>, types: seq<TypeIdx>, bs: seq<BindResult>
  )
    requires v.value.VStruct?
  {
    |bs| == |members| && forall i :: 0 <= i < |bs| ==> MemberBinds(p, members[i], v, names, types, bs[i])
  }

  /** A declared struct pattern binds its members in the order they are written. */
  lemma BindStructs(
    p: Package, members: seq<FieldPat>, v: Typed, names: seq<string>, types: seq<TypeIdx>, bs: seq<BindResult>
  )
    ensures !v.value.VStruct? ==> BindPattern(p, StructPat(members), v) == BindResult(false, [], Program)
    ensures v.value.VStruct? && Fielded(p, v.ty, names, types) && MembersBind(p, members, v, names, types, bs) ==>
      BoundInTurn(bs, BindPattern(p, StructPat(members), v))
  {
    hide BoundInTurn, MembersBind;
    if v.value.VStruct? && Fielded(p, v.ty, names, types) && MembersBind(p, members, v, names, types, bs) {
      MembersBoundInTurn(p, members, v, names, types, bs);
    }
  }

  lemma {:induction false} MembersBoundInTurn(
    p: Package, members: seq<FieldPat>, v: Typed, names: seq<string>, types: seq<TypeIdx>, bs: seq<BindResult>
  )
    requires v.value.VStruct? && Fielded(p, v.ty, names, types) && MembersBind(p, members, v, names, types, bs)
    ensures BoundInTurn(bs, BindMembers(p, members, v))
    decreases |members|
  {
    hide BindPattern, BoundInTurn, StructMember, NamedAt, Fielded;
    if members == [] {
      NothingBound();
    } else {
      MemberRead(p, members[0].name, v, names, types);
      assert MemberBinds(p, members[0], v, names, types, bs[0]);
      MembersBoundInTurn(p, members[1..], v, names, types, bs[1..]);
      BoundMore(bs, BindMembers(p, members[1..], v));
    }
  }
}
