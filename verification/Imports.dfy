/**
 A module's import list (src/analyzer/resolve.cc, add_import, lookup_reexport, and the
 namespace loops of resolve_use). At most one explicit and one injected import answer to a
 name, the explicit one first, so the first match is always the right one.
 */
module Imports {
  import opened Lang
  import opened Modules

  datatype Import = Import(name: string, ns: Namespace, target: nat, member: string, isPub: bool, injected: bool)

  function KeyOf(imp: Import): Key { Key(imp.name, imp.ns) }

  function TargetKey(imp: Import): Key { Key(imp.member, imp.ns) }

  // ----- order ------------------------------------------------------------------------------------

  /** Of two imports under one name, the first is explicit and the second injected. */
  ghost predicate Arranged(list: seq<Import>) {
    forall i, j :: 0 <= i < j < |list| && KeyOf(list[i]) == KeyOf(list[j]) ==> !list[i].injected && list[j].injected
  }

  function FirstAt(list: seq<Import>, key: Key): (i: nat)
    ensures i <= |list|
    ensures i < |list| ==> KeyOf(list[i]) == key
    ensures forall k :: 0 <= k < i ==> KeyOf(list[k]) != key
  {
    if list == [] || KeyOf(list[0]) == key then 0
    else
      assert forall k :: 1 <= k < |list| ==> list[k] == list[1..][k - 1];
      1 + FirstAt(list[1..], key)
  }

  /** What a name means to the checker: the first import that carries it. */
  function First(list: seq<Import>, key: Key): Option<Import> {
    if FirstAt(list, key) < |list| then Some(list[FirstAt(list, key)]) else None
  }

  /** The first match is the explicit import whenever there is one; a facade only fills the gap. */
  lemma FirstIsExplicit(list: seq<Import>, imp: Import)
    requires Arranged(list) && imp in list
    ensures First(list, KeyOf(imp)).Some?
    ensures !imp.injected ==> First(list, KeyOf(imp)).value == imp
    ensures First(list, KeyOf(imp)).value.injected ==> First(list, KeyOf(imp)).value == imp
  {
    var k :| 0 <= k < |list| && list[k] == imp;
    var i := FirstAt(list, KeyOf(imp));
    assert i <= k;
  }

  // ----- re-exports -------------------------------------------------------------------------------

  function Publics(list: seq<Import>): seq<Import> {
    if list == [] then [] else (if list[0].isPub then [list[0]] else []) + Publics(list[1..])
  }

  lemma {:induction false} PublicsAmong(list: seq<Import>)
    ensures forall imp :: imp in Publics(list) <==> imp in list && imp.isPub
  {
    if list != [] {
      PublicsAmong(list[1..]);
      assert list == [list[0]] + list[1..];
    }
  }

  lemma {:induction false} PublicsApart(a: seq<Import>, b: seq<Import>)
    ensures Publics(a + b) == Publics(a) + Publics(b)
  {
    if a == [] {
      assert a + b == b;
    } else {
      var head := if a[0].isPub then [a[0]] else [];
      assert (a + b)[1..] == a[1..] + b;
      PublicsApart(a[1..], b);
      assert Publics(a + b) == head + (Publics(a[1..]) + Publics(b));
    }
  }

  /** `lookup_reexport`: the first public import of the name. */
  function FirstPublic(list: seq<Import>, key: Key): (r: Option<Import>)
    ensures r.Some? ==> r.value in list && r.value.isPub && KeyOf(r.value) == key
    ensures r.None? ==> forall i :: 0 <= i < |list| && KeyOf(list[i]) == key ==> !list[i].isPub
  {
    if list == [] then None
    else if list[0].isPub && KeyOf(list[0]) == key then Some(list[0])
    else
      assert forall k :: 1 <= k < |list| ==> list[k] == list[1..][k - 1];
      FirstPublic(list[1..], key)
  }

  lemma {:induction false} OnlyPublicsAnswer(list: seq<Import>, key: Key)
    ensures FirstPublic(list, key) == FirstPublic(Publics(list), key)
  {
    if list != [] {
      OnlyPublicsAnswer(list[1..], key);
      if list[0].isPub {
        assert Publics(list)[1..] == Publics(list[1..]);
      } else {
        assert Publics(list) == Publics(list[1..]);
      }
    }
  }

  // ----- one import -------------------------------------------------------------------------------

  predicate Taken(list: seq<Import>, key: Key) {
    FirstAt(list, key) < |list| && !list[FirstAt(list, key)].injected
  }

  /** The list without the first import of a name. */
  function Cleared(list: seq<Import>, key: Key): seq<Import> {
    if list == [] then []
    else if KeyOf(list[0]) == key then list[1..]
    else [list[0]] + Cleared(list[1..], key)
  }

  /** The list with an explicit import added: it takes a facade's place, never an explicit one's. */
  function Placed(list: seq<Import>, imp: Import): seq<Import> {
    if Taken(list, KeyOf(imp)) then list else Cleared(list, KeyOf(imp)) + [imp]
  }

  lemma {:induction false} ClearedAt(list: seq<Import>, key: Key)
    ensures FirstAt(list, key) < |list| ==>
      Cleared(list, key) == list[..FirstAt(list, key)] + list[FirstAt(list, key) + 1..]
    ensures FirstAt(list, key) == |list| ==> Cleared(list, key) == list
  {
    if list != [] && KeyOf(list[0]) != key {
      ClearedAt(list[1..], key);
      assert [list[0]] + list[1..] == list;
    }
  }

  lemma {:induction false} ClearedFirst(list: seq<Import>, key: Key, other: Key)
    requires key != other
    ensures First(Cleared(list, key), other) == First(list, other)
  {
    if list != [] && KeyOf(list[0]) != key {
      ClearedFirst(list[1..], key, other);
      FirstApart([list[0]], list[1..], other);
      FirstApart([list[0]], Cleared(list[1..], key), other);
      assert [list[0]] + list[1..] == list;
    } else if list != [] {
      FirstApart([list[0]], list[1..], other);
      assert [list[0]] + list[1..] == list;
    }
  }

  lemma {:induction false} ClearedPublics(list: seq<Import>, key: Key)
    requires FirstAt(list, key) < |list| ==> !list[FirstAt(list, key)].isPub
    ensures Publics(Cleared(list, key)) == Publics(list)
  {
    if list != [] && KeyOf(list[0]) != key {
      ClearedPublics(list[1..], key);
      PublicsApart([list[0]], Cleared(list[1..], key));
      PublicsApart([list[0]], list[1..]);
      assert [list[0]] + list[1..] == list;
    }
  }

  lemma RemovedArranged(list: seq<Import>, i: nat)
    requires Arranged(list) && i < |list|
    ensures Arranged(list[..i] + list[i + 1..])
  {
    var rest := list[..i] + list[i + 1..];
    forall j, k | 0 <= j < k < |rest| && KeyOf(rest[j]) == KeyOf(rest[k])
      ensures !rest[j].injected && rest[k].injected
    {
      assert rest[j] == list[if j < i then j else j + 1] && rest[k] == list[if k < i then k else k + 1];
    }
  }

  /** With no explicit import of the name, clearing leaves exactly the imports of other names. */
  lemma ClearedHolds(list: seq<Import>, key: Key)
    requires Arranged(list) && !Taken(list, key)
    ensures Arranged(Cleared(list, key))
    ensures forall imp :: imp in Cleared(list, key) <==> imp in list && KeyOf(imp) != key
  {
    ClearedAt(list, key);
    hide Cleared, FirstAt;
    var i := FirstAt(list, key);
    if i < |list| {
      var rest := Cleared(list, key);
      RemovedArranged(list, i);
      forall imp | imp in rest ensures imp in list && KeyOf(imp) != key {
        var k :| 0 <= k < |rest| && rest[k] == imp;
        assert list[if k < i then k else k + 1] == imp;
      }
      forall imp | imp in list && KeyOf(imp) != key ensures imp in rest {
        var k :| 0 <= k < |list| && list[k] == imp;
        assert rest[if k < i then k else k - 1] == imp;
      }
    }
  }

  lemma PlacedArranged(list: seq<Import>, imp: Import)
    requires Arranged(list) && !imp.injected
    ensures Arranged(Placed(list, imp))
    ensures !Taken(list, KeyOf(imp)) ==> forall other :: other in Placed(list, imp) <==>
      other == imp || (other in list && KeyOf(other) != KeyOf(imp))
  {
    if !Taken(list, KeyOf(imp)) {
      ClearedHolds(list, KeyOf(imp));
      var rest := Cleared(list, KeyOf(imp));
      forall i | 0 <= i < |rest| ensures KeyOf(rest[i]) != KeyOf(imp) { assert rest[i] in rest; }
    }
  }

  /** Every other name keeps its meaning, and this one means the import that holds it. */
  lemma PlacedAnswers(list: seq<Import>, imp: Import, key: Key)
    requires Arranged(list) && !imp.injected
    ensures key != KeyOf(imp) ==> First(Placed(list, imp), key) == First(list, key)
    ensures !Taken(list, KeyOf(imp)) ==> First(Placed(list, imp), KeyOf(imp)) == Some(imp)
  {
    if !Taken(list, KeyOf(imp)) {
      ClearedHolds(list, KeyOf(imp));
      FirstApart(Cleared(list, KeyOf(imp)), [imp], KeyOf(imp));
      if key != KeyOf(imp) {
        ClearedFirst(list, KeyOf(imp), key);
        FirstApart(Cleared(list, KeyOf(imp)), [imp], key);
      }
    }
  }

  lemma FirstApart(a: seq<Import>, b: seq<Import>, key: Key)
    ensures First(a + b, key) == if First(a, key).Some? then First(a, key) else First(b, key)
  {
    var i := FirstAt(a, key);
    if i < |a| {
      assert (a + b)[i] == a[i];
    } else {
      var j := FirstAt(b, key);
      if j < |b| { assert (a + b)[|a| + j] == b[j]; }
      if FirstAt(a + b, key) < |a + b| { assert (a + b)[FirstAt(a + b, key)] == b[FirstAt(a + b, key) - |a|]; }
    }
  }

  lemma PlacedPublics(list: seq<Import>, imp: Import)
    requires !imp.injected && forall i :: 0 <= i < |list| && list[i].injected ==> !list[i].isPub
    ensures Publics(Placed(list, imp)) == Publics(list) + if Taken(list, KeyOf(imp)) || !imp.isPub then [] else [imp]
  {
    if !Taken(list, KeyOf(imp)) {
      ClearedPublics(list, KeyOf(imp));
      PublicsApart(Cleared(list, KeyOf(imp)), [imp]);
      assert Publics([imp]) == if imp.isPub then [imp] else [];
    }
  }

  // ----- soundness ----------------------------------------------------------------------------------

  /** An import leads to a declaration, not to another import. */
  predicate Chased(tree: Tree, imp: Import)
    requires Rooted(tree)
  {
    Local(tree, imp.target, TargetKey(imp))
  }

  /**
   A `use` written in the module that gives the import its name and its visibility. It leads to
   the declaration named, where the module it reaches has one; and a private declaration is
   reached in its own module.
   */
  ghost predicate GivenBy(tree: Tree, m: nat, item: Item, imp: Import)
    requires Rooted(tree) && m < |tree.nodes|
  {
    && item in tree.nodes[m].items && item.kind.UseItem? && item.kind.path != []
    && NameGiven(item.kind) == imp.name && item.isPub == imp.isPub
    && var reached := Reach(tree, m, item.kind.path);
       && reached.At?
       && (LocalAnywhere(tree, reached.at, Member(item.kind)) ==>
             imp.target == reached.at && imp.member == Member(item.kind))
       && (imp.ns != ModuleSpace && !DeclaredPub(tree, imp.target, TargetKey(imp)) ==> reached.at == m)
  }

  ghost predicate AskedFor(tree: Tree, m: nat, imp: Import)
    requires Rooted(tree)
  {
    m < |tree.nodes| && exists item :: GivenBy(tree, m, item, imp)
  }

  /**
   What every import of module `m` satisfies. An explicit import of another module's type or
   value names a `pub` declaration. One that is not `pub` is passed on, to a public import or
   an injected one, only by a public item of the module that declares it.
   */
  ghost predicate Sound(tree: Tree, m: nat, imp: Import)
    requires Rooted(tree)
  {
    && Chased(tree, imp) && !Local(tree, m, KeyOf(imp))
    && (if imp.injected then !imp.isPub else AskedFor(tree, m, imp))
    && (imp.ns != ModuleSpace ==>
          || DeclaredPub(tree, imp.target, TargetKey(imp))
          || (if imp.injected then imp.target in tree.facades && Leaks(tree, imp.target, TargetKey(imp))
              else imp.target == m && (imp.isPub ==> Leaks(tree, m, TargetKey(imp)))))
  }

  ghost predicate SoundList(tree: Tree, m: nat, list: seq<Import>)
    requires Rooted(tree)
  {
    Arranged(list) && forall i :: 0 <= i < |list| ==> Sound(tree, m, list[i])
  }

  /** A `use` written in `m` that reaches `at`, and public imports that `at` holds. */
  ghost predicate Written(tree: Tree, m: nat, item: Item, at: nat, exports: seq<Import>)
    requires Rooted(tree)
  {
    && m < |tree.nodes| && item in tree.nodes[m].items && item.kind.UseItem? && item.kind.path != []
    && Reach(tree, m, item.kind.path) == At(at)
    && forall i :: 0 <= i < |exports| ==> exports[i].isPub && Sound(tree, at, exports[i])
  }

  // ----- one `use` ------------------------------------------------------------------------------------

  /** The declaration a `use` is offered in one namespace: the module's own, or one it re-exports. */
  function Offer(
    tree: Tree, at: nat, member: string, through: bool, exports: seq<Import>, ns: Namespace
  ): (r: Option<(nat, string)>)
    requires Rooted(tree) && forall i :: 0 <= i < |exports| ==> Chased(tree, exports[i])
    ensures r.Some? ==> r.value.0 < |tree.nodes|
  {
    if !through then
      if Local(tree, at, Key(member, ns)) then Some((at, member)) else None
    else
      match FirstPublic(exports, Key(member, ns))
      case None => None
      case Some(e) => assert Chased(tree, e); Some((e.target, e.member))
  }

  lemma OfferIsLocal(tree: Tree, at: nat, member: string, through: bool, exports: seq<Import>, ns: Namespace)
    requires Rooted(tree) && forall i :: 0 <= i < |exports| ==> Chased(tree, exports[i])
    ensures var r := Offer(tree, at, member, through, exports, ns);
      r.Some? ==> Local(tree, r.value.0, Key(r.value.1, ns))
  {
    hide Local;
  }

  function Wanted(item: Item, ns: Namespace, offer: (nat, string)): Import
    requires item.kind.UseItem? && item.kind.path != []
  {
    Import(NameGiven(item.kind), ns, offer.0, offer.1, item.isPub, false)
  }

  /** A use in the making: the list so far, the complaints, whether anything was found or barred. */
  datatype Sweep = Sweep(list: seq<Import>, events: seq<Event>, resolved: bool, barred: bool)

  function Add(tree: Tree, m: nat, s: Sweep, imp: Import): Sweep
    requires Rooted(tree)
  {
    if Local(tree, m, KeyOf(imp)) then s.(events := s.events + [ConflictsWithLocal(imp.name)], resolved := true)
    else if Taken(s.list, KeyOf(imp)) then s.(events := s.events + [DuplicateImport(imp.name)], resolved := true)
    else s.(list := Placed(s.list, imp), resolved := true)
  }

  function Bar(s: Sweep, member: string): Sweep {
    if s.barred then s else s.(events := s.events + [PrivateItem(member)], barred := true)
  }

  /** One namespace of a `use`. */
  function SweepOne(
    tree: Tree, m: nat, item: Item, at: nat, through: bool, exports: seq<Import>, ns: Namespace, s: Sweep
  ): Sweep
    requires Rooted(tree) && item.kind.UseItem? && item.kind.path != []
    requires at < |tree.nodes| && forall i :: 0 <= i < |exports| ==> Chased(tree, exports[i])
  {
    match Offer(tree, at, Member(item.kind), through, exports, ns)
    case None => s
    case Some(offer) =>
      if Visible(tree, m, offer.0, Key(offer.1, ns)) then Add(tree, m, s, Wanted(item, ns, offer))
      else Bar(s, Member(item.kind))
  }

  function SweepAll(
    tree: Tree, m: nat, item: Item, at: nat, through: bool, exports: seq<Import>, spaces: seq<Namespace>, s: Sweep
  ): Sweep
    requires Rooted(tree) && item.kind.UseItem? && item.kind.path != []
    requires at < |tree.nodes| && forall i :: 0 <= i < |exports| ==> Chased(tree, exports[i])
    decreases |spaces|
  {
    if spaces == [] then s
    else SweepAll(tree, m, item, at, through, exports, spaces[1..],
      SweepOne(tree, m, item, at, through, exports, spaces[0], s))
  }

  /** What one namespace leaves behind. */
  ghost predicate Swept(tree: Tree, m: nat, item: Item, s: Sweep, t: Sweep)
    requires Rooted(tree)
  {
    && SoundList(tree, m, t.list)
    && s.events <= t.events && (forall i :: |s.events| <= i < |t.events| ==> !t.events[i].ReExportCycle?)
    && (s.resolved ==> t.resolved) && (s.barred ==> t.barred) && (t.events == s.events ==> t.barred == s.barred)
    && Publics(s.list) <= Publics(t.list) && (!item.isPub ==> Publics(t.list) == Publics(s.list))
    && (forall imp :: imp in s.list && !imp.injected ==> imp in t.list)
    && (forall imp :: imp in s.list ==> exists other :: other in t.list && KeyOf(other) == KeyOf(imp))
    && (forall imp :: imp in t.list && imp.injected ==> imp in s.list)
  }

  lemma AddSwept(tree: Tree, m: nat, item: Item, s: Sweep, imp: Import)
    requires Rooted(tree) && SoundList(tree, m, s.list)
    requires !imp.injected && imp.isPub == item.isPub && Chased(tree, imp) && AskedFor(tree, m, imp)
    requires imp.ns != ModuleSpace ==>
      DeclaredPub(tree, imp.target, TargetKey(imp)) ||
        (imp.target == m && (imp.isPub ==> Leaks(tree, m, TargetKey(imp))))
    ensures Swept(tree, m, item, s, Add(tree, m, s, imp))
    ensures Add(tree, m, s, imp).events == s.events ==> imp in Add(tree, m, s, imp).list
  {
    hide Local, DeclaredPub, Publics, Placed, Leaks, AskedFor;
    if !Local(tree, m, KeyOf(imp)) && !Taken(s.list, KeyOf(imp)) {
      var after := Placed(s.list, imp);
      PlacedArranged(s.list, imp);
      PlacedPublics(s.list, imp);
      forall i | 0 <= i < |after| ensures Sound(tree, m, after[i]) { assert after[i] in after; }
      forall k | k in s.list && !k.injected ensures k in after { FirstIsExplicit(s.list, k); }
    }
  }

  /** What a `use` is offered and may see is `pub`, or is the module's own and exposed if the `use` is public. */
  lemma OfferIsOpen(tree: Tree, m: nat, item: Item, at: nat, through: bool, exports: seq<Import>, ns: Namespace)
    requires Rooted(tree) && Written(tree, m, item, at, exports) && ns != ModuleSpace
    ensures at < |tree.nodes| && forall i :: 0 <= i < |exports| ==> Chased(tree, exports[i])
    ensures var offer := Offer(tree, at, Member(item.kind), through, exports, ns);
      offer.Some? ==>
        var key := Key(offer.value.1, ns);
        && Local(tree, offer.value.0, key)
        && (Visible(tree, m, offer.value.0, key) ==>
              || DeclaredPub(tree, offer.value.0, key)
              || (offer.value.0 == m == at && (item.isPub ==> Leaks(tree, m, key))))
  {
    hide Local, DeclaredPub, Visible, Reach, Leaks;
    OfferIsLocal(tree, at, Member(item.kind), through, exports, ns);
    var offer := Offer(tree, at, Member(item.kind), through, exports, ns);
    if offer.Some? {
      var key := Key(offer.value.1, ns);
      if offer.value.0 != m {
        VisibleIsPub(tree, m, offer.value.0, key);
      } else if !through {
        OwnExposed(tree, m, item, key);
      } else {
        assert Sound(tree, at, FirstPublic(exports, Key(Member(item.kind), ns)).value);
      }
    }
  }

  lemma OwnExposed(tree: Tree, m: nat, item: Item, key: Key)
    requires Rooted(tree) && m < |tree.nodes| && item in tree.nodes[m].items && item.kind.UseItem?
    requires item.kind.path != []
    requires Reach(tree, m, item.kind.path) == At(m) && Member(item.kind) == key.name && Local(tree, m, key)
    requires key.ns != ModuleSpace
    ensures item.isPub && !DeclaredPub(tree, m, key) ==> Leaks(tree, m, key)
  {
    hide Local, DeclaredPub, Reach;
    var i :| 0 <= i < |tree.nodes[m].items| && tree.nodes[m].items[i] == item;
    if item.isPub { assert Exposes(tree, m, tree.nodes[m].items[i], key); }
  }

  lemma SweepOneSwept(
    tree: Tree, m: nat, item: Item, at: nat, through: bool, exports: seq<Import>, ns: Namespace, s: Sweep
  )
    requires Rooted(tree) && SoundList(tree, m, s.list) && Written(tree, m, item, at, exports)
    requires at < |tree.nodes| && forall i :: 0 <= i < |exports| ==> Chased(tree, exports[i])
    requires through ==> !LocalAnywhere(tree, at, Member(item.kind))
    ensures var t := SweepOne(tree, m, item, at, through, exports, ns, s);
      && Swept(tree, m, item, s, t)
      && Served(tree, item, at, through, exports, ns, s, t)
      && (Offer(tree, at, Member(item.kind), through, exports, ns).None? ==> t == s)
  {
    hide Local, Publics, Visible, DeclaredPub, Offer, Add, SoundList, Leaks, Reach, Sound, LocalAnywhere;
    var offer := Offer(tree, at, Member(item.kind), through, exports, ns);
    OfferIsLocal(tree, at, Member(item.kind), through, exports, ns);
    if offer.Some? && Visible(tree, m, offer.value.0, Key(offer.value.1, ns)) {
      if ns != ModuleSpace { OfferIsOpen(tree, m, item, at, through, exports, ns); }
      OfferNamed(tree, at, Member(item.kind), through, exports, ns);
      assert GivenBy(tree, m, item, Wanted(item, ns, offer.value));
      AddSwept(tree, m, item, s, Wanted(item, ns, offer.value));
      AddResolves(tree, m, s, Wanted(item, ns, offer.value));
    }
  }

  /** A module's own declaration is offered under its own name. */
  lemma OfferNamed(tree: Tree, at: nat, member: string, through: bool, exports: seq<Import>, ns: Namespace)
    requires Rooted(tree) && forall i :: 0 <= i < |exports| ==> Chased(tree, exports[i])
    ensures var offer := Offer(tree, at, member, through, exports, ns);
      offer.Some? && !through ==> offer.value == (at, member)
  {
    hide Local;
  }

  lemma AddResolves(tree: Tree, m: nat, s: Sweep, imp: Import)
    requires Rooted(tree)
    ensures Add(tree, m, s, imp).resolved && Add(tree, m, s, imp).barred == s.barred
  {
  }

  lemma SweptTwice(tree: Tree, m: nat, item: Item, s: Sweep, t: Sweep, u: Sweep)
    requires Rooted(tree) && Swept(tree, m, item, s, t) && Swept(tree, m, item, t, u)
    ensures Swept(tree, m, item, s, u)
  {
    hide SoundList, Publics;
  }

  /** An offer leaves a mark, and without a complaint it is imported. */
  ghost predicate Served(
    tree: Tree, item: Item, at: nat, through: bool, exports: seq<Import>, ns: Namespace, s: Sweep, t: Sweep
  )
    requires Rooted(tree) && item.kind.UseItem? && item.kind.path != []
    requires forall i :: 0 <= i < |exports| ==> Chased(tree, exports[i])
  {
    var offer := Offer(tree, at, Member(item.kind), through, exports, ns);
    offer.Some? ==>
      && (t.resolved || t.barred)
      && (t.events == s.events && !s.barred ==> Wanted(item, ns, offer.value) in t.list && t.resolved)
  }

  lemma ServedThen(
    tree: Tree, m: nat, item: Item, at: nat, through: bool, exports: seq<Import>, ns: Namespace, s: Sweep, u: Sweep,
    t: Sweep
  )
    requires Rooted(tree) && item.kind.UseItem? && item.kind.path != []
    requires forall i :: 0 <= i < |exports| ==> Chased(tree, exports[i])
    requires Swept(tree, m, item, s, u) && Swept(tree, m, item, u, t)
    requires Served(tree, item, at, through, exports, ns, s, u) || Served(tree, item, at, through, exports, ns, u, t)
    ensures Served(tree, item, at, through, exports, ns, s, t)
  {
    hide Rooted, Local, Publics, Offer, SoundList, NameGiven, Member, Chased;
  }

  /** The whole sweep: nothing offered changes nothing, and every offer is served. */
  lemma {:induction false} SweepAllSwept(
    tree: Tree, m: nat, item: Item, at: nat, through: bool, exports: seq<Import>, spaces: seq<Namespace>, s: Sweep
  )
    requires Rooted(tree) && SoundList(tree, m, s.list) && Written(tree, m, item, at, exports)
    requires at < |tree.nodes| && forall i :: 0 <= i < |exports| ==> Chased(tree, exports[i])
    requires through ==> !LocalAnywhere(tree, at, Member(item.kind))
    ensures var t := SweepAll(tree, m, item, at, through, exports, spaces, s);
      && Swept(tree, m, item, s, t)
      && ((forall ns :: ns in spaces ==> Offer(tree, at, Member(item.kind), through, exports, ns).None?) ==> t == s)
      && (forall ns :: ns in spaces ==> Served(tree, item, at, through, exports, ns, s, t))
    decreases |spaces|
  {
    hide Rooted, Local, Publics, Offer, SoundList, SweepOne, Member, Served, Swept, Reach, Sound, LocalAnywhere;
    if spaces == [] {
      SweptSame(tree, m, item, s);
    } else {
      var u, t := SweepOne(tree, m, item, at, through, exports, spaces[0], s),
        SweepAll(tree, m, item, at, through, exports, spaces, s);
      SweepOneSwept(tree, m, item, at, through, exports, spaces[0], s);
      SweptSound(tree, m, item, s, u);
      SweepAllSwept(tree, m, item, at, through, exports, spaces[1..], u);
      SweptTwice(tree, m, item, s, u, t);
      forall ns | ns in spaces ensures Served(tree, item, at, through, exports, ns, s, t) {
        ServedThen(tree, m, item, at, through, exports, ns, s, u, t);
      }
    }
  }

  lemma SweptSound(tree: Tree, m: nat, item: Item, s: Sweep, t: Sweep)
    requires Rooted(tree) && Swept(tree, m, item, s, t)
    ensures SoundList(tree, m, t.list)
  {
  }

  lemma SweptSame(tree: Tree, m: nat, item: Item, s: Sweep)
    requires Rooted(tree) && SoundList(tree, m, s.list)
    ensures Swept(tree, m, item, s, s)
  {
    hide SoundList, Publics;
  }

  /** One namespace's sweep does not disturb what another namespace's lookup will read. */
  lemma SweepOneElsewhere(
    tree: Tree, m: nat, item: Item, at: nat, through: bool, exports: seq<Import>, ns: Namespace, s: Sweep, key: Key
  )
    requires Rooted(tree) && SoundList(tree, m, s.list) && item.kind.UseItem? && item.kind.path != []
    requires at < |tree.nodes| && forall i :: 0 <= i < |exports| ==> Chased(tree, exports[i])
    requires key.ns != ns
    ensures FirstPublic(SweepOne(tree, m, item, at, through, exports, ns, s).list, key) == FirstPublic(s.list, key)
  {
    hide Local, Publics, Offer, Visible, Placed, FirstPublic;
    var offer := Offer(tree, at, Member(item.kind), through, exports, ns);
    if offer.Some? {
      var imp := Wanted(item, ns, offer.value);
      PlacedPublics(s.list, imp);
      OnlyPublicsAnswer(s.list, key);
      OnlyPublicsAnswer(Placed(s.list, imp), key);
      AppendedPublic(Publics(s.list), imp, key);
      assert Publics(s.list) + [] == Publics(s.list);
    }
  }

  lemma {:induction false} AppendedPublic(list: seq<Import>, imp: Import, key: Key)
    requires KeyOf(imp) != key
    ensures FirstPublic(list + [imp], key) == FirstPublic(list, key)
  {
    if list == [] {
      assert list + [imp] == [imp] && [imp][1..] == [];
    } else {
      assert (list + [imp])[1..] == list[1..] + [imp];
      AppendedPublic(list[1..], imp, key);
    }
  }

  /** A list that changes under a sweep still answers the namespaces to come as it did at the start. */
  ghost predicate StillAnswers(list: seq<Import>, exports: seq<Import>, member: string, spaces: seq<Namespace>) {
    forall ns :: ns in spaces ==> FirstPublic(list, Key(member, ns)) == FirstPublic(exports, Key(member, ns))
  }

  lemma SweepOneFrom(
    tree: Tree, m: nat, item: Item, at: nat, through: bool, exports: seq<Import>, ns: Namespace, s: Sweep
  )
    requires Rooted(tree) && item.kind.UseItem? && item.kind.path != []
    requires at < |tree.nodes| && forall i :: 0 <= i < |exports| ==> Chased(tree, exports[i])
    ensures var t := SweepOne(tree, m, item, at, through, exports, ns, s.(events := []));
      SweepOne(tree, m, item, at, through, exports, ns, s) == t.(events := s.events + t.events)
  {
    hide Local, Offer, Visible, Placed, Taken;
    assert s.events + [] == s.events;
  }

  lemma PublicsStillAnswer(list: seq<Import>, member: string, spaces: seq<Namespace>)
    ensures StillAnswers(list, Publics(list), member, spaces)
  {
    forall ns | ns in spaces ensures FirstPublic(list, Key(member, ns)) == FirstPublic(Publics(list), Key(member, ns)) {
      OnlyPublicsAnswer(list, Key(member, ns));
    }
  }

  lemma StillAnswersOn(tree: Tree, m: nat, item: Item, at: nat, exports: seq<Import>, k: nat, s: Sweep)
    requires Rooted(tree) && SoundList(tree, m, s.list) && item.kind.UseItem? && item.kind.path != []
    requires at < |tree.nodes| && forall i :: 0 <= i < |exports| ==> Chased(tree, exports[i])
    requires k < |SPACES| && StillAnswers(s.list, exports, Member(item.kind), SPACES[k..])
    ensures StillAnswers(SweepOne(tree, m, item, at, true, exports, SPACES[k], s).list, exports, Member(item.kind),
      SPACES[k + 1..])
  {
    hide Rooted, SoundList, SweepOne, Member, FirstPublic;
    forall ns | ns in SPACES[k + 1..]
      ensures FirstPublic(SweepOne(tree, m, item, at, true, exports, SPACES[k], s).list, Key(Member(item.kind), ns))
           == FirstPublic(exports, Key(Member(item.kind), ns))
    {
      var j :| k + 1 <= j < |SPACES| && SPACES[j] == ns;
      assert SPACES[k] != SPACES[j];
      assert ns in SPACES[k..] by { assert SPACES[k..][j - k] == ns; }
      SweepOneElsewhere(tree, m, item, at, true, exports, SPACES[k], s, Key(Member(item.kind), ns));
    }
  }
}
