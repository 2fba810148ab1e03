/**
 What a `use` leaves behind and what it complains of, name by name (src/analyzer/resolve.cc,
 resolve_use, add_import, declaration_visible and collect_locals): which items a name stands for,
 what a module is offered, and which complaint each refusal makes.
 */
module UseOutcomes {
  import opened Lang
  import opened Modules
  import opened Imports
  import opened Resolution

  // ----- names and declarations ---------------------------------------------------------------------

  /** Which items declare a name in which namespace; an extern block declares its functions. */
  lemma DeclaresExactly(item: Item, name: string)
    ensures Declares(item, Key(name, TypeSpace)) <==>
      item.name == name && (item.kind == StructItem || item.kind == EnumItem || item.kind == SpecItem)
    ensures Declares(item, Key(name, ValueSpace)) <==>
      || (&& item.name == name
          && (item.kind == StructItem || item.kind == EnumItem || item.kind == ItemKind.FnItem
              || item.kind == IntrinsicItem || item.kind == StaticItem || item.kind == ConstItem))
      || (item.kind.ExternItem? && name in item.kind.fns)
    ensures !Declares(item, Key(name, ModuleSpace))
  {
  }

  /** Item `i` is the first that declares the name. */
  ghost predicate FirstDeclares(tree: Tree, at: nat, key: Key, i: nat) {
    && at < |tree.nodes| && i < |tree.nodes[at].items| && Declares(tree.nodes[at].items[i], key)
    && forall j :: 0 <= j < i ==> !Declares(tree.nodes[at].items[j], key)
  }

  /** A module sees its own declarations, any declaration that is `pub`, and what no item declares. */
  lemma VisibleExactly(tree: Tree, from: nat, at: nat, key: Key)
    requires at < |tree.nodes|
    ensures Visible(tree, from, at, key) <==>
      from == at || forall i: nat :: FirstDeclares(tree, at, key, i) ==> tree.nodes[at].items[i].isPub
    ensures DeclaredPub(tree, at, key) <==>
      exists i: nat :: FirstDeclares(tree, at, key, i) && tree.nodes[at].items[i].isPub
  {
    hide Declares;
    var found := FindDeclaration(tree.nodes[at].items, key);
    if found.Some? {
      assert FirstDeclares(tree, at, key, found.value);
      forall i: nat | FirstDeclares(tree, at, key, i) ensures i == found.value {}
    }
  }

  /** A `use` asks for its last segment, and gives it that name or the one after `as`. */
  lemma NamesOfUse(path: seq<string>, member: string, renamed: string)
    ensures Member(UseItem(path + [member], None)) == member
    ensures NameGiven(UseItem(path + [member], None)) == member
    ensures NameGiven(UseItem(path + [member], Some(renamed))) == renamed
  {
  }

  // ----- what is offered ----------------------------------------------------------------------------

  /** The first public import of a name. */
  ghost predicate FirstExport(exports: seq<Import>, key: Key, i: nat) {
    && i < |exports| && exports[i].isPub && exports[i].name == key.name && exports[i].ns == key.ns
    && forall j :: 0 <= j < i ==> !(exports[j].isPub && exports[j].name == key.name && exports[j].ns == key.ns)
  }

  lemma {:induction false} FirstPublicIs(exports: seq<Import>, key: Key)
    ensures forall i: nat :: FirstExport(exports, key, i) ==> FirstPublic(exports, key) == Some(exports[i])
    ensures (forall i: nat :: !FirstExport(exports, key, i)) ==> FirstPublic(exports, key).None?
    decreases |exports|
  {
    if exports != [] {
      var rest := exports[1..];
      FirstPublicIs(rest, key);
      if exports[0].isPub && KeyOf(exports[0]) == key {
        assert FirstExport(exports, key, 0);
        forall i: nat | FirstExport(exports, key, i) ensures i == 0 {}
      } else {
        forall i: nat ensures FirstExport(exports, key, i) <==> i > 0 && FirstExport(rest, key, i - 1) {
          assert forall j :: 0 < j < |exports| ==> exports[j] == rest[j - 1];
          assert forall j :: 0 <= j < |rest| ==> rest[j] == exports[j + 1];
        }
        if forall i: nat :: !FirstExport(exports, key, i) {
          forall i: nat ensures !FirstExport(rest, key, i) { assert !FirstExport(exports, key, i + 1); }
        }
      }
    }
  }

  /** The declaration a name stands for: the module's own, or, looked for after, the one it re-exports. */
  ghost predicate OfferIs(
    tree: Tree, at: nat, member: string, through: bool, exports: seq<Import>, ns: Namespace, target: nat, name: string
  )
    requires Rooted(tree)
  {
    if through then
      exists i: nat ::
        FirstExport(exports, Key(member, ns), i) && exports[i].target == target && exports[i].member == name
    else Local(tree, at, Key(member, ns)) && target == at && name == member
  }

  lemma OfferExactly(tree: Tree, at: nat, member: string, through: bool, exports: seq<Import>, ns: Namespace)
    requires Rooted(tree) && forall i :: 0 <= i < |exports| ==> Chased(tree, exports[i])
    ensures forall target: nat, name :: OfferIs(tree, at, member, through, exports, ns, target, name) <==>
      Offer(tree, at, member, through, exports, ns) == Some((target, name))
  {
    hide Rooted, Local, FirstExport, FirstPublic, Chased;
    FirstPublicIs(exports, Key(member, ns));
  }

  // ----- one pass over the namespaces ---------------------------------------------------------------

  /** A `use` of module `m` and where it is in its search. */
  datatype Quest = Quest(tree: Tree, m: nat, item: Item, at: nat, through: bool, exports: seq<Import>)

  ghost predicate Posed(u: Quest) {
    && Rooted(u.tree) && u.item.kind.UseItem? && u.item.kind.path != [] && u.at < |u.tree.nodes|
    && forall i :: 0 <= i < |u.exports| ==> Chased(u.tree, u.exports[i])
  }

  function Offered(u: Quest, ns: Namespace): Option<(nat, string)>
    requires Posed(u)
  {
    Offer(u.tree, u.at, Member(u.item.kind), u.through, u.exports, ns)
  }

  ghost predicate Seen(u: Quest, ns: Namespace)
    requires Posed(u)
  {
    var o := Offered(u, ns); o.Some? && Visible(u.tree, u.m, o.value.0, Key(o.value.1, ns))
  }

  ghost predicate Unseen(u: Quest, ns: Namespace)
    requires Posed(u)
  {
    Offered(u, ns).Some? && !Seen(u, ns)
  }

  function Given(u: Quest, ns: Namespace): Key
    requires Posed(u)
  {
    Key(NameGiven(u.item.kind), ns)
  }

  ghost predicate Clashes(u: Quest, ns: Namespace)
    requires Posed(u)
  {
    Seen(u, ns) && Local(u.tree, u.m, Given(u, ns))
  }

  ghost predicate Explicit(list: seq<Import>, key: Key) {
    exists imp :: imp in list && !imp.injected && imp.name == key.name && imp.ns == key.ns
  }

  ghost predicate Repeats(u: Quest, list: seq<Import>, ns: Namespace)
    requires Posed(u)
  {
    Seen(u, ns) && !Clashes(u, ns) && Explicit(list, Given(u, ns))
  }

  ghost predicate Earned(u: Quest, list: seq<Import>, ns: Namespace)
    requires Posed(u)
  {
    Seen(u, ns) && !Clashes(u, ns) && !Repeats(u, list, ns)
  }

  function Earning(u: Quest, ns: Namespace): Import
    requires Posed(u) && Offered(u, ns).Some?
  {
    var o := Offered(u, ns).value;
    Import(NameGiven(u.item.kind), ns, o.0, o.1, u.item.isPub, false)
  }

  lemma TakenIsExplicit(list: seq<Import>, key: Key)
    requires Arranged(list)
    ensures Taken(list, key) <==> Explicit(list, key)
  {
    if Explicit(list, key) {
      var imp :| imp in list && !imp.injected && imp.name == key.name && imp.ns == key.ns;
      assert KeyOf(imp) == key;
      FirstIsExplicit(list, imp);
    }
    if Taken(list, key) { assert list[FirstAt(list, key)] in list && KeyOf(list[FirstAt(list, key)]) == key; }
  }

  ghost predicate AnySeen(u: Quest, done: set<Namespace>)
    requires Posed(u)
  {
    exists ns :: ns in done && Seen(u, ns)
  }

  ghost predicate AnyUnseen(u: Quest, done: set<Namespace>)
    requires Posed(u)
  {
    exists ns :: ns in done && Unseen(u, ns)
  }

  ghost predicate AnyClash(u: Quest, done: set<Namespace>)
    requires Posed(u)
  {
    exists ns :: ns in done && Clashes(u, ns)
  }

  ghost predicate AnyRepeat(u: Quest, list: seq<Import>, done: set<Namespace>)
    requires Posed(u)
  {
    exists ns :: ns in done && Repeats(u, list, ns)
  }

  lemma AnyMore(u: Quest, list: seq<Import>, done: set<Namespace>, ns: Namespace)
    requires Posed(u)
    ensures AnySeen(u, done + {ns}) <==> AnySeen(u, done) || Seen(u, ns)
    ensures AnyUnseen(u, done + {ns}) <==> AnyUnseen(u, done) || Unseen(u, ns)
    ensures AnyClash(u, done + {ns}) <==> AnyClash(u, done) || Clashes(u, ns)
    ensures AnyRepeat(u, list, done + {ns}) <==> AnyRepeat(u, list, done) || Repeats(u, list, ns)
  {
    hide Posed, Seen, Unseen, Clashes, Repeats;
    assert ns in done + {ns};
    assert forall k :: k in done + {ns} <==> k in done || k == ns;
  }

  /** What a pass over some namespaces complains of: each complaint for its reason and no other. */
  ghost predicate Complains(u: Quest, list: seq<Import>, done: set<Namespace>, t: Sweep)
    requires Posed(u)
  {
    && (t.resolved <==> AnySeen(u, done)) && (t.barred <==> AnyUnseen(u, done))
    && forall e :: e in t.events <==>
         || (e == PrivateItem(Member(u.item.kind)) && AnyUnseen(u, done))
         || (e == ConflictsWithLocal(NameGiven(u.item.kind)) && AnyClash(u, done))
         || (e == DuplicateImport(NameGiven(u.item.kind)) && AnyRepeat(u, list, done))
  }

  /** What it imports: what is offered, seen, and neither declared nor imported already. */
  ghost predicate Gains(u: Quest, list: seq<Import>, done: set<Namespace>, t: Sweep)
    requires Posed(u)
  {
    && Arranged(t.list)
    && (forall ns :: ns in done && Earned(u, list, ns) ==> Earning(u, ns) in t.list)
    && (forall imp :: imp in t.list && imp !in list ==>
          exists ns :: ns in done && Earned(u, list, ns) && imp == Earning(u, ns))
    && (forall ns :: ns !in done ==> (Explicit(t.list, Given(u, ns)) <==> Explicit(list, Given(u, ns))))
  }

  /** One namespace of the pass. */
  ghost predicate Takes(u: Quest, ns: Namespace, s: Sweep, t: Sweep)
    requires Posed(u)
  {
    t == SweepOne(u.tree, u.m, u.item, u.at, u.through, u.exports, ns, s)
  }

  /** The four things one namespace can do. */
  lemma TakesOne(u: Quest, list: seq<Import>, s: Sweep, t: Sweep, ns: Namespace)
    requires Posed(u) && Takes(u, ns, s, t) && Arranged(s.list)
    requires Explicit(s.list, Given(u, ns)) <==> Explicit(list, Given(u, ns))
    ensures !Seen(u, ns) && !Unseen(u, ns) ==> t == s
    ensures Unseen(u, ns) ==>
      t == if s.barred then s else s.(events := s.events + [PrivateItem(Member(u.item.kind))], barred := true)
    ensures Seen(u, ns) ==> t.resolved && t.barred == s.barred
    ensures Clashes(u, ns) ==> t.events == s.events + [ConflictsWithLocal(NameGiven(u.item.kind))]
    ensures Repeats(u, list, ns) ==> t.events == s.events + [DuplicateImport(NameGiven(u.item.kind))]
    ensures Earned(u, list, ns) ==> t.events == s.events
  {
    TakenIsExplicit(s.list, Given(u, ns));
    hide Rooted, Local, Visible, Offer, Placed, Taken, Chased, Explicit, Arranged, NameGiven, Member;
  }

  lemma ComplainsMore(u: Quest, list: seq<Import>, done: set<Namespace>, s: Sweep, t: Sweep, ns: Namespace)
    requires Posed(u) && Complains(u, list, done, s) && Takes(u, ns, s, t) && Arranged(s.list)
    requires Explicit(s.list, Given(u, ns)) <==> Explicit(list, Given(u, ns))
    ensures Complains(u, list, done + {ns}, t)
  {
    AnyMore(u, list, done, ns);
    TakesOne(u, list, s, t, ns);
    hide Posed, Takes, Offer, Visible, Local, Explicit, Arranged, AnySeen, AnyUnseen, AnyClash, AnyRepeat, NameGiven;
    hide Member, Given, Offered;
  }

  lemma GainsMore(u: Quest, list: seq<Import>, done: set<Namespace>, s: Sweep, t: Sweep, ns: Namespace)
    requires Posed(u) && Gains(u, list, done, s) && Takes(u, ns, s, t) && ns !in done
    ensures Gains(u, list, done + {ns}, t)
  {
    hide Rooted, Local, Visible, Offer, Placed, Taken, Chased, Explicit, Arranged, NameGiven, Member;
    TakenIsExplicit(s.list, Given(u, ns));
    if Earned(u, list, ns) {
      var imp := Earning(u, ns);
      PlacedArranged(s.list, imp);
      assert t.list == Placed(s.list, imp);
      forall other | other != ns ensures Explicit(t.list, Given(u, other)) <==> Explicit(s.list, Given(u, other)) {
        StillExplicit(s.list, imp, Given(u, other));
      }
      hide Earned;
      forall k | k in done && Earned(u, list, k) ensures Earning(u, k) in t.list {
        assert KeyOf(Earning(u, k)) != KeyOf(imp);
      }
    } else {
      assert t.list == s.list;
    }
  }

  lemma StillExplicit(list: seq<Import>, imp: Import, key: Key)
    requires Arranged(list) && !imp.injected && KeyOf(imp) != key && !Taken(list, KeyOf(imp))
    ensures Explicit(Placed(list, imp), key) <==> Explicit(list, key)
  {
    PlacedArranged(list, imp);
    hide Placed, Taken;
  }

  // ----- the whole use ------------------------------------------------------------------------------

  const EVERY := {ModuleSpace, TypeSpace, ValueSpace}

  function Swept3(u: Quest, s: Sweep): Sweep
    requires Posed(u)
  {
    SweepAll(u.tree, u.m, u.item, u.at, u.through, u.exports, SPACES, s)
  }

  lemma ThreeSteps(u: Quest, s: Sweep) returns (a: Sweep, b: Sweep)
    requires Posed(u)
    ensures Takes(u, ModuleSpace, s, a) && Takes(u, TypeSpace, a, b) && Takes(u, ValueSpace, b, Swept3(u, s))
  {
    hide Rooted, Chased, SweepOne;
    a := SweepOne(u.tree, u.m, u.item, u.at, u.through, u.exports, ModuleSpace, s);
    b := SweepOne(u.tree, u.m, u.item, u.at, u.through, u.exports, TypeSpace, a);
    assert SPACES[1..] == [TypeSpace, ValueSpace] && [TypeSpace, ValueSpace][1..] == [ValueSpace];
    assert [ValueSpace][1..] == [];
  }

  lemma PassSays(u: Quest, list: seq<Import>)
    requires Posed(u) && Arranged(list)
    ensures var t := Swept3(u, Sweep(list, [], false, false));
      Complains(u, list, EVERY, t) && Gains(u, list, EVERY, t)
  {
    hide Swept3;
    var s := Sweep(list, [], false, false);
    var a, b := ThreeSteps(u, s);
    var t := Swept3(u, s);
    assert Complains(u, list, {}, s) && Gains(u, list, {}, s);
    hide Posed, Complains, Takes, Arranged, Explicit;
    OneMore(u, list, {}, s, a, ModuleSpace);
    OneMore(u, list, {} + {ModuleSpace}, a, b, TypeSpace);
    OneMore(u, list, {} + {ModuleSpace} + {TypeSpace}, b, t, ValueSpace);
    assert EVERY == {} + {ModuleSpace} + {TypeSpace} + {ValueSpace};
  }

  lemma OneMore(u: Quest, list: seq<Import>, done: set<Namespace>, s: Sweep, t: Sweep, ns: Namespace)
    requires Posed(u) && Complains(u, list, done, s) && Gains(u, list, done, s) && Takes(u, ns, s, t) && ns !in done
    ensures Complains(u, list, done + {ns}, t) && Gains(u, list, done + {ns}, t)
  {
    GainsMore(u, list, done, s, t, ns);
    hide Complains, Posed, Takes;
    ComplainsMore(u, list, done, s, t, ns);
  }

  /** Nothing offered, nothing done. */
  lemma NothingDone(u: Quest, s: Sweep)
    requires Posed(u) && forall ns :: Offered(u, ns).None?
    ensures Swept3(u, s) == s
  {
    hide Swept3;
    var a, b := ThreeSteps(u, s);
    hide Offer, Chased, Rooted;
    assert Offered(u, ModuleSpace).None? && Offered(u, TypeSpace).None? && Offered(u, ValueSpace).None?;
  }

  lemma Heard(u: Quest, ns: Namespace)
    requires Posed(u) && Offered(u, ns).Some?
    ensures AnySeen(u, EVERY) || AnyUnseen(u, EVERY)
  {
    hide Posed, Visible;
    assert ns in EVERY;
  }

  /** The module's own declarations are asked for first, its re-exports only when none of them has the name. */
  function Asking(tree: Tree, m: nat, item: Item, at: nat, through: bool, exports: seq<Import>): Quest {
    Quest(tree, m, item, at, through, if through then exports else [])
  }

  /**
   What a `use` does to the imports of its module and what it complains of. A path that leads
   nowhere is refused as it was; a name nothing is offered under is missing, or a generic item a
   summary could not carry; and otherwise each namespace is imported, or complained of.
   */
  lemma OutcomeSays(tree: Tree, m: nat, item: Item, list: seq<Import>, exports: seq<Import>)
    requires Rooted(tree) && m < |tree.nodes| && item.kind.UseItem? && Arranged(list)
    requires forall i :: 0 <= i < |exports| ==> Chased(tree, exports[i])
    ensures var t, reached := Outcome(tree, m, item, list, exports), Reach(tree, m, item.kind.path);
      && (reached.Refused? ==> t.list == list && t.events == [reached.why])
      && (reached.At? ==>
            var own := Asking(tree, m, item, reached.at, false, exports);
            var passed := Asking(tree, m, item, reached.at, true, exports);
            && Posed(own) && Posed(passed)
            && var u := if exists ns :: Offered(own, ns).Some? then own else passed;
               if forall ns :: Offered(u, ns).None? then
                 && t.list == list
                 && t.events == [if Member(item.kind) in tree.nodes[reached.at].generics
                      then GenericUnavailable(Member(item.kind)) else UnresolvedImport(Member(item.kind))]
               else Complains(u, list, EVERY, t) && Gains(u, list, EVERY, t))
  {
    hide Rooted, Chased, Reach, Complains, Gains, Offer, SweepAll, Arranged, AnySeen, AnyUnseen;
    var reached := Reach(tree, m, item.kind.path);
    if reached.At? {
      var start := Sweep(list, [], false, false);
      var own := Asking(tree, m, item, reached.at, false, exports);
      var passed := Asking(tree, m, item, reached.at, true, exports);
      PassResolves(own, list);
      PassResolves(passed, list);
      if ns :| Offered(own, ns).Some? {
        Heard(own, ns);
      } else {
        NothingDone(own, start);
        if ns :| Offered(passed, ns).Some? { Heard(passed, ns); } else { NothingDone(passed, start); }
      }
    }
  }

  lemma PassResolves(u: Quest, list: seq<Import>)
    requires Posed(u) && Arranged(list)
    ensures var t := Swept3(u, Sweep(list, [], false, false));
      && Complains(u, list, EVERY, t) && Gains(u, list, EVERY, t)
      && (t.resolved <==> AnySeen(u, EVERY)) && (t.barred <==> AnyUnseen(u, EVERY))
  {
    PassSays(u, list);
    hide Swept3, Gains, AnySeen, AnyUnseen, Arranged, Posed;
  }
}
