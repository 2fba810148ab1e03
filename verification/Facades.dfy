/**
 What a facade makes visible (src/analyzer/resolve.cc, inject_prelude against
 declaration_visible). A declaration that is not `pub` is reachable from its own module only;
 a facade's public item can hand one on to every module without a `use`. The lemmas say
 exactly when, over the tables of any resolution that reported nothing.
 */
module Facades {
  import opened Lang
  import opened Modules
  import opened Imports
  import opened Resolution
  import opened Resolvers

  /** No facade's public item hands on a declaration of its own that is not `pub`: a fact about items. */
  ghost predicate Discreet(tree: Tree)
    requires Rooted(tree)
  {
    forall f, key :: f in tree.facades ==> !Leaks(tree, f, key)
  }

  ghost predicate Hidden(tree: Tree, imp: Import) {
    imp.ns != ModuleSpace && !DeclaredPub(tree, imp.target, TargetKey(imp))
  }

  /** Whatever name the code of any module meets a facade's import under, it is a `pub` declaration. */
  ghost predicate MeansPub(tree: Tree, imports: seq<seq<Import>>) {
    forall m, key :: 0 <= m < |imports| && First(imports[m], key).Some? && First(imports[m], key).value.injected ==>
      !Hidden(tree, First(imports[m], key).value)
  }

  /** Discreet facades inject nothing private, whatever was reported. */
  lemma DiscreetInjectsPub(tree: Tree, imports: seq<seq<Import>>, m: nat, imp: Import)
    requires Rooted(tree) && m < |imports| && SoundList(tree, m, imports[m]) && imp in imports[m] && imp.injected
    ensures Hidden(tree, imp) ==> imp.target in tree.facades && Leaks(tree, imp.target, TargetKey(imp))
    ensures Discreet(tree) ==> !Hidden(tree, imp)
  {
    hide DeclaredPub, Leaks, Local, Rooted;
    assert Sound(tree, m, imp);
  }

  // ----- the surface, on items ------------------------------------------------------------------------

  /** A facade's finished surface holds, under some name, a declaration of its own that is not `pub`. */
  ghost predicate ShowsHidden(tree: Tree, imports: seq<seq<Import>>, f: nat, key: Key) {
    && key.ns != ModuleSpace && !DeclaredPub(tree, f, key)
    && exists name :: Surface(tree, imports, f, Key(name, key.ns)) == Some(Injection(Key(name, key.ns), f, key.name))
  }

  lemma ShownIsLeaked(tree: Tree, imports: seq<seq<Import>>, f: nat, key: Key)
    requires Rooted(tree) && f < |tree.nodes| && f < |imports| && SoundList(tree, f, imports[f])
    requires ShowsHidden(tree, imports, f, key)
    ensures Leaks(tree, f, key)
  {
    hide DeclaredPub, Reach, Local, Rooted, InNamespace;
    var name :| Surface(tree, imports, f, Key(name, key.ns)) == Some(Injection(Key(name, key.ns), f, key.name));
    if OwnPublic(tree, f, Key(name, key.ns)) {
      var i :| 0 <= i < |tree.nodes[f].items| && tree.nodes[f].items[i].isPub
            && InNamespace(tree.nodes[f].items[i].kind, key.ns) && tree.nodes[f].items[i].name == name;
      assert Exposes(tree, f, tree.nodes[f].items[i], key);
    } else {
      var e := FirstPublic(imports[f], Key(name, key.ns)).value;
      assert Sound(tree, f, e) && TargetKey(e) == key;
    }
  }

  lemma LeakedIsShown(tree: Tree, imports: seq<seq<Import>>, f: nat, key: Key)
    requires Rooted(tree) && Finished(tree, imports) && f < |tree.nodes| && Leaks(tree, f, key)
    ensures ShowsHidden(tree, imports, f, key)
  {
    hide DeclaredPub, Reach, Local, Rooted, FacadesHeard, Surface, SoundList;
    var i :| 0 <= i < |tree.nodes[f].items| && Exposes(tree, f, tree.nodes[f].items[i], key);
    var item := tree.nodes[f].items[i];
    if InNamespace(item.kind, key.ns) && item.name == key.name {
      OwnShown(tree, imports, f, i, key);
    } else {
      assert Satisfied(tree, imports, f, i);
      var imp := Wanted(item, key.ns, (f, key.name));
      OwnFound(tree, imports, f, i, key);
      SurfaceOfPublic(tree, imports, f, imp);
    }
  }

  lemma OwnShown(tree: Tree, imports: seq<seq<Import>>, f: nat, i: nat, key: Key)
    requires f < |tree.nodes| && i < |tree.nodes[f].items| && tree.nodes[f].items[i].isPub
    requires InNamespace(tree.nodes[f].items[i].kind, key.ns) && tree.nodes[f].items[i].name == key.name
    ensures Surface(tree, imports, f, Key(key.name, key.ns)) == Some(Injection(Key(key.name, key.ns), f, key.name))
  {
    hide InNamespace;
    assert OwnPublic(tree, f, Key(key.name, key.ns));
  }

  lemma OwnFound(tree: Tree, imports: seq<seq<Import>>, f: nat, i: nat, key: Key)
    requires Rooted(tree) && Satisfied(tree, imports, f, i)
    requires var item := tree.nodes[f].items[i];
      item.kind.UseItem? && item.kind.path != [] && Reach(tree, f, item.kind.path) == At(f) &&
        Member(item.kind) == key.name && Local(tree, f, key)
    ensures Wanted(tree.nodes[f].items[i], key.ns, (f, key.name)) in imports[f]
  {
    hide Reach, Rooted, Local;
    var item := tree.nodes[f].items[i];
    assert key == Key(Member(item.kind), key.ns);
    assert LocalAnywhere(tree, f, Member(item.kind)) by {
      assert key.ns == ModuleSpace || key.ns == TypeSpace || key.ns == ValueSpace;
    }
    assert Offer(tree, f, Member(item.kind), false, [], key.ns) == Some((f, key.name));
  }

  /** On items and on finished surfaces it is the same thing to leak. */
  lemma LeaksExactlyOnSurface(tree: Tree, imports: seq<seq<Import>>, f: nat, key: Key)
    requires Rooted(tree) && Finished(tree, imports) && f < |tree.nodes|
    ensures Leaks(tree, f, key) <==> ShowsHidden(tree, imports, f, key)
  {
    hide Leaks, ShowsHidden, Rooted, Satisfied, FacadesHeard, SoundList;
    if Leaks(tree, f, key) { LeakedIsShown(tree, imports, f, key); }
    if ShowsHidden(tree, imports, f, key) { ShownIsLeaked(tree, imports, f, key); }
  }

  // ----- what a module comes to mean --------------------------------------------------------------------

  /** A module that neither declares the name nor imports it itself. */
  ghost predicate Open(tree: Tree, imports: seq<seq<Import>>, m: nat, key: Key)
    requires Rooted(tree)
  {
    m < |imports| && !Local(tree, m, key) && forall imp :: imp in imports[m] && KeyOf(imp) == key ==> imp.injected
  }

  /** A private declaration that a facade is the first to carry under a name some other module leaves open. */
  ghost predicate LeakTaken(tree: Tree, imports: seq<seq<Import>>, rank: nat, key: Key, imp: Import, m: nat)
    requires Rooted(tree)
  {
    && Bestows(tree, imports, rank, key, imp) && Hidden(tree, imp)
    && m != tree.facades[rank] && Open(tree, imports, m, key)
  }

  /** Some module comes to mean a private declaration exactly when one is taken. */
  lemma MeansPubExactly(tree: Tree, imports: seq<seq<Import>>)
    requires Rooted(tree) && Finished(tree, imports)
    ensures MeansPub(tree, imports) <==> forall rank, key, imp, m :: !LeakTaken(tree, imports, rank, key, imp, m)
  {
    hide Satisfied, Surface, DeclaredPub, Local, Sound, Rooted;
    forall rank: nat, key, imp, m: nat | LeakTaken(tree, imports, rank, key, imp, m) ensures !MeansPub(tree, imports) {
      assert Answers(imports, m, key, imp);
      var found := First(imports[m], key).value;
      assert found in imports[m] && KeyOf(found) == key;
    }
    forall m: nat, key | m < |imports| && First(imports[m], key).Some? && First(imports[m], key).value.injected
                         && Hidden(tree, First(imports[m], key).value)
      ensures exists rank: nat, imp :: LeakTaken(tree, imports, rank, key, imp, m)
    {
      var imp := First(imports[m], key).value;
      assert imp in imports[m] && KeyOf(imp) == key;
      var rank: nat :| Bestows(tree, imports, rank, key, imp);
      FirstTakes(tree, imports, rank, key, imp, m);
    }
  }

  lemma FirstTakes(tree: Tree, imports: seq<seq<Import>>, rank: nat, key: Key, imp: Import, m: nat)
    requires Rooted(tree) && Finished(tree, imports) && m < |imports| && First(imports[m], key) == Some(imp)
    requires imp.injected
    requires Bestows(tree, imports, rank, key, imp) && Hidden(tree, imp)
    ensures LeakTaken(tree, imports, rank, key, imp, m)
  {
    hide Satisfied, Leaks, Chased, AskedFor, FacadesHeard, Rooted, DeclaredPub, Local, Surface, Hidden;
    var list := imports[m];
    assert imp in list && KeyOf(imp) == key && Sound(tree, m, imp);
    forall e | e in list && KeyOf(e) == key ensures e.injected {
      if !e.injected { FirstIsExplicit(list, e); }
    }
    if m == tree.facades[rank] { OwnSurface(tree, imports, m, key, imp); }
  }

  /** A module holds no facade's import of a name on its own surface before its own. */
  lemma OwnSurface(tree: Tree, imports: seq<seq<Import>>, m: nat, key: Key, imp: Import)
    requires Rooted(tree) && m < |imports| && SoundList(tree, m, imports[m]) && First(imports[m], key) == Some(imp)
    requires imp.injected
    requires !Local(tree, m, key)
    ensures Surface(tree, imports, m, key).None?
  {
    hide Leaks, Chased, AskedFor, Rooted, DeclaredPub;
    assert !OwnPublic(tree, m, key);
    hide Local;
    if FirstPublic(imports[m], key).Some? {
      var e := FirstPublic(imports[m], key).value;
      assert Sound(tree, m, e);
      FirstIsExplicit(imports[m], e);
    }
  }

  // ----- on the tree's items --------------------------------------------------------------------------------

  /** The name an item is known by: its own, or the one a `use` gives. */
  function NameUnder(item: Item): string {
    if item.kind.UseItem? && item.kind.path != [] then NameGiven(item.kind) else item.name
  }

  /** No item of the module with this visibility or more is known by the name and could carry it. */
  ghost predicate Silent(tree: Tree, f: nat, key: Key) {
    && f < |tree.nodes| && !OwnPublic(tree, f, key)
    && forall item :: item in tree.nodes[f].items && item.isPub && item.kind.UseItem? ==> NameUnder(item) != key.name
  }

  ghost predicate Unused(tree: Tree, m: nat, name: string) {
    && m < |tree.nodes|
    && forall item :: item in tree.nodes[m].items && item.kind.UseItem? ==> NameUnder(item) != name
  }

  lemma SilentSurface(tree: Tree, imports: seq<seq<Import>>, f: nat, key: Key)
    requires Rooted(tree) && f < |imports| && SoundList(tree, f, imports[f]) && Silent(tree, f, key)
    ensures Surface(tree, imports, f, key).None?
  {
    hide Rooted, Sound, OwnPublic;
    if FirstPublic(imports[f], key).Some? {
      var e := FirstPublic(imports[f], key).value;
      NamedByUse(tree, f, e);
    }
  }

  lemma NamedByUse(tree: Tree, m: nat, imp: Import)
    requires Rooted(tree) && Sound(tree, m, imp)
    ensures imp.isPub ==> !imp.injected
    ensures !imp.injected ==>
      && m < |tree.nodes|
      && exists item :: item in tree.nodes[m].items && item.kind.UseItem? && item.isPub == imp.isPub
                     && NameUnder(item) == imp.name
  {
    hide Rooted, Local, Reach, DeclaredPub, Leaks, LocalAnywhere, Chased;
    if !imp.injected {
      var item :| GivenBy(tree, m, item, imp);
      assert NameUnder(item) == imp.name;
    }
  }

  /** An exposed declaration is on the surface under the name of the item that exposes it. */
  lemma ExposedSurface(tree: Tree, imports: seq<seq<Import>>, f: nat, i: nat, key: Key)
    requires Rooted(tree) && Finished(tree, imports) && f < |tree.nodes| && i < |tree.nodes[f].items|
    requires Exposes(tree, f, tree.nodes[f].items[i], key)
    ensures var k := Key(NameUnder(tree.nodes[f].items[i]), key.ns);
      Surface(tree, imports, f, k) == Some(Injection(k, f, key.name))
  {
    hide DeclaredPub, Reach, Local, Rooted, FacadesHeard, Surface, SoundList, Satisfied;
    var item := tree.nodes[f].items[i];
    if InNamespace(item.kind, key.ns) && item.name == key.name {
      OwnShown(tree, imports, f, i, key);
    } else {
      assert item.kind.path != [] by { ReachedPath(tree, f, item.kind.path); }
      assert Satisfied(tree, imports, f, i);
      OwnFound(tree, imports, f, i, key);
      SurfaceOfPublic(tree, imports, f, Wanted(item, key.ns, (f, key.name)));
    }
  }

  lemma ReachedPath(tree: Tree, m: nat, path: seq<string>)
    requires Rooted(tree) && m < |tree.nodes| && Reach(tree, m, path).At?
    ensures path != []
  {
  }

  /** A module of which no `use` gives the name imports nothing under it itself. */
  lemma UnusedOpen(tree: Tree, imports: seq<seq<Import>>, m: nat, key: Key)
    requires Rooted(tree) && m < |imports| && SoundList(tree, m, imports[m]) && Unused(tree, m, key.name)
    requires !Local(tree, m, key)
    ensures Open(tree, imports, m, key)
  {
    hide Rooted, Sound, Local;
    forall imp | imp in imports[m] && KeyOf(imp) == key ensures imp.injected { NamedByUse(tree, m, imp); }
  }

  /**
   A facade's item that exposes a private declaration reaches every module that neither declares
   nor uses the item's name, unless a facade before it has an item of that name.
   */
  lemma ExposedReaches(tree: Tree, imports: seq<seq<Import>>, rank: nat, i: nat, key: Key, m: nat)
    requires Rooted(tree) && Finished(tree, imports)
    requires rank < |tree.facades| && m < |tree.nodes| && m != tree.facades[rank]
    requires tree.facades[rank] < |tree.nodes| && i < |tree.nodes[tree.facades[rank]].items|
    requires Exposes(tree, tree.facades[rank], tree.nodes[tree.facades[rank]].items[i], key)
    requires key.ns != ModuleSpace && !DeclaredPub(tree, tree.facades[rank], key)
    requires var k := Key(NameUnder(tree.nodes[tree.facades[rank]].items[i]), key.ns);
      && (forall j :: 0 <= j < rank ==> Silent(tree, tree.facades[j], k))
      && !Local(tree, m, k) && Unused(tree, m, k.name)
    ensures var k := Key(NameUnder(tree.nodes[tree.facades[rank]].items[i]), key.ns);
      First(imports[m], k) == Some(Injection(k, tree.facades[rank], key.name))
    ensures !MeansPub(tree, imports)
  {
    hide Rooted, Local, Exposes, DeclaredPub, Satisfied, Silent, Unused, Surface, SoundList;
    var f := tree.facades[rank];
    var k := Key(NameUnder(tree.nodes[f].items[i]), key.ns);
    ExposedSurface(tree, imports, f, i, key);
    forall j | 0 <= j < rank ensures Surface(tree, imports, tree.facades[j], k).None? {
      SilentInside(tree, tree.facades[j], k);
      SilentSurface(tree, imports, tree.facades[j], k);
    }
    UnusedOpen(tree, imports, m, k);
    assert Bestows(tree, imports, rank, k, Injection(k, f, key.name));
    assert Answers(imports, m, k, Injection(k, f, key.name));
    var found := First(imports[m], k).value;
    assert found in imports[m] && KeyOf(found) == k;
    assert Hidden(tree, found);
  }

  lemma SilentInside(tree: Tree, f: nat, key: Key)
    requires Silent(tree, f, key)
    ensures f < |tree.nodes|
  {
  }

  /** A public `use` that reaches its own module for a name the module itself only re-exports. */
  ghost predicate Relays(tree: Tree, f: nat, item: Item)
    requires Rooted(tree) && f < |tree.nodes|
  {
    && item.isPub && item.kind.UseItem? && Reach(tree, f, item.kind.path) == At(f)
    && !LocalAnywhere(tree, f, Member(item.kind))
  }

  /**
   Whenever a module means a private declaration, a facade other than it declares that, one of
   the facade's public items exposes it, and one known by the very name, which the module does
   not declare, exposes it or relays the facade's own re-export of it.
   */
  lemma MeantIsExposed(tree: Tree, imports: seq<seq<Import>>, m: nat, key: Key)
    requires Rooted(tree) && Finished(tree, imports) && m < |imports| && First(imports[m], key).Some?
    requires First(imports[m], key).value.injected && Hidden(tree, First(imports[m], key).value)
    ensures var imp := First(imports[m], key).value;
      && imp.target in tree.facades && imp.target != m && imp.target < |tree.nodes| && !Local(tree, m, key)
      && Leaks(tree, imp.target, TargetKey(imp))
      && exists i :: 0 <= i < |tree.nodes[imp.target].items| && NameUnder(tree.nodes[imp.target].items[i]) == key.name
           && (|| Exposes(tree, imp.target, tree.nodes[imp.target].items[i], TargetKey(imp))
               || Relays(tree, imp.target, tree.nodes[imp.target].items[i]))
  {
    hide Rooted, Local, DeclaredPub, Satisfied, Leaks, Reach, LocalAnywhere, Chased, Surface;
    var imp := First(imports[m], key).value;
    assert imp in imports[m] && KeyOf(imp) == key && Sound(tree, m, imp);
    var rank: nat :| Bestows(tree, imports, rank, key, imp);
    FirstTakes(tree, imports, rank, key, imp, m);
    FacadeInside(tree, tree.facades[rank]);
    SurfaceExposed(tree, imports, tree.facades[rank], key, imp);
  }

  lemma SurfaceExposed(tree: Tree, imports: seq<seq<Import>>, f: nat, key: Key, imp: Import)
    requires Rooted(tree) && f < |tree.nodes| && f < |imports| && SoundList(tree, f, imports[f])
    requires Surface(tree, imports, f, key) == Some(imp) && Hidden(tree, imp)
    ensures imp.target == f
    ensures exists i :: 0 <= i < |tree.nodes[f].items| && NameUnder(tree.nodes[f].items[i]) == key.name
                     && (|| Exposes(tree, f, tree.nodes[f].items[i], TargetKey(imp))
                         || Relays(tree, f, tree.nodes[f].items[i]))
  {
    hide Rooted, Local, DeclaredPub, Leaks, Reach, LocalAnywhere;
    if OwnPublic(tree, f, key) {
      var i :| 0 <= i < |tree.nodes[f].items| && tree.nodes[f].items[i].isPub
            && InNamespace(tree.nodes[f].items[i].kind, key.ns) && tree.nodes[f].items[i].name == key.name;
      assert Exposes(tree, f, tree.nodes[f].items[i], TargetKey(imp));
      assert NameUnder(tree.nodes[f].items[i]) == key.name;
    } else {
      var e := FirstPublic(imports[f], key).value;
      assert Sound(tree, f, e) && TargetKey(e) == TargetKey(imp) && Chased(tree, e);
      var item :| GivenBy(tree, f, item, e);
      var i :| 0 <= i < |tree.nodes[f].items| && tree.nodes[f].items[i] == item;
      assert NameUnder(tree.nodes[f].items[i]) == key.name;
      assert LocalAnywhere(tree, f, Member(item.kind)) ==> Exposes(tree, f, item, TargetKey(imp));
    }
  }

  // ----- exactly, where every `use` names a declaration -----------------------------------------------------

  /** No `use` needs a re-export: the module it reaches declares the name. */
  ghost predicate Direct(tree: Tree)
    requires Rooted(tree)
  {
    forall m: nat, item :: m < |tree.nodes| && item in tree.nodes[m].items && item.kind.UseItem? ==>
      var reached := Reach(tree, m, item.kind.path);
      reached.At? ==> LocalAnywhere(tree, reached.at, Member(item.kind))
  }

  /** A `use` that leads to a declaration in this namespace. */
  ghost predicate Carries(tree: Tree, m: nat, item: Item, key: Key)
    requires Rooted(tree) && m < |tree.nodes|
  {
    && item.kind.UseItem? && NameUnder(item) == key.name
    && var reached := Reach(tree, m, item.kind.path);
       reached.At? && Local(tree, reached.at, Key(Member(item.kind), key.ns))
  }

  ghost predicate Offers(tree: Tree, f: nat, key: Key)
    requires Rooted(tree)
  {
    f < |tree.nodes| &&
    (OwnPublic(tree, f, key) || exists item :: item in tree.nodes[f].items && item.isPub && Carries(tree, f, item, key))
  }

  ghost predicate Takes(tree: Tree, m: nat, key: Key)
    requires Rooted(tree)
  {
    m < |tree.nodes| &&
    (Local(tree, m, key) || exists item :: item in tree.nodes[m].items && Carries(tree, m, item, key))
  }

  /** On items: the first facade to offer a name exposes a private declaration by it, and `m` leaves the name free. */
  ghost predicate LeakReaches(tree: Tree, rank: nat, i: nat, key: Key, m: nat)
    requires Rooted(tree)
  {
    && rank < |tree.facades| && tree.facades[rank] < |tree.nodes| && i < |tree.nodes[tree.facades[rank]].items|
    && Exposes(tree, tree.facades[rank], tree.nodes[tree.facades[rank]].items[i], key)
    && key.ns != ModuleSpace && !DeclaredPub(tree, tree.facades[rank], key)
    && var k := Key(NameUnder(tree.nodes[tree.facades[rank]].items[i]), key.ns);
       && (forall j :: 0 <= j < rank ==> !Offers(tree, tree.facades[j], k))
       && m < |tree.nodes| && m != tree.facades[rank] && !Takes(tree, m, k)
  }

  lemma CarriedIsFound(tree: Tree, imports: seq<seq<Import>>, m: nat, item: Item, key: Key) returns (imp: Import)
    requires Rooted(tree) && Finished(tree, imports) && m < |tree.nodes| && item in tree.nodes[m].items
    requires Carries(tree, m, item, key)
    ensures imp in imports[m] && KeyOf(imp) == key && !imp.injected && imp.isPub == item.isPub
  {
    hide Rooted, Local, Reach, FacadesHeard, SoundList;
    var i :| 0 <= i < |tree.nodes[m].items| && tree.nodes[m].items[i] == item;
    assert IsUse(tree, m, i);
    assert Satisfied(tree, imports, m, i);
    var reached := Reach(tree, m, item.kind.path);
    ReachedPath(tree, m, item.kind.path);
    assert LocalAnywhere(tree, reached.at, Member(item.kind)) by {
      assert key.ns == ModuleSpace || key.ns == TypeSpace || key.ns == ValueSpace;
    }
    assert Offer(tree, reached.at, Member(item.kind), false, [], key.ns) == Some((reached.at, Member(item.kind)));
    imp := Wanted(item, key.ns, (reached.at, Member(item.kind)));
  }

  lemma GivenIsCarried(tree: Tree, m: nat, imp: Import) returns (item: Item)
    requires Rooted(tree) && Direct(tree) && Sound(tree, m, imp) && !imp.injected
    ensures m < |tree.nodes| && item in tree.nodes[m].items && item.isPub == imp.isPub
    ensures Carries(tree, m, item, KeyOf(imp))
  {
    hide Rooted, Local, Reach, DeclaredPub, Leaks, LocalAnywhere;
    assert AskedFor(tree, m, imp) && Chased(tree, imp);
    item :| GivenBy(tree, m, item, imp);
  }

  lemma SurfaceOnItems(tree: Tree, imports: seq<seq<Import>>, f: nat, key: Key)
    requires Rooted(tree) && Finished(tree, imports) && Direct(tree) && f < |tree.nodes|
    ensures Surface(tree, imports, f, key).Some? <==> Offers(tree, f, key)
  {
    hide Rooted, Satisfied, Direct, FacadesHeard, Carries, OwnPublic, Sound;
    if !OwnPublic(tree, f, key) {
      if FirstPublic(imports[f], key).Some? {
        var e := FirstPublic(imports[f], key).value;
        SoundMember(tree, imports, f, e);
        var item := GivenIsCarried(tree, f, e);
      }
      if item :| item in tree.nodes[f].items && item.isPub && Carries(tree, f, item, key) {
        var imp := CarriedIsFound(tree, imports, f, item, key);
      }
    }
  }

  lemma SoundMember(tree: Tree, imports: seq<seq<Import>>, m: nat, imp: Import)
    requires Rooted(tree) && Finished(tree, imports) && m < |imports| && imp in imports[m]
    ensures Sound(tree, m, imp) && (imp.isPub ==> !imp.injected)
  {
    hide Rooted, Satisfied, FacadesHeard, Local, Chased, DeclaredPub, Leaks, AskedFor;
    assert SoundList(tree, m, imports[m]);
  }

  lemma OpenOnItems(tree: Tree, imports: seq<seq<Import>>, m: nat, key: Key)
    requires Rooted(tree) && Finished(tree, imports) && Direct(tree) && m < |tree.nodes|
    ensures Open(tree, imports, m, key) <==> !Takes(tree, m, key)
  {
    hide Rooted, Satisfied, Direct, FacadesHeard, Carries, Sound, Local;
    if !Local(tree, m, key) {
      if imp :| imp in imports[m] && KeyOf(imp) == key && !imp.injected {
        SoundMember(tree, imports, m, imp);
        var item := GivenIsCarried(tree, m, imp);
      }
      if item :| item in tree.nodes[m].items && Carries(tree, m, item, key) {
        var imp := CarriedIsFound(tree, imports, m, item, key);
      }
    }
  }

  lemma DirectNeverRelays(tree: Tree, f: nat, item: Item)
    requires Rooted(tree) && Direct(tree) && f < |tree.nodes| && item in tree.nodes[f].items
    ensures !Relays(tree, f, item)
  {
    hide Rooted, Reach, LocalAnywhere;
  }

  lemma ReachingLeakTaken(tree: Tree, imports: seq<seq<Import>>, rank: nat, i: nat, key: Key, m: nat)
    requires Rooted(tree) && Finished(tree, imports) && Direct(tree) && LeakReaches(tree, rank, i, key, m)
    ensures var k := Key(NameUnder(tree.nodes[tree.facades[rank]].items[i]), key.ns);
      LeakTaken(tree, imports, rank, k, Injection(k, tree.facades[rank], key.name), m)
  {
    hide Rooted, Satisfied, Direct, FacadesHeard, Exposes, Offers, Takes, DeclaredPub, Surface, Open, SoundList;
    var f := tree.facades[rank];
    var k := Key(NameUnder(tree.nodes[f].items[i]), key.ns);
    ExposedSurface(tree, imports, f, i, key);
    forall j | 0 <= j < rank ensures Surface(tree, imports, tree.facades[j], k).None? {
      FacadeInside(tree, tree.facades[j]);
      SurfaceOnItems(tree, imports, tree.facades[j], k);
    }
    OpenOnItems(tree, imports, m, k);
  }

  lemma TakenLeakReaches(tree: Tree, imports: seq<seq<Import>>, rank: nat, key: Key, imp: Import, m: nat)
    requires Rooted(tree) && Finished(tree, imports) && Direct(tree) && LeakTaken(tree, imports, rank, key, imp, m)
    ensures exists i :: LeakReaches(tree, rank, i, Key(imp.member, key.ns), m)
  {
    hide Rooted, Satisfied, Direct, FacadesHeard, Exposes, Offers, Takes, DeclaredPub, Surface, SoundList, Relays;
    var f := tree.facades[rank];
    FacadeInside(tree, f);
    SurfaceNamed(tree, imports, f, key);
    SurfaceExposed(tree, imports, f, key, imp);
    var i :| 0 <= i < |tree.nodes[f].items| && NameUnder(tree.nodes[f].items[i]) == key.name
          && (|| Exposes(tree, f, tree.nodes[f].items[i], TargetKey(imp)) || Relays(tree, f, tree.nodes[f].items[i]));
    DirectNeverRelays(tree, f, tree.nodes[f].items[i]);
    forall j | 0 <= j < rank ensures !Offers(tree, tree.facades[j], key) {
      FacadeInside(tree, tree.facades[j]);
      SurfaceOnItems(tree, imports, tree.facades[j], key);
    }
    OpenOnItems(tree, imports, m, key);
    assert key == Key(key.name, key.ns) && TargetKey(imp) == Key(imp.member, key.ns);
    assert LeakReaches(tree, rank, i, Key(imp.member, key.ns), m);
  }

  lemma SurfaceNamed(tree: Tree, imports: seq<seq<Import>>, f: nat, key: Key)
    ensures var held := Surface(tree, imports, f, key); held.Some? ==> KeyOf(held.value) == key
  {
    hide OwnPublic, FirstPublic;
  }

  /**
   With nothing reported: facades that expose nothing private are enough for every module to
   mean `pub` declarations only. Where every `use` names a declaration of the module it reaches,
   it is decided on the tree's items: exactly when no leak reaches a module.
   */
  lemma PrivacyExactly(tree: Tree, imports: seq<seq<Import>>)
    requires Rooted(tree) && Finished(tree, imports)
    ensures Discreet(tree) ==> MeansPub(tree, imports)
    ensures Direct(tree) ==>
      (MeansPub(tree, imports) <==> forall rank, i, key, m :: !LeakReaches(tree, rank, i, key, m))
  {
    hide Satisfied, FacadesHeard, Leaks, Hidden, LeakTaken, Rooted, SoundList, LeakReaches, Direct;
    MeansPubExactly(tree, imports);
    if Discreet(tree) {
      forall m, key | 0 <= m < |imports| && First(imports[m], key).Some? && First(imports[m], key).value.injected
        ensures !Hidden(tree, First(imports[m], key).value)
      {
        DiscreetInjectsPub(tree, imports, m, First(imports[m], key).value);
      }
    }
    if Direct(tree) {
      if rank: nat, i: nat, key, m: nat :| LeakReaches(tree, rank, i, key, m) {
        ReachingLeakTaken(tree, imports, rank, i, key, m);
      }
      if rank: nat, key, imp, m: nat :| LeakTaken(tree, imports, rank, key, imp, m) {
        TakenLeakReaches(tree, imports, rank, key, imp, m);
      }
    }
  }

  lemma FacadeInside(tree: Tree, f: nat)
    requires Rooted(tree) && f in tree.facades
    ensures f < |tree.nodes|
  {
  }

  // ----- a leak ---------------------------------------------------------------------------------------------

  const HIDDEN := Item(ItemKind.FnItem, "hidden", false)
  const SHOWN := Item(UseItem(["self", "hidden"], Some("shown")), "unknown", true)
  const ROOT := Node("", None, [], [], map[], None, [])
  const PRELUDE := Node("prelude", None, [HIDDEN, SHOWN], [], map[], None, [])
  const LEAKY := Tree("app", [ROOT, PRELUDE], [PackageRoot("prelude", 1, false, [])], [1])

  /** `fn hidden` and `pub use self::hidden as shown`, in a facade beside an empty module. */
  lemma LeakyFacts()
    ensures Rooted(LEAKY) && Reach(LEAKY, 1, ["self", "hidden"]) == At(1)
    ensures Reach(LEAKY, 0, ["prelude", "shown"]) == At(1)
    ensures Local(LEAKY, 1, Key("hidden", ValueSpace)) && !DeclaredPub(LEAKY, 1, Key("hidden", ValueSpace))
    ensures forall key :: !Local(LEAKY, 0, key)
    ensures forall ns :: !Local(LEAKY, 1, Key("shown", ns))
    ensures forall ns :: Local(LEAKY, 1, Key("hidden", ns)) ==> ns == ValueSpace
    ensures Leaks(LEAKY, 1, Key("hidden", ValueSpace))
  {
    assert LEAKY.nodes[1] == PRELUDE && PRELUDE.items[0] == HIDDEN && PRELUDE.items[1] == SHOWN;
    assert ["self", "hidden"][1..1] == [] && ["prelude", "shown"][1..1] == [];
    assert FindRoot(LEAKY.roots, "prelude") == Some(0);
    assert Declares(HIDDEN, Key("hidden", ValueSpace));
    assert FindDeclaration(PRELUDE.items, Key("hidden", ValueSpace)) == Some(0);
    assert Exposes(LEAKY, 1, SHOWN, Key("hidden", ValueSpace));
  }

  /** Whatever order it was resolved in, the empty module comes to mean the private function. */
  lemma PrivateFunctionReaches(imports: seq<seq<Import>>)
    requires Rooted(LEAKY) && Finished(LEAKY, imports)
    ensures First(imports[0], Key("shown", ValueSpace)) == Some(Import("shown", ValueSpace, 1, "hidden", false, true))
    ensures !DeclaredPub(LEAKY, 1, Key("hidden", ValueSpace)) && !MeansPub(LEAKY, imports)
  {
    hide Rooted, Local, DeclaredPub, Leaks, Reach, Surface, Chased;
    LeakyFacts();
    var key, imp := Key("shown", ValueSpace), Import("shown", ValueSpace, 1, "hidden", false, true);
    assert LEAKY.nodes[1].items[1] == SHOWN && LEAKY.nodes[0].items == [];
    assert IsUse(LEAKY, 1, 1);
    assert Satisfied(LEAKY, imports, 1, 1);
    OwnFound(LEAKY, imports, 1, 1, Key("hidden", ValueSpace));
    SurfaceOfPublic(LEAKY, imports, 1, Wanted(SHOWN, ValueSpace, (1, "hidden")));
    hide Satisfied;
    assert Bestows(LEAKY, imports, 0, key, imp);
    assert Answers(imports, 0, key, imp);
    var first := First(imports[0], key).value;
    assert first in imports[0] && Sound(LEAKY, 0, first);
    assert !AskedFor(LEAKY, 0, first);
  }

  /** The same declaration asked for by a `use` is refused as private. */
  lemma SameUseRefused()
    ensures Rooted(LEAKY) && Chased(LEAKY, Import("shown", ValueSpace, 1, "hidden", true, false))
    ensures var asked := Item(UseItem(["prelude", "shown"], None), "unknown", false);
            var exports := [Import("shown", ValueSpace, 1, "hidden", true, false)];
      && Outcome(LEAKY, 1, SHOWN, [], []) == Sweep(exports, [], true, false)
      && Outcome(LEAKY, 0, asked, [], exports) == Sweep([], [PrivateItem("shown")], false, true)
  {
    hide Rooted, Local, Reach;
    LeakyFacts();
    var shown := Import("shown", ValueSpace, 1, "hidden", true, false);
    var asked, exports := Item(UseItem(["prelude", "shown"], None), "unknown", false), [shown];
    assert TargetKey(shown) == Key("hidden", ValueSpace);
    var start := Sweep([], [], false, false);
    ThreeSpaces(LEAKY, 1, SHOWN, 1, false, [], start);
    ThreeSpaces(LEAKY, 0, asked, 1, false, [], start);
    ThreeSpaces(LEAKY, 0, asked, 1, true, exports, start);
    assert forall ns :: FirstPublic(exports, Key("shown", ns)) == if ns == ValueSpace then Some(shown) else None by {
      assert exports[1..] == [];
    }
    hide SweepAll;
    assert !Visible(LEAKY, 0, 1, Key("hidden", ValueSpace));
    assert Visible(LEAKY, 1, 1, Key("hidden", ValueSpace));
    assert Placed([], shown) == [shown];
  }

  lemma ThreeSpaces(tree: Tree, m: nat, item: Item, at: nat, through: bool, exports: seq<Import>, s: Sweep)
    requires Rooted(tree) && item.kind.UseItem? && item.kind.path != []
    requires at < |tree.nodes| && forall i :: 0 <= i < |exports| ==> Chased(tree, exports[i])
    ensures var a := SweepOne(tree, m, item, at, through, exports, ModuleSpace, s);
            var b := SweepOne(tree, m, item, at, through, exports, TypeSpace, a);
      SweepAll(tree, m, item, at, through, exports, SPACES, s) ==
        SweepOne(tree, m, item, at, through, exports, ValueSpace, b)
  {
    hide SweepOne;
    assert SPACES[1..] == [TypeSpace, ValueSpace] && SPACES[1..][1..] == [ValueSpace] && [ValueSpace][1..] == [];
  }
}
