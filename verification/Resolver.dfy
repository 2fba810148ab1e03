/**
 The resolver itself (src/analyzer/resolve.cc, class Resolver): the tables it fills in place and
 the methods that fill them, each proved to keep the invariants of resolution.
 */
module Resolvers {
  import opened Lang
  import opened Graphs
  import opened Modules
  import opened UsePaths
  import opened Imports
  import opened Resolution

  class Resolver {
    const tree: Tree
    var localTypes: seq<seq<string>>
    var localValues: seq<seq<string>>
    var localModules: seq<seq<string>>
    var imports: seq<seq<Import>>
    var exportsState: seq<Phase>
    var log: seq<Event>
    /** The names a facade has already claimed. */
    var injected: set<Key>
    ghost var trace: Trace

    ghost function Now(): View reads this { View(imports, exportsState, log, injected, trace) }

    /** The name lists hold exactly what each module declares. */
    ghost predicate Collected()
      reads this`localTypes, this`localValues, this`localModules
      requires Rooted(tree)
    {
      && |localTypes| == |localValues| == |localModules| == |tree.nodes|
      && forall m, key :: 0 <= m < |tree.nodes| ==> (LookupLocal(m, key) <==> Local(tree, m, key))
    }

    ghost predicate Valid() reads this { Rooted(tree) && Collected() && Inv(tree, Now()) }

    predicate LookupLocal(m: nat, key: Key)
      requires m < |localTypes| && m < |localValues| && m < |localModules|
      reads this`localTypes, this`localValues, this`localModules
    {
      key.name in
        match key.ns
        case TypeSpace => localTypes[m]
        case ValueSpace => localValues[m]
        case ModuleSpace => localModules[m]
    }

    constructor (tree: Tree)
      requires Rooted(tree)
      ensures this.tree == tree && Inv(tree, Now()) && injected == {} && log == []
      ensures trace == Trace([], [], {}, multiset{}, [], map[])
      ensures forall m :: 0 <= m < |imports| ==> imports[m] == []
    {
      this.tree := tree;
      localTypes, localValues, localModules := [], [], [];
      imports := seq(|tree.nodes|, m => []);
      exportsState := seq(|tree.nodes|, m => Fresh);
      log, injected := [], {};
      trace := Trace([], [], {}, multiset{}, [], map[]);
    }

    // ----- local names --------------------------------------------------------------------------

    method CollectLocals()
      requires Rooted(tree)
      modifies this`localTypes, this`localValues, this`localModules
      ensures Collected()
    {
      localTypes, localValues, localModules := [], [], [];
      var m := 0;
      while m < |tree.nodes|
        invariant 0 <= m <= |tree.nodes|
        invariant |localTypes| == |localValues| == |localModules| == m
        invariant forall k, key :: 0 <= k < m ==> (LookupLocal(k, key) <==> Local(tree, k, key))
      {
        var types, values := DeclaredNames(tree.nodes[m].items);
        var children := ChildNames(tree, m);
        ghost var before := (localTypes, localValues, localModules);
        localTypes, localValues, localModules :=
          localTypes + [types], localValues + [values], localModules + [children];
        forall k, key | 0 <= k <= m ensures LookupLocal(k, key) <==> Local(tree, k, key) {
          if k < m {
            assert localTypes[k] == before.0[k] && localValues[k] == before.1[k] && localModules[k] == before.2[k];
          } else {
            assert key == Key(key.name, key.ns);
          }
        }
        m := m + 1;
      }
    }

    // ----- adding an import -----------------------------------------------------------------------

    /** An explicit import: never over a local, never over another explicit one, always over a facade's. */
    method AddImport(m: nat, imp: Import)
      requires Rooted(tree) && Collected() && |imports| == |tree.nodes| && m < |tree.nodes|
      modifies this`imports, this`log
      ensures var t := Add(tree, m, Sweep(old(imports[m]), [], false, false), imp);
        imports == old(imports)[m := t.list] && log == old(log) + t.events
    {
      hide Rooted, Local, Declares, Cleared;
      if LookupLocal(m, KeyOf(imp)) {
        log := log + [ConflictsWithLocal(imp.name)];
        return;
      }
      var i := 0;
      while i < |imports[m]| && KeyOf(imports[m][i]) != KeyOf(imp)
        invariant 0 <= i <= |imports[m]|
        invariant forall k :: 0 <= k < i ==> KeyOf(imports[m][k]) != KeyOf(imp)
      {
        i := i + 1;
      }
      assert i == FirstAt(imports[m], KeyOf(imp));
      ClearedAt(imports[m], KeyOf(imp));
      if i < |imports[m]| {
        if !imports[m][i].injected {
          log := log + [DuplicateImport(imp.name)];
          return;
        }
        imports := imports[m := imports[m][..i] + imports[m][i + 1..]];
      }
      imports := imports[m := imports[m] + [imp]];
    }

    method SweepSpace(
      m: nat, item: Item, at: nat, through: bool, ghost exports: seq<Import>, ns: Namespace, resolved: bool,
      barred: bool
    )
      returns (resolved': bool, barred': bool)
      requires Rooted(tree) && Collected() && |imports| == |tree.nodes| && m < |tree.nodes| && at < |tree.nodes|
      requires item.kind.UseItem? && item.kind.path != [] && forall i :: 0 <= i < |exports| ==> Chased(tree, exports[i])
      requires through ==>
        FirstPublic(imports[at], Key(Member(item.kind), ns)) == FirstPublic(exports, Key(Member(item.kind), ns))
      modifies this`imports, this`log
      ensures var t := SweepOne(tree, m, item, at, through, exports, ns, Sweep(old(imports[m]), [], resolved, barred));
        imports == old(imports)[m := t.list] && log == old(log) + t.events && resolved' == t.resolved &&
          barred' == t.barred
    {
      hide Rooted, Local, Visible, FirstPublic, Placed, Taken;
      resolved', barred' := resolved, barred;
      var member := Member(item.kind);
      var offer := None;
      if !through {
        if LookupLocal(at, Key(member, ns)) { offer := Some((at, member)); }
      } else {
        var found := FirstPublic(imports[at], Key(member, ns));
        if found.Some? { offer := Some((found.value.target, found.value.member)); }
      }
      assert offer == Offer(tree, at, member, through, exports, ns);
      if offer.Some? {
        if Visible(tree, m, offer.value.0, Key(offer.value.1, ns)) {
          AddImport(m, Wanted(item, ns, offer.value));
          resolved' := true;
        } else if !barred {
          barred' := true;
          log := log + [PrivateItem(member)];
        }
      }
    }

    /** One pass over the three namespaces, through the module's own names or its re-exports. */
    method SweepSpaces(
      m: nat, item: Item, at: nat, through: bool, ghost exports: seq<Import>
    ) returns (resolved: bool, barred: bool)
      requires Rooted(tree) && Collected() && |imports| == |tree.nodes| && m < |tree.nodes| && at < |tree.nodes|
      requires Written(tree, m, item, at, exports) && SoundList(tree, m, imports[m])
      requires through ==> !LocalAnywhere(tree, at, Member(item.kind))
      requires exports == (if through then Publics(imports[at]) else []) && forall i :: 0 <= i < |exports| ==>
        Chased(tree, exports[i])
      requires forall i :: 0 <= i < |imports[at]| ==> Chased(tree, imports[at][i])
      modifies this`imports, this`log
      ensures var t := SweepAll(tree, m, item, at, through, exports, SPACES, Sweep(old(imports[m]), [], false, false));
        imports == old(imports)[m := t.list] && log == old(log) + t.events && resolved == t.resolved &&
          barred == t.barred
    {
      hide Rooted, Local, Collected, SoundList, Publics, Offer, SweepOne, SweepAll, Member, FirstPublic, StillAnswers;
      hide Swept, Served, Reach, Sound, LocalAnywhere;
      resolved, barred := false, false;
      var member := Member(item.kind);
      ghost var s := Sweep(imports[m], [], false, false);
      assert through ==> StillAnswers(imports[at], exports, member, SPACES) by {
        PublicsStillAnswer(imports[at], member, SPACES);
      }
      var k := 0;
      while k < |SPACES|
        invariant 0 <= k <= |SPACES|
        invariant imports == old(imports)[m := s.list] && log == old(log) + s.events && resolved == s.resolved
        invariant barred == s.barred
        invariant SoundList(tree, m, s.list)
        invariant SweepAll(tree, m, item, at, through, exports, SPACES[k..], s)
               == SweepAll(tree, m, item, at, through, exports, SPACES, Sweep(old(imports[m]), [], false, false))
        invariant through ==> StillAnswers(imports[at], exports, member, SPACES[k..])
      {
        var ns := SPACES[k];
        if through { NextStillAnswers(imports[at], exports, member, k); }
        resolved, barred := SweepSpace(m, item, at, through, exports, ns, resolved, barred);
        ghost var t := SweepOne(tree, m, item, at, through, exports, ns, s);
        SweepOneFrom(tree, m, item, at, through, exports, ns, s);
        SweepAllNext(tree, m, item, at, through, exports, k, s);
        SweepOneSwept(tree, m, item, at, through, exports, ns, s);
        SweptSound(tree, m, item, s, t);
        if through && at == m { StillAnswersOn(tree, m, item, at, exports, k, s); }
        s := t;
        k := k + 1;
      }
      SweepAllEnd(tree, m, item, at, through, exports, s);
    }

    // ----- one use ----------------------------------------------------------------------------------

    /** The top of a module's parents. */
    method Climb(m: nat) returns (top: nat)
      requires Rooted(tree) && m < |tree.nodes|
      ensures top == Top(tree, m)
    {
      top := m;
      while tree.nodes[top].parent.Some?
        invariant top < |tree.nodes| && Top(tree, top) == Top(tree, m)
        decreases top
      {
        top := tree.nodes[top].parent.value;
      }
    }

    method FindTarget(m: nat, path: seq<string>) returns (r: Reached)
      requires Rooted(tree) && m < |tree.nodes|
      ensures r == Reach(tree, m, path)
      ensures Arrives(tree, m, path, r)
    {
      ReachArrives(tree, m, path);
      hide LocalAnywhere, Local, Top, Arrives;
      if |path| < 2 { return Refused(ImportNotQualified); }
      var start := Nowhere;
      if path[0] == "package" {
        var top := Climb(m);
        start := Start(top, None);
      } else {
        start := Head(tree, m, path[0]);
        if start.Nowhere? {
          var habit := path[0] == "super" || path[0] == "crate";
          return Refused(if habit then HeadNotSupported(path[0]) else UnresolvedImport(path[0]));
        }
      }
      var middle := path[1..|path| - 1];
      var at: nat, i := start.at, 0;
      while i < |middle|
        invariant 0 <= i <= |middle| && at < |tree.nodes|
        invariant Descend(tree, at, middle[i..]) == Descend(tree, start.at, middle)
      {
        var child := Child(tree, at, middle[i]);
        if child.None? { return Refused(UnresolvedImport(middle[i])); }
        assert middle[i..][1..] == middle[i + 1..];
        at, i := child.value, i + 1;
      }
      if start.root.Some? {
        var withheld := ImportedPath(tree, at, path);
        if Withheld(tree, m, start.root.value, withheld) {
          return Refused(ExportWithheld(tree.roots[start.root.value].identity, withheld));
        }
      }
      return At(at);
    }

    /** The work of a use: `v` is the state once the module it waits for is resolved. */
    method MakeUse(m: nat, i: nat) returns (ghost exports: seq<Import>, ghost v: View, ghost made: Option<Lookup>)
      requires Valid() && trace.path != [] && trace.path[|trace.path| - 1] == m && IsUse(tree, m, i)
      modifies this`imports, this`log, this`exportsState, this`trace
      ensures Rooted(tree) && Inv(tree, v) && Elsewhere(old(Now()), v, -1) && m < |v.imports|
      ensures forall k :: 0 <= k < |exports| ==> Chased(tree, exports[k])
      ensures MadeAs(tree, v, m, i, exports, made)
      ensures var t := Outcome(tree, m, tree.nodes[m].items[i], v.imports[m], exports);
        imports == v.imports[m := t.list] && log == v.log + t.events
      ensures exportsState == v.phase && trace == v.trace && injected == v.offered
      decreases Room(exportsState), 2
    {
      hide Inv, Rooted, Collected, Reach, LocalAnywhere, Local, SweepAll, Swept, Member, Chased, Publics, SoundList;
      hide Room, Reported, Demands, Elsewhere, Demand, Found, Arrives;
      exports, made, v := [], None, Now();
      var item := tree.nodes[m].items[i];
      var reached := FindTarget(m, item.kind.path);
      TableFacts(tree, v, m);
      OnPath(tree, v, m);
      ElsewhereSame(v);
      if reached.Refused? {
        log := log + [reached.why];
      } else {
        var at := reached.at;
        OwnSweep(tree, m, item, at, imports[m]);
        TableFacts(tree, v, at);
        var resolved, barred := SweepSpaces(m, item, at, false, []);
        if !resolved && !barred {
          assert Now() == v;
          DemandIsEdge(tree, m, i);
          if at != m { ResolveExports(at); }
          Held(v, Now(), m);
          v := Now();
          TableFacts(tree, v, at);
          TableFacts(tree, v, m);
          exports := Publics(imports[at]);
          PublicsSound(tree, v, at);
          made := Some(Lookup(m, i, at, item.isPub, exports));
          resolved, barred := SweepSpaces(m, item, at, true, exports);
        }
        if !resolved && !barred { log := log + [Missing(tree, at, Member(item.kind))]; }
      }
    }

    /**
     `resolve_use`: settles one use. Its module's list and the complaints are those of the
     use's outcome; a name the reached module does not declare waits for that module's
     re-exports. Nothing else changes but modules nobody had reached.
     */
    method ResolveUse(m: nat, i: nat) returns (ghost exports: seq<Import>, ghost before: seq<Event>)
      requires Valid() && trace.path != [] && trace.path[|trace.path| - 1] == m && IsUse(tree, m, i)
      requires tree.nodes[m].items[i].isPub <==> m !in trace.sealed
      modifies this`imports, this`log, this`exportsState, this`trace
      ensures Valid() && Elsewhere(old(Now()), Now(), m)
      ensures m in trace.sealed <==> m in old(trace.sealed)
      ensures forall j: nat :: trace.settled[(m, j)] == old(trace.settled)[(m, j)] + if j == i then 1 else 0
      ensures forall k :: 0 <= k < |exports| ==> Chased(tree, exports[k])
      ensures var t := Outcome(tree, m, tree.nodes[m].items[i], old(imports[m]), exports);
        imports[m] == t.list && log == before + t.events && old(log) <= before
      ensures !Reported(log) && Demand(tree, m, tree.nodes[m].items[i]).Some? ==>
        Demand(tree, m, tree.nodes[m].items[i]).value in trace.finished
      decreases Room(exportsState), 3
    {
      hide Inv, Rooted, Collected, Member, Chased, Reported, Elsewhere, Demand, Outcome, Reach, Consults, Demands;
      OnPath(tree, Now(), m);
      ghost var v, made;
      exports, v, made := MakeUse(m, i);
      before := v.log;
      Held(old(Now()), v, m);
      UseSettled(tree, v, m, i, exports, made);
      DemandConsults(tree, m, i);
      ghost var t := Outcome(tree, m, tree.nodes[m].items[i], v.imports[m], exports);
      SettleElsewhere(old(Now()), v, m, i, t.list, t.events, made);
      trace := Settle(v, m, i, t.list, t.events, made).trace;
      assert Now() == Settle(v, m, i, t.list, t.events, made);
      ReportStays(v.log, log);
    }

    // ----- one module -------------------------------------------------------------------------------

    /** The public uses of a module, or the private ones, in the order they are written. */
    method ResolveUses(m: nat, pub: bool)
      requires Valid() && trace.path != [] && trace.path[|trace.path| - 1] == m && m < |tree.nodes|
      requires pub <==> m !in trace.sealed
      modifies this`imports, this`log, this`exportsState, this`trace
      ensures Valid() && Elsewhere(old(Now()), Now(), m)
      ensures m in trace.sealed <==> m in old(trace.sealed)
      ensures UsesDone(tree, old(Now()), Now(), m, pub)
      decreases Room(exportsState), 4
    {
      hide Inv, Rooted, Collected, Room, Reported, Demands, Elsewhere, Demand, Outcome, Chased;
      ElsewhereSame(Now());
      var items := tree.nodes[m].items;
      var i := 0;
      while i < |items|
        invariant 0 <= i <= |items|
        invariant Valid() && Elsewhere(old(Now()), Now(), m) && trace.path == old(trace.path)
        invariant m in trace.sealed <==> m in old(trace.sealed)
        invariant forall j: nat ::
          trace.settled[(m, j)] == old(trace.settled)[(m, j)] + if j < i && Due(tree, m, j, pub) then 1 else 0
        invariant !Reported(log) ==>
          forall j: nat :: j < i && Due(tree, m, j, pub) && Demand(tree, m, items[j]).Some? ==>
          Demand(tree, m, items[j]).value in trace.finished
        invariant Room(exportsState) <= old(Room(exportsState))
      {
        if items[i].kind.UseItem? && items[i].isPub == pub {
          ghost var v := Now();
          ghost var exports, before := ResolveUse(m, i);
          Onward(old(Now()), v, Now(), m);
        }
        i := i + 1;
      }
    }

    /**
     `resolve_exports`: settles a module's uses, the public ones first. It ends on every graph of
     uses: each call that goes deeper takes one module out of the untouched ones. Met while in
     progress, the module closes a cycle of demands, which is reported and not followed.
     */
    method ResolveExports(m: nat)
      requires Valid() && m < |tree.nodes| && Calls(tree, Now(), m)
      modifies this`imports, this`log, this`exportsState, this`trace
      ensures Valid() && Elsewhere(old(Now()), Now(), -1) && exportsState[m] != Fresh
      ensures !Reported(log) ==> m in trace.finished
      decreases Room(exportsState), 1
    {
      hide Inv, Rooted, Collected, Room, Reported, Demands, Elsewhere, Demand, Calls, IsUse;
      ghost var v := Now();
      Visited(tree, v, m);
      ElsewhereSame(v);
      if exportsState[m] == Done { return; }
      if exportsState[m] == InProgress {
        ReportedKeeps(tree, v, m);
        ReportElsewhere(v, m);
        log := log + [ReExportCycle(m)];
        exportsState := exportsState[m := Done];
        return;
      }
      ResolveFresh(m);
    }

    method ResolveFresh(m: nat)
      requires Valid() && m < |tree.nodes| && Calls(tree, Now(), m) && m < |exportsState| && exportsState[m] == Fresh
      modifies this`imports, this`log, this`exportsState, this`trace
      ensures Valid() && Elsewhere(old(Now()), Now(), -1) && m < |exportsState| && exportsState[m] != Fresh
      ensures m in trace.finished
      decreases Room(exportsState), 0
    {
      hide Inv, Rooted, Collected, Room, Reported, Demands, Elsewhere, Calls, UsesDone, Due;
      ghost var v := Now();
      Visited(tree, v, m);
      Entered(tree, v, m);
      exportsState := exportsState[m := InProgress];
      trace := trace.(path := trace.path + [m]);
      ResolveUses(m, true);
      ghost var u := Now();
      Carried(Enter(v, m), u, m);
      Sealed(tree, u, m);
      trace := trace.(sealed := trace.sealed + {m});
      ResolveUses(m, false);
      FreshLeft(tree, v, u, Now(), m);
      exportsState := exportsState[m := Done];
      trace := trace.(path := trace.path[..|trace.path| - 1], finished := trace.finished + [m]);
    }

    // ----- the prelude ------------------------------------------------------------------------------

    /** Every name a module answers to before a facade speaks: its own, and its imports'. */
    method OwnNames() returns (own: seq<set<Key>>)
      requires Valid() && forall m :: 0 <= m < |imports| ==> imports[m] == []
      ensures OwnAre(tree, own)
    {
      hide Inv, Local, Rooted;
      assert |imports| == |tree.nodes| by { Lengths(tree, Now()); }
      own := [];
      var m := 0;
      while m < |tree.nodes|
        invariant 0 <= m == |own| <= |tree.nodes|
        invariant forall k, key :: 0 <= k < m ==> (key in own[k] <==> Local(tree, k, key))
      {
        var names := (set name | name in localTypes[m] :: Key(name, TypeSpace))
                   + (set name | name in localValues[m] :: Key(name, ValueSpace))
                   + (set name | name in localModules[m] :: Key(name, ModuleSpace))
                   + (set imp | imp in imports[m] :: KeyOf(imp));
        forall key ensures key in names <==> Local(tree, m, key) {
          assert LookupLocal(m, key) <==> Local(tree, m, key);
          assert key == Key(key.name, key.ns);
        }
        own := own + [names];
        m := m + 1;
      }
    }

    /** `inject_name`: the first facade to offer a name gives it to every module that does not declare it. */
    method InjectName(imp: Import, rank: nat, own: seq<set<Key>>)
      requires Valid() && OwnAre(tree, own) && rank < |tree.facades|
      requires imp.injected && !imp.isPub && Chased(tree, imp) && Exposed(tree, imp)
      modifies this`imports, this`injected, this`trace
      ensures Valid() && Now() == if KeyOf(imp) in old(injected) then old(Now())
        else Inject(tree, old(Now()), imp, rank)
    {
      hide Inv, Local, Rooted, Collected, Chased, DeclaredPub, Exposed;
      if KeyOf(imp) in injected { return; }
      var skip := tree.facades[rank];
      Injected(tree, Now(), imp, rank);
      Lengths(tree, Now());
      injected := injected + {KeyOf(imp)};
      var m := 0;
      while m < |tree.nodes|
        invariant 0 <= m <= |tree.nodes| == |imports| && injected == old(injected) + {KeyOf(imp)} && trace == old(trace)
        invariant forall k :: 0 <= k < m ==> imports[k] == Reinforced(tree, k, old(imports)[k], imp, skip)
        invariant forall k :: m <= k < |imports| ==> imports[k] == old(imports)[k]
      {
        if m != skip && KeyOf(imp) !in own[m] {
          imports := imports[m := imports[m] + [imp]];
        }
        m := m + 1;
      }
      trace := trace.(offers := trace.offers[KeyOf(imp) := Offering(imp, rank)]);
      ghost var w := Inject(tree, old(Now()), imp, rank);
      assert Now() == w by { assert imports == w.imports; }
    }

    /** Offers one name of a facade's surface. */
    method OfferName(imp: Import, rank: nat, own: seq<set<Key>>)
      requires Valid() && OwnAre(tree, own) && Speaking(tree, Now(), rank)
      requires imp.injected && !imp.isPub && Chased(tree, imp) && Exposed(tree, imp)
      requires Surface(tree, imports, tree.facades[rank], KeyOf(imp)) == Some(imp)
      modifies this`imports, this`injected, this`trace
      ensures Valid() && Injects(tree, old(Now()), Now(), rank) && Speaking(tree, Now(), rank) && KeyOf(imp) in injected
    {
      hide Inv, Local, Rooted, Collected, Chased, Exposed, Surface, Injects, Speaking, Inject, OwnAre;
      SpeakerInTree(tree, Now(), rank);
      InjectName(imp, rank, own);
      InjectInjects(tree, old(Now()), imp, rank);
    }

    /** The names a facade's own public items carry. */
    method OfferItems(rank: nat, own: seq<set<Key>>)
      requires Valid() && OwnAre(tree, own) && Speaking(tree, Now(), rank)
      modifies this`imports, this`injected, this`trace
      ensures Valid() && Injects(tree, old(Now()), Now(), rank) && Speaking(tree, Now(), rank)
      ensures forall key :: OwnPublic(tree, tree.facades[rank], key) ==> key in injected
    {
      hide Inv, Local, Rooted, Collected, Injects, Speaking, OwnAre;
      SpeakerInTree(tree, Now(), rank);
      InjectsSame(tree, Now(), rank);
      var items := tree.nodes[tree.facades[rank]].items;
      var i := 0;
      while i < |items|
        invariant 0 <= i <= |items|
        invariant Valid() && Injects(tree, old(Now()), Now(), rank) && Speaking(tree, Now(), rank)
        invariant forall k, ns :: 0 <= k < i && items[k].isPub && InNamespace(items[k].kind, ns) ==>
          Key(items[k].name, ns) in injected
      {
        if items[i].isPub {
          ghost var v := Now();
          OfferItem(rank, i, TypeSpace, own);
          ghost var w := Now();
          OfferItem(rank, i, ValueSpace, own);
          InjectsThrice(tree, old(Now()), v, w, Now(), rank);
        }
        i := i + 1;
      }
      forall key | OwnPublic(tree, tree.facades[rank], key) ensures key in injected {
        assert key == Key(key.name, key.ns);
      }
    }

    method OfferItem(rank: nat, i: nat, ns: Namespace, own: seq<set<Key>>)
      requires Valid() && OwnAre(tree, own) && Speaking(tree, Now(), rank)
      requires tree.facades[rank] < |tree.nodes| && i < |tree.nodes[tree.facades[rank]].items|
      requires tree.nodes[tree.facades[rank]].items[i].isPub
      modifies this`imports, this`injected, this`trace
      ensures Valid() && Injects(tree, old(Now()), Now(), rank) && Speaking(tree, Now(), rank)
      ensures var item := tree.nodes[tree.facades[rank]].items[i];
        InNamespace(item.kind, ns) ==> Key(item.name, ns) in injected
    {
      hide Inv, Rooted, Collected, DeclaredPub, HasChild, Injects, Speaking, OwnAre, Exposed, Chased;
      InjectsSame(tree, Now(), rank);
      var f := tree.facades[rank];
      var item := tree.nodes[f].items[i];
      if InNamespace(item.kind, ns) {
        var imp := Injection(Key(item.name, ns), f, item.name);
        OwnItemOffered(tree, imports, f, i, ns);
        OfferName(imp, rank, own);
      }
    }

    /** The names a facade passes on: what it re-exports is injected as the declaration itself. */
    method OfferReexports(rank: nat, own: seq<set<Key>>)
      requires Valid() && OwnAre(tree, own) && Speaking(tree, Now(), rank)
      modifies this`imports, this`injected, this`trace
      ensures Valid() && Injects(tree, old(Now()), Now(), rank) && Speaking(tree, Now(), rank)
      ensures tree.facades[rank] < |imports|
      ensures forall imp :: imp in imports[tree.facades[rank]] && imp.isPub ==> KeyOf(imp) in injected
    {
      hide Inv, Local, Rooted, Collected, DeclaredPub, Speaking, OwnAre, Exposed, Chased, Surface, Leaks, Publics;
      var f := tree.facades[rank] by { SpeakerInTree(tree, Now(), rank); }
      SpeakerInTree(tree, Now(), rank);
      InjectsSame(tree, Now(), rank);
      Lengths(tree, Now());
      var i := 0;
      while i < |imports[f]|
        invariant f < |imports| && 0 <= i <= |imports[f]| && imports[f] == old(imports)[f]
        invariant Valid() && Injects(tree, old(Now()), Now(), rank) && Speaking(tree, Now(), rank)
        invariant forall k :: 0 <= k < i && imports[f][k].isPub ==> KeyOf(imports[f][k]) in injected
      {
        var re := imports[f][i];
        if re.isPub {
          ghost var v := Now();
          PublicOffered(tree, v, rank, re);
          OfferName(Injection(KeyOf(re), re.target, re.member), rank, own);
          InjectsThrice(tree, old(Now()), v, v, Now(), rank) by { InjectsSame(tree, v, rank); }
        }
        i := i + 1;
      }
    }

    /** `inject_prelude`: every facade's surface, its re-exports resolved first, goes to every other module. */
    method InjectPrelude()
      requires Valid() && trace.path == [] && trace.offers == map[] && forall m :: 0 <= m < |imports| ==>
        imports[m] == []
      modifies this`imports, this`log, this`exportsState, this`trace, this`injected
      ensures Valid() && trace.path == [] && Spoken(tree, Now(), |tree.facades|)
    {
      hide Inv, Local, Rooted, Collected, Elsewhere, Injects, Speaking, Spoken, OwnAre, OwnPublic;
      var own := OwnNames();
      NobodySpoke(tree, Now());
      var j := 0;
      while j < |tree.facades|
        invariant 0 <= j <= |tree.facades|
        invariant Valid() && trace.path == [] && Spoken(tree, Now(), j)
      {
        FacadeInTree(tree, j);
        ghost var u := Now();
        ResolveExports(tree.facades[j]);
        ghost var v := Now();
        Lengths(tree, v);
        StartSpeaking(tree, u, v, j);
        OfferItems(j, own);
        ghost var w := Now();
        OfferReexports(j, own);
        DoneSpeaking(tree, v, w, Now(), j);
        j := j + 1;
      }
    }
  }

  method DeclaredNames(items: seq<Item>) returns (types: seq<string>, values: seq<string>)
    ensures forall name :: name in types <==> exists i :: 0 <= i < |items| && Declares(items[i], Key(name, TypeSpace))
    ensures forall name :: name in values <==> exists i :: 0 <= i < |items| && Declares(items[i], Key(name, ValueSpace))
  {
    types, values := [], [];
    var i := 0;
    while i < |items|
      invariant 0 <= i <= |items|
      invariant forall name :: name in types <==> exists k :: 0 <= k < i && Declares(items[k], Key(name, TypeSpace))
      invariant forall name :: name in values <==> exists k :: 0 <= k < i && Declares(items[k], Key(name, ValueSpace))
    {
      var item := items[i];
      var newTypes := if NamesType(item.kind) then [item.name] else [];
      var outer := if item.kind.ExternItem? then item.kind.fns else [];
      var newValues := if NamesValue(item.kind) then [item.name] else outer;
      assert forall name :: name in newTypes <==> Declares(item, Key(name, TypeSpace));
      assert forall name :: name in newValues <==> Declares(item, Key(name, ValueSpace));
      types, values := types + newTypes, values + newValues;
      i := i + 1;
    }
  }

  method ChildNames(tree: Tree, m: nat) returns (names: seq<string>)
    requires Rooted(tree) && m < |tree.nodes|
    ensures forall name :: name in names <==> HasChild(tree, m, name)
  {
    names := [];
    var children := tree.nodes[m].children;
    var i := 0;
    while i < |children|
      invariant 0 <= i <= |children|
      invariant forall name :: name in names <==>
        exists k :: 0 <= k < i && LastSegment(tree.nodes[children[k]].path) == name
    {
      names := names + [LastSegment(tree.nodes[children[i]].path)];
      i := i + 1;
    }
  }

  lemma NextStillAnswers(list: seq<Import>, exports: seq<Import>, member: string, k: nat)
    requires k < |SPACES| && StillAnswers(list, exports, member, SPACES[k..])
    ensures FirstPublic(list, Key(member, SPACES[k])) == FirstPublic(exports, Key(member, SPACES[k]))
    ensures StillAnswers(list, exports, member, SPACES[k + 1..])
  {
    assert SPACES[k..] == [SPACES[k]] + SPACES[k + 1..];
  }

  lemma SweepAllEnd(tree: Tree, m: nat, item: Item, at: nat, through: bool, exports: seq<Import>, s: Sweep)
    requires Rooted(tree) && item.kind.UseItem? && item.kind.path != []
    requires at < |tree.nodes| && forall i :: 0 <= i < |exports| ==> Chased(tree, exports[i])
    ensures SweepAll(tree, m, item, at, through, exports, SPACES[|SPACES|..], s) == s
  {
  }

  lemma SweepAllNext(tree: Tree, m: nat, item: Item, at: nat, through: bool, exports: seq<Import>, k: nat, s: Sweep)
    requires Rooted(tree) && item.kind.UseItem? && item.kind.path != [] && k < |SPACES|
    requires at < |tree.nodes| && forall i :: 0 <= i < |exports| ==> Chased(tree, exports[i])
    ensures SweepAll(tree, m, item, at, through, exports, SPACES[k..], s)
         == SweepAll(tree, m, item, at, through, exports, SPACES[k + 1..],
           SweepOne(tree, m, item, at, through, exports, SPACES[k], s))
  {
    hide SweepOne;
    assert SPACES[k..][1..] == SPACES[k + 1..];
  }

  ghost predicate Due(tree: Tree, m: nat, i: nat, pub: bool) {
    IsUse(tree, m, i) && tree.nodes[m].items[i].isPub == pub
  }

  lemma ElsewhereSame(v: View)
    ensures forall but :: Elsewhere(v, v, but)
  {
  }

  lemma Onward(u: View, v: View, w: View, but: int)
    requires Elsewhere(u, v, but) && Elsewhere(v, w, but)
    ensures Elsewhere(u, w, but) && w.trace.path == u.trace.path
    ensures Room(w.phase) <= Room(v.phase) && (Reported(v.log) ==> Reported(w.log))
    ensures forall k :: k in v.trace.finished ==> k in w.trace.finished
  {
    ElsewhereTwice(u, v, w, but);
    RoomShrinks(v.phase, w.phase);
    ReportStays(v.log, w.log);
  }

  lemma ReportElsewhere(v: View, m: nat)
    requires m < |v.phase| && v.phase[m] == InProgress && |v.phase| == |v.imports|
    ensures Elsewhere(v, Report(v, m), -1) && Reported(Report(v, m).log)
  {
    assert Report(v, m).log[|v.log|].ReExportCycle?;
  }

  lemma Carried(v: View, w: View, but: int)
    requires Elsewhere(v, w, but)
    ensures w.trace.path == v.trace.path && |w.phase| == |v.phase| && Room(w.phase) <= Room(v.phase)
    ensures Reported(v.log) ==> Reported(w.log)
    ensures forall k :: k in v.trace.finished ==> k in w.trace.finished
  {
    RoomShrinks(v.phase, w.phase);
    ReportStays(v.log, w.log);
  }

  /** Each use due is settled once, and what it demands is finished unless a cycle was reported. */
  ghost predicate UsesDone(tree: Tree, v: View, w: View, m: nat, pub: bool)
    requires Rooted(tree) && m < |tree.nodes|
  {
    && (forall j: nat :: w.trace.settled[(m, j)] == v.trace.settled[(m, j)] + if Due(tree, m, j, pub) then 1 else 0)
    && (!Reported(w.log) ==> forall j: nat :: Due(tree, m, j, pub) && Demand(tree, m, tree.nodes[m].items[j]).Some? ==>
          Demand(tree, m, tree.nodes[m].items[j]).value in w.trace.finished)
  }

  lemma FreshLeft(tree: Tree, v: View, u: View, w: View, m: nat)
    requires Rooted(tree) && Inv(tree, v) && Inv(tree, w) && m < |tree.nodes| && m < |v.phase| == |v.imports|
    requires v.phase[m] == Fresh
    requires Elsewhere(Enter(v, m), u, m) && UsesDone(tree, Enter(v, m), u, m, true)
    requires Elsewhere(Seal(u, m), w, m) && UsesDone(tree, Seal(u, m), w, m, false) && m in w.trace.sealed
    ensures |w.phase| == |v.phase| && w.trace.path == v.trace.path + [m]
    ensures Inv(tree, Leave(w, m)) && Elsewhere(v, Leave(w, m), -1)
  {
    hide Inv, Rooted, Room, Reported, Demands, Elsewhere, Demand, IsUse;
    Visited(tree, v, m);
    Carried(Enter(v, m), u, m);
    Carried(Seal(u, m), w, m);
    DemandsMet(tree, w, m);
    Returned(v, u, w, m);
    assert w.trace.path[..|w.trace.path| - 1] == v.trace.path;
    Left(tree, w, m);
  }

  lemma DemandsMet(tree: Tree, w: View, m: nat)
    requires Rooted(tree) && m < |tree.nodes|
    requires !Reported(w.log) ==>
      forall j: nat ::
        (Due(tree, m, j, true) || Due(tree, m, j, false)) && Demand(tree, m, tree.nodes[m].items[j]).Some? ==>
          Demand(tree, m, tree.nodes[m].items[j]).value in w.trace.finished
    ensures !Reported(w.log) ==> forall t :: (m, t) in Demands(tree) ==> t in w.trace.finished
  {
    hide Rooted, Reported;
    if !Reported(w.log) {
      forall t | (m, t) in Demands(tree) ensures t in w.trace.finished {
        var j :| 0 <= j < |tree.nodes[m].items| && Demand(tree, m, tree.nodes[m].items[j]) == Some(t);
        assert Due(tree, m, j, true) || Due(tree, m, j, false);
      }
    }
  }

  lemma Returned(v: View, u: View, w: View, m: nat)
    requires m < |v.phase| == |v.imports| && v.phase[m] == Fresh
    requires Elsewhere(Enter(v, m), u, m) && Elsewhere(Seal(u, m), w, m)
    ensures w.trace.path == v.trace.path + [m] && Elsewhere(v, Leave(w, m), -1)
  {
    var x := Leave(w, m);
    assert x.trace.path == v.trace.path;
    forall k | 0 <= k < |v.phase| && v.phase[k] != Fresh ensures Untouched(v, x, k) {
      assert Untouched(Enter(v, m), u, k) && Untouched(Seal(u, m), w, k);
    }
  }

  // ----- what injecting leaves alone -----------------------------------------------------------------

  ghost predicate OwnAre(tree: Tree, own: seq<set<Key>>)
    requires Rooted(tree)
  {
    |own| == |tree.nodes| && forall m, key :: 0 <= m < |own| ==> (key in own[m] <==> Local(tree, m, key))
  }

  /** Names were added to other modules' lists, none of them public. */
  ghost predicate Injects(tree: Tree, v: View, w: View, rank: nat) {
    && rank < |tree.facades| && |w.imports| == |v.imports| && w.phase == v.phase && w.log == v.log &&
      v.offered <= w.offered
    && w.trace == v.trace.(offers := w.trace.offers)
    && (tree.facades[rank] < |v.imports| ==> w.imports[tree.facades[rank]] == v.imports[tree.facades[rank]])
    && forall m :: 0 <= m < |v.imports| ==> Publics(w.imports[m]) == Publics(v.imports[m])
  }

  /** Each name offered is what the surface of the facade that offered it holds; the facade is resolved. */
  ghost predicate Credited(tree: Tree, v: View, n: nat) {
    forall key :: key in v.trace.offers ==>
      var rank := v.trace.offers[key].rank;
      && rank < n && rank < |tree.facades| && tree.facades[rank] < |v.phase| == |v.imports| &&
        v.phase[tree.facades[rank]] != Fresh
      && Surface(tree, v.imports, tree.facades[rank], key) == Some(v.trace.offers[key].imp)
  }

  /** A facade that has spoken: every name of its surface was offered, by it or by one before it. */
  ghost predicate Covered(tree: Tree, v: View, k: nat) {
    && k < |tree.facades| && tree.facades[k] < |v.phase| == |v.imports| && v.phase[tree.facades[k]] != Fresh
    && forall key :: Surface(tree, v.imports, tree.facades[k], key).Some? ==>
         key in v.trace.offers && v.trace.offers[key].rank <= k
  }

  ghost predicate Spoken(tree: Tree, v: View, n: nat) {
    Credited(tree, v, n) && forall k :: 0 <= k < n ==> Covered(tree, v, k)
  }

  /** Facade `rank` is resolved and offering; those before it are done. */
  ghost predicate Speaking(tree: Tree, v: View, rank: nat) {
    && rank < |tree.facades| && tree.facades[rank] < |tree.nodes|
    && tree.facades[rank] < |v.phase| == |v.imports| && v.phase[tree.facades[rank]] != Fresh
    && Credited(tree, v, rank + 1) && (forall k :: 0 <= k < rank ==> Covered(tree, v, k))
    && v.offered == v.trace.offers.Keys
  }

  lemma SpeakerInTree(tree: Tree, v: View, rank: nat)
    requires Speaking(tree, v, rank)
    ensures rank < |tree.facades| && tree.facades[rank] < |tree.nodes| && tree.facades[rank] < |v.imports|
  {
  }

  lemma NobodySpoke(tree: Tree, v: View)
    requires v.trace.offers == map[]
    ensures Spoken(tree, v, 0)
  {
  }

  lemma InjectsSame(tree: Tree, v: View, rank: nat)
    requires rank < |tree.facades| || Speaking(tree, v, rank)
    ensures Injects(tree, v, v, rank)
  {
  }

  lemma InjectsThrice(tree: Tree, u: View, v: View, w: View, x: View, rank: nat)
    requires Injects(tree, u, v, rank) && Injects(tree, v, w, rank) && Injects(tree, w, x, rank)
    ensures Injects(tree, u, x, rank) && v.offered <= w.offered <= x.offered
  {
    hide Publics;
  }

  /** Offering a name of the surface leaves every surface as it was. */
  lemma InjectInjects(tree: Tree, v: View, imp: Import, rank: nat)
    requires Rooted(tree) && imp.injected && !imp.isPub && Speaking(tree, v, rank)
    requires Surface(tree, v.imports, tree.facades[rank], KeyOf(imp)) == Some(imp)
    ensures var w := if KeyOf(imp) in v.offered then v else Inject(tree, v, imp, rank);
      Injects(tree, v, w, rank) && Speaking(tree, w, rank) && KeyOf(imp) in w.offered
  {
    hide Local, Rooted, Publics, Surface;
    if KeyOf(imp) !in v.offered {
      var w := Inject(tree, v, imp, rank);
      forall m | 0 <= m < |v.imports| ensures Publics(w.imports[m]) == Publics(v.imports[m]) {
        OnePrivate(imp);
        PublicsApart(v.imports[m], [imp]);
        assert Publics(v.imports[m]) + [] == Publics(v.imports[m]);
      }
      forall f, key | 0 <= f < |v.imports|
        ensures Surface(tree, w.imports, f, key) == Surface(tree, v.imports, f, key)
      {
        SurfaceAlike(tree, v.imports, w.imports, f, key);
      }
      forall k | 0 <= k < rank ensures Covered(tree, w, k) { assert Covered(tree, v, k); }
    }
  }

  lemma OwnItemOffered(tree: Tree, imports: seq<seq<Import>>, f: nat, i: nat, ns: Namespace)
    requires Rooted(tree) && f < |tree.nodes| && f in tree.facades && i < |tree.nodes[f].items|
    requires tree.nodes[f].items[i].isPub && InNamespace(tree.nodes[f].items[i].kind, ns)
    ensures var imp := Injection(Key(tree.nodes[f].items[i].name, ns), f, tree.nodes[f].items[i].name);
      Chased(tree, imp) && Exposed(tree, imp) && Surface(tree, imports, f, KeyOf(imp)) == Some(imp)
  {
    hide Rooted, Reach, FindDeclaration, DeclaredPub;
    var item := tree.nodes[f].items[i];
    var key := Key(item.name, ns);
    assert Declares(item, key) && Exposes(tree, f, item, key) && OwnPublic(tree, f, key);
  }

  lemma PublicOffered(tree: Tree, v: View, rank: nat, re: Import)
    requires Rooted(tree) && Inv(tree, v) && Speaking(tree, v, rank)
    requires tree.facades[rank] < |v.imports| && re in v.imports[tree.facades[rank]] && re.isPub
    ensures var imp := Injection(KeyOf(re), re.target, re.member);
      Chased(tree, imp) && Exposed(tree, imp) && Surface(tree, v.imports, tree.facades[rank], KeyOf(imp)) == Some(imp)
  {
    hide Rooted, Inv, Local, DeclaredPub, Leaks, Surface;
    var f := tree.facades[rank];
    TableFacts(tree, v, f);
    SurfaceOfPublic(tree, v.imports, f, re);
    assert Sound(tree, f, re);
  }

  lemma FacadeInTree(tree: Tree, j: nat)
    requires Rooted(tree) && j < |tree.facades|
    ensures tree.facades[j] < |tree.nodes|
  {
  }

  /** Resolving more modules leaves what was said as it was. */
  lemma SpokenStays(tree: Tree, u: View, v: View, n: nat)
    requires Spoken(tree, u, n) && Elsewhere(u, v, -1) && |u.phase| == |u.imports|
    ensures Spoken(tree, v, n)
  {
    hide OwnPublic, FirstPublic;
    forall f, key | 0 <= f < |u.phase| && u.phase[f] != Fresh
      ensures Surface(tree, v.imports, f, key) == Surface(tree, u.imports, f, key)
    {
      assert Untouched(u, v, f);
    }
    hide Surface, Untouched;
    forall k | 0 <= k < n ensures Covered(tree, v, k) { assert Covered(tree, u, k); }
  }

  lemma StartSpeaking(tree: Tree, u: View, v: View, j: nat)
    requires Rooted(tree) && Spoken(tree, u, j) && Elsewhere(u, v, -1) && j < |tree.facades|
    requires tree.facades[j] < |tree.nodes|
    requires Inv(tree, v) && |v.phase| == |v.imports| == |tree.nodes| && v.phase[tree.facades[j]] != Fresh
    ensures Speaking(tree, v, j) && v.trace.path == u.trace.path
  {
    assert |u.phase| == |u.imports|;
    SpokenStays(tree, u, v, j);
    hide Surface, Covered, Tables, Spread, Searched, Lasting, Counted, Answered;
  }

  lemma DoneSpeaking(tree: Tree, v: View, w: View, x: View, j: nat)
    requires Speaking(tree, x, j) && Injects(tree, v, w, j) && Injects(tree, w, x, j)
    requires forall key :: OwnPublic(tree, tree.facades[j], key) ==> key in w.offered
    requires forall imp :: imp in x.imports[tree.facades[j]] && imp.isPub ==> KeyOf(imp) in x.offered
    ensures Spoken(tree, x, j + 1) && x.trace.path == v.trace.path
  {
    hide OwnPublic, Publics;
    assert Covered(tree, x, j);
  }

  // ----- the whole resolution ------------------------------------------------------------------------

  /**
   A use has what the finished tables say it should: everything the module it reaches declares
   under the name, or everything that module re-exports. A public use of the module's own
   re-exports saw those written before it.
   */
  ghost predicate Satisfied(tree: Tree, imports: seq<seq<Import>>, m: nat, i: nat)
    requires Rooted(tree)
  {
    && IsUse(tree, m, i) && |imports| == |tree.nodes|
    && var item := tree.nodes[m].items[i];
       var reached := Reach(tree, m, item.kind.path);
       && reached.At?
       && if LocalAnywhere(tree, reached.at, Member(item.kind)) then
         Found(tree, item, reached.at, false, [], imports[m])
          else if reached.at == m && item.isPub then
            exists exports :: exports <= Publics(imports[m]) && Found(tree, item, m, true, exports, imports[m])
          else Found(tree, item, reached.at, true, imports[reached.at], imports[m])
  }

  /** A name some facade's public surface carries, in the finished tables. */
  ghost predicate OnFacade(tree: Tree, imports: seq<seq<Import>>, key: Key) {
    exists f :: f in tree.facades && Surface(tree, imports, f, key).Some?
  }

  /** The first facade whose surface carries the name, and what it gives under it. */
  ghost predicate Bestows(tree: Tree, imports: seq<seq<Import>>, rank: nat, key: Key, imp: Import) {
    && rank < |tree.facades| && Surface(tree, imports, tree.facades[rank], key) == Some(imp)
    && forall k :: 0 <= k < rank ==> Surface(tree, imports, tree.facades[k], key).None?
  }

  /** What a module means by a name a facade bestows, unless it declares it: its own import, or the facade's. */
  ghost predicate Answers(imports: seq<seq<Import>>, m: nat, key: Key, imp: Import) {
    m < |imports| && First(imports[m], key).Some? &&
      (First(imports[m], key).value.injected ==> First(imports[m], key).value == imp)
  }

  /**
   What is injected is what the first facade that carries the name bestows; and every module but
   that facade declares the name, imports it itself, or means what the facade bestows.
   */
  ghost predicate FacadesHeard(tree: Tree, imports: seq<seq<Import>>)
    requires Rooted(tree)
  {
    && (forall m: nat, imp :: m < |imports| && imp in imports[m] && imp.injected ==>
          exists rank :: Bestows(tree, imports, rank, KeyOf(imp), imp))
    && (forall m: nat, rank: nat, key, imp ::
          m < |imports| && Bestows(tree, imports, rank, key, imp) && m != tree.facades[rank] ==>
            Local(tree, m, key) || Answers(imports, m, key, imp))
  }

  /** What the tables of a resolution that reported nothing satisfy. */
  ghost predicate Finished(tree: Tree, imports: seq<seq<Import>>)
    requires Rooted(tree)
  {
    && |imports| == |tree.nodes| && (forall m :: 0 <= m < |imports| ==> SoundList(tree, m, imports[m]))
    && (forall m, i :: 0 <= m < |tree.nodes| && 0 <= i && IsUse(tree, m, i) ==> Satisfied(tree, imports, m, i))
    && FacadesHeard(tree, imports)
  }

  /**
   What a lookup read is still there in the finished tables, and all there is: unless a cycle
   was reported, or a public use looked into its own module.
   */
  ghost predicate Lasts(imports: seq<seq<Import>>, log: seq<Event>, l: Lookup) {
    && l.into < |imports| && l.exports <= Publics(imports[l.into])
    && ((if l.from == l.into then !l.isPub else !Reported(log)) ==> l.exports == Publics(imports[l.into]))
  }

  lemma AllFinished(tree: Tree, v: View)
    requires Rooted(tree) && Inv(tree, v) && v.trace.path == [] && forall m :: 0 <= m < |v.phase| ==>
      v.phase[m] != Fresh
    ensures forall m :: 0 <= m < |tree.nodes| ==> m in v.trace.finished
    ensures Reported(v.log) <==> Cyclic(Demands(tree))
  {
    hide Tables, Spread, Lasting, Counted, Answered, Rooted, Demand, Reported, Cyclic, Walk, Settled;
    forall m | 0 <= m < |tree.nodes| ensures m in v.trace.finished { assert v.phase[m] != Fresh; }
    if !Reported(v.log) { SettledAcyclic(Demands(tree), v.trace.finished); }
  }

  lemma FoundThrough(tree: Tree, item: Item, at: nat, list: seq<Import>, mine: seq<Import>)
    requires Rooted(tree) && (forall i :: 0 <= i < |list| ==> Chased(tree, list[i]))
    requires Found(tree, item, at, true, Publics(list), mine)
    ensures Found(tree, item, at, true, list, mine)
  {
    hide Rooted, Chased, Publics, Member, NameGiven, FirstPublic;
    forall ns
      ensures Offer(tree, at, Member(item.kind), true, list, ns) ==
        Offer(tree, at, Member(item.kind), true, Publics(list), ns)
    {
      OnlyPublicsAnswer(list, Key(Member(item.kind), ns));
    }
    hide Offer;
    var ns :| Offer(tree, at, Member(item.kind), true, Publics(list), ns).Some?;
    assert Offer(tree, at, Member(item.kind), true, list, ns).Some?;
  }

  lemma GrantSatisfied(tree: Tree, v: View, m: nat, i: nat)
    requires Rooted(tree) && Inv(tree, v) && v.log == [] && v.trace.settled[(m, i)] > 0
    ensures Satisfied(tree, v.imports, m, i)
  {
    hide Rooted, Tables, Spread, Searched, Counted, Found, Reach, LocalAnywhere, Member, Publics;
    assert Granted(tree, v.imports, v.trace.lookups, m, i);
    var item := tree.nodes[m].items[i];
    var reached := Reach(tree, m, item.kind.path);
    if !LocalAnywhere(tree, reached.at, Member(item.kind)) {
      var l :| l in v.trace.lookups && l.from == m && l.into == reached.at && l.isPub == item.isPub
            && Found(tree, item, reached.at, true, l.exports, v.imports[m]);
      assert Standing(v, l);
      TableFacts(tree, v, l.into);
      if !(reached.at == m && item.isPub) {
        FoundThrough(tree, item, reached.at, v.imports[reached.at], v.imports[m]);
      }
    }
  }

  lemma SurfaceSpread(tree: Tree, v: View, m: nat, key: Key)
    requires Rooted(tree) && Inv(tree, v) && m < |tree.nodes| && m !in tree.facades && OnFacade(tree, v.imports, key)
    requires Spoken(tree, v, |tree.facades|)
    ensures Local(tree, m, key) || (|v.imports| == |tree.nodes| && Holds(v.imports[m], key))
  {
    hide Rooted, Tables, Searched, Lasting, Counted, Answered, Local, Holds, InNamespace, Surface;
    var f :| f in tree.facades && Surface(tree, v.imports, f, key).Some?;
    var k :| 0 <= k < |tree.facades| && tree.facades[k] == f;
    assert Covered(tree, v, k);
  }

  /**
   Resolution of a whole tree. Every module's list is ordered and sound; a re-export cycle is
   reported exactly when the uses' demands have one; every use is settled once; each lookup's
   answer stands at the end; and with nothing reported, every use and every facade is satisfied
   by the finished tables.
   */
  method ResolveModules(tree: Tree) returns (imports: seq<seq<Import>>, log: seq<Event>, ghost trace: Trace)
    requires Rooted(tree)
    ensures |imports| == |tree.nodes| && forall m :: 0 <= m < |imports| ==> SoundList(tree, m, imports[m])
    ensures Reported(log) <==> Cyclic(Demands(tree))
    ensures forall m, i :: 0 <= m < |tree.nodes| && 0 <= i ==>
      trace.settled[(m, i)] == if IsUse(tree, m, i) then 1 else 0
    ensures forall i :: 0 <= i < |trace.lookups| ==> Lasts(imports, log, trace.lookups[i])
    ensures log == [] ==> forall m, i :: 0 <= m < |tree.nodes| && 0 <= i && IsUse(tree, m, i) ==>
      Satisfied(tree, imports, m, i)
    ensures forall m, key :: 0 <= m < |tree.nodes| && m !in tree.facades && OnFacade(tree, imports, key) ==>
      Local(tree, m, key) || Holds(imports[m], key)
    ensures FacadesHeard(tree, imports)
    ensures log == [] ==> Finished(tree, imports)
  {
    hide Inv, Rooted, Local, Holds, OnFacade, Satisfied, SoundList, Reported, Cyclic, Demands, Elsewhere, Spoken;
    hide Lasts, FacadesHeard;
    var r := new Resolver(tree);
    r.CollectLocals();
    r.InjectPrelude();
    Lengths(tree, r.Now());
    var m := 0;
    while m < |tree.nodes|
      invariant 0 <= m <= |tree.nodes| == |r.exportsState| && r.tree == tree
      invariant r.Valid() && r.trace.path == []
      invariant forall k :: 0 <= k < m ==> r.exportsState[k] != Fresh
      invariant Spoken(tree, r.Now(), |tree.facades|)
    {
      ghost var v := r.Now();
      Lengths(tree, v);
      r.ResolveExports(m);
      Carried(v, r.Now(), -1);
      StaysReached(v, r.Now());
      SpokenStays(tree, v, r.Now(), |tree.facades|);
      m := m + 1;
    }
    imports, log, trace := r.imports, r.log, r.trace;
    Concluded(tree, r.Now());
  }

  lemma StaysReached(v: View, w: View)
    requires Elsewhere(v, w, -1)
    ensures |w.phase| == |v.phase| && forall k :: 0 <= k < |v.phase| && v.phase[k] != Fresh ==> w.phase[k] != Fresh
  {
  }

  lemma Concluded(tree: Tree, v: View)
    requires Rooted(tree) && Inv(tree, v) && v.trace.path == [] && forall m :: 0 <= m < |v.phase| ==>
      v.phase[m] != Fresh
    requires Spoken(tree, v, |tree.facades|)
    ensures |v.imports| == |tree.nodes| && forall m :: 0 <= m < |v.imports| ==> SoundList(tree, m, v.imports[m])
    ensures Reported(v.log) <==> Cyclic(Demands(tree))
    ensures forall m, i :: 0 <= m < |tree.nodes| && 0 <= i ==>
      v.trace.settled[(m, i)] == if IsUse(tree, m, i) then 1 else 0
    ensures forall i :: 0 <= i < |v.trace.lookups| ==> Lasts(v.imports, v.log, v.trace.lookups[i])
    ensures v.log == [] ==> forall m, i :: 0 <= m < |tree.nodes| && 0 <= i && IsUse(tree, m, i) ==>
      Satisfied(tree, v.imports, m, i)
    ensures forall m, key :: 0 <= m < |tree.nodes| && m !in tree.facades && OnFacade(tree, v.imports, key) ==>
      Local(tree, m, key) || Holds(v.imports[m], key)
    ensures FacadesHeard(tree, v.imports)
  {
    hide Rooted, Local, Holds, OnFacade, Satisfied, SoundList, Reported, Cyclic, Demands, Spoken, Searched, Spread;
    hide Answered, IsUse, Publics, FacadesHeard;
    AllFinished(tree, v);
    if v.log == [] {
      forall m, i | 0 <= m < |tree.nodes| && 0 <= i && IsUse(tree, m, i) ensures Satisfied(tree, v.imports, m, i) {
        assert m in v.trace.finished && v.trace.settled[(m, i)] == 1;
        GrantSatisfied(tree, v, m, i);
      }
    }
    forall m, key | 0 <= m < |tree.nodes| && m !in tree.facades && OnFacade(tree, v.imports, key)
      ensures Local(tree, m, key) || Holds(v.imports[m], key)
    {
      SurfaceSpread(tree, v, m, key);
    }
    AllHeard(tree, v);
  }

  lemma AllHeard(tree: Tree, v: View)
    requires Rooted(tree) && Inv(tree, v) && Spoken(tree, v, |tree.facades|)
    ensures FacadesHeard(tree, v.imports)
  {
    hide Rooted, Inv, Spoken, Local, Answers, Surface;
    forall m: nat, imp | m < |v.imports| && imp in v.imports[m] && imp.injected
      ensures exists rank :: Bestows(tree, v.imports, rank, KeyOf(imp), imp)
    {
      Bestowed(tree, v, m, imp);
    }
    forall m: nat, rank: nat, key, imp | m < |v.imports| && Bestows(tree, v.imports, rank, key, imp) &&
      m != tree.facades[rank]
      ensures Local(tree, m, key) || Answers(v.imports, m, key, imp)
    {
      BestowalAnswers(tree, v, m, rank, key, imp);
    }
  }

  /** A name was offered by the first facade that carries it. */
  lemma FirstToOffer(tree: Tree, v: View, key: Key)
    requires Spoken(tree, v, |tree.facades|) && key in v.trace.offers
    ensures Bestows(tree, v.imports, v.trace.offers[key].rank, key, v.trace.offers[key].imp)
  {
    hide Surface;
    forall k | 0 <= k < v.trace.offers[key].rank ensures Surface(tree, v.imports, tree.facades[k], key).None? {
      assert Covered(tree, v, k);
    }
  }

  lemma Bestowed(tree: Tree, v: View, m: nat, imp: Import)
    requires Rooted(tree) && Inv(tree, v) && Spoken(tree, v, |tree.facades|) && m < |v.imports| && imp in v.imports[m]
    requires imp.injected
    ensures exists rank :: Bestows(tree, v.imports, rank, KeyOf(imp), imp)
  {
    hide Spoken, Bestows, Local, Rooted, Tables, Searched, Lasting, Counted, Answered, Holds;
    FirstToOffer(tree, v, KeyOf(imp));
  }

  lemma BestowalAnswers(tree: Tree, v: View, m: nat, rank: nat, key: Key, imp: Import)
    requires Rooted(tree) && Inv(tree, v) && Spoken(tree, v, |tree.facades|)
    requires m < |v.imports| && Bestows(tree, v.imports, rank, key, imp) && m != tree.facades[rank]
    ensures Local(tree, m, key) || Answers(v.imports, m, key, imp)
  {
    hide Local, Rooted, Searched, Lasting, Counted, Answered, Surface, Sound;
    assert Covered(tree, v, rank);
    FirstToOffer(tree, v, key);
    assert v.trace.offers[key].rank == rank && v.trace.offers[key].imp == imp;
    if !Local(tree, m, key) {
      var held :| held in v.imports[m] && KeyOf(held) == key;
      FirstIsExplicit(v.imports[m], held);
      assert First(v.imports[m], key).value in v.imports[m];
    }
  }
}
