/**
 What holds throughout import resolution (src/analyzer/resolve.cc, resolve_exports and
 inject_prelude): facts about the tables, the depth-first search over re-exports, and a record
 of what has happened, each kept by every step of a run.
 */
module Resolution {
  import opened Lang
  import opened Graphs
  import opened Modules
  import opened Imports

  datatype Phase = Fresh | InProgress | Done

  /** A re-export lookup a `use` made, with the public imports it read. */
  datatype Lookup = Lookup(from: nat, use: nat, into: nat, isPub: bool, exports: seq<Import>)

  /** What a facade offered under a name, and its place in the list of facades. */
  datatype Offering = Offering(imp: Import, rank: nat)

  /**
   What a run has done, which no run reads: the modules being resolved, outermost first; those
   finished, in order; those whose public uses are all in; the uses settled; the lookups made;
   the names offered.
   */
  datatype Trace = Trace(
    path: seq<nat>,
    finished: seq<nat>,
    sealed: set<nat>,
    settled: multiset<(nat, nat)>,
    lookups: seq<Lookup>,
    offers: map<Key, Offering>
  )

  datatype View = View(imports: seq<seq<Import>>, phase: seq<Phase>, log: seq<Event>, offered: set<Key>, trace: Trace)

  ghost predicate Reported(log: seq<Event>) { exists i :: 0 <= i < |log| && log[i].ReExportCycle? }

  /** The modules each module's uses wait for. */
  ghost function Demands(tree: Tree): Edges<nat>
    requires Rooted(tree)
  {
    iset m, i | 0 <= m < |tree.nodes| && 0 <= i < |tree.nodes[m].items| && Demand(tree, m, tree.nodes[m].items[i]).Some?
      :: (m, Demand(tree, m, tree.nodes[m].items[i]).value)
  }

  ghost predicate IsUse(tree: Tree, m: nat, i: nat) {
    m < |tree.nodes| && i < |tree.nodes[m].items| && tree.nodes[m].items[i].kind.UseItem?
  }

  ghost predicate Holds(list: seq<Import>, key: Key) { exists imp :: imp in list && KeyOf(imp) == key }

  // ----- the invariants ---------------------------------------------------------------------------

  ghost predicate Sized(tree: Tree, v: View) { |v.imports| == |v.phase| == |tree.nodes| }

  /** Every list is ordered and every import sound; what was injected was offered by a facade. */
  ghost predicate Tables(tree: Tree, imports: seq<seq<Import>>, offered: set<Key>)
    requires Rooted(tree)
  {
    forall m :: 0 <= m < |imports| ==>
      && SoundList(tree, m, imports[m])
      && forall imp :: imp in imports[m] && imp.injected ==> KeyOf(imp) in offered
  }

  /** What is injected is what was offered, and every module but the facade itself answers to it. */
  ghost predicate Spread(tree: Tree, imports: seq<seq<Import>>, offers: map<Key, Offering>)
    requires Rooted(tree)
  {
    && (forall key :: key in offers ==> offers[key].rank < |tree.facades|)
    && (forall m, imp :: 0 <= m < |imports| && imp in imports[m] && imp.injected ==>
          KeyOf(imp) in offers && offers[KeyOf(imp)].imp == imp)
    && (forall m, key :: 0 <= m < |imports| && key in offers && m != tree.facades[offers[key].rank] ==>
          Local(tree, m, key) || Holds(imports[m], key))
  }

  /** The search: its stack is a walk, and without a report what is finished is settled. */
  ghost predicate Searched(tree: Tree, v: View)
    requires Rooted(tree)
  {
    && (forall m :: m in v.trace.path || m in v.trace.finished ==> m < |v.phase|)
    && (forall m :: m in v.trace.path ==> m !in v.trace.finished)
    && (forall m :: 0 <= m < |v.phase| ==> (v.phase[m] == Fresh <==> m !in v.trace.path && m !in v.trace.finished))
    && (forall m :: 0 <= m < |v.phase| && m in v.trace.finished ==> v.phase[m] == Done)
    && Walk(Demands(tree), v.trace.path)
    && (Reported(v.log) ==> Cyclic(Demands(tree)))
    && (!Reported(v.log) ==> Settled(Demands(tree), v.trace.finished))
    && (!Reported(v.log) ==> forall m :: 0 <= m < |v.phase| && m in v.trace.path ==> v.phase[m] == InProgress)
  }

  /** Public imports only grow, and not at all once the module's public uses are in. */
  ghost predicate Standing(v: View, l: Lookup) {
    && l.into < |v.imports|
    && l.exports <= Publics(v.imports[l.into])
    && (l.from == l.into && !l.isPub ==> l.into in v.trace.sealed && l.exports == Publics(v.imports[l.into]))
    && (l.from != l.into && !Reported(v.log) ==> l.into in v.trace.finished && l.exports == Publics(v.imports[l.into]))
  }

  ghost predicate Marked(trace: Trace) {
    && (forall m :: m in trace.finished ==> m in trace.sealed)
    && (forall m :: m in trace.sealed ==> m in trace.path || m in trace.finished)
  }

  ghost predicate Lasting(v: View) {
    Marked(v.trace) && forall i :: 0 <= i < |v.trace.lookups| ==> Standing(v, v.trace.lookups[i])
  }

  lemma LastingMoves(v: View, w: View)
    requires Lasting(v) && Marked(w.trace) && w.imports == v.imports && w.trace.lookups == v.trace.lookups
    requires v.trace.sealed <= w.trace.sealed && (Reported(v.log) ==> Reported(w.log))
    requires forall m :: m in v.trace.finished ==> m in w.trace.finished
    ensures Lasting(w)
  {
    hide Reported, Publics, Marked;
  }

  /** A finished module's uses are settled once each, an unvisited one's not at all. */
  ghost predicate Counted(tree: Tree, v: View) {
    forall m, i :: 0 <= m < |v.phase| && 0 <= i ==>
      && (v.phase[m] == Fresh ==> v.trace.settled[(m, i)] == 0)
      && (m in v.trace.finished ==> v.trace.settled[(m, i)] == if IsUse(tree, m, i) then 1 else 0)
  }

  /** Something is offered, and everything offered was imported. */
  ghost predicate Found(tree: Tree, item: Item, at: nat, through: bool, exports: seq<Import>, list: seq<Import>)
    requires Rooted(tree)
  {
    && item.kind.UseItem? && item.kind.path != [] && (forall i :: 0 <= i < |exports| ==> Chased(tree, exports[i]))
    && (exists ns :: Offer(tree, at, Member(item.kind), through, exports, ns).Some?)
    && forall ns :: Offer(tree, at, Member(item.kind), through, exports, ns).Some? ==>
         Wanted(item, ns, Offer(tree, at, Member(item.kind), through, exports, ns).value) in list
  }

  ghost predicate Granted(tree: Tree, imports: seq<seq<Import>>, lookups: seq<Lookup>, m: nat, i: nat)
    requires Rooted(tree)
  {
    && IsUse(tree, m, i) && m < |imports|
    && var item := tree.nodes[m].items[i];
       var reached := Reach(tree, m, item.kind.path);
       && reached.At?
       && if LocalAnywhere(tree, reached.at, Member(item.kind)) then
         Found(tree, item, reached.at, false, [], imports[m])
          else exists l :: l in lookups && l.from == m && l.into == reached.at && l.isPub == item.isPub
                        && Found(tree, item, reached.at, true, l.exports, imports[m])
  }

  /** With nothing complained of, every use settled has what it asked for. */
  ghost predicate Answered(
    tree: Tree, log: seq<Event>, imports: seq<seq<Import>>, settled: multiset<(nat, nat)>, lookups: seq<Lookup>
  )
    requires Rooted(tree)
  {
    log == [] ==> forall m, i :: settled[(m, i)] > 0 ==> Granted(tree, imports, lookups, m, i)
  }

  ghost predicate Inv(tree: Tree, v: View)
    requires Rooted(tree)
  {
    && Sized(tree, v) && v.offered == v.trace.offers.Keys
    && Tables(tree, v.imports, v.offered) && Spread(tree, v.imports, v.trace.offers)
    && Searched(tree, v) && Lasting(v) && Counted(tree, v)
    && Answered(tree, v.log, v.imports, v.trace.settled, v.trace.lookups)
  }

  // ----- what a call leaves alone ---------------------------------------------------------------------

  ghost predicate Untouched(v: View, w: View, m: nat)
    requires m < |v.imports| && m < |w.imports|
  {
    && w.imports[m] == v.imports[m]
    && (m in w.trace.sealed <==> m in v.trace.sealed)
    && forall i: nat :: w.trace.settled[(m, i)] == v.trace.settled[(m, i)]
  }

  ghost predicate Extends(v: View, w: View) {
    && |w.imports| == |v.imports| && |w.phase| == |v.phase|
    && w.trace.path == v.trace.path && v.log <= w.log && w.offered == v.offered && w.trace.offers == v.trace.offers
    && v.trace.finished <= w.trace.finished && v.trace.lookups <= w.trace.lookups
    && (forall m :: 0 <= m < |v.phase| && v.phase[m] != Fresh ==> w.phase[m] != Fresh)
  }

  /** A call works only on modules nobody had reached, `but` aside. */
  ghost predicate Elsewhere(v: View, w: View, but: int) {
    && Extends(v, w)
    && forall m :: 0 <= m < |v.phase| && m < |v.imports| && v.phase[m] != Fresh && m != but ==> Untouched(v, w, m)
  }

  lemma ElsewhereTwice(u: View, v: View, w: View, but: int)
    requires Elsewhere(u, v, but) && Elsewhere(v, w, but)
    ensures Elsewhere(u, w, but)
  {
  }

  lemma ReportStays(a: seq<Event>, b: seq<Event>)
    requires a <= b
    ensures Reported(a) ==> Reported(b)
    ensures (forall i :: |a| <= i < |b| ==> !b[i].ReExportCycle?) ==> (Reported(a) <==> Reported(b))
  {
    if Reported(a) {
      var i :| 0 <= i < |a| && a[i].ReExportCycle?;
      assert b[i].ReExportCycle?;
    }
  }

  // ----- room for the search ------------------------------------------------------------------------

  /** How many modules nobody has reached. */
  ghost function Room(phase: seq<Phase>): nat {
    if phase == [] then 0 else (if phase[0] == Fresh then 1 else 0) + Room(phase[1..])
  }

  lemma {:induction false} RoomShrinks(a: seq<Phase>, b: seq<Phase>)
    requires |a| == |b| && forall m :: 0 <= m < |a| && a[m] != Fresh ==> b[m] != Fresh
    ensures Room(b) <= Room(a)
    ensures (exists m :: 0 <= m < |a| && a[m] == Fresh && b[m] != Fresh) ==> Room(b) < Room(a)
  {
    if a != [] {
      RoomShrinks(a[1..], b[1..]);
      if m :| 0 <= m < |a| && a[m] == Fresh && b[m] != Fresh {
        if m > 0 { assert a[1..][m - 1] == Fresh && b[1..][m - 1] != Fresh; }
      }
    }
  }

  // ----- entering and leaving a module ------------------------------------------------------------------

  function Enter(v: View, m: nat): View
    requires m < |v.phase|
  {
    v.(phase := v.phase[m := InProgress], trace := v.trace.(path := v.trace.path + [m]))
  }

  function Seal(v: View, m: nat): View { v.(trace := v.trace.(sealed := v.trace.sealed + {m})) }

  function Leave(v: View, m: nat): View
    requires m < |v.phase| && v.trace.path != []
  {
    v.(phase := v.phase[m := Done],
       trace := v.trace.(path := v.trace.path[..|v.trace.path| - 1], finished := v.trace.finished + [m]))
  }

  function Report(v: View, m: nat): View
    requires m < |v.phase|
  {
    v.(phase := v.phase[m := Done], log := v.log + [ReExportCycle(m)])
  }

  ghost predicate Calls(tree: Tree, v: View, m: nat)
    requires Rooted(tree)
  {
    v.trace.path == [] || (v.trace.path[|v.trace.path| - 1], m) in Demands(tree)
  }

  lemma EnterSearched(tree: Tree, v: View, m: nat)
    requires Rooted(tree) && Searched(tree, v) && m < |v.phase| && v.phase[m] == Fresh && Calls(tree, v, m)
    ensures Searched(tree, Enter(v, m))
  {
    hide Walk, Demands, Settled, Cyclic, Reported;
    WalkOn(Demands(tree), v.trace.path, m);
    forall k ensures k in v.trace.path + [m] <==> k in v.trace.path || k == m {}
  }

  lemma Entered(tree: Tree, v: View, m: nat)
    requires Rooted(tree) && Inv(tree, v) && m < |v.phase| && v.phase[m] == Fresh && Calls(tree, v, m)
    ensures Inv(tree, Enter(v, m)) && Room(Enter(v, m).phase) < Room(v.phase)
  {
    EnterSearched(tree, v, m);
    RoomShrinks(v.phase, Enter(v, m).phase);
    hide Searched, Tables, Spread, Answered, Demands, Reported, Calls, Room, Standing, IsUse;
    var w := Enter(v, m);
    assert forall k :: k in w.trace.path <==> k in v.trace.path || k == m;
    LastingMoves(v, w);
  }

  lemma Sealed(tree: Tree, v: View, m: nat)
    requires Rooted(tree) && Inv(tree, v) && m in v.trace.path
    ensures Inv(tree, Seal(v, m))
  {
    hide Searched, Tables, Spread, Answered, Reported, Standing;
    var w := Seal(v, m);
    SearchedAlike(tree, v, w);
    LastingMoves(v, w);
  }

  lemma SearchedAlike(tree: Tree, v: View, w: View)
    requires Rooted(tree) && Searched(tree, v)
    requires w.phase == v.phase && w.trace.path == v.trace.path && w.trace.finished == v.trace.finished
    requires v.log <= w.log && forall i :: |v.log| <= i < |w.log| ==> !w.log[i].ReExportCycle?
    ensures Searched(tree, w)
  {
    hide Walk, Demands, Settled, Cyclic, Reported;
    ReportStays(v.log, w.log);
  }

  /** Stepping onto a module still in progress closes a cycle of demands, and nothing else does. */
  lemma ReportSearched(tree: Tree, v: View, m: nat)
    requires Rooted(tree) && Searched(tree, v) && m < |v.phase| && v.phase[m] == InProgress && Calls(tree, v, m)
    ensures Searched(tree, Report(v, m)) && Reported(Report(v, m).log)
  {
    hide Walk, Demands, Settled, Cyclic;
    var w := Report(v, m);
    assert w.log[|v.log|].ReExportCycle?;
    if !Reported(v.log) {
      assert m in v.trace.path;
      var k :| 0 <= k < |v.trace.path| && v.trace.path[k] == m;
      ReturnCloses(Demands(tree), v.trace.path, k);
    }
  }

  lemma ReportedKeeps(tree: Tree, v: View, m: nat)
    requires Rooted(tree) && Inv(tree, v) && m < |v.phase| && v.phase[m] == InProgress && Calls(tree, v, m)
    ensures Inv(tree, Report(v, m))
  {
    ReportSearched(tree, v, m);
    hide Searched, Tables, Spread, Granted, Reported, Standing, Calls, Demands, IsUse;
    var w := Report(v, m);
    LastingMoves(v, w);
  }

  lemma LeaveSearched(tree: Tree, v: View, m: nat)
    requires Rooted(tree) && Searched(tree, v) && m < |v.phase|
    requires v.trace.path != [] && v.trace.path[|v.trace.path| - 1] == m && m !in v.trace.path[..|v.trace.path| - 1]
    requires !Reported(v.log) ==> forall t :: (m, t) in Demands(tree) ==> t in v.trace.finished
    ensures Searched(tree, Leave(v, m))
  {
    hide Demands, Cyclic, Reported;
    var w := Leave(v, m);
    var n := |v.trace.path| - 1;
    assert v.trace.path == v.trace.path[..n] + [m];
    forall k ensures k in v.trace.path <==> k in w.trace.path || k == m {}
    forall k ensures k in w.trace.finished <==> k in v.trace.finished || k == m {}
    if !Reported(v.log) { SettledOnce(Demands(tree), v.trace.finished, m); }
    hide Settled, Walk;
    assert Walk(Demands(tree), w.trace.path) by { WalkBack(Demands(tree), v.trace.path, n); }
  }

  lemma LeaveMarked(v: View, m: nat)
    requires Marked(v.trace) && m in v.trace.sealed && m < |v.phase| && v.trace.path != []
    requires v.trace.path[|v.trace.path| - 1] == m
    ensures Marked(Leave(v, m).trace)
  {
    var w := Leave(v, m);
    var n := |v.trace.path| - 1;
    assert v.trace.path == v.trace.path[..n] + [m];
    forall k | k in v.trace.path ensures k in w.trace.path || k == m {}
  }

  lemma Left(tree: Tree, v: View, m: nat)
    requires Rooted(tree) && Inv(tree, v) && m < |v.phase| && m in v.trace.sealed
    requires v.trace.path != [] && v.trace.path[|v.trace.path| - 1] == m && m !in v.trace.path[..|v.trace.path| - 1]
    requires !Reported(v.log) ==> forall t :: (m, t) in Demands(tree) ==> t in v.trace.finished
    requires forall i: nat :: v.trace.settled[(m, i)] == if IsUse(tree, m, i) then 1 else 0
    ensures Inv(tree, Leave(v, m))
  {
    LeaveSearched(tree, v, m);
    hide Searched, Tables, Spread, Answered, Reported, Standing, Demands, IsUse, Marked;
    var w := Leave(v, m);
    assert forall k :: k in w.trace.finished <==> k in v.trace.finished || k == m;
    LeaveMarked(v, m);
    LastingMoves(v, w);
  }

  // ----- settling a use -----------------------------------------------------------------------------

  /** A use done with: its module's list, the complaints, and the lookup it made. */
  function Settle(v: View, m: nat, i: nat, list: seq<Import>, events: seq<Event>, made: Option<Lookup>): View
    requires m < |v.imports|
  {
    View(v.imports[m := list], v.phase, v.log + events, v.offered,
         v.trace.(settled := v.trace.settled + multiset{(m, i)},
                  lookups := v.trace.lookups + if made.Some? then [made.value] else []))
  }

  ghost predicate Plain(events: seq<Event>) { forall i :: 0 <= i < |events| ==> !events[i].ReExportCycle? }

  lemma GrantsStay(
    tree: Tree, before: seq<seq<Import>>, after: seq<seq<Import>>, lookups: seq<Lookup>, more: seq<Lookup>, m: nat,
    i: nat
  )
    requires Rooted(tree) && |before| == |after| && Granted(tree, before, lookups, m, i)
    requires forall imp :: imp in before[m] && !imp.injected ==> imp in after[m]
    ensures Granted(tree, after, lookups + more, m, i)
  {
    hide Local, Reach, LocalAnywhere, Offer, Rooted, Chased, Member, NameGiven;
    var item := tree.nodes[m].items[i];
    var reached := Reach(tree, m, item.kind.path);
    if LocalAnywhere(tree, reached.at, Member(item.kind)) {
      assert Found(tree, item, reached.at, false, [], after[m]);
    } else {
      var l :| l in lookups && l.from == m && l.into == reached.at && l.isPub == item.isPub &&
        Found(tree, item, reached.at, true, l.exports, before[m]);
      assert l in lookups + more && Found(tree, item, reached.at, true, l.exports, after[m]);
    }
  }

  lemma TablesSettle(
    tree: Tree, imports: seq<seq<Import>>, offered: set<Key>, offers: map<Key, Offering>, m: nat, item: Item,
    s: Sweep, t: Sweep
  )
    requires Rooted(tree) && Tables(tree, imports, offered) && Spread(tree, imports, offers)
    requires m < |imports| && s.list == imports[m] && Swept(tree, m, item, s, t)
    ensures Tables(tree, imports[m := t.list], offered) && Spread(tree, imports[m := t.list], offers)
  {
    hide SoundList, Local, Rooted;
    assert forall key :: Holds(s.list, key) ==> Holds(t.list, key);
  }

  ghost predicate MadeWell(v: View, m: nat, item: Item, made: Option<Lookup>) {
    made.Some? ==>
      && made.value.from == m && made.value.isPub == item.isPub && made.value.into < |v.imports|
      && made.value.exports == Publics(v.imports[made.value.into])
      && (made.value.into != m && !Reported(v.log) ==> made.value.into in v.trace.finished)
  }

  lemma LastingSettle(
    tree: Tree, v: View, m: nat, i: nat, item: Item, s: Sweep, t: Sweep, events: seq<Event>, made: Option<Lookup>
  )
    requires Rooted(tree) && Lasting(v) && Plain(events)
    requires m < |v.imports| && s.list == v.imports[m] && Swept(tree, m, item, s, t)
    requires m !in v.trace.finished && (item.isPub <==> m !in v.trace.sealed) && MadeWell(v, m, item, made)
    ensures Lasting(Settle(v, m, i, t.list, events, made))
  {
    hide SoundList, Reported, Publics;
    var w := Settle(v, m, i, t.list, events, made);
    ReportStays(v.log, w.log);
    assert forall l :: Standing(v, l) ==> Standing(w, l);
    if made.Some? { assert Standing(w, made.value); }
  }

  lemma Settles(tree: Tree, v: View, m: nat, i: nat, s: Sweep, t: Sweep, events: seq<Event>, made: Option<Lookup>)
    requires Rooted(tree) && Inv(tree, v) && m in v.trace.path && m < |tree.nodes| && IsUse(tree, m, i)
    requires var item := tree.nodes[m].items[i];
      s.list == v.imports[m] && Swept(tree, m, item, s, t) && (item.isPub <==> m !in v.trace.sealed) &&
        MadeWell(v, m, item, made)
    requires Plain(events)
    requires var w := Settle(v, m, i, t.list, events, made);
      w.log == [] ==> Granted(tree, w.imports, w.trace.lookups, m, i)
    ensures Inv(tree, Settle(v, m, i, t.list, events, made))
  {
    hide Tables, Spread, Lasting, Searched, Granted, MadeWell, SoundList, Publics;
    var item, w := tree.nodes[m].items[i], Settle(v, m, i, t.list, events, made);
    TablesSettle(tree, v.imports, v.offered, v.trace.offers, m, item, s, t);
    InSearch(tree, v, m);
    LastingSettle(tree, v, m, i, item, s, t, events, made);
    SearchedAlike(tree, v, w);
    assert Answered(tree, w.log, w.imports, w.trace.settled, w.trace.lookups) by {
      if w.log == [] {
        assert v.log == [];
        forall k, j | w.trace.settled[(k, j)] > 0 ensures Granted(tree, w.imports, w.trace.lookups, k, j) {
          if (k, j) != (m, i) {
            GrantInBounds(tree, v.imports, v.trace.lookups, k, j);
            GrantsStay(tree, v.imports, w.imports, v.trace.lookups, if made.Some? then [made.value] else [], k, j);
          }
        }
      }
    }
  }

  lemma GrantInBounds(tree: Tree, imports: seq<seq<Import>>, lookups: seq<Lookup>, m: nat, i: nat)
    requires Rooted(tree) && Granted(tree, imports, lookups, m, i)
    ensures m < |imports|
  {
  }

  lemma InSearch(tree: Tree, v: View, m: nat)
    requires Rooted(tree) && Searched(tree, v) && m in v.trace.path
    ensures m < |v.phase| && v.phase[m] != Fresh && m !in v.trace.finished
  {
  }

  // ----- injecting a name -----------------------------------------------------------------------------

  function Injection(key: Key, target: nat, member: string): Import {
    Import(key.name, key.ns, target, member, false, true)
  }

  /** A module's list once a facade's name is offered: the last import, unless it declares the name. */
  function Reinforced(tree: Tree, m: nat, list: seq<Import>, imp: Import, skip: nat): seq<Import>
    requires Rooted(tree)
  {
    if m == skip || Local(tree, m, KeyOf(imp)) then list else list + [imp]
  }

  function Inject(tree: Tree, v: View, imp: Import, rank: nat): View
    requires Rooted(tree) && rank < |tree.facades|
  {
    v.(offered := v.offered + {KeyOf(imp)},
       imports := seq(|v.imports|, m requires 0 <= m < |v.imports| =>
                        Reinforced(tree, m, v.imports[m], imp, tree.facades[rank])),
       trace := v.trace.(offers := v.trace.offers[KeyOf(imp) := Offering(imp, rank)]))
  }

  /** What a facade may offer: a module, something `pub`, or what a facade's own public item exposes. */
  ghost predicate Exposed(tree: Tree, imp: Import)
    requires Rooted(tree)
  {
    imp.ns != ModuleSpace ==>
      || DeclaredPub(tree, imp.target, TargetKey(imp))
      || (imp.target in tree.facades && Leaks(tree, imp.target, TargetKey(imp)))
  }

  lemma ReinforcedList(tree: Tree, m: nat, list: seq<Import>, imp: Import, skip: nat, offered: set<Key>)
    requires Rooted(tree) && SoundList(tree, m, list) && imp.injected && !imp.isPub && Chased(tree, imp)
    requires Exposed(tree, imp)
    requires KeyOf(imp) !in offered && forall other :: other in list && other.injected ==> KeyOf(other) in offered
    ensures var after := Reinforced(tree, m, list, imp, skip);
      && SoundList(tree, m, after) && Publics(after) == Publics(list)
      && (forall other :: other in after && other.injected ==> other in list || other == imp)
      && (forall key :: Holds(list, key) ==> Holds(after, key))
      && (Local(tree, m, KeyOf(imp)) || m == skip || Holds(after, KeyOf(imp)))
      && (forall other :: other in list ==> other in after)
  {
    hide Local, DeclaredPub, Publics, Rooted, Leaks;
    var after := Reinforced(tree, m, list, imp, skip);
    if after != list {
      PublicsApart(list, [imp]);
      assert Publics([imp]) == [] by { OnePrivate(imp); }
      assert after[|list|] == imp;
      forall i, j | 0 <= i < j < |after| && KeyOf(after[i]) == KeyOf(after[j])
        ensures !after[i].injected && after[j].injected
      {
        assert after[i] in list;
      }
      forall key | Holds(list, key) ensures Holds(after, key) {
        var other :| other in list && KeyOf(other) == key;
        assert other in after;
      }
    }
  }

  lemma OnePrivate(imp: Import)
    requires !imp.isPub
    ensures Publics([imp]) == []
  {
  }

  lemma Injected(tree: Tree, v: View, imp: Import, rank: nat)
    requires Rooted(tree) && Inv(tree, v) && imp.injected && !imp.isPub && Chased(tree, imp) && rank < |tree.facades|
    requires Exposed(tree, imp)
    requires KeyOf(imp) !in v.offered
    ensures Inv(tree, Inject(tree, v, imp, rank))
  {
    hide Local, Searched, Granted, Publics, Rooted, SoundList, Reported, DeclaredPub, Chased, Holds, Reinforced;
    hide Exposed;
    var skip, w := tree.facades[rank], Inject(tree, v, imp, rank);
    forall m | 0 <= m < |v.imports|
      ensures SoundList(tree, m, w.imports[m]) && Publics(w.imports[m]) == Publics(v.imports[m])
           && (forall other :: other in w.imports[m] && other.injected ==> other in v.imports[m] || other == imp)
           && (forall key :: Holds(v.imports[m], key) ==> Holds(w.imports[m], key))
           && (Local(tree, m, KeyOf(imp)) || m == skip || Holds(w.imports[m], KeyOf(imp)))
           && (forall other :: other in v.imports[m] ==> other in w.imports[m])
    {
      ReinforcedList(tree, m, v.imports[m], imp, skip, v.offered);
    }
    SearchedAlike(tree, v, w);
    assert Lasting(w) by { assert forall l :: Standing(v, l) ==> Standing(w, l); }
    if v.log == [] {
      forall k, j | v.trace.settled[(k, j)] > 0 ensures Granted(tree, w.imports, w.trace.lookups, k, j) {
        GrantInBounds(tree, v.imports, v.trace.lookups, k, j);
        GrantsStay(tree, v.imports, w.imports, v.trace.lookups, [], k, j);
        assert v.trace.lookups + [] == v.trace.lookups;
      }
    }
  }

  // ----- the outcome of a use ---------------------------------------------------------------------------

  /**
   What a `use` does to its module's list and what it complains of, given the public imports of
   the module it reaches: the module's own declarations first, its re-exports only for a name
   it does not declare.
   */
  function Outcome(tree: Tree, m: nat, item: Item, list: seq<Import>, exports: seq<Import>): Sweep
    requires Rooted(tree) && m < |tree.nodes| && item.kind.UseItem?
    requires forall i :: 0 <= i < |exports| ==> Chased(tree, exports[i])
  {
    var start := Sweep(list, [], false, false);
    match Reach(tree, m, item.kind.path)
    case Refused(why) => start.(events := [why])
    case At(at) =>
      var own := SweepAll(tree, m, item, at, false, [], SPACES, start);
      var all := if own.resolved || own.barred then own else SweepAll(tree, m, item, at, true, exports, SPACES, own);
      if all.resolved || all.barred then all else all.(events := all.events + [Missing(tree, at, Member(item.kind))])
  }

  /** A name a summary could not spell is told apart from one that is not there. */
  function Missing(tree: Tree, at: nat, name: string): Event
    requires at < |tree.nodes|
  {
    if name in tree.nodes[at].generics then GenericUnavailable(name) else UnresolvedImport(name)
  }

  lemma FoundAll(
    tree: Tree, item: Item, at: nat, through: bool, exports: seq<Import>, start: Sweep, t: Sweep, some: Namespace
  )
    requires Rooted(tree) && item.kind.UseItem? && item.kind.path != []
    requires forall i :: 0 <= i < |exports| ==> Chased(tree, exports[i])
    requires t.events == start.events && !start.barred && forall ns :: ns in SPACES ==>
      Served(tree, item, at, through, exports, ns, start, t)
    requires Offer(tree, at, Member(item.kind), through, exports, some).Some?
    ensures Found(tree, item, at, through, exports, t.list)
  {
    hide Local, Rooted, Member, NameGiven, Chased, Offer;
    forall ns | Offer(tree, at, Member(item.kind), through, exports, ns).Some?
      ensures Wanted(item, ns, Offer(tree, at, Member(item.kind), through, exports, ns).value) in t.list
    {
      AllSpaces(ns);
      assert Served(tree, item, at, through, exports, ns, start, t);
    }
  }

  lemma OwnSweep(tree: Tree, m: nat, item: Item, at: nat, list: seq<Import>)
    requires Rooted(tree) && SoundList(tree, m, list) && Written(tree, m, item, at, []) && at < |tree.nodes|
    ensures var start := Sweep(list, [], false, false);
            var own := SweepAll(tree, m, item, at, false, [], SPACES, start);
      && Swept(tree, m, item, start, own)
      && (own.resolved || own.barred <==> LocalAnywhere(tree, at, Member(item.kind)))
      && (!own.resolved && !own.barred ==> own == start)
      && (own.events == [] && own.resolved ==> Found(tree, item, at, false, [], own.list))
  {
    hide Local, SoundList, Rooted, Member, NameGiven, Swept, SweepAll, Chased, Reach, Sound;
    var start := Sweep(list, [], false, false);
    SweepAllSwept(tree, m, item, at, false, [], SPACES, start);
    var own := SweepAll(tree, m, item, at, false, [], SPACES, start);
    if LocalAnywhere(tree, at, Member(item.kind)) {
      var ns :| Local(tree, at, Key(Member(item.kind), ns));
      assert Offer(tree, at, Member(item.kind), false, [], ns).Some?;
      AllSpaces(ns);
      assert Served(tree, item, at, false, [], ns, start, own);
      if own.events == [] { FoundAll(tree, item, at, false, [], start, own, ns); }
    } else {
      forall ns ensures Offer(tree, at, Member(item.kind), false, [], ns).None? {
        assert ns == ModuleSpace || ns == TypeSpace || ns == ValueSpace;
      }
    }
  }

  lemma ThroughSweep(tree: Tree, m: nat, item: Item, at: nat, list: seq<Import>, exports: seq<Import>)
    requires Rooted(tree) && SoundList(tree, m, list) && Written(tree, m, item, at, exports) && at < |tree.nodes|
    requires !LocalAnywhere(tree, at, Member(item.kind))
    requires forall i :: 0 <= i < |exports| ==> Chased(tree, exports[i])
    ensures var start := Sweep(list, [], false, false);
            var all := SweepAll(tree, m, item, at, true, exports, SPACES, start);
      && Swept(tree, m, item, start, all)
      && (all.events == [] && (all.resolved || all.barred) ==> Found(tree, item, at, true, exports, all.list))
  {
    hide Local, SoundList, Rooted, Member, NameGiven, SweepAll, Chased, Offer, Publics, Reach, Sound;
    var start := Sweep(list, [], false, false);
    SweepAllSwept(tree, m, item, at, true, exports, SPACES, start);
    var all := SweepAll(tree, m, item, at, true, exports, SPACES, start);
    if all.events == [] && (all.resolved || all.barred) {
      var ns :| ns in SPACES && Offer(tree, at, Member(item.kind), true, exports, ns).Some?;
      FoundAll(tree, item, at, true, exports, start, all, ns);
    }
  }

  /** A use keeps the lists sound, and one without complaint has imported everything it was offered. */
  lemma OutcomeMeans(tree: Tree, m: nat, item: Item, list: seq<Import>, exports: seq<Import>)
    requires Rooted(tree) && m < |tree.nodes| && item in tree.nodes[m].items && item.kind.UseItem?
    requires SoundList(tree, m, list)
    requires forall i :: 0 <= i < |exports| ==> Chased(tree, exports[i])
    requires Reach(tree, m, item.kind.path).At? ==> Written(tree, m, item, Reach(tree, m, item.kind.path).at, exports)
    ensures var t := Outcome(tree, m, item, list, exports);
            var reached := Reach(tree, m, item.kind.path);
      && Swept(tree, m, item, Sweep(list, [], false, false), t) && Plain(t.events)
      && (t.events == [] ==>
            && reached.At?
            && if LocalAnywhere(tree, reached.at, Member(item.kind)) then
              Found(tree, item, reached.at, false, [], t.list)
               else Found(tree, item, reached.at, true, exports, t.list))
  {
    hide SoundList, Rooted, Member, SweepAll, Chased, Found, LocalAnywhere, Reach, Swept, Plain, Sound;
    var start := Sweep(list, [], false, false);
    var reached := Reach(tree, m, item.kind.path);
    if reached.At? {
      OwnSweep(tree, m, item, reached.at, list);
      if !LocalAnywhere(tree, reached.at, Member(item.kind)) { ThroughSweep(tree, m, item, reached.at, list, exports); }
      var own := SweepAll(tree, m, item, reached.at, false, [], SPACES, start);
      var through := SweepAll(tree, m, item, reached.at, true, exports, SPACES, own);
      var all := if own.resolved || own.barred then own else through;
      Complained(tree, m, item, start, all, Missing(tree, reached.at, Member(item.kind)));
    } else {
      SweptSame(tree, m, item, start);
      Complained(tree, m, item, start, start, reached.why);
      assert [] + [reached.why] == [reached.why];
    }
  }

  lemma Complained(tree: Tree, m: nat, item: Item, s: Sweep, t: Sweep, why: Event)
    requires Rooted(tree) && Swept(tree, m, item, s, t) && !why.ReExportCycle? && s.events == []
    ensures Swept(tree, m, item, s, t.(events := t.events + [why])) && Plain(t.events) && Plain(t.events + [why])
    ensures t.events == [] ==> t.barred == s.barred
  {
    hide SoundList, Publics;
  }

  lemma TableFacts(tree: Tree, v: View, m: nat)
    requires Rooted(tree) && Inv(tree, v) && m < |tree.nodes|
    ensures |v.imports| == |v.phase| == |tree.nodes| && SoundList(tree, m, v.imports[m])
    ensures forall i :: 0 <= i < |v.imports[m]| ==> Chased(tree, v.imports[m][i])
    ensures forall i :: 0 <= i < |Publics(v.imports[m])| ==> Chased(tree, Publics(v.imports[m])[i])
  {
    hide Local, Searched, Lasting, Counted, Answered, Spread, DeclaredPub, Rooted, Publics;
    assert SoundList(tree, m, v.imports[m]);
    PublicsAmong(v.imports[m]);
    forall i | 0 <= i < |Publics(v.imports[m])| ensures Chased(tree, Publics(v.imports[m])[i]) {
      assert Publics(v.imports[m])[i] in Publics(v.imports[m]);
    }
  }

  /** The lookup a use has to make: none when it is refused or the reached module declares the name. */
  ghost predicate Consults(tree: Tree, m: nat, item: Item)
    requires Rooted(tree) && m < |tree.nodes| && item.kind.UseItem?
  {
    var reached := Reach(tree, m, item.kind.path);
    reached.At? && !LocalAnywhere(tree, reached.at, Member(item.kind))
  }

  ghost predicate MadeAs(tree: Tree, v: View, m: nat, i: nat, exports: seq<Import>, made: Option<Lookup>)
    requires Rooted(tree) && IsUse(tree, m, i)
  {
    var item := tree.nodes[m].items[i];
    if Consults(tree, m, item) then
      var at := Reach(tree, m, item.kind.path).at;
      && made == Some(Lookup(m, i, at, item.isPub, exports)) && at < |v.imports| && exports == Publics(v.imports[at])
      && (at != m && !Reported(v.log) ==> at in v.trace.finished)
    else made.None? && exports == []
  }

  lemma UseWritten(tree: Tree, v: View, m: nat, i: nat, exports: seq<Import>, made: Option<Lookup>)
    requires Rooted(tree) && Inv(tree, v) && IsUse(tree, m, i) && MadeAs(tree, v, m, i, exports, made)
    ensures var item := tree.nodes[m].items[i];
      Reach(tree, m, item.kind.path).At? ==> Written(tree, m, item, Reach(tree, m, item.kind.path).at, exports)
  {
    hide Inv, Rooted, LocalAnywhere, Chased, Sound, Publics, Reported;
    var item := tree.nodes[m].items[i];
    var reached := Reach(tree, m, item.kind.path);
    if reached.At? && Consults(tree, m, item) {
      TableFacts(tree, v, reached.at);
      PublicsAmong(v.imports[reached.at]);
      forall k | 0 <= k < |exports| ensures exports[k].isPub && Sound(tree, reached.at, exports[k]) {
        assert exports[k] in v.imports[reached.at];
      }
    }
  }

  lemma UseSettled(tree: Tree, v: View, m: nat, i: nat, exports: seq<Import>, made: Option<Lookup>)
    requires Rooted(tree) && Inv(tree, v) && m in v.trace.path && IsUse(tree, m, i)
    requires tree.nodes[m].items[i].isPub <==> m !in v.trace.sealed
    requires forall k :: 0 <= k < |exports| ==> Chased(tree, exports[k])
    requires MadeAs(tree, v, m, i, exports, made)
    ensures m < |v.imports|
    ensures var t := Outcome(tree, m, tree.nodes[m].items[i], v.imports[m], exports);
      Inv(tree, Settle(v, m, i, t.list, t.events, made))
  {
    hide Inv, Rooted, Reach, LocalAnywhere, Local, Outcome, Member, Chased, Found, SoundList, Publics, Reported;
    TableFacts(tree, v, m);
    var item := tree.nodes[m].items[i];
    UseWritten(tree, v, m, i, exports, made);
    OutcomeMeans(tree, m, item, v.imports[m], exports);
    var t := Outcome(tree, m, item, v.imports[m], exports);
    var w := Settle(v, m, i, t.list, t.events, made);
    assert w.log == [] ==> Granted(tree, w.imports, w.trace.lookups, m, i) by {
      if w.log == [] && Consults(tree, m, item) {
        assert made.value == w.trace.lookups[|v.trace.lookups|];
      }
    }
    Settles(tree, v, m, i, Sweep(v.imports[m], [], false, false), t, t.events, made);
  }

  lemma SettleElsewhere(u: View, v: View, m: nat, i: nat, list: seq<Import>, events: seq<Event>, made: Option<Lookup>)
    requires Elsewhere(u, v, -1) && m < |u.imports| && m < |u.phase| && u.phase[m] != Fresh
    ensures m < |v.imports| && v.imports[m] == u.imports[m]
    ensures var w := Settle(v, m, i, list, events, made);
      && Elsewhere(u, w, m) && (m in w.trace.sealed <==> m in u.trace.sealed)
      && (forall j: nat :: w.trace.settled[(m, j)] == u.trace.settled[(m, j)] + if j == i then 1 else 0)
  {
    assert Untouched(u, v, m);
  }

  lemma DemandIsEdge(tree: Tree, m: nat, i: nat)
    requires Rooted(tree) && IsUse(tree, m, i) && Consults(tree, m, tree.nodes[m].items[i])
    ensures var at := Reach(tree, m, tree.nodes[m].items[i].kind.path).at;
      at != m ==> Demand(tree, m, tree.nodes[m].items[i]) == Some(at) && (m, at) in Demands(tree)
  {
    hide Reach, LocalAnywhere, Rooted, Member;
  }

  lemma DemandConsults(tree: Tree, m: nat, i: nat)
    requires Rooted(tree) && IsUse(tree, m, i)
    ensures var item := tree.nodes[m].items[i];
      Demand(tree, m, item).Some? ==>
        Consults(tree, m, item) && Demand(tree, m, item).value == Reach(tree, m, item.kind.path).at
  {
    hide Reach, LocalAnywhere, Rooted, Member;
  }

  lemma OnPath(tree: Tree, v: View, m: nat)
    requires Rooted(tree) && Inv(tree, v) && m in v.trace.path
    ensures m < |v.phase| == |v.imports| == |tree.nodes| && v.phase[m] != Fresh
  {
    hide Tables, Spread, Lasting, Counted, Answered, Demands, Rooted;
  }

  lemma Held(u: View, v: View, m: nat)
    requires Elsewhere(u, v, -1) && m < |u.phase| == |u.imports| && u.phase[m] != Fresh
    ensures v.trace.path == u.trace.path && (m in v.trace.sealed <==> m in u.trace.sealed)
    ensures m < |v.imports| && v.imports[m] == u.imports[m] && u.log <= v.log
    ensures forall i: nat :: v.trace.settled[(m, i)] == u.trace.settled[(m, i)]
  {
    assert Untouched(u, v, m);
  }

  lemma Visited(tree: Tree, v: View, m: nat)
    requires Rooted(tree) && Inv(tree, v) && m < |tree.nodes|
    ensures |v.phase| == |v.imports| == |tree.nodes|
    ensures v.phase[m] == Done && !Reported(v.log) ==> m in v.trace.finished
    ensures v.phase[m] == Fresh ==>
      m !in v.trace.path && m !in v.trace.sealed && forall i: nat :: v.trace.settled[(m, i)] == 0
  {
    hide Tables, Spread, Answered, Demands, Rooted, Standing, Reported;
  }

  lemma Lengths(tree: Tree, v: View)
    requires Rooted(tree) && Inv(tree, v)
    ensures |v.imports| == |v.phase| == |tree.nodes|
  {
  }

  lemma PublicsSound(tree: Tree, v: View, at: nat)
    requires Rooted(tree) && Inv(tree, v) && at < |tree.nodes|
    ensures at < |v.imports|
    ensures forall i :: 0 <= i < |Publics(v.imports[at])| ==>
      Publics(v.imports[at])[i].isPub && Sound(tree, at, Publics(v.imports[at])[i])
  {
    hide Inv, Rooted, Chased, Sound, Publics;
    TableFacts(tree, v, at);
    PublicsAmong(v.imports[at]);
    forall i | 0 <= i < |Publics(v.imports[at])|
      ensures Publics(v.imports[at])[i].isPub && Sound(tree, at, Publics(v.imports[at])[i])
    {
      assert Publics(v.imports[at])[i] in v.imports[at];
    }
  }

  // ----- a facade's surface ---------------------------------------------------------------------------

  ghost predicate OwnPublic(tree: Tree, f: nat, key: Key) {
    && f < |tree.nodes|
    && exists i :: 0 <= i < |tree.nodes[f].items| && tree.nodes[f].items[i].isPub
                && InNamespace(tree.nodes[f].items[i].kind, key.ns) && tree.nodes[f].items[i].name == key.name
  }

  /** What a module's public surface holds under a name: an item of its own, or what it re-exports. */
  ghost function Surface(tree: Tree, imports: seq<seq<Import>>, f: nat, key: Key): Option<Import> {
    if OwnPublic(tree, f, key) then Some(Injection(key, f, key.name))
    else if f < |imports| && FirstPublic(imports[f], key).Some? then
      var e := FirstPublic(imports[f], key).value;
      Some(Injection(key, e.target, e.member))
    else None
  }

  /** A public import is what its module's surface holds under its name. */
  lemma SurfaceOfPublic(tree: Tree, imports: seq<seq<Import>>, f: nat, imp: Import)
    requires Rooted(tree) && f < |imports| && SoundList(tree, f, imports[f]) && imp in imports[f] && imp.isPub
    requires f < |tree.nodes|
    ensures Surface(tree, imports, f, KeyOf(imp)) == Some(Injection(KeyOf(imp), imp.target, imp.member))
  {
    hide DeclaredPub, Leaks, Rooted;
    var list, key := imports[f], KeyOf(imp);
    assert Sound(tree, f, imp);
    assert !OwnPublic(tree, f, key);
    hide Local, Chased;
    var e := FirstPublic(list, key).value;
    var i :| 0 <= i < |list| && list[i] == imp;
    var j :| 0 <= j < |list| && list[j] == e;
    assert Sound(tree, f, list[i]) && Sound(tree, f, list[j]);
    assert i == j;
  }

  lemma SurfaceAlike(tree: Tree, a: seq<seq<Import>>, b: seq<seq<Import>>, f: nat, key: Key)
    requires f < |a| && f < |b| && Publics(a[f]) == Publics(b[f])
    ensures Surface(tree, a, f, key) == Surface(tree, b, f, key)
  {
    hide Publics, FirstPublic, OwnPublic;
    OnlyPublicsAnswer(a[f], key);
    OnlyPublicsAnswer(b[f], key);
  }
}
