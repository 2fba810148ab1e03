/**
 The suite's dependency check (tools/embed_std.py, `visit` over `pkg_deps`): an embedded cycle
 would hang staging, so it is refused, and the refusal names the walk that closes it.
 */
module Suite {
  import opened Graphs

  type Deps = map<string, seq<string>>

  datatype Verdict =
    | Acyclic
    | UnknownMember(member: string, dep: string)
    | Cycle(walk: seq<string>)

  ghost function Arrows(deps: Deps): Edges<string> {
    iset n, d | n in deps && d in deps[n] :: (n, d)
  }

  ghost predicate Stray(deps: Deps, n: string, d: string) { n in deps && d in deps[n] && d !in deps }

  /** A walk along real dependencies that ends on a package it has already passed. */
  ghost predicate Witness(deps: Deps, w: seq<string>) {
    |w| >= 2 && Walk(Arrows(deps), w) && w[|w| - 1] in w[..|w| - 1]
  }

  lemma WitnessCloses(deps: Deps, w: seq<string>)
    requires Witness(deps, w)
    ensures Cyclic(Arrows(deps))
  {
    var last := w[|w| - 1];
    var k :| 0 <= k < |w| - 1 && w[k] == last;
    ReturnCloses(Arrows(deps), w[..|w| - 1], k);
  }

  /** What holds between calls: the stack is a walk, and what is visited is settled. */
  ghost predicate Between(
    deps: Deps, visiting: set<string>, visited: set<string>, order: seq<string>, stack: seq<string>
  ) {
    && (forall n :: n in visiting <==> n in stack)
    && (forall n :: n in visited <==> n in order)
    && visited !! visiting && visited <= deps.Keys && visiting <= deps.Keys
    && Walk(Arrows(deps), stack)
    && Settled(Arrows(deps), order)
  }

  ghost function Room(deps: Deps, visiting: set<string>): nat { |deps.Keys - visiting| }

  lemma Marked(deps: Deps, visiting: set<string>, node: string)
    requires node in deps && node !in visiting
    ensures Room(deps, visiting + {node}) < Room(deps, visiting) && (visiting + {node}) - {node} == visiting
  {
    assert deps.Keys - visiting == (deps.Keys - (visiting + {node})) + {node};
  }

  lemma Entered(
    deps: Deps, visiting: set<string>, visited: set<string>, order: seq<string>, stack: seq<string>, node: string
  )
    requires Between(deps, visiting, visited, order, stack) && node in deps && node !in visited
    requires stack == [] || (stack[|stack| - 1], node) in Arrows(deps)
    ensures node in visiting ==> Witness(deps, stack + [node])
    ensures node !in visiting ==> Between(deps, visiting + {node}, visited, order, stack + [node])
    ensures node !in visiting ==> node !in stack && Room(deps, visiting + {node}) < Room(deps, visiting)
    ensures node !in visiting ==> (visiting + {node}) - {node} == visiting
  {
    hide Walk, Settled, Arrows, Room;
    WalkOn(Arrows(deps), stack, node);
    assert (stack + [node])[..|stack|] == stack;
    if node !in visiting {
      Marked(deps, visiting, node);
      forall n ensures n in visiting + {node} <==> n in stack + [node] {}
      assert (visited !! visiting + {node}) && visiting + {node} <= deps.Keys;
    }
  }

  lemma Left(
    deps: Deps, visiting: set<string>, visited: set<string>, order: seq<string>, stack: seq<string>, node: string
  )
    requires Between(deps, visiting, visited, order, stack + [node]) && node in deps && node !in stack
    requires forall d :: d in deps[node] ==> d in visited
    ensures Between(deps, visiting - {node}, visited + {node}, order + [node], stack)
  {
    hide Settled, Walk;
    var here := stack + [node];
    assert node in here;
    forall n ensures n in stack <==> n in here && n != node {
      if n in stack { assert n in here; }
    }
    assert here[..|stack|] == stack;
    WalkBack(Arrows(deps), here, |stack|);
    SettledOnce(Arrows(deps), order, node) by { assert forall d :: (node, d) in Arrows(deps) ==> d in deps[node]; }
  }

  class SuiteCheck {
    const deps: Deps
    var visiting: set<string>
    var visited: set<string>
    ghost var order: seq<string>

    constructor (deps: Deps)
      ensures this.deps == deps && visiting == {} && visited == {} && order == []
    {
      this.deps := deps;
      visiting, visited, order := {}, {}, [];
    }

    ghost predicate Valid(stack: seq<string>) reads this { Between(deps, visiting, visited, order, stack) }

    /**
     `visit`: answers the walk it refuses, or nothing after settling the node. It ends on every
     graph: a call that goes deeper marks one more package.
     */
    method Visit(node: string, stack: seq<string>) returns (refused: seq<string>)
      requires Valid(stack) && node in deps && forall n, d :: !Stray(deps, n, d)
      requires stack == [] || (stack[|stack| - 1], node) in Arrows(deps)
      modifies this
      ensures refused == [] ==> Valid(stack) && visiting == old(visiting) && old(visited) <= visited && node in visited
      ensures refused != [] ==> Witness(deps, refused)
      decreases Room(deps, visiting), 1
    {
      hide Between, Arrows, Stray, Witness, Room;
      if node in visited { return []; }
      Entered(deps, visiting, visited, order, stack, node);
      if node in visiting { return stack + [node]; }
      visiting := visiting + {node};
      refused := VisitAll(node, stack + [node]);
      if refused != [] { return; }
      Left(deps, visiting, visited, order, stack, node);
      visiting := visiting - {node};
      visited := visited + {node};
      order := order + [node];
    }

    method VisitAll(node: string, here: seq<string>) returns (refused: seq<string>)
      requires Valid(here) && node in deps && here != [] && here[|here| - 1] == node
      requires forall n, d :: !Stray(deps, n, d)
      modifies this
      ensures refused == [] ==> Valid(here) && visiting == old(visiting) && old(visited) <= visited
      ensures refused == [] ==> forall d :: d in deps[node] ==> d in visited
      ensures refused != [] ==> Witness(deps, refused)
      decreases Room(deps, visiting), 2
    {
      var i := 0;
      while i < |deps[node]|
        invariant 0 <= i <= |deps[node]|
        invariant Valid(here) && visiting == old(visiting) && old(visited) <= visited
        invariant forall k :: 0 <= k < i ==> deps[node][k] in visited
      {
        assert !Stray(deps, node, deps[node][i]);
        refused := Visit(deps[node][i], here);
        if refused != [] { return; }
        i := i + 1;
      }
      refused := [];
    }
  }

  /**
   The check over the whole suite passes exactly when every dependency names a member and no
   chain of dependencies returns to its start.
   */
  method CheckSuite(members: seq<string>, deps: Deps) returns (v: Verdict)
    requires forall n :: n in deps <==> n in members
    ensures v.Acyclic? <==> (forall n, d :: !Stray(deps, n, d)) && !Cyclic(Arrows(deps))
    ensures v.UnknownMember? ==> Stray(deps, v.member, v.dep)
    ensures v.Cycle? ==> Witness(deps, v.walk) && forall n, d :: !Stray(deps, n, d)
  {
    var i := 0;
    while i < |members|
      invariant 0 <= i <= |members|
      invariant forall k, d :: 0 <= k < i ==> !Stray(deps, members[k], d)
    {
      var of := deps[members[i]];
      var j := 0;
      while j < |of|
        invariant 0 <= j <= |of|
        invariant forall k :: 0 <= k < j ==> !Stray(deps, members[i], of[k])
      {
        if of[j] !in members {
          assert Stray(deps, members[i], of[j]);
          return UnknownMember(members[i], of[j]);
        }
        j := j + 1;
      }
      i := i + 1;
    }
    var suite := new SuiteCheck(deps);
    i := 0;
    while i < |members|
      invariant 0 <= i <= |members|
      invariant suite.deps == deps && suite.Valid([])
      invariant forall k :: 0 <= k < i ==> members[k] in suite.visited
    {
      var refused := suite.Visit(members[i], []);
      if refused != [] {
        WitnessCloses(deps, refused);
        return Cycle(refused);
      }
      i := i + 1;
    }
    SettledAcyclic(Arrows(deps), suite.order);
    return Acyclic;
  }
}
