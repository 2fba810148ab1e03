/**
 Building the module tree (src/analyzer/resolve.cc, attach_module and
 attach_dependency_module), and the index that stands in for a walk over siblings.
 */
module Forests {
  import opened Lang
  import opened Modules

  function NodeTree(nodes: seq<Node>): Tree { Tree("", nodes, [], []) }

  /** The first child whose path ends in the name, found by walking the siblings. */
  function SiblingWalk(nodes: seq<Node>, children: seq<nat>, name: string): (r: Option<nat>)
    requires forall i :: 0 <= i < |children| ==> children[i] < |nodes|
    ensures r.Some? ==> r.value in children
  {
    if children == [] then None
    else if LastSegment(nodes[children[0]].path) == name then Some(children[0])
    else SiblingWalk(nodes, children[1..], name)
  }

  /** The index answers every name as the walk would, and holds no name with a colon. */
  ghost predicate Indexed(nodes: seq<Node>) {
    && Rooted(NodeTree(nodes))
    && forall m :: 0 <= m < |nodes| ==> NodeIndexed(nodes, nodes[m])
  }

  ghost predicate NodeIndexed(nodes: seq<Node>, node: Node) {
    && (forall i :: 0 <= i < |node.children| ==> node.children[i] < |nodes|)
    && (forall name ::
          (if name in node.byName then Some(node.byName[name]) else None) == SiblingWalk(nodes, node.children, name))
    && (forall name :: name in node.byName ==> ':' !in name)
  }

  /** Later attachments add children; none is taken away or renamed. */
  ghost predicate Grows(a: seq<Node>, b: seq<Node>) {
    && |a| <= |b|
    && forall m :: 0 <= m < |a| ==>
         && a[m].path == b[m].path && a[m].parent == b[m].parent && a[m].items == b[m].items
         && forall name :: name in a[m].byName ==> name in b[m].byName && b[m].byName[name] == a[m].byName[name]
  }

  lemma GrowsTwice(a: seq<Node>, b: seq<Node>, c: seq<Node>)
    requires Grows(a, b) && Grows(b, c)
    ensures Grows(a, c)
  {
  }

  /** A module reached by a path is reached by it ever after. */
  lemma {:induction false} ReachedStays(a: seq<Node>, b: seq<Node>, at: nat, segments: seq<string>)
    requires Rooted(NodeTree(a)) && Rooted(NodeTree(b)) && Grows(a, b) && at < |a|
    requires Descend(NodeTree(a), at, segments).At?
    ensures Descend(NodeTree(b), at, segments) == Descend(NodeTree(a), at, segments)
    decreases |segments|
  {
    if segments != [] { ReachedStays(a, b, Child(NodeTree(a), at, segments[0]).value, segments[1..]); }
  }

  lemma {:induction false} LastSegmentPlain(path: string)
    ensures ':' !in LastSegment(path)
  {
    if path != [] && path[|path| - 1] != ':' { LastSegmentPlain(path[..|path| - 1]); }
  }

  lemma {:induction false} LastSegmentOf(prefix: string, segment: string)
    requires ':' !in segment && (prefix == "" || prefix[|prefix| - 1] == ':')
    ensures LastSegment(prefix + segment) == segment
    decreases |segment|
  {
    var path := prefix + segment;
    if segment == [] {
      assert path == prefix;
    } else {
      var n := |segment| - 1;
      LastSegmentOf(prefix, segment[..n]);
      assert path[..|path| - 1] == prefix + segment[..n] && path[|path| - 1] == segment[n];
      assert segment == segment[..n] + [segment[n]];
    }
  }

  lemma {:induction false} WalkOfMore(nodes: seq<Node>, more: seq<Node>, children: seq<nat>, child: nat, name: string)
    requires (forall i :: 0 <= i < |children| ==> children[i] < |nodes|) && |nodes| <= |more| && child < |more|
    requires forall i :: 0 <= i < |nodes| ==> more[i].path == nodes[i].path
    ensures SiblingWalk(more, children, name) == SiblingWalk(nodes, children, name)
    ensures SiblingWalk(more, children + [child], name)
         == if SiblingWalk(nodes, children, name).Some? then SiblingWalk(nodes, children, name)
            else if LastSegment(more[child].path) == name then Some(child) else None
    decreases |children|
  {
    if children == [] {
      assert children + [child] == [child];
    } else {
      assert (children + [child])[1..] == children[1..] + [child];
      WalkOfMore(nodes, more, children[1..], child, name);
    }
  }

  function Emplaced(byName: map<string, nat>, name: string, child: nat): map<string, nat> {
    if name in byName then byName else byName[name := child]
  }

  /** The table once a new module hangs under `parent`. */
  function Hung(nodes: seq<Node>, parent: nat, node: Node): seq<Node>
    requires parent < |nodes|
  {
    var old' := nodes[parent];
    var byName := Emplaced(old'.byName, LastSegment(node.path), |nodes|);
    nodes[parent := old'.(children := old'.children + [|nodes|], byName := byName)] + [node]
  }

  function NewNode(path: string, parent: nat, items: seq<Item>, root: Option<nat>): Node {
    Node(path, Some(parent), items, [], map[], root, [])
  }

  lemma HungIndexed(nodes: seq<Node>, parent: nat, node: Node)
    requires Indexed(nodes) && parent < |nodes| && node.parent == Some(parent) && node.children == []
    requires node.byName == map[]
    ensures Indexed(Hung(nodes, parent, node)) && Grows(nodes, Hung(nodes, parent, node))
  {
    hide LastSegment, NodeIndexed, SiblingWalk;
    var more := Hung(nodes, parent, node);
    forall m | 0 <= m < |nodes| ensures NodeIndexed(more, more[m]) {
      ReIndexed(nodes, parent, node, m);
    }
    assert NodeIndexed(more, node) by { BareIndexed(more, node); }
    assert forall name :: name in nodes[parent].byName ==>
      name in more[parent].byName && more[parent].byName[name] == nodes[parent].byName[name];
  }

  lemma BareIndexed(nodes: seq<Node>, node: Node)
    requires node.children == [] && node.byName == map[]
    ensures NodeIndexed(nodes, node)
  {
  }

  lemma ReIndexed(nodes: seq<Node>, parent: nat, node: Node, m: nat)
    requires parent < |nodes| && m < |nodes| && NodeIndexed(nodes, nodes[m])
    ensures NodeIndexed(Hung(nodes, parent, node), Hung(nodes, parent, node)[m])
  {
    hide LastSegment, SiblingWalk;
    var more := Hung(nodes, parent, node);
    LastSegmentPlain(node.path);
    forall name
      ensures SiblingWalk(more, more[m].children, name) ==
        if name in more[m].byName then Some(more[m].byName[name]) else None
    {
      WalkOfMore(nodes, more, nodes[m].children, |nodes|, name);
    }
  }

  /** The segments one after another, two colons before each. */
  function ColonsBefore(segments: seq<string>): string {
    if segments == [] then "" else "::" + segments[0] + ColonsBefore(segments[1..])
  }

  /** Two colons between segments, and none before the first that is not empty. */
  function ColonsBetween(segments: seq<string>): string {
    if segments == [] then ""
    else if segments[0] == "" then ColonsBetween(segments[1..])
    else segments[0] + ColonsBefore(segments[1..])
  }

  /** A module's path: under a package it begins with the package's own, and elsewhere with its first segment. */
  function PathBelow(package: bool, rootPath: string, segments: seq<string>): string {
    if package then rootPath + ColonsBefore(segments) else ColonsBetween(segments)
  }

  lemma {:induction false} ColonsMore(segments: seq<string>, last: string)
    ensures ColonsBefore(segments + [last]) == ColonsBefore(segments) + "::" + last
    ensures ColonsBetween(segments + [last]) ==
      if ColonsBetween(segments) == "" then last else ColonsBetween(segments) + "::" + last
    decreases |segments|
  {
    var all := segments + [last];
    if segments == [] {
      assert all[1..] == [];
    } else {
      assert all[1..] == segments[1..] + [last];
      ColonsMore(segments[1..], last);
    }
  }

  lemma PathMore(package: bool, rootPath: string, segments: seq<string>, i: nat)
    requires i < |segments|
    ensures var prefix := PathBelow(package, rootPath, segments[..i]);
      PathBelow(package, rootPath, segments[..i + 1]) ==
        if !package && prefix == "" then segments[i] else prefix + "::" + segments[i]
  {
    ColonsMore(segments[..i], segments[i]);
    assert segments[..i + 1] == segments[..i] + [segments[i]];
    var before := ColonsBefore(segments[..i]);
    assert rootPath + (before + "::" + segments[i]) == rootPath + before + "::" + segments[i];
  }

  /** The modules from here on belong to the package; those that only lead to the last hold no items. */
  ghost predicate Fileless(nodes: seq<Node>, from: nat, package: Option<nat>, open: bool) {
    forall k :: from <= k < |nodes| ==>
      nodes[k].root == package && (k + 1 < |nodes| || open ==> nodes[k].items == [])
  }

  lemma NothingHung(nodes: seq<Node>, package: Option<nat>)
    ensures forall open :: Fileless(nodes, |nodes|, package, open)
  {
  }

  lemma FilelessMore(nodes: seq<Node>, from: nat, package: Option<nat>, parent: nat, node: Node, leaf: bool)
    requires Fileless(nodes, from, package, true) && parent < |nodes|
    requires node.root == package && (!leaf ==> node.items == [])
    ensures Fileless(Hung(nodes, parent, node), from, package, !leaf)
  {
  }

  lemma NoPath(package: bool, rootPath: string)
    ensures PathBelow(package, rootPath, []) == if package then rootPath else ""
  {
    assert rootPath + "" == rootPath;
  }

  class Forest {
    var nodes: seq<Node>
    var log: seq<string>

    ghost predicate Valid() reads this { Indexed(nodes) }

    constructor (items: seq<Item>)
      ensures Valid() && |nodes| == 1 && nodes[0].items == items && nodes[0].parent.None? && log == []
    {
      nodes := [Node("", None, items, [], map[], None, [])];
      log := [];
    }

    /**
     Attaches a file under a root, with fileless modules for the segments between. A path that
     already leads somewhere is refused and nothing changes; otherwise the segments lead to the
     file's module, exactly when none of them holds a colon.
     */
    method Attach(
      root: nat, segments: seq<string>, name: string, items: seq<Item>, package: Option<nat>
    ) returns (at: Option<nat>)
      requires Valid() && root < |nodes| && segments != []
      modifies this
      ensures Valid() && Grows(old(nodes), nodes)
      ensures at.None? <==> Descend(NodeTree(old(nodes)), root, segments).At?
      ensures at.None? ==> nodes == old(nodes) && log == old(log) + [name]
      ensures at.Some? ==> log == old(log) && at.value == |nodes| - 1 >= |old(nodes)| && nodes[at.value].items == items
      ensures at.Some? ==> (Descend(NodeTree(nodes), root, segments) == At(at.value) <==> ColonFree(segments))
      ensures at.Some? ==> nodes[at.value].path == PathBelow(package.Some?, old(nodes)[root].path, segments)
      ensures Fileless(nodes, |old(nodes)|, package, false)
    {
      hide Indexed, Descend, Rooted, Hung, ColonFree, Grows, PathBelow, Fileless, Underway;
      ghost var start := nodes;
      var parent: nat, prefix, i := root, if package.None? then "" else nodes[root].path, 0;
      SetOut(start, root, segments, prefix, package, items);
      while i < |segments|
        invariant 0 <= i <= |segments| && parent < |nodes| && log == old(log)
        invariant Underway(start, nodes, root, parent, segments, i, prefix, package, items)
      {
        var leaf := i + 1 == |segments|;
        var path := if package.None? && prefix == "" then segments[i] else prefix + "::" + segments[i];
        var child := Child(NodeTree(nodes), parent, segments[i]);
        if child.None? {
          var node := NewNode(path, parent, if leaf then items else [], package);
          HangsOn(start, nodes, root, parent, segments, i, prefix, package, items);
          child := Some(|nodes|);
          nodes := Hung(nodes, parent, node);
        } else {
          WalksOn(start, nodes, root, parent, segments, i, prefix, package, items);
          if leaf {
            Begun(start, root);
            NothingHung(start, package);
            log := log + [name];
            return None;
          }
        }
        parent, prefix, i := child.value, path, i + 1;
      }
      Arrives(start, nodes, root, parent, segments, prefix, package, items);
      at := Some(parent);
    }
  }

  /** Part of the way: the first `i` segments are behind, and either nothing was hung yet or the last module was. */
  ghost predicate Underway(
    start: seq<Node>, nodes: seq<Node>, root: nat, parent: nat, segments: seq<string>, i: nat, prefix: string,
    package: Option<nat>, items: seq<Item>
  ) {
    && i <= |segments| && root < |start| <= |nodes| && parent < |nodes|
    && Indexed(nodes) && Indexed(start) && Grows(start, nodes)
    && Rooted(NodeTree(nodes)) && Rooted(NodeTree(start))
    && prefix == PathBelow(package.Some?, start[root].path, segments[..i])
    && Fileless(nodes, |start|, package, i < |segments|)
    && (ColonFree(segments[..i]) ==> Descend(NodeTree(nodes), root, segments[..i]) == At(parent))
    && (nodes == start ==>
          i < |segments| && Descend(NodeTree(start), root, segments) == Descend(NodeTree(start), parent, segments[i..]))
    && (nodes != start ==>
          && Descend(NodeTree(start), root, segments).Refused? && parent == |nodes| - 1 >= |start|
          && nodes[parent].byName == map[] && nodes[parent].path == prefix
          && (i == |segments| ==> nodes[parent].items == items))
  }

  lemma SetOut(
    start: seq<Node>, root: nat, segments: seq<string>, prefix: string, package: Option<nat>, items: seq<Item>
  )
    requires Indexed(start) && root < |start| && segments != []
    requires prefix == if package.None? then "" else start[root].path
    ensures Underway(start, start, root, root, segments, 0, prefix, package, items)
  {
    NoPath(package.Some?, start[root].path);
    NothingHung(start, package);
    Begun(start, root);
    assert segments[..0] == [] && segments[0..] == segments;
    hide Indexed, PathBelow, Fileless, Grows, Descend, Rooted;
  }

  /** The segment has a module already, so nothing was hung yet. */
  lemma WalksOn(
    start: seq<Node>, nodes: seq<Node>, root: nat, parent: nat, segments: seq<string>, i: nat, prefix: string,
    package: Option<nat>, items: seq<Item>
  )
    requires Underway(start, nodes, root, parent, segments, i, prefix, package, items) && i < |segments|
    requires Child(NodeTree(nodes), parent, segments[i]).Some?
    ensures nodes == start && Child(NodeTree(nodes), parent, segments[i]).value < |nodes|
    ensures i + 1 == |segments| ==> Descend(NodeTree(start), root, segments).At?
    ensures i + 1 < |segments| ==>
      Underway(start, nodes, root, Child(NodeTree(nodes), parent, segments[i]).value, segments, i + 1,
        if package.None? && prefix == "" then segments[i] else prefix + "::" + segments[i], package, items)
  {
    DescendNext(nodes, root, parent, segments, i);
    PathMore(package.Some?, start[root].path, segments, i);
    hide Indexed, PathBelow, Fileless, Grows, Descend, Rooted, ColonFree;
  }

  /** The segment has none: a module is hung, and nothing was reached by the whole path before. */
  lemma HangsOn(
    start: seq<Node>, nodes: seq<Node>, root: nat, parent: nat, segments: seq<string>, i: nat, prefix: string,
    package: Option<nat>, items: seq<Item>
  )
    requires Underway(start, nodes, root, parent, segments, i, prefix, package, items) && i < |segments|
    requires Child(NodeTree(nodes), parent, segments[i]).None?
    ensures var leaf := i + 1 == |segments|;
            var path := if package.None? && prefix == "" then segments[i] else prefix + "::" + segments[i];
            var more := Hung(nodes, parent, NewNode(path, parent, if leaf then items else [], package));
      |more| == |nodes| + 1 && Underway(start, more, root, |nodes|, segments, i + 1, path, package, items)
  {
    var leaf := i + 1 == |segments|;
    var path := if package.None? && prefix == "" then segments[i] else prefix + "::" + segments[i];
    var node := NewNode(path, parent, if leaf then items else [], package);
    hide Indexed, PathBelow, Fileless, Grows, Descend, Rooted, ColonFree, Hung, LastSegment;
    DescendNext(nodes, root, parent, segments, i);
    PathMore(package.Some?, start[root].path, segments, i);
    HungIndexed(nodes, parent, node);
    HungReached(nodes, root, parent, segments, i, node, prefix);
    GrowsTwice(start, nodes, Hung(nodes, parent, node));
    HungLast(nodes, parent, node);
    FilelessMore(nodes, |start|, package, parent, node, leaf);
    InsideForest(Hung(nodes, parent, node));
  }

  lemma InsideForest(nodes: seq<Node>)
    requires Indexed(nodes)
    ensures Rooted(NodeTree(nodes))
  {
  }

  lemma Arrives(
    start: seq<Node>, nodes: seq<Node>, root: nat, parent: nat, segments: seq<string>, prefix: string,
    package: Option<nat>, items: seq<Item>
  )
    requires Underway(start, nodes, root, parent, segments, |segments|, prefix, package, items)
    ensures Indexed(nodes) && Rooted(NodeTree(nodes)) && Rooted(NodeTree(start)) && Grows(start, nodes)
    ensures Descend(NodeTree(start), root, segments).Refused?
    ensures parent == |nodes| - 1 >= |start| && nodes[parent].items == items
    ensures Descend(NodeTree(nodes), root, segments) == At(parent) <==> ColonFree(segments)
    ensures nodes[parent].path == PathBelow(package.Some?, start[root].path, segments)
    ensures Fileless(nodes, |start|, package, false)
  {
    assert segments[..|segments|] == segments;
    if !ColonFree(segments) { ColonRefused(nodes, root, segments); }
    hide Indexed, PathBelow, Fileless, Grows, Descend, Rooted, ColonFree;
  }

  predicate ColonFree(segments: seq<string>) { forall i :: 0 <= i < |segments| ==> ':' !in segments[i] }

  lemma Begun(nodes: seq<Node>, root: nat)
    requires Indexed(nodes) && root < |nodes|
    ensures Rooted(NodeTree(nodes)) && Grows(nodes, nodes) && ColonFree([])
    ensures Descend(NodeTree(nodes), root, []) == At(root)
  {
  }

  lemma {:induction false} ColonRefused(nodes: seq<Node>, at: nat, segments: seq<string>)
    requires Indexed(nodes) && at < |nodes| && !ColonFree(segments)
    ensures Descend(NodeTree(nodes), at, segments).Refused?
    decreases |segments|
  {
    assert NodeIndexed(nodes, nodes[at]);
    var child := Child(NodeTree(nodes), at, segments[0]);
    if child.Some? {
      assert ColonFree([segments[0]]) && segments == [segments[0]] + segments[1..];
      ColonRefused(nodes, child.value, segments[1..]);
    }
  }

  /** One more segment is one more step down. */
  lemma {:induction false} DescendMore(tree: Tree, at: nat, segments: seq<string>, last: string)
    requires Rooted(tree) && at < |tree.nodes|
    ensures var front := Descend(tree, at, segments);
      Descend(tree, at, segments + [last]) == if front.Refused? then front else Descend(tree, front.at, [last])
    decreases |segments|
  {
    if segments == [] {
      assert segments + [last] == [last];
    } else {
      assert (segments + [last])[1..] == segments[1..] + [last];
      var child := Child(tree, at, segments[0]);
      if child.Some? { DescendMore(tree, child.value, segments[1..], last); }
    }
  }

  lemma DescendNext(nodes: seq<Node>, root: nat, parent: nat, segments: seq<string>, i: nat)
    requires Indexed(nodes) && root < |nodes| && parent < |nodes| && i < |segments|
    ensures Rooted(NodeTree(nodes))
    ensures var child := Child(NodeTree(nodes), parent, segments[i]);
      && (child.None? ==> Descend(NodeTree(nodes), parent, segments[i..]).Refused?)
      && (child.Some? ==>
            && child.value < |nodes|
            && Descend(NodeTree(nodes), parent, segments[i..]) ==
              Descend(NodeTree(nodes), child.value, segments[i + 1..])
            && (i + 1 == |segments| ==> Descend(NodeTree(nodes), parent, segments[i..]).At?)
            && (Descend(NodeTree(nodes), root, segments[..i]) == At(parent) ==>
              Descend(NodeTree(nodes), root, segments[..i + 1]) == At(child.value)))
    ensures ColonFree(segments[..i + 1]) ==> ColonFree(segments[..i])
  {
    hide NodeIndexed;
    assert segments[i..][1..] == segments[i + 1..];
    assert segments[..i + 1] == segments[..i] + [segments[i]];
    DescendMore(NodeTree(nodes), root, segments[..i], segments[i]);
    if ColonFree(segments[..i + 1]) {
      forall k | 0 <= k < i ensures ':' !in segments[..i][k] { assert segments[..i + 1][k] == segments[..i][k]; }
    }
  }

  lemma HungReached(nodes: seq<Node>, root: nat, parent: nat, segments: seq<string>, i: nat, node: Node, prefix: string)
    requires root < |nodes| && parent < |nodes| && i < |segments|
    requires Indexed(nodes) && Indexed(Hung(nodes, parent, node)) && Grows(nodes, Hung(nodes, parent, node))
    requires Child(NodeTree(nodes), parent, segments[i]).None?
    requires node.path == segments[i] || node.path == prefix + "::" + segments[i]
    requires ColonFree(segments[..i]) ==> Descend(NodeTree(nodes), root, segments[..i]) == At(parent)
    ensures ColonFree(segments[..i + 1]) ==>
      Descend(NodeTree(Hung(nodes, parent, node)), root, segments[..i + 1]) == At(|nodes|)
  {
    hide NodeIndexed, LastSegment;
    if ColonFree(segments[..i + 1]) {
      var more := Hung(nodes, parent, node);
      assert segments[..i + 1][i] == segments[i];
      DescendNext(nodes, root, parent, segments, i);
      ReachedStays(nodes, more, root, segments[..i]);
      assert segments[..i + 1] == segments[..i] + [segments[i]];
      DescendMore(NodeTree(more), root, segments[..i], segments[i]);
      LastSegmentOf("", segments[i]);
      LastSegmentOf(prefix + "::", segments[i]);
      assert "" + segments[i] == segments[i];
      assert Child(NodeTree(more), parent, segments[i]) == Some(|nodes|);
      assert [segments[i]][1..] == [];
    }
  }

  lemma HungLast(nodes: seq<Node>, parent: nat, node: Node)
    requires parent < |nodes|
    ensures var more := Hung(nodes, parent, node); |more| == |nodes| + 1 && more[|nodes|] == node
  {
  }
}
