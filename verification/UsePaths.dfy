/**
 Where the path of a `use` leads, said on the tree: the module its first segment opens, the
 children the segments between walk down to, and the modules a package keeps to itself
 (src/analyzer/resolve.cc, resolve_use and find_child_module).
 */
module UsePaths {
  import opened Lang
  import opened Modules

  // ----- the module a first segment opens -----------------------------------------------------------

  /** A module and its parents, up to one that has none. */
  ghost predicate Parents(tree: Tree, chain: seq<nat>) {
    && chain != [] && (forall i :: 0 <= i < |chain| ==> chain[i] < |tree.nodes|)
    && (forall i :: 0 <= i < |chain| - 1 ==> tree.nodes[chain[i]].parent == Some(chain[i + 1]))
    && tree.nodes[chain[|chain| - 1]].parent == None
  }

  ghost predicate FirstRoot(tree: Tree, name: string, i: nat) {
    && i < |tree.roots| && tree.roots[i].identity == name
    && forall j :: 0 <= j < i ==> tree.roots[j].identity != name
  }

  ghost predicate NoRoot(tree: Tree, name: string) {
    forall i :: 0 <= i < |tree.roots| ==> tree.roots[i].identity != name
  }

  /** The first module with an empty path, or the first of all when every one has a path. */
  ghost predicate PackageModule(tree: Tree, at: nat) {
    || (&& at < |tree.nodes| && tree.nodes[at].path == ""
        && forall i :: 0 <= i < at ==> tree.nodes[i].path != "")
    || (at == 0 && forall i :: 0 <= i < |tree.nodes| ==> tree.nodes[i].path != "")
  }

  /**
   `package` opens the top of the module's own parents, the package's name its unnamed module,
   `self` the module itself; then a package root of that identity, and only then a child.
   */
  ghost predicate Opens(tree: Tree, m: nat, head: string, at: nat, root: Option<nat>)
    requires m < |tree.nodes|
  {
    if head == "package" then
      root == None && exists chain :: Parents(tree, chain) && chain[0] == m && chain[|chain| - 1] == at
    else if head == tree.packageName then root == None && PackageModule(tree, at)
    else if head == "self" then root == None && at == m
    else if !NoRoot(tree, head) then root.Some? && FirstRoot(tree, head, root.value) && at == tree.roots[root.value].at
    else root == None && head in tree.nodes[m].byName && at == tree.nodes[m].byName[head]
  }

  lemma {:induction false} TopIsLast(tree: Tree, m: nat) returns (chain: seq<nat>)
    requires Rooted(tree) && m < |tree.nodes|
    ensures Parents(tree, chain) && chain[0] == m && chain[|chain| - 1] == Top(tree, m)
    decreases m
  {
    hide Rooted;
    if tree.nodes[m].parent.None? {
      chain := [m];
    } else {
      ParentInside(tree, m);
      var up := TopIsLast(tree, tree.nodes[m].parent.value);
      chain := [m] + up;
      assert forall i :: 0 < i < |chain| ==> chain[i] == up[i - 1];
    }
  }

  lemma ParentInside(tree: Tree, m: nat)
    requires Rooted(tree) && m < |tree.nodes| && tree.nodes[m].parent.Some?
    ensures tree.nodes[m].parent.value < m
  {
  }

  lemma {:induction false} FirstUnnamedIs(nodes: seq<Node>)
    ensures var r := FirstUnnamed(nodes);
      && (forall i :: 0 <= i < r ==> nodes[i].path != "")
      && (r == |nodes| || nodes[r].path == "")
    decreases |nodes|
  {
    if nodes != [] && nodes[0].path != "" {
      FirstUnnamedIs(nodes[1..]);
      assert forall i :: 0 < i < |nodes| ==> nodes[i] == nodes[1..][i - 1];
    }
  }

  lemma {:induction false} FindRootIs(roots: seq<PackageRoot>, name: string)
    ensures FindRoot(roots, name).None? <==> forall i :: 0 <= i < |roots| ==> roots[i].identity != name
    ensures FindRoot(roots, name).Some? ==>
      forall i :: 0 <= i < FindRoot(roots, name).value ==> roots[i].identity != name
    decreases |roots|
  {
    if roots != [] && roots[0].identity != name {
      FindRootIs(roots[1..], name);
      assert forall i :: 0 < i < |roots| ==> roots[i] == roots[1..][i - 1];
      assert forall i :: 0 <= i < |roots[1..]| ==> roots[1..][i] == roots[i + 1];
    }
  }

  lemma HeadOpens(tree: Tree, m: nat, head: string)
    requires Rooted(tree) && m < |tree.nodes|
    ensures Head(tree, m, head).Start? ==> Opens(tree, m, head, Head(tree, m, head).at, Head(tree, m, head).root)
    ensures Head(tree, m, head).Nowhere? ==> forall at, root :: !Opens(tree, m, head, at, root)
  {
    if head == "package" {
      var chain := TopIsLast(tree, m);
    } else {
      FirstUnnamedIs(tree.nodes);
      FindRootIs(tree.roots, head);
    }
  }

  // ----- the children its other segments name -------------------------------------------------------

  /** The modules passed on the way down, each the child of the one before it that the segment names. */
  ghost predicate Trail(tree: Tree, segments: seq<string>, trail: seq<nat>) {
    && |trail| == |segments| + 1 && (forall i :: 0 <= i < |trail| ==> trail[i] < |tree.nodes|)
    && forall i :: 0 <= i < |segments| ==>
         && segments[i] in tree.nodes[trail[i]].byName
         && tree.nodes[trail[i]].byName[segments[i]] == trail[i + 1]
  }

  /** The trail as far as it goes, and the first segment that names no child. */
  ghost predicate Blocked(tree: Tree, segments: seq<string>, k: nat, trail: seq<nat>) {
    && k < |segments| && Trail(tree, segments[..k], trail)
    && segments[k] !in tree.nodes[trail[k]].byName
  }

  lemma {:induction false} DescendTrails(tree: Tree, at: nat, segments: seq<string>)
    returns (trail: seq<nat>, k: nat)
    requires Rooted(tree) && at < |tree.nodes|
    ensures trail != [] && trail[0] == at
    ensures match Descend(tree, at, segments)
      case At(end) => Trail(tree, segments, trail) && trail[|trail| - 1] == end
      case Refused(why) => Blocked(tree, segments, k, trail) && why == UnresolvedImport(segments[k])
    decreases |segments|
  {
    hide Rooted;
    trail, k := [at], 0;
    if segments != [] && Child(tree, at, segments[0]).Some? {
      ChildInside(tree, at, segments[0]);
      var below, j := DescendTrails(tree, Child(tree, at, segments[0]).value, segments[1..]);
      trail, k := [at] + below, j + 1;
      assert forall i :: 0 < i < |segments| ==> segments[i] == segments[1..][i - 1];
      assert forall i :: 0 < i < |trail| ==> trail[i] == below[i - 1];
      assert k <= |segments| ==> segments[..k][1..] == segments[1..][..j];
    }
  }

  lemma ChildInside(tree: Tree, at: nat, name: string)
    requires Rooted(tree) && at < |tree.nodes| && Child(tree, at, name).Some?
    ensures Child(tree, at, name).value < |tree.nodes|
  {
  }

  // ----- the modules a package keeps to itself ------------------------------------------------------

  function Slashes(segments: seq<string>): string {
    if segments == [] then "" else "/" + segments[0] + Slashes(segments[1..])
  }

  /** A slash between segments, and none before the first that is not empty. */
  function Slashed(segments: seq<string>): string {
    if segments == [] then ""
    else if segments[0] == "" then Slashed(segments[1..])
    else segments[0] + Slashes(segments[1..])
  }

  lemma {:induction false} SlashesMore(segments: seq<string>, last: string)
    ensures Slashes(segments + [last]) == Slashes(segments) + "/" + last
    decreases |segments|
  {
    var all := segments + [last];
    if segments == [] {
      assert all[1..] == [];
    } else {
      assert all[1..] == segments[1..] + [last];
      SlashesMore(segments[1..], last);
    }
  }

  lemma {:induction false} SlashedMore(segments: seq<string>, last: string)
    ensures Slashed(segments + [last]) ==
      if Slashed(segments) == "" then last else Slashed(segments) + "/" + last
    decreases |segments|
  {
    var all := segments + [last];
    if segments == [] {
      assert all[1..] == [];
    } else {
      assert all[1..] == segments[1..] + [last];
      if segments[0] == "" { SlashedMore(segments[1..], last); } else { SlashesMore(segments[1..], last); }
    }
  }

  lemma {:induction false} JoinedSlashed(segments: seq<string>)
    ensures Joined(segments) == Slashed(segments)
    decreases |segments|
  {
    if segments != [] {
      var n := |segments| - 1;
      JoinedSlashed(segments[..n]);
      SlashedMore(segments[..n], segments[n]);
      assert segments == segments[..n] + [segments[n]];
    }
  }

  /** The end of a module's path that no colon stands in and a colon or nothing stands before. */
  ghost predicate EndsIn(path: string, name: string) {
    && |name| <= |path| && path[|path| - |name|..] == name && ':' !in name
    && (|name| < |path| ==> path[|path| - |name| - 1] == ':')
  }

  lemma {:induction false} LastSegmentEnds(path: string, name: string)
    ensures LastSegment(path) == name <==> EndsIn(path, name)
    decreases |path|
  {
    if path != [] {
      var n := |path| - 1;
      var front := path[..n];
      assert 0 < |name| <= |path| ==> path[|path| - |name|..][|name| - 1] == path[n];
      if path[n] != ':' && name != [] {
        LastSegmentEnds(front, name[..|name| - 1]);
        assert name == name[..|name| - 1] + [name[|name| - 1]];
        if |name| <= |path| {
          assert path[|path| - |name|..] == front[|path| - |name|..] + [path[n]];
        }
      }
    }
  }

  ghost predicate HasModule(tree: Tree, at: nat, name: string) {
    at < |tree.nodes| &&
    exists i :: 0 <= i < |tree.nodes[at].children| && tree.nodes[at].children[i] < |tree.nodes|
             && EndsIn(tree.nodes[tree.nodes[at].children[i]].path, name)
  }

  lemma LocalModule(tree: Tree, at: nat, name: string)
    requires Rooted(tree)
    ensures Local(tree, at, Key(name, ModuleSpace)) <==> HasModule(tree, at, name)
  {
    hide EndsIn, LastSegment;
    if at < |tree.nodes| {
      forall i | 0 <= i < |tree.nodes[at].children|
        ensures LastSegment(tree.nodes[tree.nodes[at].children[i]].path) == name <==>
                EndsIn(tree.nodes[tree.nodes[at].children[i]].path, name)
      {
        LastSegmentEnds(tree.nodes[tree.nodes[at].children[i]].path, name);
      }
    }
  }

  /** The module a `use` imports, or imports from, by its path inside the package. */
  function ModulePath(path: seq<string>, last: bool): string
    requires |path| >= 2
  {
    Slashed(if last then path[1..] else path[1..|path| - 1])
  }

  /** Seen from outside a trimmed package: a module of it that the package does not export. */
  ghost predicate KeptBack(tree: Tree, m: nat, root: Option<nat>, at: nat, path: seq<string>)
    requires m < |tree.nodes| && |path| >= 2
  {
    && root.Some? && root.value < |tree.roots|
    && var name := ModulePath(path, HasModule(tree, at, path[|path| - 1]));
       && name != "" && tree.roots[root.value].trimmed && tree.nodes[m].root != root
       && name !in tree.roots[root.value].exports
  }

  // ----- the whole path -----------------------------------------------------------------------------

  ghost predicate Walked(tree: Tree, m: nat, path: seq<string>, at: nat, root: Option<nat>, r: Reached)
    requires m < |tree.nodes| && |path| >= 2
  {
    var middle := path[1..|path| - 1];
    || (exists trail :: Trail(tree, middle, trail) && trail[0] == at
          && var end := trail[|trail| - 1];
             if KeptBack(tree, m, root, end, path) then
               r == Refused(ExportWithheld(tree.roots[root.value].identity,
                      ModulePath(path, HasModule(tree, end, path[|path| - 1]))))
             else r == At(end))
    || exists k: nat, trail ::
         Blocked(tree, middle, k, trail) && trail[0] == at && r == Refused(UnresolvedImport(middle[k]))
  }

  /** What the path of a `use` reaches, or why it is refused. */
  ghost predicate Arrives(tree: Tree, m: nat, path: seq<string>, r: Reached)
    requires m < |tree.nodes|
  {
    if |path| < 2 then r == Refused(ImportNotQualified)
    else
      || (exists at, root :: Opens(tree, m, path[0], at, root) && Walked(tree, m, path, at, root, r))
      || (&& (forall at, root :: !Opens(tree, m, path[0], at, root))
          && r == Refused(if path[0] == "super" || path[0] == "crate" then HeadNotSupported(path[0])
                          else UnresolvedImport(path[0])))
  }

  lemma ReachArrives(tree: Tree, m: nat, path: seq<string>)
    requires Rooted(tree) && m < |tree.nodes|
    ensures Arrives(tree, m, path, Reach(tree, m, path))
  {
    hide Rooted, Opens, Head, Local, HasModule, Trail;
    if |path| >= 2 {
      HeadOpens(tree, m, path[0]);
      var start := Head(tree, m, path[0]);
      if start.Start? {
        var middle := path[1..|path| - 1];
        var trail, k := DescendTrails(tree, start.at, middle);
        var down := Descend(tree, start.at, middle);
        if down.At? {
          LocalModule(tree, down.at, path[|path| - 1]);
          JoinedSlashed(path[1..]);
          JoinedSlashed(middle);
          hide Joined, Slashed;
          assert trail[|trail| - 1] == down.at;
        }
        assert Walked(tree, m, path, start.at, start.root, Reach(tree, m, path));
      }
    }
  }
}
