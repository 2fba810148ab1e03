/**
 The module tree a resolution works over (src/analyzer/resolve.h and resolve.cc): what each
 module declares, which declarations another module may see, and the module a `use` reaches.
 Nothing here depends on an import table.
 */
module Modules {
  import opened Lang

  datatype Namespace = TypeSpace | ValueSpace | ModuleSpace

  /** A name in one of the three namespaces. */
  datatype Key = Key(name: string, ns: Namespace)

  datatype ItemKind =
    | StructItem | EnumItem | SpecItem | FnItem | IntrinsicItem | StaticItem | ConstItem
    | ExternItem(fns: seq<string>)
    | UseItem(path: seq<string>, renamed: Option<string>)
    | ImplItem

  /** An item with no name of its own (`Use`, `Impl`, `Extern`) carries "unknown". */
  datatype Item = Item(kind: ItemKind, name: string, isPub: bool)

  datatype Node = Node(
    path: string,
    parent: Option<nat>,
    items: seq<Item>,
    children: seq<nat>,
    byName: map<string, nat>,
    root: Option<nat>,
    generics: seq<string>
  )

  datatype PackageRoot = PackageRoot(identity: string, at: nat, trimmed: bool, exports: seq<string>)

  datatype Tree = Tree(packageName: string, nodes: seq<Node>, roots: seq<PackageRoot>, facades: seq<nat>)

  /** Every index names a module, and a module was added after its parent. */
  ghost predicate Rooted(tree: Tree) {
    && (forall m :: 0 <= m < |tree.nodes| ==>
          && (tree.nodes[m].parent.Some? ==> tree.nodes[m].parent.value < m)
          && (forall i :: 0 <= i < |tree.nodes[m].children| ==> tree.nodes[m].children[i] < |tree.nodes|)
          && (forall name :: name in tree.nodes[m].byName ==> tree.nodes[m].byName[name] < |tree.nodes|))
    && (forall i :: 0 <= i < |tree.roots| ==> tree.roots[i].at < |tree.nodes|)
    && (forall i :: 0 <= i < |tree.facades| ==> tree.facades[i] < |tree.nodes|)
  }

  // ----- what a module declares -----------------------------------------------------------------

  predicate NamesType(kind: ItemKind) { kind.StructItem? || kind.EnumItem? || kind.SpecItem? }

  predicate NamesValue(kind: ItemKind) {
    kind.StructItem? || kind.EnumItem? || kind.FnItem? || kind.IntrinsicItem? || kind.StaticItem? || kind.ConstItem?
  }

  predicate InNamespace(kind: ItemKind, ns: Namespace) {
    (ns == TypeSpace && NamesType(kind)) || (ns == ValueSpace && NamesValue(kind))
  }

  predicate Declares(item: Item, key: Key) {
    || (InNamespace(item.kind, key.ns) && item.name == key.name)
    || (key.ns == ValueSpace && item.kind.ExternItem? && key.name in item.kind.fns)
  }

  /** The part of a module's path after its last colon. */
  function LastSegment(path: string): string {
    if path == [] then []
    else if path[|path| - 1] == ':' then []
    else LastSegment(path[..|path| - 1]) + [path[|path| - 1]]
  }

  predicate HasChild(tree: Tree, m: nat, name: string)
    requires Rooted(tree) && m < |tree.nodes|
  {
    exists i :: 0 <= i < |tree.nodes[m].children| && LastSegment(tree.nodes[tree.nodes[m].children[i]].path) == name
  }

  predicate Local(tree: Tree, m: nat, key: Key)
    requires Rooted(tree)
  {
    && m < |tree.nodes|
    && if key.ns == ModuleSpace then HasChild(tree, m, key.name)
       else exists i :: 0 <= i < |tree.nodes[m].items| && Declares(tree.nodes[m].items[i], key)
  }

  /** The first item that declares the name; a module is no item. */
  function FindDeclaration(items: seq<Item>, key: Key): (found: Option<nat>)
    ensures found.Some? ==> found.value < |items| && Declares(items[found.value], key)
    ensures found.Some? ==> forall i :: 0 <= i < found.value ==> !Declares(items[i], key)
    ensures found.None? ==> forall i :: 0 <= i < |items| ==> !Declares(items[i], key)
  {
    if items == [] then None
    else if Declares(items[0], key) then Some(0)
    else
      match FindDeclaration(items[1..], key)
      case None => assert forall i :: 1 <= i < |items| ==> items[i] == items[1..][i - 1]; None
      case Some(i) => assert forall i :: 1 <= i < |items| ==> items[i] == items[1..][i - 1]; Some(i + 1)
  }

  /** Reachable from its own module always, and from any other only when it is `pub`. */
  predicate Visible(tree: Tree, from: nat, at: nat, key: Key)
    requires at < |tree.nodes|
  {
    var found := FindDeclaration(tree.nodes[at].items, key);
    from == at || found.None? || tree.nodes[at].items[found.value].isPub
  }

  /** A declaration open to every module of the package. */
  predicate DeclaredPub(tree: Tree, at: nat, key: Key) {
    && at < |tree.nodes|
    && var found := FindDeclaration(tree.nodes[at].items, key);
       found.Some? && tree.nodes[at].items[found.value].isPub
  }

  // ----- the module a `use` reaches ---------------------------------------------------------------

  datatype Event =
    | ImportNotQualified
    | HeadNotSupported(head: string)
    | UnresolvedImport(name: string)
    | ExportWithheld(identity: string, path: string)
    | PrivateItem(name: string)
    | ConflictsWithLocal(name: string)
    | DuplicateImport(name: string)
    | GenericUnavailable(name: string)
    | ReExportCycle(at: nat)

  /** The root of the package a module belongs to: the top of its parents. */
  function Top(tree: Tree, m: nat): (r: nat)
    requires Rooted(tree) && m < |tree.nodes|
    ensures r < |tree.nodes| && tree.nodes[r].parent.None?
  {
    if tree.nodes[m].parent.None? then m else Top(tree, tree.nodes[m].parent.value)
  }

  function FirstUnnamed(nodes: seq<Node>): (r: nat)
    ensures r <= |nodes|
    ensures r < |nodes| ==> nodes[r].path == ""
  {
    if nodes == [] || nodes[0].path == "" then 0 else 1 + FirstUnnamed(nodes[1..])
  }

  function FindRoot(roots: seq<PackageRoot>, head: string): (r: Option<nat>)
    ensures r.Some? ==> r.value < |roots| && roots[r.value].identity == head
  {
    if roots == [] then None
    else if roots[0].identity == head then Some(0)
    else
      match FindRoot(roots[1..], head)
      case None => None
      case Some(i) => Some(i + 1)
  }

  function Child(tree: Tree, m: nat, name: string): Option<nat>
    requires m < |tree.nodes|
  {
    if name in tree.nodes[m].byName then Some(tree.nodes[m].byName[name]) else None
  }

  datatype Start = Nowhere | Start(at: nat, root: Option<nat>)

  /** Where a path's first segment leads: the package, this module, a package root, a child. */
  function Head(tree: Tree, m: nat, head: string): (r: Start)
    requires Rooted(tree) && m < |tree.nodes|
    ensures r.Start? ==> r.at < |tree.nodes| && (r.root.Some? ==> r.root.value < |tree.roots|)
  {
    if head == "package" then Start(Top(tree, m), None)
    else if head == tree.packageName then
      var first := FirstUnnamed(tree.nodes);
      Start(if first < |tree.nodes| then first else 0, None)
    else if head == "self" then Start(m, None)
    else if FindRoot(tree.roots, head).Some? then
      var root := FindRoot(tree.roots, head).value;
      Start(tree.roots[root].at, Some(root))
    else
      var child := Child(tree, m, head);
      if child.Some? then Start(child.value, None) else Nowhere
  }

  datatype Reached = Refused(why: Event) | At(at: nat)

  function Descend(tree: Tree, at: nat, segments: seq<string>): (r: Reached)
    requires Rooted(tree) && at < |tree.nodes|
    ensures r.At? ==> r.at < |tree.nodes|
    ensures r.Refused? ==> !r.why.ReExportCycle?
    decreases |segments|
  {
    if segments == [] then At(at)
    else
      var child := Child(tree, at, segments[0]);
      if child.None? then Refused(UnresolvedImport(segments[0])) else Descend(tree, child.value, segments[1..])
  }

  function Joined(segments: seq<string>): string {
    if segments == [] then ""
    else
      var front := Joined(segments[..|segments| - 1]);
      front + (if front == "" then "" else "/") + segments[|segments| - 1]
  }

  /** The module a `use` imports from, by its path inside the package it opens. */
  function ImportedPath(tree: Tree, at: nat, path: seq<string>): string
    requires Rooted(tree) && at < |tree.nodes| && |path| >= 2
  {
    var member := path[|path| - 1];
    if Local(tree, at, Key(member, ModuleSpace)) then Joined(path[1..]) else Joined(path[1..|path| - 1])
  }

  /** A package keeps a module to itself: trimmed, seen from outside, and not on its export list. */
  predicate Withheld(tree: Tree, m: nat, root: nat, path: string)
    requires m < |tree.nodes| && root < |tree.roots|
  {
    path != "" && tree.roots[root].trimmed && tree.nodes[m].root != Some(root) && path !in tree.roots[root].exports
  }

  /** The module whose member a `use` written in `m` names, or the refusal. */
  function Reach(tree: Tree, m: nat, path: seq<string>): (r: Reached)
    requires Rooted(tree) && m < |tree.nodes|
    ensures r.At? ==> r.at < |tree.nodes| && |path| >= 2
    ensures r.Refused? ==> !r.why.ReExportCycle?
  {
    if |path| < 2 then Refused(ImportNotQualified)
    else
      var start := Head(tree, m, path[0]);
      if start.Nowhere? then
        var habit := path[0] == "super" || path[0] == "crate";
        Refused(if habit then HeadNotSupported(path[0]) else UnresolvedImport(path[0]))
      else
        var down := Descend(tree, start.at, path[1..|path| - 1]);
        if down.At? && start.root.Some? && Withheld(tree, m, start.root.value, ImportedPath(tree, down.at, path)) then
          Refused(ExportWithheld(tree.roots[start.root.value].identity, ImportedPath(tree, down.at, path)))
        else down
  }

  function Member(use: ItemKind): string
    requires use.UseItem? && use.path != []
  {
    use.path[|use.path| - 1]
  }

  function NameGiven(use: ItemKind): string
    requires use.UseItem? && use.path != []
  {
    if use.renamed.Some? then use.renamed.value else Member(use)
  }

  const SPACES: seq<Namespace> := [ModuleSpace, TypeSpace, ValueSpace]

  lemma AllSpaces(ns: Namespace)
    ensures ns in SPACES
  {
    assert SPACES[0] == ModuleSpace && SPACES[1] == TypeSpace && SPACES[2] == ValueSpace;
  }

  /** Some namespace of the module declares the name. */
  predicate LocalAnywhere(tree: Tree, at: nat, name: string)
    requires Rooted(tree)
  {
    || Local(tree, at, Key(name, ModuleSpace))
    || Local(tree, at, Key(name, TypeSpace))
    || Local(tree, at, Key(name, ValueSpace))
  }

  /** The other module whose re-exports a `use` has to wait for. */
  function Demand(tree: Tree, m: nat, item: Item): (r: Option<nat>)
    requires Rooted(tree) && m < |tree.nodes|
    ensures r.Some? ==> r.value < |tree.nodes| && r.value != m && item.kind.UseItem?
  {
    if !item.kind.UseItem? then None
    else
      var reached := Reach(tree, m, item.kind.path);
      if reached.Refused? || reached.at == m || LocalAnywhere(tree, reached.at, Member(item.kind)) then None
      else Some(reached.at)
  }

  /** A public item that hands a declaration of its own module on: the declaration, or a `use` that reaches it. */
  ghost predicate Exposes(tree: Tree, m: nat, item: Item, key: Key)
    requires Rooted(tree) && m < |tree.nodes|
  {
    item.isPub &&
    (|| (InNamespace(item.kind, key.ns) && item.name == key.name)
     || (&& item.kind.UseItem? && Reach(tree, m, item.kind.path) == At(m)
         && Member(item.kind) == key.name && Local(tree, m, key)))
  }

  /** A type or value that is not `pub`, and that a public item of its own module hands on all the same. */
  ghost predicate Leaks(tree: Tree, m: nat, key: Key)
    requires Rooted(tree)
  {
    && m < |tree.nodes| && key.ns != ModuleSpace && !DeclaredPub(tree, m, key)
    && exists i :: 0 <= i < |tree.nodes[m].items| && Exposes(tree, m, tree.nodes[m].items[i], key)
  }

  /** Within one namespace a name declared locally always has a declaring item. */
  lemma LocalHasDeclaration(tree: Tree, m: nat, key: Key)
    requires Rooted(tree) && Local(tree, m, key) && key.ns != ModuleSpace
    ensures FindDeclaration(tree.nodes[m].items, key).Some?
  {
  }

  /** Seen from another module, a type or value that is visible is declared `pub`. */
  lemma VisibleIsPub(tree: Tree, from: nat, at: nat, key: Key)
    requires Rooted(tree) && Local(tree, at, key) && key.ns != ModuleSpace && from != at
    ensures Visible(tree, from, at, key) <==> DeclaredPub(tree, at, key)
  {
    LocalHasDeclaration(tree, at, key);
  }
}
