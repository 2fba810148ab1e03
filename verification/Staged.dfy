/**
 Whether an item is the toolchain's (src/analyzer/resolve.cc, ModuleTree::is_staged_item): a
 binary search over the sorted staged items, standing in for a walk over every module.
 */
module Staged {

  datatype Source = Source(path: string, staged: bool, items: seq<nat>)

  type Entry = (nat, nat)

  /** A path that names the package, or a module inside it. */
  predicate InPackage(path: string, package: string) {
    || path == package
    || (|path| > |package| + 1 && path[..|package|] == package && path[|package|..|package| + 2] == "::")
  }

  /** The package itself, or what follows its name and two colons. */
  lemma InPackageExactly(path: string, package: string)
    ensures InPackage(path, package) <==> path == package || exists rest :: path == package + "::" + rest
  {
    if |path| > |package| + 1 && path[..|package|] == package && path[|package|..|package| + 2] == "::" {
      assert path == package + "::" + path[|package| + 2..];
    }
    if rest :| path == package + "::" + rest {
      assert path[..|package|] == package && path[|package|..|package| + 2] == "::";
    }
  }

  /** Staged module `m` declares the item. */
  predicate Holds(sources: seq<Source>, m: nat, item: nat) {
    m < |sources| && sources[m].staged && item in sources[m].items
  }

  /** The walk: some staged module of the package declares the item. */
  predicate Declared(sources: seq<Source>, package: string, item: nat) {
    exists m :: 0 <= m < |sources| && Holds(sources, m, item) && InPackage(sources[m].path, package)
  }

  predicate Before(a: Entry, b: Entry) { a.0 < b.0 || (a.0 == b.0 && a.1 <= b.1) }

  /** The index lists exactly the staged declarations, in order. */
  ghost predicate IndexOf(sources: seq<Source>, index: seq<Entry>) {
    && (forall i, j :: 0 <= i < j < |index| ==> Before(index[i], index[j]))
    && (forall i :: 0 <= i < |index| ==> Holds(sources, index[i].1, index[i].0))
    && (forall m: nat, item: nat :: Holds(sources, m, item) ==> (item, m) in index)
  }

  ghost predicate OneHome(sources: seq<Source>, item: nat) {
    forall m: nat, k: nat :: Holds(sources, m, item) && Holds(sources, k, item) ==> m == k
  }

  /** The first staged module that declares the item is one of the package's. */
  ghost predicate FirstHomeIn(sources: seq<Source>, package: string, item: nat) {
    exists m: nat :: Holds(sources, m, item) && (forall k: nat :: Holds(sources, k, item) ==> m <= k) &&
      InPackage(sources[m].path, package)
  }

  /** The first entry not below the item. */
  method LowerBound(index: seq<Entry>, item: nat) returns (at: nat)
    requires forall i, j :: 0 <= i < j < |index| ==> Before(index[i], index[j])
    ensures at <= |index|
    ensures forall i :: 0 <= i < at ==> index[i].0 < item
    ensures forall i :: at <= i < |index| ==> item <= index[i].0
  {
    var count := |index|;
    at := 0;
    while count > 0
      invariant 0 <= at <= at + count <= |index|
      invariant forall i :: 0 <= i < at ==> index[i].0 < item
      invariant forall i :: at + count <= i < |index| ==> item <= index[i].0
    {
      var half := count / 2;
      if index[at + half].0 < item {
        at, count := at + half + 1, count - half - 1;
      } else {
        count := half;
      }
    }
  }

  /**
   The search looks only at the first module that declares the item, so it answers what the
   walk does whenever an item is declared in one place.
   */
  method IsStagedItem(sources: seq<Source>, index: seq<Entry>, package: string, item: nat) returns (r: bool)
    requires index == [] || IndexOf(sources, index)
    ensures index == [] ==> r == Declared(sources, package, item)
    ensures index != [] ==> (r <==> FirstHomeIn(sources, package, item))
    ensures OneHome(sources, item) ==> r == Declared(sources, package, item)
  {
    hide InPackage;
    if index != [] {
      var at := LowerBound(index, item);
      if at == |index| || index[at].0 != item {
        forall i | 0 <= i < |index| ensures index[i].0 != item {
          if at < i { assert Before(index[at], index[i]); }
        }
        assert forall m: nat :: Holds(sources, m, item) ==> (item, m) in index;
        assert forall e :: e in index ==> e.0 != item;
        return false;
      }
      var m := index[at].1;
      forall k: nat | Holds(sources, k, item) ensures m <= k {
        var i :| 0 <= i < |index| && index[i] == (item, k);
        assert i >= at;
      }
      r := sources[m].staged && InPackage(sources[m].path, package);
      return;
    }
    var m := 0;
    while m < |sources|
      invariant 0 <= m <= |sources|
      invariant forall k :: 0 <= k < m ==> !(Holds(sources, k, item) && InPackage(sources[k].path, package))
    {
      if sources[m].staged && InPackage(sources[m].path, package) && item in sources[m].items { return true; }
      m := m + 1;
    }
    return false;
  }
}
