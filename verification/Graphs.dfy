/** Walks and cycles over a set of edges, for the two depth-first searches of the repository. */
module Graphs {

  type Edges<!T(!new, ==)> = iset<(T, T)>

  ghost predicate Walk<T(!new)>(edges: Edges<T>, w: seq<T>) {
    forall i :: 0 <= i < |w| - 1 ==> (w[i], w[i + 1]) in edges
  }

  /** A walk of one edge or more that ends where it began. */
  ghost predicate Closed<T(!new)>(edges: Edges<T>, w: seq<T>) {
    |w| >= 2 && w[0] == w[|w| - 1] && Walk(edges, w)
  }

  ghost predicate Cyclic<T(!new)>(edges: Edges<T>) { exists w :: Closed(edges, w) }

  /** Every edge out of a listed node leads to one listed before it. */
  ghost predicate Settled<T(!new)>(edges: Edges<T>, order: seq<T>) {
    forall i, t :: 0 <= i < |order| && (order[i], t) in edges ==> t in order[..i]
  }

  lemma {:induction false} WalkDescends<T(!new)>(edges: Edges<T>, order: seq<T>, w: seq<T>, i: nat, k: nat)
    returns (j: nat)
    requires Settled(edges, order) && Walk(edges, w) && 0 < k < |w| && i < |order| && order[i] == w[0]
    ensures j < i && order[j] == w[k]
    decreases k
  {
    if k == 1 {
      assert (w[0], w[1]) in edges && w[1] in order[..i];
      j :| 0 <= j < i && order[j] == w[1];
    } else {
      var p := WalkDescends(edges, order, w, i, k - 1);
      assert (w[k - 1], w[k]) in edges && w[k] in order[..p];
      j :| 0 <= j < p && order[j] == w[k];
    }
  }

  /** A node that a closed walk passes stands nowhere in a settled order. */
  lemma {:induction false} SettledOpen<T(!new)>(edges: Edges<T>, order: seq<T>, w: seq<T>, i: nat)
    requires Settled(edges, order) && Closed(edges, w) && i < |order|
    ensures order[i] != w[0]
    decreases i
  {
    if order[i] == w[0] {
      var j := WalkDescends(edges, order, w, i, |w| - 1);
      SettledOpen(edges, order, w, j);
    }
  }

  /** An order that holds the source of every edge leaves no room for a cycle. */
  lemma SettledAcyclic<T(!new)>(edges: Edges<T>, order: seq<T>)
    requires Settled(edges, order) && forall e :: e in edges ==> e.0 in order
    ensures !Cyclic(edges)
  {
    forall w | Closed(edges, w) ensures false {
      assert (w[0], w[1]) in edges;
      var i :| 0 <= i < |order| && order[i] == w[0];
      SettledOpen(edges, order, w, i);
    }
  }

  lemma WalkOn<T(!new)>(edges: Edges<T>, w: seq<T>, t: T)
    requires Walk(edges, w) && (w == [] || (w[|w| - 1], t) in edges)
    ensures Walk(edges, w + [t])
  {
  }

  lemma WalkBack<T(!new)>(edges: Edges<T>, w: seq<T>, n: nat)
    requires Walk(edges, w) && n <= |w|
    ensures Walk(edges, w[..n])
  {
  }

  /** A node whose every edge leads into a settled order may join it. */
  lemma SettledOnce<T(!new)>(edges: Edges<T>, order: seq<T>, node: T)
    requires Settled(edges, order) && forall t :: (node, t) in edges ==> t in order
    ensures Settled(edges, order + [node])
  {
    var more := order + [node];
    forall i, t | 0 <= i < |more| && (more[i], t) in edges ensures t in more[..i] {
      assert more[..i] == order[..i];
      if i == |order| { assert order[..i] == order; }
    }
  }

  /** A walk that steps onto a node it has passed closes a cycle. */
  lemma ReturnCloses<T(!new)>(edges: Edges<T>, w: seq<T>, k: nat)
    requires Walk(edges, w) && k < |w| && (w[|w| - 1], w[k]) in edges
    ensures Cyclic(edges)
  {
    var c := w[k..] + [w[k]];
    forall i | 0 <= i < |c| - 1 ensures (c[i], c[i + 1]) in edges {
      assert c[i] == w[k + i];
      if i + 1 < |c| - 1 { assert c[i + 1] == w[k + i + 1]; }
    }
    assert Closed(edges, c);
  }
}
