/**
 Shape matching over a cyclic type table (src/analyzer/summary.cc, shapes_match).

 A type table may hold many nodes over one declaration, and a declaration may refer to
 itself. Two nodes have the same shape when their unfoldings agree at every depth; the walk
 decides this with a list of the pairs it has assumed, cut back whenever a branch fails.
 */
module Shapes {
  import opened Machine
  import opened Lang

  const MAX_SHAPE_WALK: nat := 4096

  datatype TypeNode = TypeNode(tag: Tag, data: nat)

  datatype StructType = StructType(name: nat, fields: seq<nat>, params: seq<nat>)
  datatype VariantType = VariantType(name: nat, fields: seq<nat>)
  datatype EnumType = EnumType(name: nat, variants: seq<nat>, params: seq<nat>)
  datatype ArrayType = ArrayType(element: nat, count: nat)
  datatype FuncType = FuncType(params: seq<nat>, ret: nat)

  /** The artifact's tables. A node's `data` indexes the table its tag names. */
  datatype Storage = Storage(
    types: seq<TypeNode>,
    structs: seq<StructType>,
    enums: seq<EnumType>,
    variants: seq<VariantType>,
    refs: seq<nat>,
    slices: seq<nat>,
    arrays: seq<ArrayType>,
    tuples: seq<seq<nat>>,
    funcs: seq<FuncType>,
    consts: seq<nat>
  )

  // ----- one layer of a type ----------------------------------------------------------------

  /** What a node shows of itself: everything but the types inside it. */
  datatype Label =
    | LStruct(name: nat, fields: nat, params: nat)
    | LEnum(name: nat, variants: seq<(nat, nat)>, params: nat)
    | LPointer(tag: Tag)
    | LSlice
    | LArray(count: nat)
    | LTuple(size: nat)
    | LFunction(params: nat)
    | LConst(value: nat)
    | LPlain(tag: Tag)
    | LClosure(params: nat)
    | LParam(index: nat)

  datatype Layer = Layer(head: Label, kids: seq<nat>)

  predicate VariantsExist(st: Storage, vs: seq<nat>) { forall i :: 0 <= i < |vs| ==> vs[i] < |st.variants| }

  function Payloads(st: Storage, vs: seq<nat>): seq<nat>
    requires VariantsExist(st, vs)
  {
    if vs == [] then [] else st.variants[vs[0]].fields + Payloads(st, vs[1..])
  }

  function VariantLabels(st: Storage, vs: seq<nat>): seq<(nat, nat)>
    requires VariantsExist(st, vs)
  {
    seq(|vs|, i requires 0 <= i < |vs| => (st.variants[vs[i]].name, |st.variants[vs[i]].fields|))
  }

  /**
   The layer the walk reads, or `None` for a node that points out of its table. The walk
   looks into no other tag, so a function value's signature (`Func`) and a type parameter's
   index (`Param`) are not part of the layer.
   */
  function Read(st: Storage, t: nat): Option<Layer> {
    if t >= |st.types| then None
    else
      var node := st.types[t];
      match node.tag
      case Struct =>
        if node.data >= |st.structs| then None
        else
          var x := st.structs[node.data];
          Some(Layer(LStruct(x.name, |x.fields|, |x.params|), x.fields + x.params))
      case Enum =>
        if node.data >= |st.enums| || !VariantsExist(st, st.enums[node.data].variants) then None
        else
          var x := st.enums[node.data];
          Some(Layer(LEnum(x.name, VariantLabels(st, x.variants), |x.params|), x.params + Payloads(st, x.variants)))
      case Ref | MutRef | RawPtr | RawMutPtr =>
        if node.data >= |st.refs| then None else Some(Layer(LPointer(node.tag), [st.refs[node.data]]))
      case Slice =>
        if node.data >= |st.slices| then None else Some(Layer(LSlice, [st.slices[node.data]]))
      case Array =>
        if node.data >= |st.arrays| then None
        else Some(Layer(LArray(st.arrays[node.data].count), [st.arrays[node.data].element]))
      case Tuple =>
        if node.data >= |st.tuples| then None else Some(Layer(LTuple(|st.tuples[node.data]|), st.tuples[node.data]))
      case Function =>
        if node.data >= |st.funcs| then None
        else Some(Layer(LFunction(|st.funcs[node.data].params|),
          st.funcs[node.data].params + [st.funcs[node.data].ret]))
      case Const =>
        if node.data >= |st.consts| then None else Some(Layer(LConst(st.consts[node.data]), []))
      case _ => Some(Layer(LPlain(node.tag), []))
  }

  /** The same with nothing held back: a closure's signature and a parameter's index show. */
  function ReadFully(st: Storage, t: nat): Option<Layer> {
    if t >= |st.types| then None
    else if st.types[t].tag == Func then
      if st.types[t].data >= |st.funcs| then None
      else
        var f := st.funcs[st.types[t].data];
        Some(Layer(LClosure(|f.params|), f.params + [f.ret]))
    else if st.types[t].tag == Param then Some(Layer(LParam(st.types[t].data), []))
    else Read(st, t)
  }

  // ----- unfoldings -----------------------------------------------------------------------------

  datatype Tree = Cut | Dangling(t: nat) | Node(head: Label, kids: seq<Tree>)

  /** The type unfolded to a depth. `fully` shows signatures and parameter indices too. */
  function Unfold(st: Storage, fully: bool, t: nat, n: nat): Tree
    decreases n
  {
    if n == 0 then Cut
    else
      match if fully then ReadFully(st, t) else Read(st, t)
      case None => Dangling(t)
      case Some(layer) => Node(layer.head,
        seq(|layer.kids|, i requires 0 <= i < |layer.kids| => Unfold(st, fully, layer.kids[i], n - 1)))
  }

  ghost predicate SameShape(st: Storage, a: nat, b: nat) {
    forall n :: Unfold(st, false, a, n) == Unfold(st, false, b, n)
  }

  ghost predicate SameType(st: Storage, a: nat, b: nat) { forall n :: Unfold(st, true, a, n) == Unfold(st, true, b, n) }

  // ----- bisimulations --------------------------------------------------------------------------

  type Pair = (nat, nat)

  predicate Known(r: set<Pair>, a: nat, b: nat) { a == b || (a, b) in r }

  /** The two nodes look alike, and every pair of types inside them is known. */
  predicate Justified(st: Storage, r: set<Pair>, a: nat, b: nat) {
    var x, y := Read(st, a), Read(st, b);
    && x.Some? && y.Some? && x.value.head == y.value.head && |x.value.kids| == |y.value.kids|
    && forall i :: 0 <= i < |x.value.kids| ==> Known(r, x.value.kids[i], y.value.kids[i])
  }

  ghost predicate Bisimulation(st: Storage, r: set<Pair>) {
    forall pair :: pair in r ==> pair.0 != pair.1 && Justified(st, r, pair.0, pair.1)
  }

  lemma {:induction false} BisimilarUnfoldAlike(st: Storage, r: set<Pair>, a: nat, b: nat, n: nat)
    requires Bisimulation(st, r) && Known(r, a, b)
    ensures Unfold(st, false, a, n) == Unfold(st, false, b, n)
    decreases n
  {
    if n > 0 && a != b {
      assert Justified(st, r, (a, b).0, (a, b).1);
      hide Read;
      var x, y := Read(st, a).value.kids, Read(st, b).value.kids;
      forall i | 0 <= i < |x| ensures Unfold(st, false, x[i], n - 1) == Unfold(st, false, y[i], n - 1) {
        BisimilarUnfoldAlike(st, r, x[i], y[i], n - 1);
      }
    }
  }

  /** The distinct nodes of the table that unfold alike: the largest bisimulation there is. */
  ghost function AlikePairs(st: Storage): set<Pair> {
    set a, b | 0 <= a < |st.types| && 0 <= b < |st.types| && a != b && SameShape(st, a, b) :: (a, b)
  }

  lemma LayersAgree(st: Storage, a: nat, b: nat)
    requires SameShape(st, a, b) && a != b
    ensures Read(st, a).Some? && Read(st, b).Some?
    ensures var x, y := Read(st, a).value, Read(st, b).value;
            && x.head == y.head && |x.kids| == |y.kids|
            && forall i :: 0 <= i < |x.kids| ==> SameShape(st, x.kids[i], y.kids[i])
  {
    assert Unfold(st, false, a, 1) == Unfold(st, false, b, 1);
    var x, y := Read(st, a).value, Read(st, b).value;
    var u, v := Unfold(st, false, a, 1).kids, Unfold(st, false, b, 1).kids;
    assert |u| == |x.kids| && |v| == |y.kids|;
    forall i, n: nat | 0 <= i < |x.kids|
      ensures Unfold(st, false, x.kids[i], n) == Unfold(st, false, y.kids[i], n)
    {
      assert Unfold(st, false, a, n + 1) == Unfold(st, false, b, n + 1);
      assert Unfold(st, false, a, n + 1).kids[i] == Unfold(st, false, b, n + 1).kids[i];
    }
  }

  lemma AlikePairsBisimilar(st: Storage)
    ensures Bisimulation(st, AlikePairs(st))
  {
    var r := AlikePairs(st);
    forall pair | pair in r ensures pair.0 != pair.1 && Justified(st, r, pair.0, pair.1) {
      LayersAgree(st, pair.0, pair.1);
      var x, y := Read(st, pair.0).value.kids, Read(st, pair.1).value.kids;
      forall i | 0 <= i < |x| ensures Known(r, x[i], y[i]) {
        if x[i] != y[i] { LayersAgree(st, x[i], y[i]); }
      }
    }
  }

  /** Two nodes have the same shape exactly when some bisimulation of the table relates them. */
  lemma SameShapeIsBisimilarity(st: Storage, a: nat, b: nat)
    ensures SameShape(st, a, b) <==> exists r: set<Pair> :: Bisimulation(st, r) && Known(r, a, b)
  {
    if SameShape(st, a, b) {
      AlikePairsBisimilar(st);
      if a != b { LayersAgree(st, a, b); }
      assert Known(AlikePairs(st), a, b);
    }
    if exists r: set<Pair> :: Bisimulation(st, r) && Known(r, a, b) {
      var r: set<Pair> :| Bisimulation(st, r) && Known(r, a, b);
      forall n: nat ensures Unfold(st, false, a, n) == Unfold(st, false, b, n) {
        BisimilarUnfoldAlike(st, r, a, b, n);
      }
    }
  }

  // ----- the same, said on the tables ---------------------------------------------------------------

  ghost predicate Pairwise(st: Storage, xs: seq<nat>, ys: seq<nat>) {
    |xs| == |ys| && forall i :: 0 <= i < |xs| ==> SameShape(st, xs[i], ys[i])
  }

  ghost predicate VariantsAlike(st: Storage, vs: seq<nat>, ws: seq<nat>) {
    && VariantsExist(st, vs) && VariantsExist(st, ws) && |vs| == |ws|
    && forall i :: 0 <= i < |vs| ==>
         && st.variants[vs[i]].name == st.variants[ws[i]].name
         && Pairwise(st, st.variants[vs[i]].fields, st.variants[ws[i]].fields)
  }

  /** Two nodes whose rows name the same things and hold types of the same shapes, place by place. */
  ghost predicate RowsAlike(st: Storage, a: nat, b: nat) {
    && a < |st.types| && b < |st.types| && st.types[a].tag == st.types[b].tag
    && var i, j := st.types[a].data, st.types[b].data;
       match st.types[a].tag
       case Struct =>
         && i < |st.structs| && j < |st.structs|
         && st.structs[i].name == st.structs[j].name
         && Pairwise(st, st.structs[i].fields, st.structs[j].fields)
         && Pairwise(st, st.structs[i].params, st.structs[j].params)
       case Enum =>
         && i < |st.enums| && j < |st.enums|
         && st.enums[i].name == st.enums[j].name
         && Pairwise(st, st.enums[i].params, st.enums[j].params)
         && VariantsAlike(st, st.enums[i].variants, st.enums[j].variants)
       case Ref | MutRef | RawPtr | RawMutPtr =>
         i < |st.refs| && j < |st.refs| && SameShape(st, st.refs[i], st.refs[j])
       case Slice => i < |st.slices| && j < |st.slices| && SameShape(st, st.slices[i], st.slices[j])
       case Array =>
         && i < |st.arrays| && j < |st.arrays|
         && st.arrays[i].count == st.arrays[j].count && SameShape(st, st.arrays[i].element, st.arrays[j].element)
       case Tuple => i < |st.tuples| && j < |st.tuples| && Pairwise(st, st.tuples[i], st.tuples[j])
       case Function =>
         && i < |st.funcs| && j < |st.funcs|
         && Pairwise(st, st.funcs[i].params, st.funcs[j].params)
         && SameShape(st, st.funcs[i].ret, st.funcs[j].ret)
       case Const => i < |st.consts| && j < |st.consts| && st.consts[i] == st.consts[j]
       case _ => true
  }

  ghost predicate LayersAlike(st: Storage, a: nat, b: nat) {
    && Read(st, a).Some? && Read(st, b).Some?
    && var x, y := Read(st, a).value, Read(st, b).value;
       x.head == y.head && Pairwise(st, x.kids, y.kids)
  }

  lemma PairwiseJoins(st: Storage, u: seq<nat>, v: seq<nat>, x: seq<nat>, y: seq<nat>)
    requires |u| == |x|
    ensures Pairwise(st, u + v, x + y) <==> Pairwise(st, u, x) && Pairwise(st, v, y)
  {
    hide SameShape;
    assert forall i :: 0 <= i < |u| ==> (u + v)[i] == u[i] && (x + y)[i] == x[i];
    assert |v| == |y| ==> forall i :: 0 <= i < |v| ==> (u + v)[|u| + i] == v[i] && (x + y)[|u| + i] == y[i];
  }

  lemma {:induction false} PayloadsPairwise(st: Storage, vs: seq<nat>, ws: seq<nat>)
    requires VariantsExist(st, vs) && VariantsExist(st, ws) && |vs| == |ws|
    requires forall i :: 0 <= i < |vs| ==> |st.variants[vs[i]].fields| == |st.variants[ws[i]].fields|
    ensures Pairwise(st, Payloads(st, vs), Payloads(st, ws)) <==>
      forall i :: 0 <= i < |vs| ==> Pairwise(st, st.variants[vs[i]].fields, st.variants[ws[i]].fields)
    decreases |vs|
  {
    hide SameShape;
    if vs != [] {
      PayloadsPairwise(st, vs[1..], ws[1..]);
      PairwiseJoins(st, st.variants[vs[0]].fields, Payloads(st, vs[1..]), st.variants[ws[0]].fields,
        Payloads(st, ws[1..]));
      hide Pairwise;
      assert forall i :: 0 < i < |vs| ==> vs[i] == vs[1..][i - 1] && ws[i] == ws[1..][i - 1];
      assert forall i :: 0 <= i < |vs[1..]| ==> vs[1..][i] == vs[i + 1] && ws[1..][i] == ws[i + 1];
    }
  }

  lemma LabelsAre(st: Storage, vs: seq<nat>, ws: seq<nat>)
    requires VariantsExist(st, vs) && VariantsExist(st, ws)
    ensures VariantLabels(st, vs) == VariantLabels(st, ws) <==>
      && |vs| == |ws|
      && forall i :: 0 <= i < |vs| ==>
           && st.variants[vs[i]].name == st.variants[ws[i]].name
           && |st.variants[vs[i]].fields| == |st.variants[ws[i]].fields|
  {
    var ls, ms := VariantLabels(st, vs), VariantLabels(st, ws);
    assert |ls| == |vs| && |ms| == |ws|;
    assert forall i :: 0 <= i < |vs| ==> ls[i] == (st.variants[vs[i]].name, |st.variants[vs[i]].fields|);
    assert forall i :: 0 <= i < |ws| ==> ms[i] == (st.variants[ws[i]].name, |st.variants[ws[i]].fields|);
  }

  lemma EnumsAlike(st: Storage, a: nat, b: nat)
    requires a < |st.types| && b < |st.types| && st.types[a].tag == Enum && st.types[b].tag == Enum
    ensures LayersAlike(st, a, b) <==> RowsAlike(st, a, b)
  {
    hide SameShape;
    if Read(st, a).Some? && Read(st, b).Some? {
      var x, y := st.enums[st.types[a].data], st.enums[st.types[b].data];
      LabelsAre(st, x.variants, y.variants);
      if |x.params| == |y.params| {
        PairwiseJoins(st, x.params, Payloads(st, x.variants), y.params, Payloads(st, y.variants));
      }
      if VariantLabels(st, x.variants) == VariantLabels(st, y.variants) {
        PayloadsPairwise(st, x.variants, y.variants);
      }
      hide VariantLabels, Payloads, VariantsExist;
    }
  }

  lemma StructsAlike(st: Storage, a: nat, b: nat)
    requires a < |st.types| && b < |st.types| && st.types[a].tag == Struct && st.types[b].tag == Struct
    ensures LayersAlike(st, a, b) <==> RowsAlike(st, a, b)
  {
    hide SameShape;
    if Read(st, a).Some? && Read(st, b).Some? {
      var x, y := st.structs[st.types[a].data], st.structs[st.types[b].data];
      if |x.fields| == |y.fields| { PairwiseJoins(st, x.fields, x.params, y.fields, y.params); }
    }
  }

  lemma FunctionsAlike(st: Storage, a: nat, b: nat)
    requires a < |st.types| && b < |st.types| && st.types[a].tag == Function && st.types[b].tag == Function
    ensures LayersAlike(st, a, b) <==> RowsAlike(st, a, b)
  {
    hide SameShape;
    if Read(st, a).Some? && Read(st, b).Some? {
      var x, y := st.funcs[st.types[a].data], st.funcs[st.types[b].data];
      if |x.params| == |y.params| { PairwiseJoins(st, x.params, [x.ret], y.params, [y.ret]); }
      PairwiseOne(st, x.ret, y.ret);
    }
  }

  lemma PairwiseOne(st: Storage, x: nat, y: nat)
    ensures Pairwise(st, [x], [y]) <==> SameShape(st, x, y)
  {
    hide SameShape;
    assert [x][0] == x && [y][0] == y;
  }

  lemma LayersAreRows(st: Storage, a: nat, b: nat)
    ensures LayersAlike(st, a, b) <==> RowsAlike(st, a, b)
  {
    hide SameShape, Pairwise;
    if a < |st.types| && b < |st.types| && st.types[a].tag == st.types[b].tag {
      match st.types[a].tag
      case Enum => EnumsAlike(st, a, b);
      case Struct => StructsAlike(st, a, b);
      case Function => FunctionsAlike(st, a, b);
      case _ => OthersAlike(st, a, b);
    } else if LayersAlike(st, a, b) {
      TagsApart(st, a, b);
    }
  }

  lemma TagsApart(st: Storage, a: nat, b: nat)
    requires LayersAlike(st, a, b)
    ensures a < |st.types| && b < |st.types| && st.types[a].tag == st.types[b].tag
  {
    hide Pairwise;
  }

  lemma OthersAlike(st: Storage, a: nat, b: nat)
    requires a < |st.types| && b < |st.types| && st.types[a].tag == st.types[b].tag
    requires st.types[a].tag !in {Struct, Enum, Function}
    ensures LayersAlike(st, a, b) <==> RowsAlike(st, a, b)
  {
    hide SameShape, Pairwise;
    if Read(st, a).Some? && Read(st, b).Some? {
      var x, y := Read(st, a).value.kids, Read(st, b).value.kids;
      if |x| == 1 && |y| == 1 {
        PairwiseOne(st, x[0], y[0]);
        assert x == [x[0]] && y == [y[0]];
      }
      NoKids(st);
      if Pairwise(st, x, y) { PairwiseLong(st, x, y); }
    }
  }

  lemma PairwiseLong(st: Storage, x: seq<nat>, y: seq<nat>)
    requires Pairwise(st, x, y)
    ensures |x| == |y|
  {
  }

  lemma NoKids(st: Storage)
    ensures Pairwise(st, [], [])
  {
  }

  /** Two distinct nodes are of one shape exactly when their rows are alike, types inside them included. */
  lemma SameShapeIsRowsAlike(st: Storage, a: nat, b: nat)
    requires a != b
    ensures SameShape(st, a, b) <==> RowsAlike(st, a, b)
  {
    LayersAreRows(st, a, b);
    hide RowsAlike;
    if SameShape(st, a, b) { LayersAgree(st, a, b); }
    if LayersAlike(st, a, b) {
      hide Read;
      var x, y := Read(st, a).value, Read(st, b).value;
      forall n: nat ensures Unfold(st, false, a, n) == Unfold(st, false, b, n) {
        if n > 0 {
          forall i | 0 <= i < |x.kids|
            ensures Unfold(st, false, x.kids[i], n - 1) == Unfold(st, false, y.kids[i], n - 1)
          {
            assert SameShape(st, x.kids[i], y.kids[i]);
          }
        }
      }
    }
  }

  // ----- the walk -------------------------------------------------------------------------------

  function Assumed(seen: seq<Pair>): set<Pair> { set x | x in seen }

  ghost predicate Distinct(seen: seq<Pair>) { forall i, j :: 0 <= i < j < |seen| ==> seen[i] != seen[j] }

  lemma {:induction false} DistinctCount(seen: seq<Pair>)
    requires Distinct(seen)
    ensures |Assumed(seen)| == |seen|
  {
    if seen != [] {
      var k := |seen| - 1;
      DistinctCount(seen[..k]);
      assert Assumed(seen) == Assumed(seen[..k]) + {seen[k]};
      assert seen[k] !in seen[..k];
    }
  }

  lemma SubsetCount(a: set<Pair>, b: set<Pair>)
    requires a <= b
    ensures |a| <= |b|
  {
    if a != {} {
      var x :| x in a;
      SubsetCount(a - {x}, b - {x});
    }
  }

  /** A bisimulation small enough for the walk, within which it has stayed so far. */
  ghost predicate Guides(st: Storage, r: set<Pair>, seen: seq<Pair>) {
    Bisimulation(st, r) && Assumed(seen) <= r && Distinct(seen) && |r| <= MAX_SHAPE_WALK
  }

  lemma RoomForOneMore(st: Storage, r: set<Pair>, seen: seq<Pair>, pair: Pair)
    requires Guides(st, r, seen) && pair in r && pair !in seen
    ensures |seen| < MAX_SHAPE_WALK && Guides(st, r, seen + [pair])
  {
    var more := seen + [pair];
    assert Assumed(more) == Assumed(seen) + {pair};
    DistinctCount(more);
    SubsetCount(Assumed(more), r);
  }

  lemma JustifiedGrows(st: Storage, r: set<Pair>, s: set<Pair>, a: nat, b: nat)
    requires r <= s && Justified(st, r, a, b)
    ensures Justified(st, s, a, b)
  {
    hide Read;
  }

  /** Everything assumed from position `from` on has been made good. */
  ghost predicate MadeGood(st: Storage, seen: seq<Pair>, from: nat) {
    forall k :: from <= k < |seen| ==> seen[k].0 != seen[k].1 && Justified(st, Assumed(seen), seen[k].0, seen[k].1)
  }

  lemma MadeGoodGrows(st: Storage, seen: seq<Pair>, more: seq<Pair>, from: nat)
    requires MadeGood(st, seen, from) && seen <= more && MadeGood(st, more, |seen|)
    ensures MadeGood(st, more, from)
  {
    assert Assumed(seen) <= Assumed(more) by {
      forall x | x in seen ensures x in more { var k :| 0 <= k < |seen| && seen[k] == x; assert more[k] == x; }
    }
    forall k | from <= k < |seen| ensures Justified(st, Assumed(more), seen[k].0, seen[k].1) {
      JustifiedGrows(st, Assumed(seen), Assumed(more), seen[k].0, seen[k].1);
    }
  }

  class ShapeWalk {
    const st: Storage
    var seen: seq<Pair>

    constructor (st: Storage)
      ensures this.st == st && seen == []
    {
      this.st := st;
      seen := [];
    }

    /**
     True leaves the new assumptions made good; false leaves the list exactly as it was. A
     pair of some small enough bisimulation is never refused.
     */
    method Match(left: nat, right: nat, ghost r: set<Pair>) returns (ok: bool)
      modifies this`seen
      ensures !ok ==> seen == old(seen)
      ensures ok ==> old(seen) <= seen && Known(Assumed(seen), left, right) && MadeGood(st, seen, |old(seen)|)
      ensures Guides(st, r, old(seen)) && Known(r, left, right) ==> ok && Guides(st, r, seen)
      decreases if |seen| < MAX_SHAPE_WALK then MAX_SHAPE_WALK - |seen| else 0
    {
      hide Read, Justified;
      if left == right || (left, right) in seen { return true; }
      ghost var guided := Guides(st, r, seen) && Known(r, left, right);
      if guided {
        RoomForOneMore(st, r, seen, (left, right));
        GuidedPair(st, r, left, right);
      }
      if left >= |st.types| || right >= |st.types| || |seen| >= MAX_SHAPE_WALK { return false; }
      var mark := |seen|;
      seen := seen + [(left, right)];
      var x, y := Read(st, left), Read(st, right);
      if x.None? || y.None? || x.value.head != y.value.head || |x.value.kids| != |y.value.kids| {
        seen := seen[..mark];
        return false;
      }
      var a, b := x.value.kids, y.value.kids;
      var i := 0;
      while i < |a|
        invariant 0 <= i <= |a|
        invariant old(seen) + [(left, right)] <= seen
        invariant MadeGood(st, seen, mark + 1)
        invariant forall j :: 0 <= j < i ==> Known(Assumed(seen), a[j], b[j])
        invariant guided ==> Guides(st, r, seen)
      {
        ghost var before := seen;
        var same := Match(a[i], b[i], r);
        if !same {
          assert seen[..mark] == old(seen);
          seen := seen[..mark];
          return false;
        }
        MadeGoodGrows(st, before, seen, mark + 1);
        KnownGrows(before, seen, a, b, i);
        i := i + 1;
      }
      NowJustified(st, seen, left, right);
      assert seen[mark] == (left, right);
      ok := true;
    }
  }

  lemma KnownGrows(seen: seq<Pair>, more: seq<Pair>, a: seq<nat>, b: seq<nat>, i: nat)
    requires seen <= more && i <= |a| == |b| && forall j :: 0 <= j < i ==> Known(Assumed(seen), a[j], b[j])
    ensures forall j :: 0 <= j < i ==> Known(Assumed(more), a[j], b[j])
  {
    forall x | x in seen ensures x in more { var k :| 0 <= k < |seen| && seen[k] == x; assert more[k] == x; }
  }

  lemma NowJustified(st: Storage, seen: seq<Pair>, left: nat, right: nat)
    requires var x, y := Read(st, left), Read(st, right);
             && x.Some? && y.Some? && x.value.head == y.value.head && |x.value.kids| == |y.value.kids|
             && forall j :: 0 <= j < |x.value.kids| ==> Known(Assumed(seen), x.value.kids[j], y.value.kids[j])
    ensures Justified(st, Assumed(seen), left, right)
  {
  }

  /** A pair of a bisimulation is in range, alike, and leads only to pairs of it. */
  lemma GuidedPair(st: Storage, r: set<Pair>, left: nat, right: nat)
    requires Bisimulation(st, r) && (left, right) in r
    ensures left < |st.types| && right < |st.types|
    ensures var x, y := Read(st, left), Read(st, right);
            && x.Some? && y.Some? && x.value.head == y.value.head && |x.value.kids| == |y.value.kids|
            && forall i :: 0 <= i < |x.value.kids| ==> Known(r, x.value.kids[i], y.value.kids[i])
  {
    assert Justified(st, r, (left, right).0, (left, right).1);
  }

  /** Related by a bisimulation of at most 4096 pairs. */
  ghost predicate WithinReach(st: Storage, a: nat, b: nat) {
    exists r: set<Pair> :: Bisimulation(st, r) && |r| <= 4096 && Known(r, a, b)
  }

  /**
   `shapes_match` from an empty list: true only for types that unfold alike at every depth,
   and true for all such types that a bisimulation of at most `MAX_SHAPE_WALK` pairs relates.
   */
  method ShapesMatch(st: Storage, left: nat, right: nat) returns (ok: bool)
    ensures ok ==> SameShape(st, left, right)
    ensures ok && left != right ==> RowsAlike(st, left, right)
    ensures WithinReach(st, left, right) ==> ok
  {
    ghost var r: set<Pair> := {};
    if WithinReach(st, left, right) {
      r :| Bisimulation(st, r) && |r| <= MAX_SHAPE_WALK && Known(r, left, right);
    }
    var walk := new ShapeWalk(st);
    ok := walk.Match(left, right, r);
    if ok {
      ghost var all := Assumed(walk.seen);
      assert Bisimulation(st, all) by {
        forall pair | pair in all ensures pair.0 != pair.1 && Justified(st, all, pair.0, pair.1) {
          var k :| 0 <= k < |walk.seen| && walk.seen[k] == pair;
        }
      }
      SameShapeIsBisimilarity(st, left, right);
      hide RowsAlike;
      if left != right { SameShapeIsRowsAlike(st, left, right); }
    }
  }

  /** With few enough alike pairs in the whole table, the walk decides sameness of shape. */
  lemma SmallTableDecided(st: Storage, a: nat, b: nat)
    requires |AlikePairs(st)| <= MAX_SHAPE_WALK
    ensures SameShape(st, a, b) <==> WithinReach(st, a, b)
  {
    if SameShape(st, a, b) {
      AlikePairsBisimilar(st);
      if a != b { LayersAgree(st, a, b); }
      assert Known(AlikePairs(st), a, b);
    }
    if WithinReach(st, a, b) {
      SameShapeIsBisimilarity(st, a, b);
    }
  }

  // ----- what the walk does not look at -----------------------------------------------------------

  predicate Withheld(st: Storage, a: nat, b: nat) {
    a < |st.types| && b < |st.types| && st.types[a].tag == st.types[b].tag
    && (st.types[a].tag == Func || st.types[a].tag == Param)
  }

  lemma {:induction false} AlikeMeansSame(st: Storage, a: nat, b: nat, n: nat)
    requires forall x, y :: Withheld(st, x, y) ==> SameType(st, x, y)
    requires SameShape(st, a, b)
    ensures Unfold(st, true, a, n) == Unfold(st, true, b, n)
    decreases n
  {
    hide Read, ReadFully, SameShape;
    if a == b || n == 0 {
    } else {
      LayersAgree(st, a, b);
      if Withheld(st, a, b) {
        assert SameType(st, a, b);
      } else {
        HeadsDecide(st, a, b);
        var x, y := Read(st, a).value.kids, Read(st, b).value.kids;
        forall i | 0 <= i < |x| ensures Unfold(st, true, x[i], n - 1) == Unfold(st, true, y[i], n - 1) {
          AlikeMeansSame(st, x[i], y[i], n - 1);
        }
      }
    }
  }

  lemma HeadsDecide(st: Storage, a: nat, b: nat)
    requires Read(st, a).Some? && Read(st, b).Some? && Read(st, a).value.head == Read(st, b).value.head
    requires !Withheld(st, a, b)
    ensures ReadFully(st, a) == Read(st, a) && ReadFully(st, b) == Read(st, b)
  {
  }

  lemma WithheldLookAlike(st: Storage, a: nat, b: nat)
    requires Withheld(st, a, b)
    ensures SameShape(st, a, b)
  {
    forall n: nat ensures Unfold(st, false, a, n) == Unfold(st, false, b, n) {
      if n > 0 { assert Read(st, a) == Read(st, b) == Some(Layer(LPlain(st.types[a].tag), [])); }
    }
  }

  /**
   Alike means the same type, signatures and parameters included, exactly when the table
   never tells two function values, or two type parameters, apart.
   */
  lemma AlikeIsSameExactly(st: Storage)
    ensures (forall a, b :: SameShape(st, a, b) ==> SameType(st, a, b))
       <==> (forall a, b :: Withheld(st, a, b) ==> SameType(st, a, b))
  {
    if forall a, b :: Withheld(st, a, b) ==> SameType(st, a, b) {
      forall a, b, n: nat | SameShape(st, a, b) ensures Unfold(st, true, a, n) == Unfold(st, true, b, n) {
        AlikeMeansSame(st, a, b, n);
      }
    }
    forall a, b | Withheld(st, a, b) ensures SameShape(st, a, b) { WithheldLookAlike(st, a, b); }
  }

  /** Two closures are one type exactly when their signatures are, and two parameters when their indices are. */
  lemma WithheldSameExactly(st: Storage, a: nat, b: nat)
    requires a != b && Withheld(st, a, b)
    ensures var i, j := st.types[a].data, st.types[b].data;
      && (st.types[a].tag == Param ==> (SameType(st, a, b) <==> i == j))
      && (st.types[a].tag == Func && i < |st.funcs| && j < |st.funcs| ==>
            (SameType(st, a, b) <==>
               && |st.funcs[i].params| == |st.funcs[j].params| && SameType(st, st.funcs[i].ret, st.funcs[j].ret)
               && forall k :: 0 <= k < |st.funcs[i].params| ==>
                    SameType(st, st.funcs[i].params[k], st.funcs[j].params[k])))
  {
    var i, j := st.types[a].data, st.types[b].data;
    if st.types[a].tag == Param {
      if i == j {
        forall n: nat ensures Unfold(st, true, a, n) == Unfold(st, true, b, n) {}
      } else {
        assert Unfold(st, true, a, 1) != Unfold(st, true, b, 1);
      }
    } else if i < |st.funcs| && j < |st.funcs| {
      var f, g := st.funcs[i], st.funcs[j];
      assert ReadFully(st, a) == Some(Layer(LClosure(|f.params|), f.params + [f.ret]));
      assert ReadFully(st, b) == Some(Layer(LClosure(|g.params|), g.params + [g.ret]));
      hide ReadFully;
      KidsSame(st, a, b);
      var x, y := f.params + [f.ret], g.params + [g.ret];
      hide SameType;
      assert x[|f.params|] == f.ret && y[|g.params|] == g.ret;
      assert forall k :: 0 <= k < |f.params| ==> x[k] == f.params[k];
      assert forall k :: 0 <= k < |g.params| ==> y[k] == g.params[k];
    }
  }

  lemma KidsSame(st: Storage, a: nat, b: nat)
    requires a != b && ReadFully(st, a).Some? && ReadFully(st, b).Some?
    ensures var x, y := ReadFully(st, a).value, ReadFully(st, b).value;
      SameType(st, a, b) <==>
        && x.head == y.head && |x.kids| == |y.kids|
        && forall i :: 0 <= i < |x.kids| ==> SameType(st, x.kids[i], y.kids[i])
  {
    hide ReadFully;
    var x, y := ReadFully(st, a).value, ReadFully(st, b).value;
    if SameType(st, a, b) {
      assert Unfold(st, true, a, 1) == Unfold(st, true, b, 1);
      var u, v := Unfold(st, true, a, 1).kids, Unfold(st, true, b, 1).kids;
      assert |u| == |x.kids| && |v| == |y.kids|;
      forall i, n: nat | 0 <= i < |x.kids|
        ensures Unfold(st, true, x.kids[i], n) == Unfold(st, true, y.kids[i], n)
      {
        assert Unfold(st, true, a, n + 1) == Unfold(st, true, b, n + 1);
        assert Unfold(st, true, a, n + 1).kids[i] == Unfold(st, true, b, n + 1).kids[i];
      }
    } else if x.head == y.head && |x.kids| == |y.kids|
      && forall i :: 0 <= i < |x.kids| ==> SameType(st, x.kids[i], y.kids[i])
    {
      forall n: nat ensures Unfold(st, true, a, n) == Unfold(st, true, b, n) {
        if n > 0 {
          forall i | 0 <= i < |x.kids|
            ensures Unfold(st, true, x.kids[i], n - 1) == Unfold(st, true, y.kids[i], n - 1)
          {
            assert SameType(st, x.kids[i], y.kids[i]);
          }
        }
      }
    }
  }

  /** `fn() -> bool` and `fn() -> u8` as field types: the walk answers that they match, and they are two types. */
  lemma SignaturesLookAlike()
    ensures WithinReach(TWO_CLOSURES, 2, 3) && SameShape(TWO_CLOSURES, 2, 3) && !SameType(TWO_CLOSURES, 2, 3)
  {
    ClosuresWithinReach();
    hide Unfold, Read, ReadFully;
    WithheldLookAlike(TWO_CLOSURES, 2, 3);
    ClosureResult(0);
    ClosureResult(1);
    assert Unfold(TWO_CLOSURES, true, 2, 2) != Unfold(TWO_CLOSURES, true, 3, 2);
  }

  const TWO_CLOSURES := Storage(
    [TypeNode(I1, 0), TypeNode(U8, 0), TypeNode(Func, 0), TypeNode(Func, 1)],
    [], [], [], [], [], [], [], [FuncType([], 0), FuncType([], 1)], [])

  lemma ClosuresWithinReach()
    ensures WithinReach(TWO_CLOSURES, 2, 3)
  {
    var r: set<Pair> := {(2, 3)};
    assert Read(TWO_CLOSURES, 2) == Some(Layer(LPlain(Func), []));
    assert Read(TWO_CLOSURES, 3) == Some(Layer(LPlain(Func), []));
    hide Read;
    assert Justified(TWO_CLOSURES, r, 2, 3);
    assert Bisimulation(TWO_CLOSURES, r) && Known(r, 2, 3) && |r| <= MAX_SHAPE_WALK;
  }

  lemma ClosureResult(i: nat)
    requires i < 2
    ensures var tree := Unfold(TWO_CLOSURES, true, 2 + i, 2);
      tree.Node? && |tree.kids| == 1 && tree.kids[0].Node? && tree.kids[0].head == LPlain(if i == 0 then I1 else U8)
  {
    var none: seq<nat> := [];
    assert none + [i] == [i];
    assert ReadFully(TWO_CLOSURES, 2 + i) == Some(Layer(LClosure(0), [i]));
    assert Unfold(TWO_CLOSURES, true, i, 1).head == LPlain(if i == 0 then I1 else U8);
    assert Unfold(TWO_CLOSURES, true, 2 + i, 2).kids[0] == Unfold(TWO_CLOSURES, true, i, 1);
  }
}
