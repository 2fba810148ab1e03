/**
 Assignment through a place: the lens laws of nested field and index paths, what a compound
 assignment computes, and exactly when a read sees the binding an assignment wrote.
 */
module Places {
  import opened Machine
  import opened Lang
  import opened Semantics

  // ----- paths into one value -------------------------------------------------------------------

  /** Two paths part ways at some common prefix. */
  predicate Diverge(a: seq<nat>, b: seq<nat>) {
    a != [] && b != [] && (a[0] != b[0] || Diverge(a[1..], b[1..]))
  }

  /** Reading what was written; the write reaches a place that was there. */
  lemma {:induction false} WriteThenRead(v: Value, path: seq<nat>, x: Value, below: seq<nat>)
    requires ReadPath(v, path).Some?
    ensures ReadPath(WritePath(v, path, x), path + below) == ReadPath(x, below)
  {
    if path == [] {
      assert path + below == below;
    } else {
      WriteThenRead(v.fields[path[0]], path[1..], x, below);
      assert (path + below)[1..] == path[1..] + below;
    }
  }

  /** Every place the path does not lead to or through reads as before. */
  lemma {:induction false} WriteElsewhere(v: Value, path: seq<nat>, x: Value, other: seq<nat>)
    requires Diverge(path, other)
    ensures ReadPath(WritePath(v, path, x), other) == ReadPath(v, other)
  {
    if Aggregate(v) && path[0] < |v.fields| && path[0] == other[0] {
      WriteElsewhere(v.fields[path[0]], path[1..], x, other[1..]);
    }
  }

  /** Writing back what is there changes nothing. */
  lemma {:induction false} WriteBack(v: Value, path: seq<nat>)
    requires ReadPath(v, path).Some?
    ensures WritePath(v, path, ReadPath(v, path).value) == v
  {
    if path != [] {
      WriteBack(v.fields[path[0]], path[1..]);
      assert v.fields[path[0] := v.fields[path[0]]] == v.fields;
    }
  }

  /** Of two writes the second stands. */
  lemma {:induction false} WriteTwice(v: Value, path: seq<nat>, x: Value, y: Value)
    ensures WritePath(WritePath(v, path, x), path, y) == WritePath(v, path, y)
  {
    if path != [] && Aggregate(v) && path[0] < |v.fields| {
      var i, fs := path[0], v.fields;
      var a, b := WritePath(fs[i], path[1..], x), WritePath(fs[i], path[1..], y);
      WriteTwice(fs[i], path[1..], x, y);
      assert fs[i := a][i := b] == fs[i := b];
      assert WritePath(v, path, x) == SetField(v, i, a);
      assert SetField(v, i, a).fields == fs[i := a];
    }
  }

  /** Two values of one construction: the same kind, variant and number of fields. */
  predicate SameKind(a: Value, b: Value) {
    && Aggregate(a) && Aggregate(b) && |a.fields| == |b.fields|
    && (a.VTuple? <==> b.VTuple?) && (a.VArray? <==> b.VArray?) && (a.VStruct? <==> b.VStruct?)
    && (a.VEnum? ==> b.VEnum? && a.variant == b.variant)
  }

  /** The aggregates a write passes through keep their kind, variant and number of fields. */
  lemma {:induction false} WriteKeepsAggregates(v: Value, path: seq<nat>, x: Value, k: nat)
    requires ReadPath(v, path).Some? && k < |path|
    ensures var a, b := ReadPath(v, path[..k]), ReadPath(WritePath(v, path, x), path[..k]);
      a.Some? && b.Some? && SameKind(a.value, b.value)
    decreases |path|
  {
    if k == 0 {
      assert path[..0] == [];
    } else {
      assert path[..k][0] == path[0] && path[..k][1..] == path[1..][..k - 1];
      WriteKeepsAggregates(v.fields[path[0]], path[1..], x, k - 1);
    }
  }

  // ----- places in a scope ----------------------------------------------------------------------

  /** The lens laws of a place: get-put, put-get, put-put, and no effect anywhere else. */
  lemma PlaceLens(s: Scope, pl: Place, x: Value, y: Value, other: Place)
    requires ReadPlace(s, pl).Some?
    ensures ReadPlace(WritePlace(s, pl, x), pl) == Some(x)
    ensures WritePlace(s, pl, ReadPlace(s, pl).value) == s
    ensures WritePlace(WritePlace(s, pl, x), pl, y) == WritePlace(s, pl, y)
    ensures pl.loc != other.loc || Diverge(pl.path, other.path) ==>
              ReadPlace(WritePlace(s, pl, x), other) == ReadPlace(s, other)
    ensures forall k :: 0 <= k < |pl.path| ==>
      var above := pl.(path := pl.path[..k]);
      var was, now := ReadPlace(s, above), ReadPlace(WritePlace(s, pl, x), above);
      was.Some? && now.Some? && SameKind(was.value, now.value)
  {
    var v := At(s, pl.loc).value;
    WriteThenRead(v, pl.path, x, []);
    assert pl.path + [] == pl.path;
    WriteBack(v, pl.path);
    WriteTwice(v, pl.path, x, y);
    if Diverge(pl.path, other.path) { WriteElsewhere(v, pl.path, x, other.path); }
    forall k | 0 <= k < |pl.path|
      ensures var a, b := ReadPath(v, pl.path[..k]), ReadPath(WritePath(v, pl.path, x), pl.path[..k]);
        a.Some? && b.Some? && SameKind(a.value, b.value)
    {
      WriteKeepsAggregates(v, pl.path, x, k);
    }
    hide SameKind, ReadPath, WritePath;
    PutPut(s, pl.loc, v, v);
    PutPut(s, pl.loc, WritePath(v, pl.path, x), WritePath(v, pl.path, y));
  }

  lemma PutPut(s: Scope, l: Loc, v: Value, w: Value)
    requires HasLoc(s, l)
    ensures HasLoc(Put(s, l, v), l) && At(Put(s, l, v), l) == At(s, l).(value := v)
    ensures Put(Put(s, l, v), l, w) == Put(s, l, w)
    ensures Put(s, l, At(s, l).value) == s
  {
    match l
    case InFrame(i, j) =>
      var f := s.frames[i];
      assert f[j := f[j]] == f;
      assert s.frames[i := f] == s.frames;
      var g := f[j := f[j].(bound := f[j].bound.(value := v))];
      assert g[j := g[j].(bound := g[j].bound.(value := w))] == f[j := f[j].(bound := f[j].bound.(value := w))];
      assert s.frames[i := g][i := f] == s.frames;
    case InOuter(j) =>
      assert s.outer[j := s.outer[j]] == s.outer;
  }

  /** `x op= y` writes what the binary expression over the place's value answers, or refuses as it does. */
  lemma CompoundIsReadApplyWrite(p: Package, s: Scope, pl: Place, op: BinaryOp, v: Typed, t: TypeIdx)
    requires op in {Add, Sub, Mul, Div, Mod, Pow, BitAnd, BitOr, BitXor, Shl, Shr}
    requires ReadPlace(s, pl).Some?
    ensures var held := Typed(ReadPlace(s, pl).value, pl.ty);
            Assigned(p, s, pl, Some(op), v) ==
            match BinaryAnswer(p, t, op, [held, v])
            case Val(w) => Assigned(p, s, pl, None, w)
            case o => Answer(o, s)
  {
    hide Apply;
  }

  // ----- reads and assignments of one name ------------------------------------------------------------

  lemma {:induction false} FirstFacts(f: Frame, name: string)
    ensures match FirstIn(f, name)
            case None => forall k :: 0 <= k < |f| ==> f[k].name != name
            case Some(i) => i < |f| && f[i].name == name && forall k :: 0 <= k < i ==> f[k].name != name
  {
    if f != [] && f[0].name != name { FirstFacts(f[1..], name); }
  }

  lemma {:induction false} LastFacts(f: Frame, name: string)
    ensures match LastIn(f, name)
            case None => forall k :: 0 <= k < |f| ==> f[k].name != name
            case Some(i) => i < |f| && f[i].name == name && forall k :: i < k < |f| ==> f[k].name != name
  {
    if f != [] && f[|f| - 1].name != name { LastFacts(f[..|f| - 1], name); }
  }

  function FrameAt(s: Scope, l: Loc): Frame
    requires HasLoc(s, l)
  {
    match l case InFrame(i, _) => s.frames[i] case InOuter(_) => s.outer
  }

  /** The frame that answers for a name holds it once. */
  predicate OncePerFrame(f: Frame, name: string) {
    forall i, j :: 0 <= i < |f| && 0 <= j < |f| && f[i].name == name && f[j].name == name ==> i == j
  }

  lemma {:induction false} SameBinding(s: Scope, name: string)
    ensures PlaceOf(s, name).Some? <==> LookupOf(s, name).Some?
    ensures PlaceOf(s, name).Some? ==>
              && HasLoc(s, PlaceOf(s, name).value) && HasLoc(s, LookupOf(s, name).value)
              && FrameAt(s, LookupOf(s, name).value) == FrameAt(s, PlaceOf(s, name).value)
              && (PlaceOf(s, name) == LookupOf(s, name) <==> OncePerFrame(FrameAt(s, PlaceOf(s, name).value), name))
    decreases |s.frames|
  {
    if s.frames == [] {
      FirstFacts(s.outer, name);
      LastFacts(s.outer, name);
    } else {
      var i := |s.frames| - 1;
      FirstFacts(s.frames[i], name);
      LastFacts(s.frames[i], name);
      SameBinding(s.(frames := s.frames[..i]), name);
    }
  }

  lemma LastByNames(f: Frame, g: Frame, name: string)
    requires |f| == |g| && forall k :: 0 <= k < |f| ==> f[k].name == g[k].name
    ensures LastIn(f, name) == LastIn(g, name)
  {
    LastFacts(f, name);
    LastFacts(g, name);
  }

  /** An assignment keeps every name where it was, so lookups go to the same binding as before. */
  lemma {:induction false} PutKeepsLookup(s: Scope, l: Loc, v: Value, name: string)
    requires HasLoc(s, l)
    ensures LookupOf(Put(s, l, v), name) == LookupOf(s, name)
    decreases |s.frames|
  {
    var s' := Put(s, l, v);
    if s.frames == [] {
      LastByNames(s.outer, s'.outer, name);
    } else {
      var i := |s.frames| - 1;
      LastByNames(s.frames[i], s'.frames[i], name);
      var low := s.(frames := s.frames[..i]);
      if l.InFrame? && l.frame == i {
        assert s'.(frames := s'.frames[..i]) == low;
      } else {
        assert s'.(frames := s'.frames[..i]) == Put(low, l, v);
        PutKeepsLookup(low, l, v, name);
      }
    }
  }

  /**
   After `name = x`, reading `name` answers `x` for every `x` exactly when the frame that
   holds the name holds it once. The parser's renaming gives every binding of a frame its
   own name; without it, the assignment reaches the first binding and the read the last.
   */
  lemma AssignThenReadExactly(s: Scope, name: string)
    requires PlaceOf(s, name).Some?
    ensures HasLoc(s, PlaceOf(s, name).value)
    ensures var pl := Place(PlaceOf(s, name).value, [], At(s, PlaceOf(s, name).value).ty);
            (forall x :: Lookup(WritePlace(s, pl, x), name) == Some(Typed(x, pl.ty)))
            <==> OncePerFrame(FrameAt(s, pl.loc), name)
  {
    SameBinding(s, name);
    var l, r := PlaceOf(s, name).value, LookupOf(s, name).value;
    var pl := Place(l, [], At(s, l).ty);
    forall x
      ensures Lookup(WritePlace(s, pl, x), name) == Some(if l == r then Typed(x, pl.ty) else At(s, r))
    {
      PutKeepsLookup(s, l, x, name);
      PutPut(s, l, x, x);
    }
    if l != r {
      var x := if At(s, r).value == VVoid then VBool(true) else VVoid;
      assert Lookup(WritePlace(s, pl, x), name) != Some(Typed(x, pl.ty));
    }
  }

  /** A frame with a repeated name: the assignment is invisible to the next read. */
  lemma RepeatedNameLosesWrite()
    ensures var s := Scope([], [[Binding("x", Typed(VInt(1), 0)), Binding("x", Typed(VInt(2), 0))]]);
            && PlaceOf(s, "x") == Some(InFrame(0, 0))
            && Lookup(WritePlace(s, Place(InFrame(0, 0), [], 0), VInt(9)), "x") == Some(Typed(VInt(2), 0))
  {
    var f := [Binding("x", Typed(VInt(1), 0)), Binding("x", Typed(VInt(2), 0))];
    var s := Scope([], [f]);
    assert FirstIn(f, "x") == Some(0);
    var s' := WritePlace(s, Place(InFrame(0, 0), [], 0), VInt(9));
    assert s'.frames[0][1] == f[1];
    assert LastIn(s'.frames[0], "x") == Some(1);
  }
}
