/**
 Spelling the types of a summary back into syntax (src/analyzer/summary.cc, spell_type and
 the nominal tables of spell_summary_surface). Reading a spelled type back, with each path
 standing for the row it names, gives a type of the same shape.
 */
module Spelling {
  import opened Machine
  import opened Lang
  import opened Shapes

  datatype Syntax =
    | SUnit | SNever | SStr
    | SPrimitive(tag: Tag)
    | SRef(mutable: bool, inner: Syntax)
    | SSlice(inner: Syntax)
    | SArray(inner: Syntax, count: nat)
    | STuple(elements: seq<Syntax>)
    | SFunc(params: seq<Syntax>, ret: Syntax)
    | SPath(segments: seq<string>)

  /** Where a nominal row's declaration is spelled: a dotted module path and a name. */
  datatype Site = Site(path: string, name: string)

  /** The nominal rows by type, and the same rows by the name their shape carries. */
  datatype Rows = Rows(st: Storage, sites: map<nat, Site>, byName: map<nat, seq<nat>>)

  // ----- paths --------------------------------------------------------------------------------

  function Dot(s: string): nat
    ensures Dot(s) <= |s|
  {
    if s == [] || s[0] == '.' then 0 else 1 + Dot(s[1..])
  }

  /** The segments between the dots; nothing follows a trailing dot. */
  function Split(path: string): seq<string>
    decreases |path|
  {
    if path == [] then []
    else if Dot(path) == |path| then [path]
    else [path[..Dot(path)]] + Split(path[Dot(path) + 1..])
  }

  function Segments(site: Site): seq<string> { ["package"] + Split(site.path) + [site.name] }

  /** Each segment followed by a dot. */
  function Dotted(segments: seq<string>): string {
    if segments == [] then "" else segments[0] + "." + Dotted(segments[1..])
  }

  predicate Dotless(segment: string) { forall i :: 0 <= i < |segment| ==> segment[i] != '.' }

  /** From `package` down to the declaration's name; between them stand the dotless parts of the module's path. */
  ghost predicate Leads(s: Syntax, site: Site) {
    && s.SPath? && |s.segments| >= 2 && s.segments[0] == "package" && s.segments[|s.segments| - 1] == site.name
    && var between := s.segments[1..|s.segments| - 1];
       && (forall i :: 0 <= i < |between| ==> Dotless(between[i]))
       && var ended := site.path == "" || site.path[|site.path| - 1] == '.';
          Dotted(between) == if ended then site.path else site.path + "."
  }

  lemma {:induction false} DotIsFirst(s: string)
    ensures Dotless(s[..Dot(s)]) && (Dot(s) < |s| ==> s[Dot(s)] == '.')
    decreases |s|
  {
    if s != [] && s[0] != '.' {
      DotIsFirst(s[1..]);
      assert s[..Dot(s)] == [s[0]] + s[1..][..Dot(s[1..])];
    }
  }

  lemma {:induction false} SplitSpells(path: string)
    ensures forall i :: 0 <= i < |Split(path)| ==> Dotless(Split(path)[i])
    ensures Dotted(Split(path)) ==
      if path == "" || path[|path| - 1] == '.' then path else path + "."
    decreases |path|
  {
    if path != [] {
      var dot := Dot(path);
      DotIsFirst(path);
      if dot == |path| {
        assert path[..dot] == path && [path][1..] == [];
        assert path + "." + "" == path + ".";
      } else {
        var rest := path[dot + 1..];
        SplitSpells(rest);
        assert ([path[..dot]] + Split(rest))[1..] == Split(rest);
        assert path == path[..dot] + "." + rest;
      }
    }
  }

  lemma SegmentsLead(site: Site)
    ensures Leads(SPath(Segments(site)), site)
  {
    SplitSpells(site.path);
    hide Split, Dotted, Dotless;
    var all := Segments(site);
    assert all[1..|all| - 1] == Split(site.path);
  }

  method SpellNominalPath(site: Site) returns (s: Syntax)
    ensures s == SPath(Segments(site))
    ensures Leads(s, site)
  {
    var segments := ["package"];
    var rest := site.path;
    while rest != []
      invariant ["package"] + Split(site.path) == segments + Split(rest)
      decreases |rest|
    {
      var dot := Dot(rest);
      ghost var before := segments;
      segments := segments + [rest[..dot]];
      assert dot == |rest| ==> rest[..dot] == rest;
      assert before + ([rest[..dot]] + if dot == |rest| then [] else Split(rest[dot + 1..]))
          == segments + if dot == |rest| then [] else Split(rest[dot + 1..]);
      rest := if dot == |rest| then [] else rest[dot + 1..];
    }
    s := SPath(segments + [site.name]);
    SegmentsLead(site);
  }

  // ----- the nominal tables -----------------------------------------------------------------------

  function ShapeName(st: Storage, t: nat): Option<nat> {
    if t >= |st.types| then None
    else
      var node := st.types[t];
      if node.tag == Struct && node.data < |st.structs| then Some(st.structs[node.data].name)
      else if node.tag == Enum && node.data < |st.enums| then Some(st.enums[node.data].name)
      else None
  }

  datatype SummaryRow = SummaryRow(nominal: bool, needsBody: bool, ty: Option<nat>, site: Site)

  predicate Eligible(row: SummaryRow) { row.nominal && !row.needsBody && row.ty.Some? }

  /** Every row a name lists is a row, under that name; every row with a name is listed. */
  ghost predicate Indexed(rows: Rows) {
    && (forall name, i :: name in rows.byName && 0 <= i < |rows.byName[name]| ==>
          rows.byName[name][i] in rows.sites && ShapeName(rows.st, rows.byName[name][i]) == Some(name))
    && (forall t :: t in rows.sites && ShapeName(rows.st, t).Some? ==>
          ShapeName(rows.st, t).value in rows.byName && t in rows.byName[ShapeName(rows.st, t).value])
  }

  /** Row `i` is the first of a struct or enum, with its body not needed, at this type. */
  ghost predicate FirstRow(summary: seq<SummaryRow>, t: nat, i: nat) {
    && i < |summary| && summary[i].nominal && !summary[i].needsBody && summary[i].ty == Some(t)
    && forall j :: 0 <= j < i ==> !(summary[j].nominal && !summary[j].needsBody && summary[j].ty == Some(t))
  }

  /** The types of such rows under a name, repeated as often as they are listed. */
  function TypesNamed(st: Storage, summary: seq<SummaryRow>, name: nat): seq<nat> {
    if summary == [] then []
    else
      var row := summary[|summary| - 1];
      var front := TypesNamed(st, summary[..|summary| - 1], name);
      if row.nominal && !row.needsBody && row.ty.Some? && ShapeName(st, row.ty.value) == Some(name)
      then front + [row.ty.value] else front
  }

  lemma ShapeNamed(st: Storage, t: nat)
    ensures forall name :: ShapeName(st, t) == Some(name) <==>
      && t < |st.types|
      && var i := st.types[t].data;
         || (st.types[t].tag == Struct && i < |st.structs| && st.structs[i].name == name)
         || (st.types[t].tag == Enum && i < |st.enums| && st.enums[i].name == name)
  {
  }

  /** Each type that has a row before `n` has the site of the first. */
  ghost predicate SitesAre(summary: seq<SummaryRow>, sites: map<nat, Site>, n: nat) {
    && (forall t, k: nat :: FirstRow(summary, t, k) && k < n ==> t in sites && sites[t] == summary[k].site)
    && forall t :: t in sites ==> exists k: nat :: FirstRow(summary, t, k) && k < n
  }

  ghost predicate NamesAre(st: Storage, summary: seq<SummaryRow>, byName: map<nat, seq<nat>>) {
    forall name :: (if name in byName then byName[name] else []) == TypesNamed(st, summary, name)
  }

  /** The two tables of one surface, filled row by row; a repeated type keeps its first site. */
  method BuildRows(st: Storage, summary: seq<SummaryRow>) returns (rows: Rows)
    ensures rows.st == st && Indexed(rows)
    ensures SitesAre(summary, rows.sites, |summary|) && NamesAre(st, summary, rows.byName)
  {
    hide ShapeName, SitesAre, NamesAre;
    rows := Rows(st, map[], map[]);
    NothingListed(st, summary);
    var i := 0;
    while i < |summary|
      invariant 0 <= i <= |summary|
      invariant rows.st == st && Indexed(rows)
      invariant SitesAre(summary, rows.sites, i) && NamesAre(st, summary[..i], rows.byName)
    {
      SitesMore(summary, rows.sites, i);
      NamesMore(st, summary, rows.byName, i);
      if Eligible(summary[i]) {
        var t := summary[i].ty.value;
        var sites := if t in rows.sites then rows.sites else rows.sites[t := summary[i].site];
        var name := ShapeName(st, t);
        if name.Some? {
          var old' := if name.value in rows.byName then rows.byName[name.value] else [];
          rows := Rows(st, sites, rows.byName[name.value := old' + [t]]);
        } else {
          rows := Rows(st, sites, rows.byName);
        }
      }
      i := i + 1;
    }
    assert summary[..i] == summary;
  }

  lemma NothingListed(st: Storage, summary: seq<SummaryRow>)
    ensures SitesAre(summary, map[], 0) && NamesAre(st, summary[..0], map[])
  {
  }

  lemma SitesMore(summary: seq<SummaryRow>, sites: map<nat, Site>, i: nat)
    requires i < |summary| && SitesAre(summary, sites, i)
    ensures !Eligible(summary[i]) ==> SitesAre(summary, sites, i + 1)
    ensures Eligible(summary[i]) ==>
      var t := summary[i].ty.value;
      SitesAre(summary, if t in sites then sites else sites[t := summary[i].site], i + 1)
  {
    if Eligible(summary[i]) {
      var t := summary[i].ty.value;
      FirstAt(summary, t, i);
      hide Eligible;
      forall k: nat | FirstRow(summary, t, k) && k < i ensures !FirstRow(summary, t, i) {}
    }
  }

  lemma NamesMore(st: Storage, summary: seq<SummaryRow>, byName: map<nat, seq<nat>>, i: nat)
    requires i < |summary| && NamesAre(st, summary[..i], byName)
    ensures !Eligible(summary[i]) || ShapeName(st, summary[i].ty.value).None? ==>
      NamesAre(st, summary[..i + 1], byName)
    ensures Eligible(summary[i]) && ShapeName(st, summary[i].ty.value).Some? ==>
      var t := summary[i].ty.value;
      var name := ShapeName(st, t).value;
      NamesAre(st, summary[..i + 1], byName[name := (if name in byName then byName[name] else []) + [t]])
  {
    hide ShapeName;
    assert summary[..i + 1][..i] == summary[..i];
  }

  /** A row that qualifies is the first of its type, or comes after it. */
  lemma FirstAt(summary: seq<SummaryRow>, t: nat, i: nat)
    requires i < |summary| && Eligible(summary[i]) && summary[i].ty == Some(t)
    ensures FirstRow(summary, t, i) || exists k: nat :: FirstRow(summary, t, k) && k < i
  {
    if !FirstRow(summary, t, i) {
      var j :| 0 <= j < i && summary[j].nominal && !summary[j].needsBody && summary[j].ty == Some(t);
      FirstAt(summary, t, j);
    }
  }

  // ----- reading syntax back ----------------------------------------------------------------------

  predicate IsPrimitive(tag: Tag) {
    tag in {I1, I8, I16, I32, I64, U8, U16, U32, U64, F32, F64}
  }

  /** What a piece of syntax other than a path shows of the type it writes. */
  function Head(s: Syntax): Label {
    match s
    case SUnit => LPlain(Void)
    case SNever => LPlain(Never)
    case SStr => LPlain(Str)
    case SPrimitive(tag) => LPlain(tag)
    case SRef(mutable, _) => LPointer(if mutable then MutRef else Ref)
    case SSlice(_) => LSlice
    case SArray(_, count) => LArray(count)
    case STuple(es) => LTuple(|es|)
    case SFunc(ps, _) => LFunction(|ps|)
    case SPath(_) => LPlain(Tag.Error)
  }

  /** The types written inside it, a function's result last. */
  function Parts(s: Syntax): seq<Syntax> {
    match s
    case SRef(_, inner) => [inner]
    case SSlice(inner) => [inner]
    case SArray(inner, _) => [inner]
    case STuple(es) => es
    case SFunc(ps, ret) => ps + [ret]
    case SUnit | SNever | SStr | SPrimitive(_) | SPath(_) => []
  }

  /** The trees a piece of syntax can stand for, to depth `n`; `fully` as in an unfolding. */
  ghost predicate Denotes(rows: Rows, fully: bool, s: Syntax, n: nat, tree: Tree)
    decreases n
  {
    if n == 0 then tree == Cut
    else if s.SPath? then
      exists row :: row in rows.sites && Segments(rows.sites[row]) == s.segments &&
        tree == Unfold(rows.st, fully, row, n)
    else
      && tree.Node? && tree.head == Head(s) && |tree.kids| == |Parts(s)|
      && forall i :: 0 <= i < |Parts(s)| ==> Denotes(rows, fully, Parts(s)[i], n - 1, tree.kids[i])
  }

  /** Rows spelled by one path are of one shape, so a path is read one way only. */
  ghost predicate PathsTellApart(rows: Rows) {
    forall a, b :: a in rows.sites && b in rows.sites && Segments(rows.sites[a]) == Segments(rows.sites[b]) ==>
      SameShape(rows.st, a, b)
  }

  lemma {:induction false} OneReading(rows: Rows, s: Syntax, n: nat, u: Tree, v: Tree)
    requires PathsTellApart(rows) && Denotes(rows, false, s, n, u) && Denotes(rows, false, s, n, v)
    ensures u == v
    decreases n
  {
    hide Segments;
    if n == 0 {
    } else if s.SPath? {
      var a :| a in rows.sites && Segments(rows.sites[a]) == s.segments && u == Unfold(rows.st, false, a, n);
      var b :| b in rows.sites && Segments(rows.sites[b]) == s.segments && v == Unfold(rows.st, false, b, n);
      assert SameShape(rows.st, a, b);
    } else {
      hide Unfold, PathsTellApart, Head, Parts;
      forall i | 0 <= i < |Parts(s)| ensures u.kids[i] == v.kids[i] {
        OneReading(rows, Parts(s)[i], n - 1, u.kids[i], v.kids[i]);
      }
      assert u.kids == v.kids;
    }
  }

  // ----- spelling ---------------------------------------------------------------------------------

  predicate Structural(tag: Tag) {
    tag == Ref || tag == MutRef || tag == Slice || tag == Array || tag == Tuple || tag == Function
  }

  function Height(rank: seq<nat>, t: nat): nat { if t < |rank| then rank[t] + 1 else 0 }

  /**
   Structural nodes are whole and rest on their parts: a cycle passes through a nominal. The
   rank is any witness of that, such as the order the nodes were laid down in; without one the
   source's own recursion does not end.
   */
  ghost predicate Laid(st: Storage, rank: seq<nat>) {
    && |rank| == |st.types|
    && forall t :: 0 <= t < |st.types| && Structural(st.types[t].tag) ==>
         && Read(st, t).Some?
         && forall i :: 0 <= i < |Read(st, t).value.kids| ==> Height(rank, Read(st, t).value.kids[i]) < Height(rank, t)
  }

  /** Read back, the syntax stands for the type: its shape, or with `fully` everything the table says of it. */
  ghost predicate ReadsBack(rows: Rows, fully: bool, s: Syntax, t: nat) {
    forall n :: Denotes(rows, fully, s, n, Unfold(rows.st, fully, t, n))
  }

  ghost predicate Faithful(rows: Rows, s: Syntax, t: nat) { ReadsBack(rows, false, s, t) }

  /** Types of one shape are one type; `Shapes.AlikeIsSameExactly` says when. */
  ghost predicate ToldApart(st: Storage) { forall a, b :: SameShape(st, a, b) ==> SameType(st, a, b) }

  /** What a spelling promises: the shape always, the whole type where shapes tell types apart. */
  ghost predicate Spelled(rows: Rows, s: Syntax, t: nat) {
    Faithful(rows, s, t) && (ToldApart(rows.st) ==> ReadsBack(rows, true, s, t))
  }

  /** Two rows listed apart that the walk would both match: the spelling cannot choose. */
  ghost predicate Ambiguous(rows: Rows, t: nat) {
    && t < |rows.st.types| && t !in rows.sites
    && ShapeName(rows.st, t).Some? && ShapeName(rows.st, t).value in rows.byName
    && var list := rows.byName[ShapeName(rows.st, t).value];
       exists i, j :: 0 <= i < j < |list| && WithinReach(rows.st, t, list[i]) && WithinReach(rows.st, t, list[j])
  }

  /** A declaration's own row, or a copy of exactly one: some candidate is in reach, the rest differ. */
  ghost predicate Nameable(rows: Rows, t: nat) {
    || t in rows.sites
    || (&& ShapeName(rows.st, t).Some? && ShapeName(rows.st, t).value in rows.byName
        && var list := rows.byName[ShapeName(rows.st, t).value];
           exists i :: 0 <= i < |list| && WithinReach(rows.st, t, list[i])
                    && forall j :: 0 <= j < |list| && j != i ==> !SameShape(rows.st, t, list[j]))
  }

  /** Types that are built from plain tags and nameable nominals alone. */
  ghost predicate Sayable(rows: Rows, rank: seq<nat>, t: nat)
    requires Laid(rows.st, rank)
    decreases Height(rank, t)
  {
    && t < |rows.st.types|
    && var tag := rows.st.types[t].tag;
       if tag == Struct || tag == Enum then Nameable(rows, t)
       else if Structural(tag) then
         var kids := Read(rows.st, t).value.kids;
         forall i :: 0 <= i < |kids| ==> Sayable(rows, rank, kids[i])
       else tag in {Void, Never, Str, I1, I8, I16, I32, I64, U8, U16, U32, U64, F32, F64}
  }

  /** The path of a row of the type's shape: the type's own row where it has one. */
  ghost predicate NamesRow(rows: Rows, s: Syntax, t: nat) {
    exists row :: row in rows.sites && Leads(s, rows.sites[row]) && SameShape(rows.st, t, row)
               && (t in rows.sites ==> row == t)
  }

  /** The syntax that says, tag by tag, what the table holds; a nominal is said by the path of a row. */
  ghost predicate Says(rows: Rows, s: Syntax, t: nat)
    decreases s
  {
    && t < |rows.st.types|
    && var st, i := rows.st, rows.st.types[t].data;
       match rows.st.types[t].tag
       case Void => s == SUnit
       case Never => s == SNever
       case Str => s == SStr
       case I1 | I8 | I16 | I32 | I64 | U8 | U16 | U32 | U64 | F32 | F64 => s == SPrimitive(st.types[t].tag)
       case Ref => s.SRef? && !s.mutable && i < |st.refs| && Says(rows, s.inner, st.refs[i])
       case MutRef => s.SRef? && s.mutable && i < |st.refs| && Says(rows, s.inner, st.refs[i])
       case Slice => s.SSlice? && i < |st.slices| && Says(rows, s.inner, st.slices[i])
       case Array =>
         s.SArray? && i < |st.arrays| && s.count == st.arrays[i].count && Says(rows, s.inner, st.arrays[i].element)
       case Tuple =>
         && s.STuple? && i < |st.tuples| && |s.elements| == |st.tuples[i]|
         && forall k :: 0 <= k < |s.elements| ==> Says(rows, s.elements[k], st.tuples[i][k])
       case Function =>
         && s.SFunc? && i < |st.funcs| && |s.params| == |st.funcs[i].params| && Says(rows, s.ret, st.funcs[i].ret)
         && forall k :: 0 <= k < |s.params| ==> Says(rows, s.params[k], st.funcs[i].params[k])
       case Struct | Enum => NamesRow(rows, s, t)
       case _ => false
  }

  method SpellNominal(rows: Rows, t: nat) returns (s: Option<Syntax>)
    requires Indexed(rows) && t < |rows.st.types|
    ensures s.Some? ==> Spelled(rows, s.value, t)
    ensures Ambiguous(rows, t) ==> s.None?
    ensures Nameable(rows, t) ==> s.Some?
    ensures t in rows.sites ==> s == Some(SPath(Segments(rows.sites[t])))
    ensures s.Some? ==> NamesRow(rows, s.value, t)
  {
    hide ShapeName, Segments, Unfold, Leads;
    if t in rows.sites {
      var path := SpellNominalPath(rows.sites[t]);
      RowSpelled(rows, t, t);
      return Some(path);
    }
    var name := ShapeName(rows.st, t);
    if name.None? || name.value !in rows.byName { return None; }
    var list := rows.byName[name.value];
    var matched: Option<nat> := None;
    var i := 0;
    while i < |list|
      invariant 0 <= i <= |list|
      invariant matched.Some? ==> matched.value in rows.sites && SameShape(rows.st, t, matched.value)
      invariant matched.Some? ==> exists k :: 0 <= k < i && list[k] == matched.value
      invariant matched.None? ==> forall k :: 0 <= k < i ==> !WithinReach(rows.st, t, list[k])
      invariant matched.Some? ==> forall k, l :: 0 <= k < l < i ==>
        !(WithinReach(rows.st, t, list[k]) && WithinReach(rows.st, t, list[l]))
    {
      var same := ShapesMatch(rows.st, t, list[i]);
      if same {
        if matched.Some? { return None; }
        matched := Some(list[i]);
      }
      i := i + 1;
    }
    if matched.None? { return None; }
    var path := SpellNominalPath(rows.sites[matched.value]);
    RowSpelled(rows, t, matched.value);
    s := Some(path);
  }

  lemma RowSpelled(rows: Rows, t: nat, row: nat)
    requires row in rows.sites && SameShape(rows.st, t, row)
    ensures Spelled(rows, SPath(Segments(rows.sites[row])), t)
  {
    RowReads(rows, false, t, row);
    if ToldApart(rows.st) { RowReads(rows, true, t, row); }
  }

  lemma RowReads(rows: Rows, fully: bool, t: nat, row: nat)
    requires row in rows.sites && if fully then SameType(rows.st, t, row) else SameShape(rows.st, t, row)
    ensures ReadsBack(rows, fully, SPath(Segments(rows.sites[row])), t)
  {
    hide Segments;
    forall n: nat ensures Denotes(rows, fully, SPath(Segments(rows.sites[row])), n, Unfold(rows.st, fully, t, n)) {
      assert Unfold(rows.st, fully, t, n) == Unfold(rows.st, fully, row, n);
    }
  }

  /** A path that one row alone is spelled by reads back as the whole type exactly when the row is that type. */
  lemma PathReadsFullyExactly(rows: Rows, t: nat, row: nat)
    requires row in rows.sites
    requires forall other :: other in rows.sites && Segments(rows.sites[other]) == Segments(rows.sites[row]) ==>
      other == row
    ensures ReadsBack(rows, true, SPath(Segments(rows.sites[row])), t) <==> SameType(rows.st, t, row)
  {
    hide Segments;
    var s := SPath(Segments(rows.sites[row]));
    if SameType(rows.st, t, row) { RowReads(rows, true, t, row); }
    if ReadsBack(rows, true, s, t) {
      forall n: nat ensures Unfold(rows.st, true, t, n) == Unfold(rows.st, true, row, n) {
        assert Denotes(rows, true, s, n, Unfold(rows.st, true, t, n));
      }
    }
  }

  method SpellAll(rows: Rows, ghost rank: seq<nat>, ts: seq<nat>, ghost bound: nat) returns (ss: Option<seq<Syntax>>)
    requires Laid(rows.st, rank) && Indexed(rows) && forall i :: 0 <= i < |ts| ==> Height(rank, ts[i]) < bound
    ensures ss.Some? ==> |ss.value| == |ts| && forall i :: 0 <= i < |ts| ==> Spelled(rows, ss.value[i], ts[i])
    ensures ss.Some? ==> forall i :: 0 <= i < |ts| ==> Says(rows, ss.value[i], ts[i])
    ensures (forall i :: 0 <= i < |ts| ==> Sayable(rows, rank, ts[i])) ==> ss.Some?
    decreases bound, 0
  {
    hide Laid, Indexed, Spelled, Sayable, Says;
    var out := [];
    var i := 0;
    while i < |ts|
      invariant 0 <= i == |out| <= |ts|
      invariant forall k :: 0 <= k < i ==> Spelled(rows, out[k], ts[k]) && Says(rows, out[k], ts[k])
    {
      var s := SpellType(rows, rank, ts[i]);
      if s.None? { return None; }
      out := out + [s.value];
      i := i + 1;
    }
    ss := Some(out);
  }

  /**
   `spell_type`: whenever it answers, the syntax reads back as a type of the same shape. What
   it cannot say faithfully - a raw pointer, a constant, a closure, a copy of two rows - it
   does not say.
   */
  method SpellType(rows: Rows, ghost rank: seq<nat>, t: nat) returns (s: Option<Syntax>)
    requires Laid(rows.st, rank) && Indexed(rows)
    ensures s.Some? ==> Spelled(rows, s.value, t) && Says(rows, s.value, t)
    ensures Ambiguous(rows, t) ==> s.None?
    ensures Sayable(rows, rank, t) ==> s.Some?
    ensures s.Some? ==>
      t < |rows.st.types| && rows.st.types[t].tag !in {RawPtr, RawMutPtr, Const, Func, Param, Ptr, Error}
    decreases Height(rank, t), 2
  {
    hide Laid, Spelled, Read, Nameable, Ambiguous, Indexed, ShapeName, NamesRow;
    if t >= |rows.st.types| {
      OnlyNominalsAmbiguous(rows, t);
      return None;
    }
    var tag := rows.st.types[t].tag;
    if tag == Struct || tag == Enum {
      s := SpellNominal(rows, t);
      return;
    }
    OnlyNominalsAmbiguous(rows, t);
    if Structural(tag) {
      s := SpellStructural(rows, rank, t);
      return;
    }
    if tag == Void { s := Some(SUnit); }
    else if tag == Never { s := Some(SNever); }
    else if tag == Str { s := Some(SStr); }
    else if IsPrimitive(tag) { s := Some(SPrimitive(tag)); }
    else { return None; }
    LeafSpelled(rows, s.value, t);
  }

  lemma OnlyNominalsAmbiguous(rows: Rows, t: nat)
    requires t < |rows.st.types| ==> rows.st.types[t].tag != Struct && rows.st.types[t].tag != Enum
    ensures !Ambiguous(rows, t)
  {
    hide WithinReach;
  }

  lemma LeafSpelled(rows: Rows, s: Syntax, t: nat)
    requires t < |rows.st.types|
    requires var tag := rows.st.types[t].tag;
             || (tag == Void && s == SUnit) || (tag == Never && s == SNever) || (tag == Str && s == SStr)
             || (IsPrimitive(tag) && s == SPrimitive(tag))
    ensures Spelled(rows, s, t)
  {
    LeafReads(rows, false, s, t);
    LeafReads(rows, true, s, t);
  }

  lemma LeafReads(rows: Rows, fully: bool, s: Syntax, t: nat)
    requires t < |rows.st.types|
    requires var tag := rows.st.types[t].tag;
             || (tag == Void && s == SUnit) || (tag == Never && s == SNever) || (tag == Str && s == SStr)
             || (IsPrimitive(tag) && s == SPrimitive(tag))
    ensures ReadsBack(rows, fully, s, t)
  {
    assert Read(rows.st, t) == Some(Layer(LPlain(rows.st.types[t].tag), [])) == ReadFully(rows.st, t);
  }

  method SpellStructural(rows: Rows, ghost rank: seq<nat>, t: nat) returns (s: Option<Syntax>)
    requires Laid(rows.st, rank) && Indexed(rows) && t < |rows.st.types| && Structural(rows.st.types[t].tag)
    ensures s.Some? ==> Spelled(rows, s.value, t) && Says(rows, s.value, t)
    ensures Sayable(rows, rank, t) ==> s.Some?
    decreases Height(rank, t), 1
  {
    var tag := rows.st.types[t].tag;
    var kids := Read(rows.st, t).value.kids;
    var parts := SpellAll(rows, rank, kids, Height(rank, t));
    if parts.None? { return None; }
    var ps := parts.value;
    s := Some(Assembled(rows.st, t, ps));
    PartsSpelled(rows, t, ps);
    AssembledSays(rows, t, ps);
    hide Says;
  }

  lemma AssembledSays(rows: Rows, t: nat, ps: seq<Syntax>)
    requires t < |rows.st.types| && Structural(rows.st.types[t].tag) && Read(rows.st, t).Some?
    requires |ps| == |Read(rows.st, t).value.kids|
    requires forall i :: 0 <= i < |ps| ==> Says(rows, ps[i], Read(rows.st, t).value.kids[i])
    ensures Says(rows, Assembled(rows.st, t, ps), t)
  {
    hide NamesRow;
    var kids := Read(rows.st, t).value.kids;
    assert |kids| > 0 ==> Says(rows, ps[0], kids[0]) && Says(rows, ps[|ps| - 1], kids[|kids| - 1]);
  }

  /** The syntax node a structural type becomes over its spelled parts. */
  function Assembled(st: Storage, t: nat, ps: seq<Syntax>): Syntax
    requires t < |st.types| && Structural(st.types[t].tag) && Read(st, t).Some? && |ps| == |Read(st, t).value.kids|
  {
    var tag := st.types[t].tag;
    if tag == Ref || tag == MutRef then SRef(tag == MutRef, ps[0])
    else if tag == Slice then SSlice(ps[0])
    else if tag == Array then SArray(ps[0], st.arrays[st.types[t].data].count)
    else if tag == Tuple then STuple(ps)
    else SFunc(ps[..|ps| - 1], ps[|ps| - 1])
  }

  lemma AssembledShows(st: Storage, t: nat, ps: seq<Syntax>)
    requires t < |st.types| && Structural(st.types[t].tag) && Read(st, t).Some? && |ps| == |Read(st, t).value.kids|
    ensures var s := Assembled(st, t, ps);
      !s.SPath? && Head(s) == Read(st, t).value.head && Parts(s) == ps
  {
  }

  lemma PartsSpelled(rows: Rows, t: nat, ps: seq<Syntax>)
    requires t < |rows.st.types| && Structural(rows.st.types[t].tag) && Read(rows.st, t).Some?
    requires |ps| == |Read(rows.st, t).value.kids|
    requires forall i :: 0 <= i < |ps| ==> Spelled(rows, ps[i], Read(rows.st, t).value.kids[i])
    ensures Spelled(rows, Assembled(rows.st, t, ps), t)
  {
    hide Read, Assembled, Structural, ReadsBack;
    PartsRead(rows, false, t, ps);
    if ToldApart(rows.st) { PartsRead(rows, true, t, ps); }
  }

  lemma PartsRead(rows: Rows, fully: bool, t: nat, ps: seq<Syntax>)
    requires t < |rows.st.types| && Structural(rows.st.types[t].tag) && Read(rows.st, t).Some?
    requires |ps| == |Read(rows.st, t).value.kids|
    requires forall i :: 0 <= i < |ps| ==> ReadsBack(rows, fully, ps[i], Read(rows.st, t).value.kids[i])
    ensures ReadsBack(rows, fully, Assembled(rows.st, t, ps), t)
  {
    assert ReadFully(rows.st, t) == Read(rows.st, t);
    hide Read, ReadFully, Head, Parts, Assembled, Segments, Structural;
    var layer := Read(rows.st, t).value;
    var s := Assembled(rows.st, t, ps);
    AssembledShows(rows.st, t, ps);
    forall n: nat ensures Denotes(rows, fully, s, n, Unfold(rows.st, fully, t, n)) {
      if n > 0 {
        var tree := Unfold(rows.st, fully, t, n);
        forall i | 0 <= i < |ps| ensures Denotes(rows, fully, ps[i], n - 1, tree.kids[i]) {
          assert tree.kids[i] == Unfold(rows.st, fully, layer.kids[i], n - 1);
          assert ReadsBack(rows, fully, ps[i], layer.kids[i]);
        }
      }
    }
  }

  /**
   Two types share a spelling only if they share a shape, exactly when no path names two rows
   of different shapes.
   */
  lemma SpellingTellsShapesApart(rows: Rows)
    ensures PathsTellApart(rows) <==>
      forall s, a, b :: Faithful(rows, s, a) && Faithful(rows, s, b) ==> SameShape(rows.st, a, b)
  {
    hide Segments, Unfold, Denotes;
    if PathsTellApart(rows) {
      forall s, a, b | Faithful(rows, s, a) && Faithful(rows, s, b) ensures SameShape(rows.st, a, b) {
        forall n: nat ensures Unfold(rows.st, false, a, n) == Unfold(rows.st, false, b, n) {
          OneReading(rows, s, n, Unfold(rows.st, false, a, n), Unfold(rows.st, false, b, n));
        }
      }
    }
    forall a, b | a in rows.sites && b in rows.sites && Segments(rows.sites[a]) == Segments(rows.sites[b])
      ensures Faithful(rows, SPath(Segments(rows.sites[a])), a) && Faithful(rows, SPath(Segments(rows.sites[a])), b)
    {
      RowReads(rows, false, a, a);
      RowReads(rows, false, b, b);
    }
  }
}
