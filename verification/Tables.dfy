/**
 What the readings of the checker's tables answer, stated on the tables themselves: where a field
 or a variant is declared, and the type of a field, behind any references.
 Sources: src/analyzer/comp_evaluator.cc, struct_info, struct_field_index, variant_index,
 variant_payload and field_type_of.
 */
module Tables {
  import opened Lang

  /** The fields a struct type declares; a generic copy has those of the declaration it came from. */
  ghost predicate DeclaresFields(p: Package, t: TypeIdx, names: seq<string>) {
    && (t in p.origins ==> p.origins[t] in p.structs && p.structs[p.origins[t]] == names)
    && (t !in p.origins ==> t in p.structs && p.structs[t] == names)
  }

  /** The name is at this index, and at none before it. */
  ghost predicate NamedAt(names: seq<string>, name: string, i: nat) {
    i < |names| && names[i] == name && name !in names[..i]
  }

  lemma {:induction false} IndexOfIsFirst(names: seq<string>, name: string)
    ensures forall i: nat :: NamedAt(names, name, i) <==> IndexOf(names, name) == Some(i)
    ensures IndexOf(names, name).None? <==> name !in names
    decreases |names|
  {
    if names != [] && names[0] != name {
      var rest := names[1..];
      IndexOfIsFirst(rest, name);
      forall i: nat | 0 < i <= |names| ensures NamedAt(names, name, i) <==> NamedAt(rest, name, i - 1) {
        assert names[..i] == [names[0]] + rest[..i - 1];
      }
      assert names == [names[0]] + rest;
    } else if names != [] {
      assert forall i :: 0 < i <= |names| ==> names[..i][0] == names[0];
      assert names[..0] == [];
    }
  }

  lemma FieldsDeclared(p: Package, t: TypeIdx, names: seq<string>, name: string, i: nat)
    requires DeclaresFields(p, t, names)
    ensures StructFields(p, t) == Some(names)
    ensures NamedAt(names, name, i) ==> StructFieldIndex(p, t, name) == Some(i)
    ensures name !in names ==> StructFieldIndex(p, t, name).None?
  {
    IndexOfIsFirst(names, name);
  }

  /** A name declared nowhere in an enum type, or a type that is none, has no variant. */
  lemma VariantDeclared(p: Package, t: TypeIdx, name: string, i: nat)
    ensures t in p.enums && NamedAt(p.enums[t], name, i) ==> VariantIndex(p, t, name) == Some(i)
    ensures t !in p.enums || name !in p.enums[t] ==> VariantIndex(p, t, name).None?
  {
    if t in p.enums { IndexOfIsFirst(p.enums[t], name); }
  }

  lemma PayloadDeclared(p: Package, t: TypeIdx, k: nat, payloads: seq<seq<TypeIdx>>)
    requires Row(p, t) == EnumRow(payloads)
    ensures VariantPayload(p, t, k) == if k < |payloads| then payloads[k] else []
  {
  }

  /** References one behind the other, the last row no reference. */
  ghost predicate Behind(p: Package, chain: seq<TypeIdx>) {
    && chain != [] && !Row(p, chain[|chain| - 1]).RefRow?
    && forall i :: 0 <= i < |chain| - 1 ==>
         Row(p, chain[i]).RefRow? && Row(p, chain[i]).pointee == chain[i + 1]
  }

  lemma {:induction false} PointeeIs(p: Package, chain: seq<TypeIdx>, steps: nat)
    requires Behind(p, chain) && |chain| - 1 <= steps
    ensures Pointee(p, chain[0], steps) == chain[|chain| - 1]
    decreases |chain|
  {
    if |chain| > 1 { PointeeIs(p, chain[1..], steps - 1); }
  }

  /** A field's type is the one its aggregate declares, behind as many references as there are. */
  lemma FieldTyped(p: Package, chain: seq<TypeIdx>, i: nat)
    requires Behind(p, chain) && |chain| - 1 <= |p.types|
    ensures var row := Row(p, chain[|chain| - 1]);
      && (row.StructRow? ==> FieldType(p, chain[0], i) == if i < |row.fields| then Some(row.fields[i]) else None)
      && (row.TupleRow? ==> FieldType(p, chain[0], i) == if i < |row.elements| then Some(row.elements[i]) else None)
      && (!row.StructRow? && !row.TupleRow? ==> FieldType(p, chain[0], i) == None)
  {
    PointeeIs(p, chain, |p.types|);
  }
}
