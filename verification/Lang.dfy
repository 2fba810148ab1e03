/**
 What the compile-time evaluator reads and writes: values, bindings and scopes
 (src/comp/comp_value.h), the checked syntax, and the side tables the checker filled in
 (src/analyzer/comp_evaluator.h, src/analyzer/types.h).

 Arena indices become the trees they name. A node keeps its index as `id`, because the side
 tables are keyed by it; a type stays an index into the type table.
 */
module Lang {
  import opened Machine

  datatype Option<+T> = None | Some(value: T)

  type TypeIdx = nat

  // ----- values ---------------------------------------------------------------------------

  datatype Value =
    | VVoid
    | VInt(bits: nat)
    | VBool(truth: bool)
    | VStr(text: string)
    | VTuple(fields: seq<Value>)
    | VArray(fields: seq<Value>)
    | VStruct(fields: seq<Value>)
    | VEnum(variant: nat, fields: seq<Value>)

  datatype Typed = Typed(value: Value, ty: TypeIdx)

  datatype Binding = Binding(name: string, bound: Typed)

  type Frame = seq<Binding>

  /** Persistent comp bindings, then evaluation-local frames, innermost last. */
  datatype Scope = Scope(outer: Frame, frames: seq<Frame>)

  // ----- syntax ---------------------------------------------------------------------------

  datatype UnaryOp = Neg | Not | BitNot

  datatype Literal = BoolLit(b: bool) | StrLit(s: string) | IntLit(magnitude: nat, negative: bool) | OtherLit

  datatype Pattern =
    | Wild
    | Ident(name: string)
    | LitPat(lit: Literal)
    | TuplePat(elements: seq<Pattern>)
    | VariantPat(path: seq<string>, elements: seq<Pattern>)
    | StructPat(members: seq<FieldPat>)
    | RefPat(inner: Pattern)
    | OrPat(alternatives: seq<Pattern>)

  datatype FieldPat = FieldPat(name: string, pat: Pattern)

  datatype Cond = Test(value: Expr) | Binds(pat: Pattern, init: Expr)

  datatype Block = Block(stmts: seq<Stmt>, tail: Option<Expr>)

  datatype Stmt =
    | Decl(pat: Pattern, init: Expr)
    | Reassign(place: Expr, compound: Option<BinaryOp>, value: Expr)
    | ExprStmt(e: Expr)

  datatype Arm = Arm(pat: Pattern, guard: Option<Expr>, body: Expr)

  datatype FieldInit = FieldInit(name: string, value: Expr)

  datatype Expr =
    | Lit(id: nat, lit: Literal)
    | Path(id: nat, pathId: nat, segments: seq<string>)
    | Unary(id: nat, uop: UnaryOp, inner: Expr)
    | Borrow(id: nat, inner: Expr)
    | Deref(id: nat, inner: Expr)
    | Binary(id: nat, bop: BinaryOp, lhs: Expr, rhs: Expr)
    | CastTo(id: nat, inner: Expr)
    | Call(id: nat, callee: Expr, args: seq<Expr>)
    | MethodCall(id: nat, receiver: Expr, args: seq<Expr>)
    | Field(id: nat, receiver: Expr, name: string)
    | Index(id: nat, receiver: Expr, index: Expr)
    | Question(id: nat, inner: Expr)
    | If(id: nat, cond: Cond, thenBlock: Block, elseBlock: Option<Block>)
    | Match(id: nat, scrutinee: Expr, arms: seq<Arm>)
    | BlockExpr(id: nat, block: Block)
    | Loop(id: nat, body: Block)
    | While(id: nat, cond: Cond, body: Block)
    | Break(id: nat)
    | Continue(id: nat)
    | Return(id: nat, answer: Option<Expr>)
    | TupleExpr(id: nat, args: seq<Expr>)
    | ArrayExpr(id: nat, args: seq<Expr>)
    | RepeatExpr(id: nat, inner: Expr, count: nat)
    | StructExpr(id: nat, inits: seq<FieldInit>, base: Option<Expr>)
    | OpaqueExpr(id: nat)   // ranges and closures, which have no compile-time form

  // ----- the checked program --------------------------------------------------------------

  datatype TypeRow =
    | Plain(tag: Tag)
    | StructRow(fields: seq<TypeIdx>)
    | TupleRow(elements: seq<TypeIdx>)
    | EnumRow(payloads: seq<seq<TypeIdx>>)
    | ArrayRow(element: TypeIdx, count: nat)
    | RefRow(mutable: bool, pointee: TypeIdx)

  datatype FnParam = FnParam(pat: Pattern, isComp: bool)

  /** A function item: its formals, whether it is a `comp fn`, and its body if it has one. */
  datatype FnItem = FnItem(formals: seq<FnParam>, isComp: bool, body: Option<Block>)

  /** A resolved signature; `inst` is the instantiation its body was checked under. */
  datatype Callee = Callee(mod: nat, item: Option<FnItem>, arity: nat, ret: TypeIdx, inst: nat, hasReceiver: bool)

  /** The intrinsics with a compile-time form, and the rest. */
  datatype IntrinsicName =
    | WrappingAdd | WrappingSub | WrappingMul | SizeOf | AlignOf | StrLen | StrByte | StrSlice | RuntimeOnly

  /** An intrinsic; a layout query carries the answer the layout pass gave it. */
  datatype Intrinsic = Intrinsic(name: IntrinsicName, ret: TypeIdx, layout: Option<nat>)

  datatype Target =
    | FnTarget(fn: Callee)
    | MethodTarget(fn: Callee)
    | IntrinsicTarget(intrinsic: Intrinsic)
    | DanglingTarget

  datatype VariantUse = VariantUse(enumType: TypeIdx, variant: nat)

  datatype Splice = Splice(bits: nat, ty: TypeIdx)

  /** A site in the side tables: module, node, instantiation. */
  datatype Site = Site(mod: nat, id: nat, inst: nat)

  datatype Package = Package(
    types: seq<TypeRow>,
    exprTypes: map<Site, TypeIdx>,
    targets: map<Site, Target>,
    splices: map<Site, Splice>,
    consts: map<(nat, string), Expr>,
    variantUses: map<(nat, nat), VariantUse>,
    structs: map<TypeIdx, seq<string>>,
    enums: map<TypeIdx, seq<string>>,
    origins: map<TypeIdx, TypeIdx>,
    errorType: TypeIdx,
    voidType: TypeIdx,
    usizeType: TypeIdx,
    u8Type: TypeIdx
  )

  function Row(p: Package, t: TypeIdx): TypeRow { if t < |p.types| then p.types[t] else Plain(Error) }

  function TagOf(p: Package, t: TypeIdx): Tag {
    match Row(p, t)
    case Plain(tag) => tag
    case StructRow(_) => Struct
    case TupleRow(_) => Tuple
    case EnumRow(_) => Enum
    case ArrayRow(_, _) => Array
    case RefRow(mutable, _) => if mutable then MutRef else Ref
  }

  function IndexOf(names: seq<string>, name: string): Option<nat> {
    if names == [] then None
    else if names[0] == name then Some(0)
    else match IndexOf(names[1..], name) case None => None case Some(i) => Some(i + 1)
  }

  /** `struct_info`: a generic copy answers for the declaration it came from. */
  function StructFields(p: Package, t: TypeIdx): Option<seq<string>> {
    var origin := if t in p.origins then p.origins[t] else t;
    if origin in p.structs then Some(p.structs[origin]) else None
  }

  function StructFieldIndex(p: Package, t: TypeIdx, name: string): Option<nat> {
    match StructFields(p, t) case None => None case Some(names) => IndexOf(names, name)
  }

  function VariantIndex(p: Package, t: TypeIdx, name: string): Option<nat> {
    if t in p.enums then IndexOf(p.enums[t], name) else None
  }

  function VariantPayload(p: Package, t: TypeIdx, variant: nat): seq<TypeIdx> {
    match Row(p, t)
    case EnumRow(payloads) => if variant < |payloads| then payloads[variant] else []
    case _ => []
  }

  /** `field_type_of`; `None` is the internal failure. */
  function FieldType(p: Package, t: TypeIdx, index: nat): Option<TypeIdx> {
    match Row(p, Pointee(p, t, |p.types|))
    case StructRow(fields) => if index < |fields| then Some(fields[index]) else None
    case TupleRow(elements) => if index < |elements| then Some(elements[index]) else None
    case _ => None
  }

  /**
   What is left of a type behind its references. A chain longer than the table goes round in
   it, where the source's own recursion never returns.
   */
  function Pointee(p: Package, t: TypeIdx, steps: nat): TypeIdx
    decreases steps
  {
    match Row(p, t)
    case RefRow(_, pointee) => if steps == 0 then t else Pointee(p, pointee, steps - 1)
    case _ => t
  }

  predicate IsDigit(c: char) { '0' <= c <= '9' }

  // ----- scopes ---------------------------------------------------------------------------

  function Push(s: Scope, f: Frame): Scope { s.(frames := s.frames + [f]) }

  function Pop(s: Scope): Scope { if s.frames == [] then s else s.(frames := s.frames[..|s.frames| - 1]) }

  /** Appends bindings to the innermost frame. */
  function Extend(s: Scope, bs: Frame): Scope {
    if s.frames == [] then s
    else s.(frames := s.frames[..|s.frames| - 1] + [s.frames[|s.frames| - 1] + bs])
  }

  const FreshScope := Scope([], [[]])

  /** Where a binding sits, counted from the front of its frame. */
  datatype Loc = InFrame(frame: nat, slot: nat) | InOuter(slot: nat)

  function FirstIn(f: Frame, name: string): Option<nat> {
    if f == [] then None
    else if f[0].name == name then Some(0)
    else match FirstIn(f[1..], name) case None => None case Some(i) => Some(i + 1)
  }

  function LastIn(f: Frame, name: string): Option<nat> {
    if f == [] then None
    else if f[|f| - 1].name == name then Some(|f| - 1)
    else LastIn(f[..|f| - 1], name)
  }

  /** The binding an assignment reaches: innermost frame first, FIRST of the name within it. */
  function PlaceOf(s: Scope, name: string): Option<Loc>
    decreases |s.frames|
  {
    if s.frames == [] then
      match FirstIn(s.outer, name) case None => None case Some(j) => Some(InOuter(j))
    else
      var i := |s.frames| - 1;
      match FirstIn(s.frames[i], name)
      case Some(j) => Some(InFrame(i, j))
      case None => PlaceOf(s.(frames := s.frames[..i]), name)
  }

  /** The binding a read reaches: innermost frame first, LAST of the name within it. */
  function LookupOf(s: Scope, name: string): Option<Loc>
    decreases |s.frames|
  {
    if s.frames == [] then
      match LastIn(s.outer, name) case None => None case Some(j) => Some(InOuter(j))
    else
      var i := |s.frames| - 1;
      match LastIn(s.frames[i], name)
      case Some(j) => Some(InFrame(i, j))
      case None => LookupOf(s.(frames := s.frames[..i]), name)
  }

  predicate HasLoc(s: Scope, l: Loc) {
    match l
    case InFrame(i, j) => i < |s.frames| && j < |s.frames[i]|
    case InOuter(j) => j < |s.outer|
  }

  function At(s: Scope, l: Loc): Typed
    requires HasLoc(s, l)
  {
    match l case InFrame(i, j) => s.frames[i][j].bound case InOuter(j) => s.outer[j].bound
  }

  /** Replaces a binding's value; its name and type stay. */
  function Put(s: Scope, l: Loc, v: Value): Scope
    requires HasLoc(s, l)
  {
    match l
    case InFrame(i, j) =>
      var b := s.frames[i][j];
      s.(frames := s.frames[i := s.frames[i][j := b.(bound := b.bound.(value := v))]])
    case InOuter(j) =>
      var b := s.outer[j];
      s.(outer := s.outer[j := b.(bound := b.bound.(value := v))])
  }

  function Lookup(s: Scope, name: string): Option<Typed> {
    match LookupOf(s, name)
    case None => None
    case Some(l) => if HasLoc(s, l) then Some(At(s, l)) else None
  }
}
