/**
 The meaning of the checked syntax, one construct at a time.

 A task is something the evaluator does: evaluate an expression, a block, a place, one more
 operand. `Resume` says, without recursion, what a task does next once the answers of the
 subtasks it has already asked for are known: it asks for one more, or it is done. `tick`
 marks the steps that spend a unit of the branch quota. The two readings of this table, a
 run under a quota and a derivation without one, are in Runs.dfy.

 Sources: src/analyzer/comp_evaluator.cc and src/comp/comp_value.cc.
 */
module Semantics {
  import opened Machine
  import opened Lang
  import opened Patterns

  const MAX_CALL_DEPTH: nat := 64

  /** Where an evaluation stands. `stmtPos`: a jump may be carried out of the expression. */
  datatype Ctx = Ctx(mod: nat, inst: nat, depth: nat, stmtPos: bool)

  datatype Jump = JBreak | JContinue | JReturn

  /** An assignment place: a binding, the way down into its value, and the type there. */
  datatype Place = Place(loc: Loc, path: seq<nat>, ty: TypeIdx)

  datatype Out =
    | Stop(failure: Failure)      // `Stop(NoFailure)` refuses without recording why
    | Val(v: Typed)
    | Leave(how: Jump, v: Typed)
    | Operands(vs: seq<Typed>)
    | Slot(place: Place)

  datatype Answer = Answer(o: Out, s: Scope)

  datatype Task =
    | TExpr(e: Expr)
    | TOperands(e: Expr, vs: seq<Typed>)
    | TArms(e: Expr, i: nat, v: Typed)
    | TBlock(b: Block)
    | TStmts(b: Block, i: nat)
    | TStmt(stmt: Stmt)
    | TPlace(e: Expr)
    | TLoop(cond: Option<Cond>, body: Block)

  datatype Step = Ask(c: Ctx, t: Task, s: Scope, tick: bool) | Done(o: Out, s: Scope, tick: bool)

  // ----- small readings of the tables -------------------------------------------------------

  function VoidVal(p: Package): Typed { Typed(VVoid, p.voidType) }

  function ExprType(p: Package, c: Ctx, id: nat): TypeIdx {
    var site := Site(c.mod, id, c.inst);
    if site in p.exprTypes then p.exprTypes[site] else p.errorType
  }

  function InValue(c: Ctx): Ctx { c.(stmtPos := false) }

  function InStmt(c: Ctx): Ctx { c.(stmtPos := true) }

  function Deeper(c: Ctx): Ctx { c.(depth := c.depth + 1, stmtPos := false) }

  function Literally(p: Package, c: Ctx, id: nat, lit: Literal): Out {
    var t := ExprType(p, c, id);
    if TagOf(p, t) == Error then Stop(Program)
    else match lit
      case BoolLit(b) => Val(Typed(VBool(b), t))
      case StrLit(s) => Val(Typed(VStr(s), t))
      case IntLit(_, _) => Val(Typed(VInt(LiteralBits(lit)), t))
      case OtherLit => Stop(Program)
  }

  datatype PathPlan = PathVal(v: Typed) | PathConst(init: Expr) | PathFail

  /** A binding, then a spliced value parameter, then a const item, then a unit variant. */
  function PlanPath(p: Package, c: Ctx, e: Expr, s: Scope): PathPlan
    requires e.Path?
  {
    var site := Site(c.mod, e.id, c.inst);
    var one := |e.segments| == 1;
    if one && Lookup(s, e.segments[0]).Some? then PathVal(Lookup(s, e.segments[0]).value)
    else if one && site in p.splices then PathVal(Typed(VInt(p.splices[site].bits), p.splices[site].ty))
    else if one && (c.mod, e.segments[0]) in p.consts then PathConst(p.consts[(c.mod, e.segments[0])])
    else if (e.pathId, c.inst) in p.variantUses then
      var use := p.variantUses[(e.pathId, c.inst)];
      if VariantPayload(p, use.enumType, use.variant) != [] then PathFail
      else PathVal(Typed(VEnum(use.variant, []), use.enumType))
    else PathFail
  }

  datatype CallPlan = BadCall | CtorCall(use: VariantUse) | IntrinsicCall(intrinsic: Intrinsic) | FnCall(fn: Callee)

  const NO_COMP_FORM := {"print", "println", "eprint", "eprintln", "panic"}

  function PlanCall(p: Package, c: Ctx, e: Expr): CallPlan
    requires e.Call?
  {
    if !e.callee.Path? then BadCall
    else if |e.callee.segments| == 1 && e.callee.segments[0] in NO_COMP_FORM then BadCall
    else
      var site := Site(c.mod, e.callee.id, c.inst);
      if site !in p.targets then
        (if (e.callee.pathId, c.inst) in p.variantUses then CtorCall(p.variantUses[(e.callee.pathId, c.inst)])
         else BadCall)
      else match p.targets[site]
        case FnTarget(fn) => FnCall(fn)
        case MethodTarget(fn) => if fn.hasReceiver then BadCall else FnCall(fn)
        case IntrinsicTarget(i) => IntrinsicCall(i)
        case DanglingTarget => BadCall
  }

  /** The callee of a method call whose signature and arity are in order. */
  function PlanMethod(p: Package, c: Ctx, e: Expr): Option<Callee>
    requires e.MethodCall?
  {
    var site := Site(c.mod, e.id, c.inst);
    if site !in p.targets || !p.targets[site].MethodTarget? then None
    else
      var fn := p.targets[site].fn;
      if fn.hasReceiver && fn.item.Some? && |e.args| + 1 == fn.arity == |fn.item.value.formals| then Some(fn) else None
  }

  /** The formals a call binds: all of a `comp fn`'s, the `comp` ones of any other. */
  function BoundFormals(item: FnItem, from: nat): (r: seq<nat>)
    ensures forall k :: 0 <= k < |r| ==> from <= r[k] < |item.formals|
    ensures |r| <= if from < |item.formals| then |item.formals| - from else 0
    decreases |item.formals| - from
  {
    if from >= |item.formals| then []
    else (if item.isComp || item.formals[from].isComp then [from] else []) + BoundFormals(item, from + 1)
  }

  function FormalPatterns(item: FnItem, which: seq<nat>): (r: seq<Pattern>)
    requires forall k :: 0 <= k < |which| ==> which[k] < |item.formals|
    ensures |r| == |which|
  {
    seq(|which|, k requires 0 <= k < |which| => item.formals[which[k]].pat)
  }

  /** The frame a call's arguments make, the patterns taken from the front. */
  function BindArgs(p: Package, pats: seq<Pattern>, vs: seq<Typed>): BindResult {
    if |vs| <= |pats| then BindEach(p, pats[..|vs|], vs) else BindResult(false, [], Program)
  }

  function CallPatterns(fn: Callee): seq<Pattern>
    requires fn.item.Some?
  {
    FormalPatterns(fn.item.value, BoundFormals(fn.item.value, 0))
  }

  function MethodPatterns(fn: Callee): seq<Pattern>
    requires fn.item.Some?
  {
    var formals := fn.item.value.formals;
    seq(|formals|, k requires 0 <= k < |formals| => formals[k].pat)
  }

  // ----- conditions -----------------------------------------------------------------------

  datatype Decision = Enter(bindings: Frame) | Skip | Broken(failure: Failure)

  function CondExpr(cond: Cond): Expr { match cond case Test(e) => e case Binds(_, init) => init }

  function Decide(p: Package, cond: Cond, v: Typed): Decision {
    match cond
    case Test(_) => if v.value.VBool? then (if v.value.truth then Enter([]) else Skip) else Broken(Program)
    case Binds(pat, _) =>
      match MatchPattern(p, pat, v)
      case Matched(bs) => Enter(bs)
      case NoMatch => Skip
      case PatFail(f) => Broken(f)
  }

  /** A pattern's bindings live in a frame around the body; a plain test opens none. */
  function Open(cond: Cond, s: Scope, bs: Frame): Scope { if cond.Binds? then Push(s, bs) else s }

  function Close(cond: Cond, s: Scope): Scope { if cond.Binds? then Pop(s) else s }

  /** A value takes the construct's own type; a jump leaves only from statement position. */
  function Conclude(p: Package, c: Ctx, id: nat, o: Out): Out {
    match o
    case Val(v) => Val(v.(ty := ExprType(p, c, id)))
    case Leave(_, _) => if c.stmtPos then o else Stop(Program)
    case _ => o
  }

  // ----- operands -------------------------------------------------------------------------

  function InitValues(inits: seq<FieldInit>): seq<Expr> {
    seq(|inits|, i requires 0 <= i < |inits| => inits[i].value)
  }

  function OperandExprs(e: Expr): seq<Expr> {
    match e
    case Unary(_, _, x) => [x]
    case Borrow(_, x) => [x]
    case CastTo(_, x) => [x]
    case Question(_, x) => [x]
    case RepeatExpr(_, x, _) => [x]
    case Binary(_, _, l, r) => [l, r]
    case Field(_, x, _) => [x]
    case Index(_, x, i) => [x, i]
    case TupleExpr(_, xs) => xs
    case ArrayExpr(_, xs) => xs
    case Call(_, _, xs) => xs
    case MethodCall(_, x, xs) => [x] + xs
    case StructExpr(_, inits, base) => InitValues(inits) + (if base.Some? then [base.value] else [])
    case _ => []
  }

  datatype Next = Need(i: nat) | Ready | Stuck(failure: Failure)

  function NeedUpTo(e: Expr, vs: seq<Typed>, n: nat): Next {
    if |vs| >= n then Ready else if |vs| < |OperandExprs(e)| then Need(|vs|) else Stuck(Program)
  }

  predicate IsWrapping(name: IntrinsicName) { name.WrappingAdd? || name.WrappingSub? || name.WrappingMul? }

  /** `str_byte` and `str_slice` look at each operand before they read the next. */
  function NextOfIntrinsic(e: Expr, i: Intrinsic, vs: seq<Typed>): Next
    requires e.Call?
  {
    if IsWrapping(i.name) then
      (if |e.args| != 2 then Stuck(Program) else NeedUpTo(e, vs, 2))
    else if (i.name.SizeOf? || i.name.AlignOf?) then (if i.layout.Some? then Ready else Stuck(Program))
    else if i.name.RuntimeOnly? then Stuck(Program)
    else if |vs| == 0 then NeedUpTo(e, vs, 1)
    else if !vs[0].value.VStr? then Stuck(Program)
    else if i.name.StrLen? then Ready
    else if |vs| == 1 then NeedUpTo(e, vs, 2)
    else if !vs[1].value.VInt? then Stuck(Program)
    else if i.name.StrByte? then Ready
    else NeedUpTo(e, vs, 3)
  }

  function NextOfCall(p: Package, c: Ctx, e: Expr, vs: seq<Typed>): (n: Next)
    requires e.Call?
    ensures n.Need? ==> n.i < |OperandExprs(e)| && |vs| < |OperandExprs(e)|
    ensures n.Stuck? ==> n.failure != Budget
  {
    match PlanCall(p, c, e)
    case CtorCall(use) =>
      if |e.args| != |VariantPayload(p, use.enumType, use.variant)| then Stuck(Program) else NeedUpTo(e, vs, |e.args|)
    case IntrinsicCall(i) => NextOfIntrinsic(e, i, vs)
    case FnCall(fn) =>
      if fn.item.None? || |e.args| != |fn.item.value.formals| then Stuck(Program)
      else
        var which := BoundFormals(fn.item.value, 0);
        if |vs| < |which| then Need(which[|vs|]) else Ready
    case BadCall => Stuck(Program)
  }

  /** Which operand is read next, given the ones already read. */
  function NextOperand(p: Package, c: Ctx, e: Expr, vs: seq<Typed>): (n: Next)
    ensures n.Need? ==> n.i < |OperandExprs(e)| && |vs| < |OperandExprs(e)|
    ensures n.Stuck? ==> n.failure != Budget
  {
    match e
    case Binary(_, op, _, _) =>
      if (op == And || op == Or) && |vs| == 1 then
        if !vs[0].value.VBool? then Stuck(Program)
        else if vs[0].value.truth == (op == Or) then Ready
        else Need(1)
      else NeedUpTo(e, vs, 2)
    case StructExpr(id, inits, base) =>
      var t := ExprType(p, c, id);
      if TagOf(p, t) != Struct || StructFields(p, t).None? then Stuck(Program)
      else if |vs| < |inits| && StructFieldIndex(p, t, inits[|vs|].name).None? then Stuck(Program)
      else NeedUpTo(e, vs, |OperandExprs(e)|)
    case Call(_, _, _) => NextOfCall(p, c, e, vs)
    case MethodCall(_, _, xs) =>
      (match PlanMethod(p, c, e)
       case None => Stuck(Program)
       case Some(fn) =>
         var b := BindArgs(p, MethodPatterns(fn), vs);
         if !b.ok then Stuck(b.failure) else NeedUpTo(e, vs, |xs| + 1))
    case _ => NeedUpTo(e, vs, |OperandExprs(e)|)
  }

  // ----- what an operator answers -----------------------------------------------------------

  function Values(vs: seq<Typed>): seq<Value> { seq(|vs|, i requires 0 <= i < |vs| => vs[i].value) }

  function UnaryAnswer(p: Package, t: TypeIdx, op: UnaryOp, x: Typed): Out {
    if op == Not then
      (if x.value.VBool? then Val(Typed(VBool(!x.value.truth), t)) else Stop(Program))
    else if !x.value.VInt? then Stop(Program)
    else
      var m := Modulus(TagOf(p, x.ty));
      if op == BitNot then Val(Typed(VInt((WORD - 1 - x.value.bits % WORD) % m), t))
      else Val(Typed(VInt(ToU64(-((x.value.bits % m) as int)) % m), t))
  }

  /** Unary minus answers the encoding of the negated value, and bit-not of minus the value minus one. */
  lemma UnaryMeans(p: Package, t: TypeIdx, op: UnaryOp, x: Typed)
    requires op != Not && x.value.VInt?
    ensures var tag := TagOf(p, x.ty);
            var v := ValueOf(tag, x.value.bits % Modulus(tag));
      UnaryAnswer(p, t, op, x) == Val(Typed(VInt(Encode(tag, if op == BitNot then -v - 1 else -v)), t))
  {
    var tag := TagOf(p, x.ty);
    ModulusEven(tag);
    UnaryPattern(Modulus(tag), IsSigned(tag), x.value.bits);
  }

  lemma UnaryPattern(m: nat, signed: bool, bits: nat)
    requires m > 0 && WORD % m == 0
    ensures var v := Decode(m, signed, bits % m);
      && ToU64(-((bits % m) as int)) % m == (-v) % m
      && (WORD - 1 - bits % WORD) % m == (-v - 1) % m
  {
    var v := Decode(m, signed, bits % m);
    PatternArithmetic(m, signed, 0, bits % m);
    var j := Turns(m, signed, bits);
    SumModulo(m, -1, v, 0, j);
    Complement(bits);
    WrapThenMask(m, -1 - bits);
  }

  /** The whole turns between a word and the value its low bits mean. */
  lemma Turns(m: nat, signed: bool, bits: nat) returns (j: int)
    requires m > 0
    ensures bits == Decode(m, signed, bits % m) + j * m
  {
    var q := bits / m;
    j := if Decode(m, signed, bits % m) == bits % m then q else q + 1;
    Residue(bits, m);
    Distribute(q, 1, m);
  }

  lemma Complement(bits: nat)
    ensures (-1 - bits) % WORD == WORD - 1 - bits % WORD
  {
    ModUnique(-1 - bits, -1 - bits / WORD, WORD - 1 - bits % WORD, WORD);
  }

  function CastAnswer(p: Package, t: TypeIdx, x: Typed): Out {
    var target := TagOf(p, t);
    if target == I1 then
      Val(Typed(VBool(match x.value case VBool(b) => b case VInt(n) => n != 0 case _ => false), t))
    else match x.value
      case VBool(b) => Val(Typed(VInt(if b then 1 else 0), t))
      case VInt(n) => Val(Typed(VInt(Cast(TagOf(p, x.ty), target, n)), t))
      case _ => Stop(Program)
  }

  function Equal(p: Package, l: Typed, r: Typed): Option<bool> {
    match (l.value, r.value)
    case (VInt(a), VInt(b)) => Some(a % Modulus(TagOf(p, l.ty)) == b % Modulus(TagOf(p, r.ty)))
    case (VBool(a), VBool(b)) => Some(a == b)
    case (VStr(a), VStr(b)) => Some(a == b)
    case _ => None
  }

  function Ordered(op: BinaryOp, a: int, b: int): bool {
    match op case Gt => a > b case Lt => a < b case GtEq => a >= b case _ => a <= b
  }

  function BinaryAnswer(p: Package, t: TypeIdx, op: BinaryOp, vs: seq<Typed>): Out
    requires |vs| >= 1
  {
    if op == And || op == Or then
      var last := vs[|vs| - 1].value;
      if last.VBool? then Val(Typed(VBool(if |vs| == 1 then op == Or else last.truth), t)) else Stop(Program)
    else if |vs| != 2 then Stop(Program)
    else
      var l, r := vs[0], vs[1];
      if op == Eq || op == NotEq then
        match Equal(p, l, r)
        case None => Stop(Program)
        case Some(same) => Val(Typed(VBool(same == (op == Eq)), t))
      else if !l.value.VInt? || !r.value.VInt? then Stop(Program)
      else
        var tag := TagOf(p, l.ty);
        var a, b := l.value.bits % Modulus(tag), r.value.bits % Modulus(tag);
        if op == Gt || op == Lt || op == GtEq || op == LtEq then
          Val(Typed(VBool(Ordered(op, ValueOf(tag, a), ValueOf(tag, b))), t))
        else match Apply(op, tag, a, b)
          case IntOk(bits) => Val(Typed(VInt(bits), t))
          case IntErr(f) => Stop(f)
  }

  function Digits(name: string): bool { name != [] && forall i :: 0 <= i < |name| ==> '0' <= name[i] <= '9' }

  /** A tuple field's position; the accumulator is 32 bits wide and wraps. */
  function Position(name: string): nat
    requires forall i :: 0 <= i < |name| ==> '0' <= name[i] <= '9'
  {
    if name == [] then 0
    else (Position(name[..|name| - 1]) * 10 + (name[|name| - 1] as int - '0' as int)) % 0x1_0000_0000
  }

  /** The field a name selects in an aggregate of type `t`. */
  function FieldAt(p: Package, t: TypeIdx, v: Value, name: string): Option<nat> {
    match v
    case VTuple(fields) =>
      if Digits(name) && Position(name) < |fields| then Some(Position(name)) else None
    case VStruct(fields) =>
      (match StructFieldIndex(p, t, name)
       case Some(i) => if i < |fields| then Some(i) else None
       case None => None)
    case _ => None
  }

  function FieldAnswer(p: Package, t: TypeIdx, x: Typed, name: string): Out {
    match FieldAt(p, x.ty, x.value, name)
    case Some(i) =>
      var fits := (x.value.VTuple? || x.value.VStruct?) && i < |x.value.fields|;
      if fits then Val(Typed(x.value.fields[i], t)) else Stop(Program)
    case None => Stop(Program)
  }

  function IndexAnswer(t: TypeIdx, x: Typed, i: Typed): Out {
    if !x.value.VArray? || !i.value.VInt? then Stop(Program)
    else if i.value.bits >= |x.value.fields| then Stop(OutOfBounds)
    else Val(Typed(x.value.fields[i.value.bits], t))
  }

  function QuestionAnswer(t: TypeIdx, x: Typed): Out {
    if !x.value.VEnum? || x.value.variant != 0 || x.value.fields == [] then Stop(Program)
    else Val(Typed(x.value.fields[0], t))
  }

  /** The count comes from the array type when the checker built one. */
  function RepeatAnswer(p: Package, t: TypeIdx, x: Typed, count: nat): Out {
    var n := match Row(p, t) case ArrayRow(_, k) => k case _ => count;
    Val(Typed(VArray(seq(n, _ => x.value)), t))
  }

  /** The initializers in order, a later one of the same name winning; `None` is unset. */
  function InitFields(p: Package, t: TypeIdx, inits: seq<FieldInit>, vs: seq<Typed>, n: nat): (r: seq<Option<Value>>)
    requires |inits| <= |vs|
    ensures |r| == n
  {
    if inits == [] then seq(n, _ => None)
    else
      var k := |inits| - 1;
      var rest := InitFields(p, t, inits[..k], vs, n);
      match StructFieldIndex(p, t, inits[k].name)
      case Some(i) => if i < n then rest[i := Some(vs[k].value)] else rest
      case None => rest
  }

  function StructAnswer(p: Package, t: TypeIdx, inits: seq<FieldInit>, hasBase: bool, vs: seq<Typed>): Out {
    match StructFields(p, t)
    case None => Stop(Program)
    case Some(names) =>
      if |vs| != |inits| + (if hasBase then 1 else 0) then Stop(Program)
      else
        var given := InitFields(p, t, inits, vs, |names|);
        var base := if hasBase then vs[|inits|].value else VVoid;
        if hasBase && (!base.VStruct? || |base.fields| != |names|) then Stop(Program)
        else Val(Typed(VStruct(seq(|names|, i requires 0 <= i < |names| =>
          if given[i].Some? then given[i].value else if hasBase then base.fields[i] else VVoid)), t))
  }

  function WrappingOp(name: IntrinsicName): BinaryOp {
    if name.WrappingAdd? then Add else if name.WrappingSub? then Sub else Mul
  }

  function IntrinsicAnswer(p: Package, i: Intrinsic, vs: seq<Typed>): Out {
    if IsWrapping(i.name) then
      if |vs| != 2 || !vs[0].value.VInt? || !vs[1].value.VInt? then Stop(Program)
      else
        var tag := TagOf(p, i.ret);
        var l, r := vs[0].value.bits % Modulus(tag), vs[1].value.bits % Modulus(tag);
        Val(Typed(VInt(Wrapping(WrappingOp(i.name), tag, l, r)), i.ret))
    else if (i.name.SizeOf? || i.name.AlignOf?) then
      (match i.layout case Some(n) => Val(Typed(VInt(n), p.usizeType)) case None => Stop(Program))
    else if vs == [] || !vs[0].value.VStr? then Stop(Program)
    else
      var text := vs[0].value.text;
      if i.name.StrLen? then Val(Typed(VInt(|text|), p.usizeType))
      else if |vs| < 2 || !vs[1].value.VInt? then Stop(Program)
      else
        var at := vs[1].value.bits;
        if i.name.StrByte? then
          (if at >= |text| then Stop(OutOfBounds) else Val(Typed(VInt(text[at] as int % 256), p.u8Type)))
        else if |vs| < 3 || !vs[2].value.VInt? then Stop(Program)
        else
          var end := vs[2].value.bits;
          if at > end || end > |text| then Stop(Program) else Val(Typed(VStr(text[at..end]), vs[0].ty))
  }

  /** The answer of a construct whose operands have all been read. */
  function Finish(p: Package, c: Ctx, e: Expr, vs: seq<Typed>): Out {
    var t := ExprType(p, c, e.id);
    match e
    case Unary(_, op, _) => if vs == [] then Stop(Program) else UnaryAnswer(p, t, op, vs[0])
    case Borrow(_, _) => if vs == [] then Stop(Program) else Val(vs[0])
    case CastTo(_, _) => if vs == [] then Stop(Program) else CastAnswer(p, t, vs[0])
    case Question(_, _) => if vs == [] then Stop(Program) else QuestionAnswer(t, vs[0])
    case RepeatExpr(_, _, n) => if vs == [] then Stop(Program) else RepeatAnswer(p, t, vs[0], n)
    case Binary(_, op, _, _) => if vs == [] then Stop(Program) else BinaryAnswer(p, t, op, vs)
    case Field(_, _, name) => if vs == [] then Stop(Program) else FieldAnswer(p, t, vs[0], name)
    case Index(_, _, _) => if |vs| < 2 then Stop(Program) else IndexAnswer(t, vs[0], vs[1])
    case TupleExpr(_, _) => Val(Typed(VTuple(Values(vs)), t))
    case ArrayExpr(_, _) => Val(Typed(VArray(Values(vs)), t))
    case StructExpr(_, inits, base) => StructAnswer(p, t, inits, base.Some?, vs)
    case Call(_, _, _) =>
      (match PlanCall(p, c, e)
       case CtorCall(use) => Val(Typed(VEnum(use.variant, Values(vs)), use.enumType))
       case IntrinsicCall(i) => IntrinsicAnswer(p, i, vs)
       case _ => Stop(Program))
    case _ => Stop(Program)
  }

  // ----- places ---------------------------------------------------------------------------

  predicate Aggregate(v: Value) { v.VTuple? || v.VArray? || v.VStruct? || v.VEnum? }

  /** The value at the end of a path, if the path fits the value. */
  function ReadPath(v: Value, path: seq<nat>): Option<Value> {
    if path == [] then Some(v)
    else if Aggregate(v) && path[0] < |v.fields| then ReadPath(v.fields[path[0]], path[1..])
    else None
  }

  function SetField(v: Value, i: nat, x: Value): Value
    requires Aggregate(v) && i < |v.fields|
  {
    match v
    case VTuple(fs) => VTuple(fs[i := x])
    case VArray(fs) => VArray(fs[i := x])
    case VStruct(fs) => VStruct(fs[i := x])
    case VEnum(k, fs) => VEnum(k, fs[i := x])
  }

  /** Overwrites the value at the end of a path. */
  function WritePath(v: Value, path: seq<nat>, x: Value): Value {
    if path == [] then x
    else if Aggregate(v) && path[0] < |v.fields| then SetField(v, path[0], WritePath(v.fields[path[0]], path[1..], x))
    else v
  }

  function ReadPlace(s: Scope, pl: Place): Option<Value> {
    if HasLoc(s, pl.loc) then ReadPath(At(s, pl.loc).value, pl.path) else None
  }

  function WritePlace(s: Scope, pl: Place, x: Value): Scope {
    if HasLoc(s, pl.loc) then Put(s, pl.loc, WritePath(At(s, pl.loc).value, pl.path, x)) else s
  }

  /** One step down into a field of the place. */
  function FieldPlace(p: Package, s: Scope, pl: Place, name: string): Out {
    match ReadPlace(s, pl)
    case None => Stop(Program)
    case Some(v) =>
      match FieldAt(p, pl.ty, v, name)
      case None => Stop(Program)
      case Some(i) =>
        match FieldType(p, pl.ty, i)
        case None => Stop(Internal)
        case Some(t) => Slot(Place(pl.loc, pl.path + [i], t))
  }

  function IndexPlace(p: Package, s: Scope, pl: Place, i: Typed): Out {
    match ReadPlace(s, pl)
    case None => Stop(Program)
    case Some(v) =>
      if !v.VArray? || !i.value.VInt? then Stop(Program)
      else if i.value.bits >= |v.fields| then Stop(OutOfBounds)
      else match Row(p, pl.ty)
        case ArrayRow(element, _) => Slot(Place(pl.loc, pl.path + [i.value.bits], element))
        case _ => Stop(Program)
  }

  /** What an assignment leaves behind: the new scope, or why it was refused. */
  function Assigned(p: Package, s: Scope, pl: Place, compound: Option<BinaryOp>, v: Typed): Answer {
    match compound
    case None => Answer(Val(VoidVal(p)), WritePlace(s, pl, v.value))
    case Some(op) =>
      match ReadPlace(s, pl)
      case Some(VInt(bits)) =>
        if !v.value.VInt? then Answer(Stop(Program), s)
        else
          var tag := TagOf(p, pl.ty);
          (match Apply(op, tag, bits % Modulus(tag), v.value.bits % Modulus(tag))
           case IntOk(answer) => Answer(Val(VoidVal(p)), WritePlace(s, pl, VInt(answer)))
           case IntErr(f) => Answer(Stop(f), s))
      case _ => Answer(Stop(Program), s)
  }
}
