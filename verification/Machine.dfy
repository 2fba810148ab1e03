/**
 The integer semantics every reader of a compile-time value shares
 (src/comp/comp_value.cc) and the evaluator's operator table
 (src/analyzer/comp_evaluator.cc, comp_int_binary).

 A compile-time integer rides as 64 raw bits with its type beside it. `Apply` states what an
 operator MEANS over the mathematical integers; the methods below compute it the way the
 source does, with masks, sign extension and 64-bit wrap-around.
 */
module Machine {

  datatype Tag =
    | Void | I1 | I8 | I16 | I32 | I64 | U8 | U16 | U32 | U64 | F32 | F64
    | Str | Ptr | Ref | MutRef | RawPtr | RawMutPtr
    | Struct | Array | Function | Enum | Slice | Never | Tuple | Error | Func | Const | Param

  datatype BinaryOp =
    | Add | Sub | Mul | Div | Mod | Pow | BitAnd | BitOr | BitXor | Shl | Shr
    | Eq | NotEq | Gt | Lt | GtEq | LtEq | And | Or

  /** Why an evaluation stopped. `NoFailure` is the register's resting value. */
  datatype Failure = NoFailure | Program | Internal | Overflow | DivZero | OutOfBounds | Budget

  datatype IntResult = IntOk(bits: nat) | IntErr(failure: Failure)

  const WORD: nat := 0x1_0000_0000_0000_0000
  const HALF: nat := 0x8000_0000_0000_0000

  predicate IsSigned(t: Tag) { t == I8 || t == I16 || t == I32 || t == I64 }

  function IntBytes(t: Tag): nat {
    match t
    case I8 | U8 => 1
    case I16 | U16 => 2
    case I32 | U32 => 4
    case _ => 8
  }

  /** One past `mask(tag)`: keeping the low bits is taking the remainder. */
  function Modulus(t: Tag): nat {
    match IntBytes(t)
    case 1 => 0x100
    case 2 => 0x1_0000
    case 4 => 0x1_0000_0000
    case _ => WORD
  }

  // ----- what a bit pattern means -------------------------------------------------------

  /** The integer a pattern of a width of `m` values denotes. */
  function Decode(m: nat, signed: bool, bits: nat): int {
    if signed && bits >= m / 2 then bits - m else bits
  }

  predicate Fits(m: nat, signed: bool, v: int) {
    if signed then -(m as int / 2) <= v < m / 2 else 0 <= v < m
  }

  function ValueOf(t: Tag, bits: nat): int { Decode(Modulus(t), IsSigned(t), bits) }

  /** The pattern an integer is stored as, modulo the width. */
  function Encode(t: Tag, v: int): nat { v % Modulus(t) }

  predicate InRange(t: Tag, v: int) { Fits(Modulus(t), IsSigned(t), v) }

  lemma ModulusEven(t: Tag)
    ensures Modulus(t) % 2 == 0 && 2 <= Modulus(t) <= WORD && WORD % Modulus(t) == 0
  {
  }

  lemma MultipleBound(d: int, m: nat)
    ensures d >= 1 ==> d * m >= m
    ensures d <= -1 ==> d * m <= -(m as int)
  {
  }

  lemma DecodeUnique(m: nat, signed: bool, v: int, w: int, k: int)
    requires m % 2 == 0 && m > 0 && Fits(m, signed, v) && Fits(m, signed, w) && v == w + k * m
    ensures v == w
  {
    MultipleBound(k, m);
  }

  /** Inside the range, and only there, encoding loses nothing; every pattern decodes into it. */
  lemma EncodeRoundTrip(m: nat, signed: bool, v: int)
    requires m % 2 == 0 && m > 0
    ensures Fits(m, signed, Decode(m, signed, v % m))
    ensures Fits(m, signed, v) <==> Decode(m, signed, v % m) == v
    ensures Decode(m, signed, v % m) % m == v % m
  {
    var w := Decode(m, signed, v % m);
    var k := v / m + (if w < 0 then 1 else 0);
    assert v == (v / m) * m + v % m;
    assert v == w + k * m by { assert (v / m + 1) * m == (v / m) * m + m; }
    ModShift(w, k, m);
    if Fits(m, signed, v) { DecodeUnique(m, signed, v, w, k); }
  }

  // ----- the mathematical operators -----------------------------------------------------

  function Power(b: int, e: nat): int { if e == 0 then 1 else b * Power(b, e - 1) }

  /** Division toward zero, the machine's. Dafny's own rounds by the divisor's sign. */
  function Quotient(a: int, b: int): int
    requires b != 0
  {
    if a >= 0 then a / b else -((-a) / b)
  }

  function Remainder(a: int, b: int): int
    requires b != 0
  {
    a - Quotient(a, b) * b
  }

  /** The quotient is cut toward zero: what remains is smaller than the divisor and has the dividend's sign. */
  ghost predicate Truncated(a: int, b: int, q: int, r: int) {
    && a == q * b + r
    && (if b > 0 then -b < r < b else b < r < -b)
    && (r > 0 ==> a > 0) && (r < 0 ==> a < 0)
  }

  lemma QuotientTruncates(a: int, b: int)
    requires b != 0
    ensures Truncated(a, b, Quotient(a, b), Remainder(a, b))
  {
    var n := if a >= 0 then a else -a;
    var k := n / b;
    Euclidean(n, b);
    if a < 0 { Negated(k, b); }
    hide Truncated;
    assert Quotient(a, b) == if a >= 0 then k else -k;
    TruncatedSign(n, b, k, n - k * b);
  }

  lemma Euclidean(n: nat, b: int)
    requires b != 0
    ensures Truncated(n, b, n / b, n - n / b * b)
  {
    assert n == n / b * b + n % b;
  }

  lemma TruncatedSign(n: int, b: int, k: int, r: int)
    requires b != 0 && n >= 0 && Truncated(n, b, k, r)
    ensures Truncated(-n, b, -k, -r)
  {
    Negated(k, b);
  }

  lemma Negated(k: int, b: int)
    ensures (-k) * b == -(k * b)
  {
  }

  /** Only one quotient cuts toward zero. */
  lemma TruncatedOnce(a: int, b: int, q: int, r: int, q': int, r': int)
    requires b != 0 && Truncated(a, b, q, r) && Truncated(a, b, q', r')
    ensures q == q' && r == r'
  {
    var d, m := q - q', if b > 0 then b else -b;
    assert d * b == r' - r by { assert d * b == q * b - q' * b; }
    assert -m < r' - r < m;
    Negated(d, b);
    Negated(b, d);
    assert d * m == r' - r || d * m == r - r';
    MultipleBound(d, m);
  }

  function BitAt(op: BinaryOp, a: nat, b: nat): nat {
    match op
    case BitAnd => if a == 1 && b == 1 then 1 else 0
    case BitOr => if a == 1 || b == 1 then 1 else 0
    case _ => if a != b then 1 else 0
  }

  function Bitwise(op: BinaryOp, a: nat, b: nat, width: nat): (r: nat)
    ensures r < Power(2, width)
    decreases width
  {
    if width == 0 then 0
    else BitAt(op, a % 2, b % 2) + 2 * Bitwise(op, a / 2, b / 2, width - 1)
  }

  /** Bit `i` of a number, its powers of two counted from the lowest. */
  predicate BitSet(n: nat, i: nat) {
    PowerPositive(i);
    n / Power(2, i) % 2 == 1
  }

  lemma {:induction false} PowerPositive(i: nat)
    ensures Power(2, i) > 0
  {
    if i > 0 { PowerPositive(i - 1); }
  }

  /** Above the lowest bit stand the bits of the half. */
  lemma BitAbove(n: nat, i: nat)
    ensures i > 0 ==> (BitSet(n, i) <==> BitSet(n / 2, i - 1))
    ensures i == 0 ==> (BitSet(n, i) <==> n % 2 == 1)
  {
    if i > 0 {
      var p := Power(2, i - 1);
      PowerPositive(i - 1);
      var h, k := n / 2, n / 2 / p;
      Halved(n, p, h, k);
    } else {
      assert n / 1 == n;
    }
  }

  lemma Halved(n: nat, p: nat, h: nat, k: nat)
    requires p > 0 && h == n / 2 && k == h / p
    ensures n / (2 * p) == k
  {
    var r := n - k * (2 * p);
    assert h == k * p + h % p;
    assert k * (2 * p) == 2 * (k * p);
    assert 0 <= r < 2 * p;
    QuotientUnique(n, k, r, 2 * p);
  }

  lemma QuotientUnique(n: nat, k: nat, r: nat, m: nat)
    requires m > 0 && n == k * m + r && r < m
    ensures n / m == k
  {
    var d := k - n / m;
    assert n == (n / m) * m + n % m;
    assert d * m == k * m - (n / m) * m;
    MultipleBound(d, m);
  }

  lemma {:induction false} BitwiseBits(op: BinaryOp, a: nat, b: nat, width: nat, i: nat)
    requires op == BitAnd || op == BitOr || op == BitXor
    ensures BitSet(Bitwise(op, a, b, width), i) <==>
      && i < width
      && match op
         case BitAnd => BitSet(a, i) && BitSet(b, i)
         case BitOr => BitSet(a, i) || BitSet(b, i)
         case _ => BitSet(a, i) != BitSet(b, i)
    decreases width
  {
    var r := Bitwise(op, a, b, width);
    BitAbove(a, i);
    BitAbove(b, i);
    BitAbove(r, i);
    if width == 0 {
      PowerPositive(i);
      assert 0 / Power(2, i) == 0;
    } else {
      var rest := Bitwise(op, a / 2, b / 2, width - 1);
      assert r / 2 == rest && r % 2 == BitAt(op, a % 2, b % 2);
      hide BitSet, Bitwise;
      if i > 0 { BitwiseBits(op, a / 2, b / 2, width - 1, i - 1); }
    }
  }

  /** The low bits of a number, and none above. */
  lemma {:induction false} LowBits(n: nat, width: nat, i: nat)
    ensures Power(2, width) > 0
    ensures BitSet(n % Power(2, width), i) <==> i < width && BitSet(n, i)
    decreases width
  {
    PowerPositive(width);
    var m := Power(2, width);
    BitAbove(n, i);
    BitAbove(n % m, i);
    if width == 0 {
      PowerPositive(i);
      assert n % 1 == 0 && 0 / Power(2, i) == 0;
    } else {
      PowerPositive(width - 1);
      HalfOfRemainder(n, Power(2, width - 1));
      hide BitSet;
      if i > 0 { LowBits(n / 2, width - 1, i - 1); }
    }
  }

  lemma HalfOfRemainder(n: nat, p: nat)
    requires p > 0
    ensures n % (2 * p) / 2 == n / 2 % p && n % (2 * p) % 2 == n % 2
  {
    var k := n / 2 / p;
    Halved(n, p, n / 2, k);
    var r := n % (2 * p);
    assert n == k * (2 * p) + r;
    assert k * (2 * p) == 2 * (k * p);
    assert n / 2 == k * p + n / 2 % p;
  }

  /** The integer an unchecked `+`, `-` or `*` would have to produce. */
  function TrueResult(op: BinaryOp, t: Tag, l: nat, r: nat): int {
    match op
    case Add => ValueOf(t, l) + ValueOf(t, r)
    case Sub => ValueOf(t, l) - ValueOf(t, r)
    case _ => ValueOf(t, l) * ValueOf(t, r)
  }

  function Exact(t: Tag, v: int): IntResult {
    if InRange(t, v) then IntOk(Encode(t, v)) else IntErr(Overflow)
  }

  /** What `left op right` answers, over the integers the two patterns denote. */
  function Apply(op: BinaryOp, t: Tag, left: nat, right: nat): IntResult {
    var a, b := ValueOf(t, left), ValueOf(t, right);
    match op
    case Add | Sub | Mul => Exact(t, TrueResult(op, t, left, right))
    case Pow => if b < 0 then IntErr(Program) else Exact(t, Power(a, b))
    case Div => if b == 0 then IntErr(DivZero) else IntOk(Encode(t, Quotient(a, b)))
    case Mod => if b == 0 then IntErr(DivZero) else IntOk(Encode(t, Remainder(a, b)))
    case BitAnd | BitOr | BitXor => IntOk(Bitwise(op, left, right, 64) % Modulus(t))
    case Shl => IntOk(Encode(t, a * Power(2, right % (8 * IntBytes(t)))))
    case Shr => IntOk(Encode(t, FloorShift(a, right % (8 * IntBytes(t)))))
    case _ => IntErr(Program)
  }

  /** Shifting right one bit at a time, rounding down; what `>>` does to either sign. */
  function FloorShift(a: int, k: nat): (q: int)
    ensures q * Power(2, k) <= a < (q + 1) * Power(2, k)
    decreases k
  {
    if k == 0 then a
    else
      var q := FloorShift(a / 2, k - 1);
      assert q * Power(2, k) == 2 * (q * Power(2, k - 1));
      assert (q + 1) * Power(2, k) == 2 * ((q + 1) * Power(2, k - 1));
      q
  }

  // ----- the source's own steps ---------------------------------------------------------

  /** `static_cast<u64>` of any machine integer. */
  function ToU64(v: int): nat { v % WORD }

  /** `sign_extend`: the low bits read with their own sign, as an i64. */
  function SignExtend(bits: nat, t: Tag): int {
    if IntBytes(t) >= 8 then
      (if bits % WORD >= HALF then bits % WORD - WORD else bits % WORD)
    else
      var low := bits % Modulus(t);
      if low >= Modulus(t) / 2 then low - Modulus(t) else low
  }

  predicate FitsI64(v: int) { -(HALF as int) <= v < HALF }

  predicate FitsSigned(v: int, bytes: nat)
    requires bytes == 1 || bytes == 2 || bytes == 4 || bytes == 8
  {
    bytes >= 8 ||
    (var limit := if bytes == 1 then 0x80 else if bytes == 2 then 0x8000 else 0x8000_0000;
     -limit <= v < limit)
  }

  /** `__builtin_*_overflow` into 64 bits, then the test against the narrower width. */
  predicate Refused(t: Tag, v: int) {
    if IsSigned(t) then !FitsI64(v) || !FitsSigned(v, IntBytes(t)) else v >= WORD || v > Modulus(t) - 1
  }

  predicate AddOverflows(l: nat, r: nat, t: Tag) {
    Refused(t, if IsSigned(t) then SignExtend(l, t) + SignExtend(r, t) else l + r)
  }

  predicate SubOverflows(l: nat, r: nat, t: Tag) {
    if IsSigned(t) then Refused(t, SignExtend(l, t) - SignExtend(r, t)) else l < r
  }

  predicate MulOverflows(l: nat, r: nat, t: Tag) {
    Refused(t, if IsSigned(t) then SignExtend(l, t) * SignExtend(r, t) else l * r)
  }

  // ----- modular arithmetic -------------------------------------------------------------

  lemma ModUnique(x: int, q: int, r: int, m: nat)
    requires m > 0 && x == q * m + r && 0 <= r < m
    ensures x % m == r
  {
    var d := q - x / m;
    assert x == (x / m) * m + x % m;
    assert d * m == q * m - (x / m) * m;
    MultipleBound(d, m);
  }

  /** Adding whole turns does not move a remainder. */
  lemma ModShift(x: int, k: int, m: nat)
    requires m > 0
    ensures (x + k * m) % m == x % m
  {
    assert x == (x / m) * m + x % m;
    assert x + k * m == (x / m + k) * m + x % m;
    ModUnique(x + k * m, x / m + k, x % m, m);
  }

  /** The width divides the word, so wrapping at 64 bits first changes nothing. */
  lemma WrapThenMask(m: nat, v: int)
    requires m > 0 && WORD % m == 0
    ensures ToU64(v) % m == v % m
  {
    var turns := WORD / m;
    assert WORD == turns * m;
    assert ToU64(v) == v + (-(v / WORD)) * WORD;
    assert (-(v / WORD)) * WORD == (-(v / WORD) * turns) * m;
    ModShift(v, -(v / WORD) * turns, m);
  }

  lemma Distribute(j: int, k: int, m: int)
    ensures (j + k) * m == j * m + k * m && (j - k) * m == j * m - k * m
  {
  }

  lemma SumModulo(m: nat, a: int, b: int, j: int, k: int)
    requires m > 0
    ensures ((a + j * m) + (b + k * m)) % m == (a + b) % m
    ensures ((a + j * m) - (b + k * m)) % m == (a - b) % m
  {
    var x, y, sum, difference := j * m, k * m, (j + k) * m, (j - k) * m;
    Distribute(j, k, m);
    ModShift(a + b, j + k, m);
    ModShift(a - b, j - k, m);
    assert (a + x) + (b + y) == (a + b) + sum && (a + x) - (b + y) == (a - b) + difference;
  }

  lemma ProductModulo(m: nat, a: int, b: int, j: int, k: int)
    requires m > 0
    ensures ((a + j * m) * (b + k * m)) % m == (a * b) % m
  {
    var t := a * k + j * b + j * k * m;
    calc {
      (a + j * m) * (b + k * m);
      a * (b + k * m) + j * m * (b + k * m);
      a * b + a * (k * m) + (j * m * b + j * m * (k * m));
      { assert a * (k * m) == (a * k) * m; assert j * m * b == (j * b) * m; assert j * m * (k * m) == (j * k * m) * m; }
      a * b + t * m;
    }
    ModShift(a * b, t, m);
  }

  /** The pattern arithmetic of `+`, `-` and `*` is the value arithmetic modulo the width. */
  lemma PatternArithmetic(m: nat, signed: bool, l: nat, r: nat)
    requires m > 0 && WORD % m == 0
    ensures ToU64(l + r) % m == (Decode(m, signed, l) + Decode(m, signed, r)) % m
    ensures ToU64(l - r) % m == (Decode(m, signed, l) - Decode(m, signed, r)) % m
    ensures ToU64(l * r) % m == (Decode(m, signed, l) * Decode(m, signed, r)) % m
  {
    var a, b := Decode(m, signed, l), Decode(m, signed, r);
    var j, k := (if a == l then 0 else 1), if b == r then 0 else 1;
    WrapThenMask(m, l + r);
    WrapThenMask(m, l - r);
    WrapThenMask(m, l * r);
    assert l == a + j * m && r == b + k * m;
    SumModulo(m, a, b, j, k);
    ProductModulo(m, a, b, j, k);
  }

  lemma SignExtendIsValue(t: Tag, bits: nat)
    requires bits < Modulus(t)
    ensures IsSigned(t) ==> SignExtend(bits, t) == ValueOf(t, bits)
    ensures !IsSigned(t) ==> bits == ValueOf(t, bits)
    ensures InRange(t, ValueOf(t, bits))
  {
  }

  lemma RefusedExactly(t: Tag, v: int)
    requires IsSigned(t) || v >= 0
    ensures Refused(t, v) <==> !InRange(t, v)
  {
  }

  lemma SameProduct(a: int, b: int, c: int, d: int)
    requires (a == c && b == d) || (a == d && b == c)
    ensures a * b == c * d
  {
  }

  /** The three overflow tests answer exactly whether the true result is representable. */
  lemma AddTestExact(t: Tag, l: nat, r: nat)
    requires l < Modulus(t) && r < Modulus(t)
    ensures AddOverflows(l, r, t) <==> !InRange(t, TrueResult(Add, t, l, r))
  {
    var x, y := (if IsSigned(t) then SignExtend(l, t) else l), if IsSigned(t) then SignExtend(r, t) else r;
    assert x == ValueOf(t, l) by { SignExtendIsValue(t, l); }
    assert y == ValueOf(t, r) by { SignExtendIsValue(t, r); }
    AddRefused(t, x, y);
  }

  lemma AddRefused(t: Tag, x: int, y: int)
    requires IsSigned(t) || (x >= 0 && y >= 0)
    ensures Refused(t, x + y) <==> !InRange(t, x + y)
  {
    RefusedExactly(t, x + y);
  }

  lemma SubTestExact(t: Tag, l: nat, r: nat)
    requires l < Modulus(t) && r < Modulus(t)
    ensures SubOverflows(l, r, t) <==> !InRange(t, TrueResult(Sub, t, l, r))
  {
    if IsSigned(t) {
      assert SignExtend(l, t) == ValueOf(t, l) by { SignExtendIsValue(t, l); }
      assert SignExtend(r, t) == ValueOf(t, r) by { SignExtendIsValue(t, r); }
      hide SignExtend, ValueOf;
      RefusedExactly(t, SignExtend(l, t) - SignExtend(r, t));
    } else {
      hide SignExtend, Refused;
    }
  }

  lemma MulTestExact(t: Tag, l: nat, r: nat)
    requires l < Modulus(t) && r < Modulus(t)
    ensures MulOverflows(l, r, t) <==> !InRange(t, TrueResult(Mul, t, l, r))
  {
    SignExtendIsValue(t, l);
    SignExtendIsValue(t, r);
    var x, y := (if IsSigned(t) then SignExtend(l, t) else l), if IsSigned(t) then SignExtend(r, t) else r;
    SameProduct(x, y, ValueOf(t, l), ValueOf(t, r));
    MulRefused(t, x, y);
  }

  lemma MulRefused(t: Tag, x: int, y: int)
    requires IsSigned(t) || (x >= 0 && y >= 0)
    ensures Refused(t, x * y) <==> !InRange(t, x * y)
  {
    var v := x * y;
    RefusedExactly(t, v);
  }

  /** The wrapping intrinsics, on operands already masked to the return type. */
  function Wrapping(op: BinaryOp, t: Tag, l: nat, r: nat): nat {
    (match op
     case Add => ToU64(l + r)
     case Sub => ToU64(l - r)
     case _ => ToU64(l * r)) % Modulus(t)
  }

  /**
   `wrapping_add`, `wrapping_sub` and `wrapping_mul` always answer the encoding of the true
   result, so they agree with the checked forms exactly where those succeed.
   */
  lemma WrappingAgrees(op: BinaryOp, t: Tag, l: nat, r: nat)
    requires op == Add || op == Sub || op == Mul
    ensures Wrapping(op, t, l, r) == Encode(t, TrueResult(op, t, l, r))
    ensures Apply(op, t, l, r) == if InRange(t, TrueResult(op, t, l, r))
                                  then IntOk(Wrapping(op, t, l, r)) else IntErr(Overflow)
  {
    hide InRange, Modulus;
    ModulusEven(t);
    PatternArithmetic(Modulus(t), IsSigned(t), l, r);
  }

  /** Quotient and remainder recombine, modulo the width, for every nonzero divisor. */
  lemma DivModRecombine(t: Tag, l: nat, r: nat)
    requires l < Modulus(t) && r < Modulus(t) && r != 0
    ensures Apply(Div, t, l, r).IntOk? && Apply(Mod, t, l, r).IntOk?
    ensures (Apply(Div, t, l, r).bits * r + Apply(Mod, t, l, r).bits) % Modulus(t) == l
  {
    var m, a, b := Modulus(t), ValueOf(t, l), ValueOf(t, r);
    var j, k := (if a == l then 0 else 1), if b == r then 0 else 1;
    assert l == a + j * m && r == b + k * m;
    RecombineModulo(m, a, b, j, k);
    var q, s := Quotient(a, b) % m, Remainder(a, b) % m;
    SameProduct(q, r, q, b + k * m);
    assert Apply(Div, t, l, r) == IntOk(q) && Apply(Mod, t, l, r) == IntOk(s);
    SmallResidue(l, m);
  }

  lemma SmallResidue(v: nat, m: nat)
    requires v < m
    ensures v % m == v
  {
  }

  lemma RecombineModulo(m: nat, a: int, b: int, j: int, k: int)
    requires m > 0 && b != 0
    ensures (Quotient(a, b) % m * (b + k * m) + Remainder(a, b) % m) % m == (a + j * m) % m
  {
    var q, s := Quotient(a, b), Remainder(a, b);
    Residue(q, m);
    Residue(s, m);
    var x, y := -(q / m), -(s / m);
    ProductModulo(m, q, b, x, k);
    var p := (q % m) * (b + k * m);
    Congruent(p, q * b, m);
    SumModulo(m, q * b, s, p / m - q * b / m, y);
    ModShift(a, j, m);
  }

  lemma Residue(v: int, m: nat)
    requires m > 0
    ensures v % m == v + (-(v / m)) * m
  {
  }

  lemma Congruent(p: int, u: int, m: nat)
    requires m > 0 && p % m == u % m
    ensures p == u + (p / m - u / m) * m
  {
    Residue(p, m);
    Residue(u, m);
  }

  /** `as`: a signed pattern extends by its own sign to the word, and the target keeps the low bits. */
  function Cast(source: Tag, target: Tag, bits: nat): nat {
    var extended := if IsSigned(source) then ToU64(SignExtend(bits % Modulus(source), source)) else bits;
    extended % Modulus(target)
  }

  lemma CastInWidth(source: Tag, target: Tag, bits: nat)
    ensures Cast(source, target, bits) < Modulus(target)
  {
  }

  /** A cast keeps the value modulo the target. */
  lemma CastCongruent(source: Tag, target: Tag, bits: nat)
    requires bits < Modulus(source)
    ensures Cast(source, target, bits) == Encode(target, ValueOf(source, bits))
  {
    SignExtendIsValue(source, bits);
    ModulusEven(target);
    WrapThenMask(Modulus(target), ValueOf(source, bits));
  }

  /** A cast keeps the value itself exactly when the target can represent it. */
  lemma CastExact(source: Tag, target: Tag, bits: nat)
    requires bits < Modulus(source)
    ensures ValueOf(target, Cast(source, target, bits)) == ValueOf(source, bits) <==>
      InRange(target, ValueOf(source, bits))
  {
    CastCongruent(source, target, bits);
    ModulusEven(target);
    EncodeRoundTrip(Modulus(target), IsSigned(target), ValueOf(source, bits));
  }

  /** Any type that can hold the value is a free stop on the way, and the way back is exact. */
  lemma CastThroughWider(source: Tag, wider: Tag, target: Tag, bits: nat)
    requires bits < Modulus(source)
    requires InRange(wider, ValueOf(source, bits))
    ensures Cast(wider, target, Cast(source, wider, bits)) == Cast(source, target, bits)
    ensures Cast(wider, source, Cast(source, wider, bits)) == bits
  {
    hide Cast, InRange, Modulus, ValueOf, Encode, SignExtend;
    CastInWidth(source, wider, bits);
    CastExact(source, wider, bits);
    CastCongruent(source, target, bits);
    CastCongruent(wider, target, Cast(source, wider, bits));
    CastCongruent(wider, source, Cast(source, wider, bits));
    PatternOfValue(source, bits);
  }

  lemma PatternOfValue(t: Tag, bits: nat)
    requires bits < Modulus(t)
    ensures Encode(t, ValueOf(t, bits)) == bits
  {
    ModulusEven(t);
    EncodeRoundTrip(Modulus(t), IsSigned(t), bits);
    SmallResidue(bits, Modulus(t));
  }
}
