/**
 The evaluator's operator table as the source computes it (src/analyzer/comp_evaluator.cc,
 comp_int_binary): each step wraps at 64 bits, masks to the type and sign-extends, and each
 answers exactly what `Machine.Apply` says the operator means.
 */
module Operators {
  import opened Machine

  // ----- power by repeated squaring -----------------------------------------------------

  lemma PowerProduct(b: int, i: nat, j: nat)
    ensures Power(b, i + j) == Power(b, i) * Power(b, j)
  {
    if i > 0 {
      PowerProduct(b, i - 1, j);
      assert b * (Power(b, i - 1) * Power(b, j)) == (b * Power(b, i - 1)) * Power(b, j);
    }
  }

  lemma {:induction false} PowerOfSquare(b: int, e: nat)
    ensures Power(b * b, e) == Power(b, 2 * e)
  {
    if e > 0 {
      PowerOfSquare(b, e - 1);
      assert Power(b, 2 * e) == b * Power(b, 2 * e - 1) == b * (b * Power(b, 2 * e - 2));
      assert b * (b * Power(b, 2 * e - 2)) == (b * b) * Power(b, 2 * e - 2);
    }
  }

  /** One turn of the walk down the exponent's bits. */
  lemma SquareStep(r: int, b: int, e: nat)
    requires e > 0
    ensures r * Power(b, e) == (if e % 2 != 0 then r * b else r) * Power(b * b, e / 2)
  {
    PowerOfSquare(b, e / 2);
    if e % 2 != 0 {
      var z := Power(b, 2 * (e / 2));
      assert Power(b, e) == b * z;
      assert r * (b * z) == (r * b) * z;
    }
  }

  lemma {:induction false} PowerGrows(y: int, e: nat)
    requires y >= 1
    ensures Power(y, e) >= 1
    ensures e > 0 ==> Power(y, e) >= y
  {
    if e > 0 {
      PowerGrows(y, e - 1);
      var z := Power(y, e - 1);
      assert y * z >= y * 1;
    }
  }

  lemma OutsideStaysOutside(m: nat, signed: bool, p: int, z: int)
    requires !Fits(m, signed, p) && z >= 1
    ensures !Fits(m, signed, p * z)
  {
    if p >= 0 { assert p * z >= p * 1; } else { assert p * z <= p * 1; }
  }

  /** No width's bound is a square, so a refused square can never come back as the minimum. */
  lemma NoSquareAtTheEdge(t: Tag, b: int)
    ensures b * b != Modulus(t) / 2
  {
    var a := if b >= 0 then b else -b;
    assert a * a == b * b;
    SquaresBetween(a, 11);
    SquaresBetween(a, 181);
    SquaresBetween(a, 46340);
    SquaresBetween(a, 3037000499);
  }

  lemma ProductGrows(a: nat, b: nat, c: nat)
    requires a <= b
    ensures a * c <= b * c
  {
  }

  lemma SquaresBetween(a: nat, k: nat)
    ensures a <= k ==> a * a <= k * k
    ensures a > k ==> a * a >= (k + 1) * (k + 1)
  {
    var low, high := (if a <= k then a else k + 1), if a <= k then k else a;
    ProductGrows(low, high, low);
    ProductGrows(low, high, high);
    SameProduct(low, high, high, low);
  }

  /** A square outside the range leaves every later product outside it. */
  lemma RefusedSquare(t: Tag, r: int, b: int, e: nat)
    requires !InRange(t, b * b) && r != 0 && e > 0
    requires IsSigned(t) || r >= 0
    ensures !InRange(t, r * Power(b * b, e))
  {
    var s := b * b;
    assert s >= 0;
    NoSquareAtTheEdge(t, b);
    PowerGrows(s, e);
    SquareTimes(Modulus(t), IsSigned(t), r, s, Power(s, e));
  }

  lemma SquareTimes(m: nat, signed: bool, r: int, s: int, z: int)
    requires m > 0 && m % 2 == 0 && s != m / 2 && s >= 0 && !Fits(m, signed, s)
    requires z >= s && r != 0 && (signed || r >= 0)
    ensures !Fits(m, signed, r * z)
  {
    var k := if r >= 1 then r else -r;
    ProductGrows(1, k, z);
    assert r * z == if r >= 1 then k * z else -(k * z);
  }

  lemma CheckedMul(t: Tag, l: nat, r: nat)
    requires l < Modulus(t) && r < Modulus(t) && !MulOverflows(l, r, t)
    ensures ToU64(l * r) % Modulus(t) < Modulus(t)
    ensures ValueOf(t, ToU64(l * r) % Modulus(t)) == ValueOf(t, l) * ValueOf(t, r)
  {
    MulTestExact(t, l, r);
    WrappingAgrees(Mul, t, l, r);
    ModulusEven(t);
    EncodeRoundTrip(Modulus(t), IsSigned(t), TrueResult(Mul, t, l, r));
  }

  /** What the loop keeps: the product still to be formed is the power asked for. */
  ghost predicate Walking(t: Tag, result: nat, base: nat, e: nat, goal: int) {
    && result < Modulus(t) && base < Modulus(t)
    && ValueOf(t, result) * Power(ValueOf(t, base), e) == goal
    && (ValueOf(t, result) == 0 ==> ValueOf(t, base) == 0)
  }

  lemma BitTaken(t: Tag, r: int, b: int, e: nat)
    requires e % 2 != 0
    ensures r * Power(b, e) == (r * b) * Power(b, e - 1)
    ensures !InRange(t, r * b) ==> !InRange(t, r * Power(b, e))
  {
    var z := Power(b, e - 1);
    assert r * (b * z) == (r * b) * z;
    if !InRange(t, r * b) {
      SquareStep(r, b, e);
      RefusedProduct(t, r, b, e / 2);
    }
  }

  lemma TakeBit(t: Tag, result: nat, base: nat, e: nat, goal: int)
    requires Walking(t, result, base, e, goal) && e % 2 != 0
    ensures MulOverflows(result, base, t) ==> !InRange(t, goal)
    ensures !MulOverflows(result, base, t) ==> Walking(t, ToU64(result * base) % Modulus(t), base, e - 1, goal)
  {
    BitTaken(t, ValueOf(t, result), ValueOf(t, base), e);
    if MulOverflows(result, base, t) {
      MulTestExact(t, result, base);
    } else {
      NonZeroProduct(ValueOf(t, result), ValueOf(t, base));
      CheckedMul(t, result, base);
    }
  }

  lemma SquareBase(t: Tag, result: nat, base: nat, e: nat, goal: int)
    requires Walking(t, result, base, 2 * e, goal) && e > 0
    ensures MulOverflows(base, base, t) ==> !InRange(t, goal)
    ensures !MulOverflows(base, base, t) ==> Walking(t, result, ToU64(base * base) % Modulus(t), e, goal)
  {
    var r, b := ValueOf(t, result), ValueOf(t, base);
    SquareStep(r, b, 2 * e);
    NonZeroProduct(b, b);
    if MulOverflows(base, base, t) {
      MulTestExact(t, base, base);
      SignExtendIsValue(t, result);
      RefusedSquare(t, r, b, e);
    } else {
      CheckedMul(t, base, base);
    }
  }

  /**
   `Pow`: overflow is refused exactly when the mathematical power is not representable, and
   no intermediate square refuses a representable answer.
   */
  method PowBySquaring(t: Tag, left: nat, right: nat) returns (answer: IntResult)
    requires left < Modulus(t) && right < Modulus(t)
    ensures ValueOf(t, right) < 0 ==> answer == IntErr(Program)
    ensures ValueOf(t, right) >= 0 ==> answer == Exact(t, Power(ValueOf(t, left), ValueOf(t, right)))
  {
    SignExtendIsValue(t, right);
    if IsSigned(t) && SignExtend(right, t) < 0 {
      return IntErr(Program);
    }
    answer := SquareWalk(t, left, right, Power(ValueOf(t, left), right));
  }

  method SquareWalk(t: Tag, left: nat, right: nat, ghost goal: int) returns (answer: IntResult)
    requires Walking(t, 1, left, right, goal)
    ensures answer == Exact(t, goal)
  {
    hide MulOverflows, InRange;
    var result: nat, base: nat, remaining: nat := 1, left, right;
    while remaining != 0
      invariant Walking(t, result, base, remaining, goal)
    {
      if remaining % 2 != 0 {
        TakeBit(t, result, base, remaining, goal);
        if MulOverflows(result, base, t) {
          return IntErr(Overflow);
        }
        result := ToU64(result * base) % Modulus(t);
      }
      remaining := remaining / 2;
      if remaining != 0 {
        SquareBase(t, result, base, remaining, goal);
        if MulOverflows(base, base, t) {
          return IntErr(Overflow);
        }
        base := ToU64(base * base) % Modulus(t);
      }
    }
    KeptInRange(t, result);
    answer := IntOk(result % Modulus(t));
  }

  lemma KeptInRange(t: Tag, bits: nat)
    requires bits < Modulus(t)
    ensures Exact(t, ValueOf(t, bits)) == IntOk(bits % Modulus(t))
  {
    ModulusEven(t);
    EncodeRoundTrip(Modulus(t), IsSigned(t), bits);
    SignExtendIsValue(t, bits);
  }

  lemma NonZeroProduct(r: int, b: int)
    ensures r * b == 0 ==> r == 0 || b == 0
    ensures b == 0 ==> b * b == 0 && r * b == 0
  {
  }

  lemma RefusedProduct(t: Tag, r: int, b: int, e: nat)
    requires !InRange(t, r * b)
    ensures !InRange(t, (r * b) * Power(b * b, e))
  {
    NonZeroProduct(r, b);
    assert b != 0;
    assert b * b >= 1;
    PowerGrows(b * b, e);
    OutsideStaysOutside(Modulus(t), IsSigned(t), r * b, Power(b * b, e));
  }

  // ----- the whole table ----------------------------------------------------------------

  /** The signed and unsigned divisions, and `MIN / -1`, which wraps to `MIN`. */
  method Divide(op: BinaryOp, t: Tag, left: nat, right: nat) returns (answer: IntResult)
    requires op == Div || op == Mod
    requires left < Modulus(t) && right < Modulus(t)
    ensures answer == Apply(op, t, left, right)
  {
    hide Power, FloorShift, Bitwise, Quotient, Remainder, ValueOf, SignExtend, InRange, TrueResult;
    if right == 0 {
      ZeroPattern(t, right);
      return IntErr(DivZero);
    }
    ZeroPattern(t, right);
    if IsSigned(t) {
      var sl, sr := SignExtend(left, t), SignExtend(right, t);
      SignExtendIsValue(t, left);
      SignExtendIsValue(t, right);
      if sl == -(HALF as int) && sr == -1 && IntBytes(t) == 8 {
        MinByMinusOne();
        return IntOk(if op == Div then HALF else 0);
      }
      var result := if op == Div then Quotient(sl, sr) else Remainder(sl, sr);
      ModulusEven(t);
      WrapThenMask(Modulus(t), result);
      return IntOk(ToU64(result) % Modulus(t));
    }
    SignExtendIsValue(t, left);
    SignExtendIsValue(t, right);
    answer := IntOk((if op == Div then Quotient(left, right) else Remainder(left, right)) % Modulus(t));
  }

  lemma ZeroPattern(t: Tag, bits: nat)
    requires bits < Modulus(t)
    ensures ValueOf(t, bits) == 0 <==> bits == 0
  {
  }

  lemma MinByMinusOne()
    ensures Quotient(-(HALF as int), -1) == HALF && Remainder(-(HALF as int), -1) == 0
  {
  }

  /** A shift count rides modulo the type's width. */
  method Shift(op: BinaryOp, t: Tag, left: nat, right: nat) returns (answer: IntResult)
    requires op == Shl || op == Shr
    requires left < Modulus(t) && right < Modulus(t)
    ensures answer == Apply(op, t, left, right)
  {
    var amount := right % (8 * IntBytes(t));
    ModulusEven(t);
    SignExtendIsValue(t, left);
    if op == Shl {
      ghost var a := ValueOf(t, left);
      ShiftedPattern(Modulus(t), a, left, Power(2, amount));
      return IntOk(ToU64(left * Power(2, amount)) % Modulus(t));
    }
    if IsSigned(t) {
      WrapThenMask(Modulus(t), FloorShift(SignExtend(left, t), amount));
      return IntOk(ToU64(FloorShift(SignExtend(left, t), amount)) % Modulus(t));
    }
    answer := IntOk(FloorShift(left, amount) % Modulus(t));
  }

  lemma ShiftedPattern(m: nat, a: int, left: nat, p: int)
    requires m > 0 && WORD % m == 0 && (a == left || a == left - m)
    ensures ToU64(left * p) % m == (a * p) % m
  {
    WrapThenMask(m, left * p);
    var j := if a == left then 0 else 1;
    assert left == a + j * m;
    ProductModulo(m, a, p, j, 0);
  }

  method CheckedArithmetic(op: BinaryOp, t: Tag, left: nat, right: nat) returns (answer: IntResult)
    requires op == Add || op == Sub || op == Mul
    requires left < Modulus(t) && right < Modulus(t)
    ensures answer == if InRange(t, TrueResult(op, t, left, right))
                      then IntOk(Wrapping(op, t, left, right)) else IntErr(Overflow)
  {
    var refused, sum;
    if op == Add {
      AddTestExact(t, left, right);
      refused, sum := AddOverflows(left, right, t), ToU64(left + right);
    } else if op == Sub {
      SubTestExact(t, left, right);
      refused, sum := SubOverflows(left, right, t), ToU64(left - right);
    } else {
      MulTestExact(t, left, right);
      refused, sum := MulOverflows(left, right, t), ToU64(left * right);
    }
    answer := if refused then IntErr(Overflow) else IntOk(sum % Modulus(t));
  }

  // ----- what the table means -----------------------------------------------------------

  /** The bits of `&`, `|` and `^`, the result in the type's width. */
  ghost predicate BitsOf(op: BinaryOp, t: Tag, left: nat, right: nat, bits: nat) {
    && bits < Modulus(t)
    && forall i: nat :: BitSet(bits, i) <==>
         if op == BitAnd then BitSet(left, i) && BitSet(right, i)
         else if op == BitOr then BitSet(left, i) || BitSet(right, i)
         else BitSet(left, i) != BitSet(right, i)
  }

  /** Each operator over the integers its operands mean. */
  ghost predicate Operates(op: BinaryOp, t: Tag, left: nat, right: nat, answer: IntResult) {
    var a, b := ValueOf(t, left), ValueOf(t, right);
    var k := right % (8 * IntBytes(t));
    match op
    case Add => answer == if InRange(t, a + b) then IntOk(Encode(t, a + b)) else IntErr(Overflow)
    case Sub => answer == if InRange(t, a - b) then IntOk(Encode(t, a - b)) else IntErr(Overflow)
    case Mul => answer == if InRange(t, a * b) then IntOk(Encode(t, a * b)) else IntErr(Overflow)
    case Pow =>
      answer == if b < 0 then IntErr(Program)
                else if InRange(t, Power(a, b)) then IntOk(Encode(t, Power(a, b))) else IntErr(Overflow)
    case Div =>
      if b == 0 then answer == IntErr(DivZero)
      else exists q, r :: Truncated(a, b, q, r) && answer == IntOk(Encode(t, q))
    case Mod =>
      if b == 0 then answer == IntErr(DivZero)
      else exists q, r :: Truncated(a, b, q, r) && answer == IntOk(Encode(t, r))
    case BitAnd | BitOr | BitXor => answer.IntOk? && BitsOf(op, t, left, right, answer.bits)
    case Shl => answer == IntOk(Encode(t, a * Power(2, k)))
    case Shr => exists q :: q * Power(2, k) <= a < (q + 1) * Power(2, k) && answer == IntOk(Encode(t, q))
    case _ => answer == IntErr(Program)
  }

  lemma WidthPower(t: Tag)
    ensures Power(2, 8 * IntBytes(t)) == Modulus(t)
  {
    hide Power;
    PowersFrom(1);
    var k := 8;
    Doubled(k, 0x100);
    Doubled(2 * k, 0x1_0000);
    Doubled(4 * k, 0x1_0000_0000);
  }

  lemma PowersFrom(k: nat)
    requires k == 1
    ensures Power(2, 8 * k) == 0x100
  {
    assert Power(2, k) == 2;
    hide Power;
    Doubled(k, 2);
    Doubled(2 * k, 4);
    Doubled(4 * k, 16);
  }

  lemma Doubled(k: nat, v: nat)
    requires Power(2, k) == v
    ensures Power(2, 2 * k) == v * v
  {
    hide Power;
    PowerProduct(2, k, k);
  }

  lemma BitwiseMeans(op: BinaryOp, t: Tag, left: nat, right: nat)
    requires op == BitAnd || op == BitOr || op == BitXor
    requires left < Modulus(t) && right < Modulus(t)
    ensures BitsOf(op, t, left, right, Bitwise(op, left, right, 64) % Modulus(t))
  {
    var width := 8 * IntBytes(t);
    WidthPower(t);
    hide Bitwise, BitSet, Modulus, Power;
    var bits := Bitwise(op, left, right, 64) % Modulus(t);
    SmallResidue(left, Modulus(t));
    SmallResidue(right, Modulus(t));
    forall i: nat ensures BitSet(bits, i) <==>
      if op == BitAnd then BitSet(left, i) && BitSet(right, i)
      else if op == BitOr then BitSet(left, i) || BitSet(right, i)
      else BitSet(left, i) != BitSet(right, i)
    {
      BitwiseBits(op, left, right, 64, i);
      LowBits(Bitwise(op, left, right, 64), width, i);
      LowBits(left, width, i);
      LowBits(right, width, i);
    }
  }

  lemma DivisionMeans(op: BinaryOp, t: Tag, left: nat, right: nat)
    requires (op == Div || op == Mod) && ValueOf(t, right) != 0
    ensures Operates(op, t, left, right, Apply(op, t, left, right))
  {
    hide Truncated, Encode, ValueOf, Quotient, Remainder, Power;
    QuotientTruncates(ValueOf(t, left), ValueOf(t, right));
  }

  lemma ShiftMeans(op: BinaryOp, t: Tag, left: nat, right: nat)
    requires op == Shl || op == Shr
    ensures Operates(op, t, left, right, Apply(op, t, left, right))
  {
    var q := FloorShift(ValueOf(t, left), right % (8 * IntBytes(t)));
    hide Encode, ValueOf, Power, FloorShift;
  }

  lemma ArithmeticMeans(op: BinaryOp, t: Tag, left: nat, right: nat)
    requires op == Add || op == Sub || op == Mul || op == Pow
    ensures Operates(op, t, left, right, Apply(op, t, left, right))
  {
    hide Power, InRange, Encode, ValueOf, Modulus, Bitwise, FloorShift, Truncated, BitsOf;
  }

  /** The table of operators means what each operator is. */
  lemma ApplyMeans(op: BinaryOp, t: Tag, left: nat, right: nat)
    requires left < Modulus(t) && right < Modulus(t)
    ensures Operates(op, t, left, right, Apply(op, t, left, right))
  {
    hide ValueOf, Modulus, Power, Bitwise, Encode, InRange, FloorShift, Truncated, Quotient, Remainder, BitsOf;
    match op
    case Add | Sub | Mul | Pow => ArithmeticMeans(op, t, left, right);
    case Div | Mod => if ValueOf(t, right) != 0 { DivisionMeans(op, t, left, right); }
    case BitAnd | BitOr | BitXor => BitwiseMeans(op, t, left, right);
    case Shl | Shr => ShiftMeans(op, t, left, right);
    case _ =>
  }

  /** `comp_int_binary`: every operator answers what it means, at every width and sign. */
  method IntBinary(op: BinaryOp, t: Tag, left: nat, right: nat) returns (answer: IntResult)
    requires left < Modulus(t) && right < Modulus(t)
    ensures answer == Apply(op, t, left, right)
    ensures Operates(op, t, left, right, answer)
  {
    hide Decode, Modulus, Power, Quotient, Remainder, FloorShift, Fits, Operates;
    ApplyMeans(op, t, left, right);
    match op {
      case Add | Sub | Mul =>
        WrappingAgrees(op, t, left, right);
        answer := CheckedArithmetic(op, t, left, right);
      case Pow =>
        answer := PowBySquaring(t, left, right);
      case Div | Mod =>
        answer := Divide(op, t, left, right);
      case BitAnd | BitOr | BitXor =>
        answer := IntOk(Bitwise(op, left, right, 64) % Modulus(t));
      case Shl | Shr =>
        answer := Shift(op, t, left, right);
      case _ =>
        answer := IntErr(Program);
    }
  }
}
