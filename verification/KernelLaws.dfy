/** What the strict kernels compute, as laws between their operands and results. */
module KernelLaws {
  import opened Machine
  import opened Doubles
  import opened Values
  import opened Arith
  import opened Compare
  import opened ThreeValued

  /** The outcome of a strict operator on two values. */
  function Result(fp: Floating, op: BinOp, a: Value, b: Value): Outcome {
    StrictBinary(fp, op, Ok(a), Ok(b))
  }

  function Negated(fp: Floating, op: UnOp, a: Value): Outcome {
    StrictUnary(fp, op, Ok(a))
  }

  // ---- dispatch: the kernel that an operator reaches ----

  lemma AtInts(fp: Floating, op: BinOp, x: Int64, y: Int64)
    requires op in {IntAdd, IntSub, IntMul, IntDiv, IntMod, IntLt, IntLe, IntGt, IntGe}
    ensures Result(fp, op, Int(x), Int(y)) == FromValue(IntKernel(op, x, y))
  {
    hide IntKernel;
  }

  lemma AtUints(fp: Floating, op: BinOp, x: UInt64, y: UInt64)
    requires op in {UintAdd, UintSub, UintMul, UintDiv, UintMod, UintLt, UintLe, UintGt, UintGe}
    ensures Result(fp, op, Uint(x), Uint(y)) == FromValue(UintKernel(op, x, y))
  {
    hide UintKernel;
  }

  lemma AtDoubles(fp: Floating, op: BinOp, x: Double, y: Double)
    requires op in {DoubleAdd, DoubleSub, DoubleMul, DoubleDiv, DoubleLt, DoubleLe, DoubleGt, DoubleGe}
    ensures Result(fp, op, Dbl(x), Dbl(y)) == FromValue(DoubleKernel(fp, op, x, y))
  {
    hide DoubleKernel;
  }

  lemma AtBools(fp: Floating, op: BinOp, p: bool, q: bool)
    requires op in {BoolEq, BoolLt, BoolLe, BoolGt, BoolGe}
    ensures Result(fp, op, Bool(p), Bool(q)) == FromValue(BoolKernel(op, p, q))
  {
    hide BoolKernel;
  }

  lemma AtNumbers(fp: Floating, op: BinOp, a: Value, b: Value)
    requires op in {NumericEq, NumericLt, NumericLe, NumericGt, NumericGe} && IsNumeric(a) && IsNumeric(b)
    ensures Result(fp, op, a, b) == FromValue(NumericKernel(op, a, b))
  {
    hide NumericKernel;
  }

  // ---- int arithmetic ----

  /** The sum is the number from which y can be taken away to leave x, and there is one exactly when it
      is in range. */
  lemma IntAddLaw(fp: Floating, x: Int64, y: Int64)
    ensures forall z: Int64 :: Result(fp, IntAdd, Int(x), Int(y)) == Ok(Int(z)) <==> z - y == x
    ensures Result(fp, IntAdd, Int(x), Int(y)) == Err(ERR_OVERFLOW) <==> !(INT64_MIN <= x + y <= INT64_MAX)
  {
    AtInts(fp, IntAdd, x, y);
    hide Result;
  }

  /** The difference is the number to which y can be added to give x. */
  lemma IntSubLaw(fp: Floating, x: Int64, y: Int64)
    ensures forall z: Int64 :: Result(fp, IntSub, Int(x), Int(y)) == Ok(Int(z)) <==> z + y == x
    ensures Result(fp, IntSub, Int(x), Int(y)) == Err(ERR_OVERFLOW) <==> !(INT64_MIN <= x - y <= INT64_MAX)
  {
    AtInts(fp, IntSub, x, y);
    hide Result;
  }

  /** Subtraction undoes addition. */
  lemma SubUndoesAdd(fp: Floating, x: Int64, y: Int64, z: Int64)
    requires Result(fp, IntAdd, Int(x), Int(y)) == Ok(Int(z))
    ensures Result(fp, IntSub, Int(z), Int(y)) == Ok(Int(x))
  {
    hide Result;
    IntAddLaw(fp, x, y);
    IntSubLaw(fp, z, y);
  }

  lemma ProductSteps(x: int, y: int)
    ensures x * 0 == 0 && x * y == y * x
    ensures x * (y + 1) == x * y + x && x * (y - 1) == x * y - x
  {
  }

  /** Multiplication is repeated addition: nothing times zero, and one step up or down of a product that
      is in range is an addition or subtraction, with the same overflow. */
  lemma IntMulLaw(fp: Floating, x: Int64, y: Int64)
    ensures Result(fp, IntMul, Int(x), Int(0)) == Ok(Int(0))
    ensures forall p: Int64 :: Result(fp, IntMul, Int(x), Int(y)) == Ok(Int(p)) && y < INT64_MAX ==>
      Result(fp, IntMul, Int(x), Int(y + 1)) == Result(fp, IntAdd, Int(p), Int(x))
    ensures forall p: Int64 :: Result(fp, IntMul, Int(x), Int(y)) == Ok(Int(p)) && y > INT64_MIN ==>
      Result(fp, IntMul, Int(x), Int(y - 1)) == Result(fp, IntSub, Int(p), Int(x))
    ensures Result(fp, IntMul, Int(x), Int(y)) == Result(fp, IntMul, Int(y), Int(x))
    ensures Result(fp, IntMul, Int(x), Int(y)).Ok? || Result(fp, IntMul, Int(x), Int(y)) == Err(ERR_OVERFLOW)
  {
    hide Result;
    AtInts(fp, IntMul, x, 0);
    AtInts(fp, IntMul, x, y);
    AtInts(fp, IntMul, y, x);
    ProductSteps(x, y);
    forall p: Int64 | Result(fp, IntMul, Int(x), Int(y)) == Ok(Int(p)) && y < INT64_MAX
      ensures Result(fp, IntMul, Int(x), Int(y + 1)) == Result(fp, IntAdd, Int(p), Int(x))
    {
      AtInts(fp, IntMul, x, y + 1);
      AtInts(fp, IntAdd, p, x);
    }
    forall p: Int64 | Result(fp, IntMul, Int(x), Int(y)) == Ok(Int(p)) && y > INT64_MIN
      ensures Result(fp, IntMul, Int(x), Int(y - 1)) == Result(fp, IntSub, Int(p), Int(x))
    {
      AtInts(fp, IntMul, x, y - 1);
      AtInts(fp, IntSub, p, x);
    }
  }

  /** The multiplication kernel on the split product: overflow exactly where that reports one. */
  method CelIntMul(fp: Floating, x: Int64, y: Int64) returns (out: Value)
    ensures FromValue(out) == Result(fp, IntMul, Int(x), Int(y))
    ensures out == Error(ERR_OVERFLOW) <==> !(INT64_MIN <= x * y <= INT64_MAX)
  {
    AtInts(fp, IntMul, x, y);
    hide Result;
    var overflows, r := Int64MulOverflows(x, y);
    out := if overflows then Error(ERR_OVERFLOW) else Int(r);
  }

  function Magnitude(n: int): int {
    if n < 0 then -n else n
  }

  /** Quotient and remainder come in pairs that rebuild the dividend, the remainder smaller than the
      divisor and signed like the dividend; the three exceptions are errors. */
  lemma IntDivModLaw(fp: Floating, x: Int64, y: Int64)
    ensures y == 0 ==> Result(fp, IntDiv, Int(x), Int(y)) == Err(ERR_DIVIDE_BY_ZERO)
    ensures y == 0 ==> Result(fp, IntMod, Int(x), Int(y)) == Err(ERR_MODULUS_BY_ZERO)
    ensures x == INT64_MIN && y == -1 ==> Result(fp, IntDiv, Int(x), Int(y)) == Err(ERR_OVERFLOW)
    ensures x == INT64_MIN && y == -1 ==> Result(fp, IntMod, Int(x), Int(y)) == Err(ERR_OVERFLOW)
    ensures y != 0 && !(x == INT64_MIN && y == -1) ==>
      var q, r := Result(fp, IntDiv, Int(x), Int(y)), Result(fp, IntMod, Int(x), Int(y));
      && q.Ok? && q.v.Int? && r.Ok? && r.v.Int?
      && x == y * q.v.i + r.v.i
      && -Magnitude(y) < r.v.i < Magnitude(y)
      && (x >= 0 ==> r.v.i >= 0) && (x <= 0 ==> r.v.i <= 0)
  {
    AtInts(fp, IntDiv, x, y);
    AtInts(fp, IntMod, x, y);
    hide Result, TruncDiv, TruncMod;
    if y != 0 && !(x == INT64_MIN && y == -1) {
      TruncLaw(x, y);
      QuotientInRange(x, y);
    }
  }

  /** Negation gives the number that cancels x, and fails exactly on the one that has none. */
  lemma IntNegLaw(fp: Floating, x: Int64)
    ensures forall z: Int64 :: Negated(fp, IntNeg, Int(x)) == Ok(Int(z)) <==> z + x == 0
    ensures Negated(fp, IntNeg, Int(x)) == Err(ERR_OVERFLOW) <==> x == -0x8000_0000_0000_0000
    ensures Negated(fp, IntNeg, Int(x)) == Result(fp, IntSub, Int(0), Int(x))
  {
    AtInts(fp, IntSub, 0, x);
    hide Result;
  }

  // ---- uint arithmetic ----

  lemma UintAddSubLaw(fp: Floating, x: UInt64, y: UInt64)
    ensures forall z: UInt64 :: Result(fp, UintAdd, Uint(x), Uint(y)) == Ok(Uint(z)) <==> z - y == x
    ensures Result(fp, UintAdd, Uint(x), Uint(y)) == Err(ERR_OVERFLOW) <==> x + y > UINT64_MAX
    ensures forall z: UInt64 :: Result(fp, UintSub, Uint(x), Uint(y)) == Ok(Uint(z)) <==> z + y == x
    ensures Result(fp, UintSub, Uint(x), Uint(y)) == Err(ERR_OVERFLOW) <==> x < y
  {
    AtUints(fp, UintAdd, x, y);
    AtUints(fp, UintSub, x, y);
    hide Result;
  }

  lemma UintMulLaw(fp: Floating, x: UInt64, y: UInt64)
    ensures Result(fp, UintMul, Uint(x), Uint(0)) == Ok(Uint(0))
    ensures forall p: UInt64 :: Result(fp, UintMul, Uint(x), Uint(y)) == Ok(Uint(p)) && y < UINT64_MAX ==>
      Result(fp, UintMul, Uint(x), Uint(y + 1)) == Result(fp, UintAdd, Uint(p), Uint(x))
    ensures Result(fp, UintMul, Uint(x), Uint(y)) == Err(ERR_OVERFLOW) && y < UINT64_MAX ==>
      Result(fp, UintMul, Uint(x), Uint(y + 1)) == Err(ERR_OVERFLOW)
    ensures Result(fp, UintMul, Uint(x), Uint(y)).Ok? || Result(fp, UintMul, Uint(x), Uint(y)) == Err(ERR_OVERFLOW)
  {
    hide Result;
    AtUints(fp, UintMul, x, 0);
    AtUints(fp, UintMul, x, y);
    ProductSteps(x, y);
    assert x * y >= 0 by {
      MulLe(0, x, y);
    }
    if y < UINT64_MAX {
      AtUints(fp, UintMul, x, y + 1);
      forall p: UInt64 | Result(fp, UintMul, Uint(x), Uint(y)) == Ok(Uint(p))
        ensures Result(fp, UintMul, Uint(x), Uint(y + 1)) == Result(fp, UintAdd, Uint(p), Uint(x))
      {
        AtUints(fp, UintAdd, p, x);
      }
    }
  }

  method CelUintMul(fp: Floating, x: UInt64, y: UInt64) returns (out: Value)
    ensures FromValue(out) == Result(fp, UintMul, Uint(x), Uint(y))
    ensures out == Error(ERR_OVERFLOW) <==> x * y > UINT64_MAX
  {
    AtUints(fp, UintMul, x, y);
    hide Result;
    var overflows, r := Uint64MulOverflows(x, y);
    assert x * y >= 0 by {
      MulLe(0, x, y);
    }
    out := if overflows then Error(ERR_OVERFLOW) else Uint(r);
  }

  lemma UintDivModLaw(fp: Floating, x: UInt64, y: UInt64)
    ensures y == 0 ==> Result(fp, UintDiv, Uint(x), Uint(y)) == Err(ERR_DIVIDE_BY_ZERO)
    ensures y == 0 ==> Result(fp, UintMod, Uint(x), Uint(y)) == Err(ERR_MODULUS_BY_ZERO)
    ensures y != 0 ==>
      var q, r := Result(fp, UintDiv, Uint(x), Uint(y)), Result(fp, UintMod, Uint(x), Uint(y));
      q.Ok? && q.v.Uint? && r.Ok? && r.v.Uint? && x == y * q.v.u + r.v.u && r.v.u < y
  {
    AtUints(fp, UintDiv, x, y);
    AtUints(fp, UintMod, x, y);
    hide Result;
  }

  // ---- double arithmetic ----

  lemma DoubleArithmeticLaw(fp: Floating, x: Double, y: Double)
    ensures Result(fp, DoubleAdd, Dbl(x), Dbl(y)) == Ok(Dbl(fp.add(x, y)))
    ensures Result(fp, DoubleSub, Dbl(x), Dbl(y)) == Ok(Dbl(fp.sub(x, y)))
    ensures Result(fp, DoubleMul, Dbl(x), Dbl(y)) == Ok(Dbl(fp.mul(x, y)))
    ensures Result(fp, DoubleDiv, Dbl(x), Dbl(y)) == Ok(Dbl(fp.div(x, y)))
    ensures Negated(fp, DoubleNeg, Dbl(x)) == Ok(Dbl(fp.neg(x)))
  {
    hide Result;
    AtDoubles(fp, DoubleAdd, x, y);
    AtDoubles(fp, DoubleSub, x, y);
    AtDoubles(fp, DoubleMul, x, y);
    AtDoubles(fp, DoubleDiv, x, y);
  }

  // ---- comparisons ----

  function Truth(b: bool): Outcome {
    Ok(Bool(b))
  }

  /** Four comparisons that say what a verdict of the ladder says. */
  ghost predicate Follow(lt: Outcome, le: Outcome, gt: Outcome, ge: Outcome, c: CmpResult) {
    && lt == Truth(c == CmpLess) && le == Truth(c == CmpLess || c == CmpEqual)
    && gt == Truth(c == CmpGreater) && ge == Truth(c == CmpGreater || c == CmpEqual)
  }

  /** The int, uint and double comparisons follow the ladder. */
  lemma IntsFollowTheLadder(fp: Floating, x: Int64, y: Int64)
    ensures var a, b := Int(x), Int(y);
      Follow(Result(fp, IntLt, a, b), Result(fp, IntLe, a, b), Result(fp, IntGt, a, b), Result(fp, IntGe, a, b), NumericCompare(a, b))
  {
    hide Result;
    AtInts(fp, IntLt, x, y);
    AtInts(fp, IntLe, x, y);
    AtInts(fp, IntGt, x, y);
    AtInts(fp, IntGe, x, y);
  }

  lemma UintsFollowTheLadder(fp: Floating, x: UInt64, y: UInt64)
    ensures var a, b := Uint(x), Uint(y);
      Follow(Result(fp, UintLt, a, b), Result(fp, UintLe, a, b), Result(fp, UintGt, a, b), Result(fp, UintGe, a, b), NumericCompare(a, b))
  {
    hide Result;
    AtUints(fp, UintLt, x, y);
    AtUints(fp, UintLe, x, y);
    AtUints(fp, UintGt, x, y);
    AtUints(fp, UintGe, x, y);
  }

  lemma DoublesFollowTheLadder(fp: Floating, x: Double, y: Double)
    ensures var a, b := Dbl(x), Dbl(y);
      Follow(Result(fp, DoubleLt, a, b), Result(fp, DoubleLe, a, b), Result(fp, DoubleGt, a, b), Result(fp, DoubleGe, a, b), NumericCompare(a, b))
  {
    hide Result, CmpDouble, LessThan;
    AtDoubles(fp, DoubleLt, x, y);
    AtDoubles(fp, DoubleLe, x, y);
    AtDoubles(fp, DoubleGt, x, y);
    AtDoubles(fp, DoubleGe, x, y);
    CmpDoubleMeaning(x, y);
  }

  /** So do the mixed ones, and the mixed equality. */
  lemma NumbersFollowTheLadder(fp: Floating, a: Value, b: Value)
    requires IsNumeric(a) && IsNumeric(b)
    ensures var c := NumericCompare(a, b);
      && Follow(Result(fp, NumericLt, a, b), Result(fp, NumericLe, a, b), Result(fp, NumericGt, a, b), Result(fp, NumericGe, a, b), c)
      && Result(fp, NumericEq, a, b) == Truth(c == CmpEqual)
  {
    hide Result, NumericCompare;
    AtNumbers(fp, NumericLt, a, b);
    AtNumbers(fp, NumericLe, a, b);
    AtNumbers(fp, NumericGt, a, b);
    AtNumbers(fp, NumericGe, a, b);
    AtNumbers(fp, NumericEq, a, b);
  }

  function IntegerOf(v: Value): int
    requires v.Int? || v.Uint?
  {
    if v.Int? then v.i else v.u
  }

  /** On ints and uints, in any mixture, the comparisons are those of the numbers. */
  lemma IntegersCompareAsNumbers(fp: Floating, a: Value, b: Value)
    requires (a.Int? || a.Uint?) && (b.Int? || b.Uint?)
    ensures Result(fp, NumericLt, a, b) == Truth(IntegerOf(a) < IntegerOf(b))
    ensures Result(fp, NumericLe, a, b) == Truth(IntegerOf(a) <= IntegerOf(b))
    ensures Result(fp, NumericGt, a, b) == Truth(IntegerOf(a) > IntegerOf(b))
    ensures Result(fp, NumericGe, a, b) == Truth(IntegerOf(a) >= IntegerOf(b))
    ensures Result(fp, NumericEq, a, b) == Truth(IntegerOf(a) == IntegerOf(b))
  {
    hide Result;
    NumbersFollowTheLadder(fp, a, b);
    if a.Int? {} else if b.Int? {}
  }

  /** With a double on a side, they are those of the double images, and all false with a NaN. */
  lemma MixedCompareAsImages(fp: Floating, a: Value, b: Value)
    requires IsNumeric(a) && IsNumeric(b) && (a.Dbl? || b.Dbl?)
    ensures Result(fp, NumericLt, a, b) == Truth(LessThan(ImageOf(a), ImageOf(b)))
    ensures Result(fp, NumericGt, a, b) == Truth(LessThan(ImageOf(b), ImageOf(a)))
    ensures Result(fp, NumericLe, a, b) == Truth(LessThan(ImageOf(a), ImageOf(b)) || SameNumber(ImageOf(a), ImageOf(b)))
    ensures Result(fp, NumericGe, a, b) == Truth(LessThan(ImageOf(b), ImageOf(a)) || SameNumber(ImageOf(a), ImageOf(b)))
    ensures Result(fp, NumericEq, a, b) == Truth(SameNumber(ImageOf(a), ImageOf(b)))
    ensures ImageOf(a) == NaN || ImageOf(b) == NaN ==>
      forall op :: op in {NumericLt, NumericLe, NumericGt, NumericGe, NumericEq} ==> Result(fp, op, a, b) == Truth(false)
  {
    hide Result, ImageOf, NumericCompare, CmpDouble, LessThan;
    NumbersFollowTheLadder(fp, a, b);
    LadderDecides(a, b);
    CmpDoubleMeaning(ImageOf(a), ImageOf(b));
  }

  function Digit(b: bool): Int64 {
    if b then 1 else 0
  }

  /** Booleans compare like 0 and 1. */
  lemma BoolsCompareAsDigits(fp: Floating, p: bool, q: bool)
    ensures Result(fp, BoolEq, Bool(p), Bool(q)) == Truth(Digit(p) == Digit(q))
    ensures Result(fp, BoolLt, Bool(p), Bool(q)) == Truth(Digit(p) < Digit(q))
    ensures Result(fp, BoolLe, Bool(p), Bool(q)) == Truth(Digit(p) <= Digit(q))
    ensures Result(fp, BoolGt, Bool(p), Bool(q)) == Truth(Digit(p) > Digit(q))
    ensures Result(fp, BoolGe, Bool(p), Bool(q)) == Truth(Digit(p) >= Digit(q))
  {
    hide Result;
    AtBools(fp, BoolEq, p, q);
    AtBools(fp, BoolLt, p, q);
    AtBools(fp, BoolLe, p, q);
    AtBools(fp, BoolGt, p, q);
    AtBools(fp, BoolGe, p, q);
  }

  // ---- kinds ----

  /** Each family of operators takes operands of its own kind and calls any others a type mismatch. */
  lemma IntKindsOnly(fp: Floating, op: BinOp, a: Value, b: Value)
    requires op in {IntAdd, IntSub, IntMul, IntDiv, IntMod, IntLt, IntLe, IntGt, IntGe}
    ensures !(a.Int? && b.Int?) ==> Result(fp, op, a, b) == Err(ERR_TYPE_MISMATCH)
  {
    hide IntKernel, UintKernel, DoubleKernel, BoolKernel, NumericKernel;
  }

  lemma UintKindsOnly(fp: Floating, op: BinOp, a: Value, b: Value)
    requires op in {UintAdd, UintSub, UintMul, UintDiv, UintMod, UintLt, UintLe, UintGt, UintGe}
    ensures !(a.Uint? && b.Uint?) ==> Result(fp, op, a, b) == Err(ERR_TYPE_MISMATCH)
  {
    hide IntKernel, UintKernel, DoubleKernel, BoolKernel, NumericKernel;
  }

  lemma DoubleKindsOnly(fp: Floating, op: BinOp, a: Value, b: Value)
    requires op in {DoubleAdd, DoubleSub, DoubleMul, DoubleDiv, DoubleLt, DoubleLe, DoubleGt, DoubleGe}
    ensures !(a.Dbl? && b.Dbl?) ==> Result(fp, op, a, b) == Err(ERR_TYPE_MISMATCH)
  {
    hide IntKernel, UintKernel, DoubleKernel, BoolKernel, NumericKernel;
  }

  lemma BoolKindsOnly(fp: Floating, op: BinOp, a: Value, b: Value)
    requires op in {BoolEq, BoolLt, BoolLe, BoolGt, BoolGe}
    ensures !(a.Bool? && b.Bool?) ==> Result(fp, op, a, b) == Err(ERR_TYPE_MISMATCH)
  {
    hide IntKernel, UintKernel, DoubleKernel, BoolKernel, NumericKernel;
  }

  lemma NumericKindsOnly(fp: Floating, op: BinOp, a: Value, b: Value)
    requires op in {NumericEq, NumericLt, NumericLe, NumericGt, NumericGe}
    ensures !(IsNumeric(a) && IsNumeric(b)) ==> Result(fp, op, a, b) == Err(ERR_TYPE_MISMATCH)
  {
    hide IntKernel, UintKernel, DoubleKernel, BoolKernel, NumericKernel;
  }

  // ---- operands that are no values ----

  /** Left to right, the first error is the result; without one, all unknowns are merged. */
  lemma StrictOperands(fp: Floating, op: BinOp, a: Outcome, b: Outcome)
    ensures a.Err? ==> StrictBinary(fp, op, a, b) == a
    ensures !a.Err? && b.Err? ==> StrictBinary(fp, op, a, b) == b
    ensures a.Unk? && b.Unk? ==> StrictBinary(fp, op, a, b) == Unk(a.ids + b.ids)
    ensures a.Unk? && b.Ok? ==> StrictBinary(fp, op, a, b) == a
    ensures a.Ok? && b.Unk? ==> StrictBinary(fp, op, a, b) == b
  {
    hide BinaryKernel;
  }
}
