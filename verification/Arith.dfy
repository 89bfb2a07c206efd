/** 64-bit integer arithmetic: overflow detection without 128-bit products, and the arithmetic kernels. */
module Arith {
  import opened Machine
  import opened Doubles
  import opened Values

  // ---- unsigned multiplication ----

  lemma MulLe(a: int, b: int, c: int)
    requires a <= b && c >= 0
    ensures a * c <= b * c
  {
  }

  lemma ProductBound(a: nat, b: nat, m: nat)
    requires a <= m && b <= m
    ensures 0 <= a * b <= m * m
  {
    MulLe(a, m, b);
    MulLe(b, m, m);
    MulLe(0, a, b);
  }

  lemma Distribute(a: int, b: int, c: int)
    ensures (a + b) * c == a * c + b * c
  {
  }

  lemma SplitLeft(h: int, l: int, b: int, s: int)
    ensures (h * s + l) * b == (h * b) * s + l * b
  {
    Distribute(h * s, l, b);
  }

  lemma SplitProduct(ah: nat, al: nat, bh: nat, bl: nat, s: nat)
    ensures (ah * s + al) * (bh * s + bl) == (ah * bh * s + (ah * bl + al * bh)) * s + al * bl
  {
    var b := bh * s + bl;
    SplitLeft(ah, al, b, s);
    SplitLeft(bh, bl, ah, s);
    SplitLeft(bh, bl, al, s);
    Distribute(bh * ah * s + bl * ah, bh * al, s);
  }

  /** What the four partial products say about the product. */
  lemma PartialProducts(a: UInt64, b: UInt64, hl: nat, lh: nat, ll: nat)
    requires var ah, al, bh, bl := a / TWO_32, a % TWO_32, b / TWO_32, b % TWO_32;
      hl == ah * bl && lh == al * bh && ll == al * bl
    ensures a / TWO_32 != 0 && b / TWO_32 != 0 ==> a * b >= TWO_64
    ensures a / TWO_32 == 0 || b / TWO_32 == 0 ==> a * b == (hl + lh) * TWO_32 + ll && (hl == 0 || lh == 0)
    ensures hl < TWO_64 && lh < TWO_64 && ll < TWO_64
  {
    var ah, al, bh, bl := a / TWO_32, a % TWO_32, b / TWO_32, b % TWO_32;
    var m: nat := TWO_32 - 1;
    SplitProduct(ah, al, bh, bl, TWO_32);
    ProductBound(ah, bl, m);
    ProductBound(al, bh, m);
    ProductBound(al, bl, m);
    if ah > 0 && bh > 0 {
      MulLe(1, ah, bh);
    }
  }

  lemma CombineHalves(p: nat, hl: nat, lh: nat, ll: nat)
    requires p == (hl + lh) * TWO_32 + ll && hl < TWO_64 && lh < TWO_64 && ll < TWO_64 && (hl == 0 || lh == 0)
    ensures var mid := (hl + lh) % TWO_64;
      if mid / TWO_32 != 0 then p >= TWO_64
      else var result := (ll + mid * TWO_32 % TWO_64) % TWO_64;
        if result < ll then p >= TWO_64 else p == result
  {
  }

  /** Split 32x32 partial products. On overflow the out-parameter is left alone; here it is returned as 0. */
  method Uint64MulOverflows(a: UInt64, b: UInt64) returns (overflows: bool, r: UInt64)
    ensures overflows <==> a * b >= TWO_64
    ensures !overflows ==> r == a * b
  {
    r := 0;
    var ah, al := a / TWO_32, a % TWO_32;
    var bh, bl := b / TWO_32, b % TWO_32;
    var hl, lh, ll := ah * bl, al * bh, al * bl;
    PartialProducts(a, b, hl, lh, ll);
    if ah == 0 || bh == 0 {
      CombineHalves(a * b, hl, lh, ll);
    }
    if ah != 0 && bh != 0 {
      return true, r;
    }
    var mid: UInt64 := (hl + lh) % TWO_64;
    if mid / TWO_32 != 0 {
      return true, r;
    }
    var lo: UInt64 := ll;
    var result: UInt64 := (lo + mid * TWO_32 % TWO_64) % TWO_64;
    if result < lo {
      return true, r;
    }
    return false, result;
  }

  // ---- signed multiplication ----

  /** The cast to int64_t: two's complement. */
  function WrapInt64(n: int): Int64 {
    (n + TWO_63) % TWO_64 - TWO_63
  }

  lemma PositiveProduct(a: nat, b: nat)
    requires a > 0 && b > 0
    ensures a * b >= 1
  {
    MulLe(1, a, b);
  }

  lemma MagnitudeProduct(a: int, b: int)
    ensures (if a < 0 then -a else a) * (if b < 0 then -b else b) == if (a < 0) != (b < 0) then -(a * b) else a * b
  {
  }

  lemma MinTimes(b: Int64)
    requires b != 0
    ensures INT64_MIN <= INT64_MIN * b <= INT64_MAX <==> b == 1
    ensures INT64_MIN * b == b * INT64_MIN
  {
  }

  method Int64MulOverflows(a: Int64, b: Int64) returns (overflows: bool, r: Int64)
    ensures overflows <==> !(INT64_MIN <= a * b <= INT64_MAX)
    ensures !overflows ==> r == a * b
  {
    r := 0;
    if a == 0 || b == 0 {
      return false, 0;
    }
    if a == INT64_MIN {
      MinTimes(b);
      return b != 1, INT64_MIN;
    }
    if b == INT64_MIN {
      MinTimes(a);
      return a != 1, INT64_MIN;
    }
    var ua: UInt64 := if a < 0 then -a else a;
    var ub: UInt64 := if b < 0 then -b else b;
    MagnitudeProduct(a, b);
    PositiveProduct(ua, ub);
    ghost var p := a * b;
    var over, up := Uint64MulOverflows(ua, ub);
    if over {
      return true, r;
    }
    if (a < 0) != (b < 0) {
      if up > INT64_MAX + 1 {
        return true, r;
      }
      // At up == 2^63 both the cast and the negation wrap, and land on INT64_MIN.
      assert up == -p;
      var cast: int := WrapInt64(up);
      r := WrapInt64(-cast);
    } else {
      if up > INT64_MAX {
        return true, r;
      }
      r := up;
    }
    overflows := false;
  }

  // ---- division ----

  function Abs(a: int): nat {
    if a < 0 then -a else a
  }

  /** C's `/` and `%`: the quotient truncates towards zero. */
  function TruncDiv(a: int, b: int): int
    requires b != 0
  {
    if (a >= 0) == (b > 0) then Abs(a) / Abs(b) else -(Abs(a) / Abs(b))
  }

  function TruncMod(a: int, b: int): int
    requires b != 0
  {
    if a >= 0 then Abs(a) % Abs(b) else -(Abs(a) % Abs(b))
  }

  lemma SignsOut(d: int, q: int)
    ensures (-d) * q == -(d * q) && d * (-q) == -(d * q) && (-d) * (-q) == d * q
  {
  }

  lemma TruncLaw(a: int, b: int)
    requires b != 0
    ensures a == b * TruncDiv(a, b) + TruncMod(a, b)
    ensures Abs(TruncMod(a, b)) < Abs(b)
    ensures a >= 0 ==> TruncMod(a, b) >= 0
    ensures a <= 0 ==> TruncMod(a, b) <= 0
  {
    var d, q := Abs(b), Abs(a) / Abs(b);
    assert Abs(a) == d * q + Abs(a) % d;
    SignsOut(d, q);
    assert b == d || b == -d;
  }

  // ---- the kernels on unpoisoned operands ----

  datatype BinOp =
    | IntAdd | IntSub | IntMul | IntDiv | IntMod
    | UintAdd | UintSub | UintMul | UintDiv | UintMod
    | DoubleAdd | DoubleSub | DoubleMul | DoubleDiv
    | IntLt | IntLe | IntGt | IntGe
    | UintLt | UintLe | UintGt | UintGe
    | DoubleLt | DoubleLe | DoubleGt | DoubleGe
    | BoolEq | BoolLt | BoolLe | BoolGt | BoolGe
    | NumericEq | NumericLt | NumericLe | NumericGt | NumericGe

  datatype UnOp = IntNeg | DoubleNeg

  /** Rounded double arithmetic is left open. */
  datatype Floating = Floating(
    add: (Double, Double) -> Double, sub: (Double, Double) -> Double,
    mul: (Double, Double) -> Double, div: (Double, Double) -> Double, neg: Double -> Double)

  function CheckedInt(n: int): Value {
    if INT64_MIN <= n <= INT64_MAX then Int(n) else Error(ERR_OVERFLOW)
  }

  function CheckedUint(n: int): Value {
    if 0 <= n <= UINT64_MAX then Uint(n) else Error(ERR_OVERFLOW)
  }

  /** The one quotient out of range is INT64_MIN / -1. */
  lemma QuotientInRange(a: Int64, b: Int64)
    requires b != 0 && !(a == INT64_MIN && b == -1)
    ensures INT64_MIN <= TruncDiv(a, b) <= INT64_MAX
    ensures INT64_MIN <= TruncMod(a, b) <= INT64_MAX
  {
  }

  function IntKernel(op: BinOp, a: Int64, b: Int64): (r: Value)
    ensures r.Int? || r.Bool? || r.Error?
  {
    match op
    case IntAdd => CheckedInt(a + b)
    case IntSub => CheckedInt(a - b)
    case IntMul => CheckedInt(a * b)
    case IntDiv =>
      if b == 0 then Error(ERR_DIVIDE_BY_ZERO)
      else if a == INT64_MIN && b == -1 then Error(ERR_OVERFLOW)
      else
        QuotientInRange(a, b);
        Int(TruncDiv(a, b))
    case IntMod =>
      if b == 0 then Error(ERR_MODULUS_BY_ZERO)
      else if a == INT64_MIN && b == -1 then Error(ERR_OVERFLOW)
      else
        QuotientInRange(a, b);
        Int(TruncMod(a, b))
    case IntLt => Bool(a < b)
    case IntLe => Bool(a <= b)
    case IntGt => Bool(a > b)
    case IntGe => Bool(a >= b)
    case _ => Error(ERR_TYPE_MISMATCH)
  }

  function UintKernel(op: BinOp, a: UInt64, b: UInt64): (r: Value)
    ensures r.Uint? || r.Bool? || r.Error?
  {
    match op
    case UintAdd => CheckedUint(a + b)
    case UintSub => CheckedUint(a - b)
    case UintMul => CheckedUint(a * b)
    case UintDiv => if b == 0 then Error(ERR_DIVIDE_BY_ZERO) else Uint(a / b)
    case UintMod => if b == 0 then Error(ERR_MODULUS_BY_ZERO) else Uint(a % b)
    case UintLt => Bool(a < b)
    case UintLe => Bool(a <= b)
    case UintGt => Bool(a > b)
    case UintGe => Bool(a >= b)
    case _ => Error(ERR_TYPE_MISMATCH)
  }
}
