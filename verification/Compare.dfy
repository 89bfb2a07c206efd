/** The cross-type numeric ladder behind the comparison operators, and the lossless equality of map keys. */
module Compare {
  import opened Machine
  import opened Doubles
  import opened Values

  datatype CmpResult = CmpLess | CmpEqual | CmpGreater | CmpNanInequal

  function CmpInteger(a: int, b: int): CmpResult {
    if a < b then CmpLess else if a > b then CmpGreater else CmpEqual
  }

  function CmpDouble(a: Extended, b: Extended): CmpResult {
    if a == NaN || b == NaN then CmpNanInequal
    else if LessThan(a, b) then CmpLess
    else if LessThan(b, a) then CmpGreater
    else CmpEqual
  }

  function CmpIntUint(a: Int64, b: UInt64): CmpResult {
    if a < 0 then CmpLess else CmpInteger(a, b)
  }

  // The images of INT64_MIN, INT64_MAX and UINT64_MAX (Doubles.EndImages).
  const INT_LOW: Extended := Finite(-9223372036854775808.0)
  const INT_HIGH: Extended := Finite(9223372036854775808.0)
  const UINT_HIGH: Extended := Finite(18446744073709551616.0)

  function CmpIntDouble(a: Int64, b: Double): CmpResult {
    if b == NaN then CmpNanInequal
    else if LessThan(INT_HIGH, b) then CmpLess
    else if LessThan(b, INT_LOW) then CmpGreater
    else CmpDouble(IntToDouble(a), b)
  }

  function CmpUintDouble(a: UInt64, b: Double): CmpResult {
    if b == NaN then CmpNanInequal
    else if LessThan(UINT_HIGH, b) then CmpLess
    else if LessThan(b, Finite(0.0)) then CmpGreater
    else CmpDouble(IntToDouble(a), b)
  }

  function CmpFlip(r: CmpResult): CmpResult {
    if r == CmpLess then CmpGreater else if r == CmpGreater then CmpLess else r
  }

  function NumericCompare(a: Value, b: Value): CmpResult {
    match (a, b)
    case (Int(i), Int(j)) => CmpInteger(i, j)
    case (Uint(u), Uint(v)) => CmpInteger(u, v)
    case (Dbl(d), Dbl(e)) => CmpDouble(d, e)
    case (Int(i), Uint(u)) => CmpIntUint(i, u)
    case (Uint(u), Int(i)) => CmpFlip(CmpIntUint(i, u))
    case (Int(i), Dbl(d)) => CmpIntDouble(i, d)
    case (Dbl(d), Int(i)) => CmpFlip(CmpIntDouble(i, d))
    case (Uint(u), Dbl(d)) => CmpUintDouble(u, d)
    case (Dbl(d), Uint(u)) => CmpFlip(CmpUintDouble(u, d))
    case _ => CmpNanInequal
  }

  // ---- what the ladder decides ----

  lemma EarlyExitsHarmless(lo: Extended, x: Extended, hi: Extended, d: Extended)
    requires lo.Finite? && x.Finite? && hi.Finite? && lo.r <= x.r <= hi.r && d != NaN
    ensures LessThan(hi, d) ==> CmpDouble(x, d) == CmpLess
    ensures !LessThan(hi, d) && LessThan(d, lo) ==> CmpDouble(x, d) == CmpGreater
  {
  }

  lemma CmpIntDoubleImages(i: Int64, d: Double)
    ensures CmpIntDouble(i, d) == CmpDouble(IntToDouble(i), d)
  {
    EndsRepresentable();
    RoundIntRespects(i, INT_LOW.r);
    RoundIntRespects(i, INT_HIGH.r);
    if d != NaN {
      EarlyExitsHarmless(INT_LOW, IntToDouble(i), INT_HIGH, d);
    }
  }

  lemma CmpUintDoubleImages(u: UInt64, d: Double)
    ensures CmpUintDouble(u, d) == CmpDouble(IntToDouble(u), d)
  {
    EndsRepresentable();
    RoundIntRespects(u, 0.0);
    RoundIntRespects(u, UINT_HIGH.r);
    if d != NaN {
      EarlyExitsHarmless(Finite(0.0), IntToDouble(u), UINT_HIGH, d);
    }
  }

  lemma CmpDoubleMeaning(x: Extended, y: Extended)
    ensures CmpDouble(x, y) == CmpLess <==> LessThan(x, y)
    ensures CmpDouble(x, y) == CmpGreater <==> LessThan(y, x)
    ensures CmpDouble(x, y) == CmpEqual <==> SameNumber(x, y)
    ensures CmpDouble(x, y) == CmpNanInequal <==> x == NaN || y == NaN
    ensures CmpDouble(y, x) == CmpFlip(CmpDouble(x, y))
  {
  }

  lemma LadderFlips(x: Value, d: Value)
    requires (x.Int? || x.Uint?) && d.Dbl?
    ensures NumericCompare(x, d) == CmpDouble(ImageOf(x), d.d)
    ensures NumericCompare(d, x) == CmpDouble(d.d, ImageOf(x))
  {
    if x.Int? {
      CmpIntDoubleImages(x.i, d.d);
    } else {
      CmpUintDoubleImages(x.u, d.d);
    }
    CmpDoubleMeaning(ImageOf(x), d.d);
  }

  /** With a double on either side the ladder compares double images; otherwise it compares exactly.
      The early exits at the ends of the integer ranges do not disturb this. */
  lemma LadderDecides(a: Value, b: Value)
    requires IsNumeric(a) && IsNumeric(b)
    ensures a.Dbl? || b.Dbl? ==> NumericCompare(a, b) == CmpDouble(ImageOf(a), ImageOf(b))
    ensures !a.Dbl? && !b.Dbl? ==> NumericCompare(a, b) == CmpDouble(NumberOf(a), NumberOf(b))
  {
    if a.Dbl? && !b.Dbl? {
      LadderFlips(b, a);
    } else if b.Dbl? && !a.Dbl? {
      LadderFlips(a, b);
    }
  }

  /** Conversion to double moves no number across a double. */
  lemma ImageRespects(a: Value, d: Double)
    requires IsNumeric(a)
    ensures LessThan(ImageOf(a), d) ==> LessThan(NumberOf(a), d)
    ensures LessThan(d, ImageOf(a)) ==> LessThan(d, NumberOf(a))
    ensures SameNumber(NumberOf(a), d) ==> ImageOf(a) == d
  {
    if !a.Dbl? && d.Finite? {
      RoundIntRespects(if a.Int? then a.i else a.u, d.r);
    }
  }

  lemma ImageMonotone(a: Value, b: Value)
    requires IsNumeric(a) && IsNumeric(b) && NumberOf(a) != NaN && NumberOf(b) != NaN
    requires !LessThan(NumberOf(b), NumberOf(a))
    ensures !LessThan(ImageOf(b), ImageOf(a))
  {
    if a.Dbl? {
      ImageRespects(b, a.d);
    } else if b.Dbl? {
      ImageRespects(a, b.d);
    } else {
      RoundIntMonotone(if a.Int? then a.i else a.u, if b.Int? then b.i else b.u);
    }
  }

  /** The ladder against mathematics: a strict verdict is always true, equal numbers always compare
      Equal, unequal numbers compare Equal only when rounding merges them, and NaN never orders. */
  lemma LadderIsSound(a: Value, b: Value)
    requires IsNumeric(a) && IsNumeric(b)
    ensures NumericCompare(a, b) == CmpLess ==> LessThan(NumberOf(a), NumberOf(b))
    ensures NumericCompare(a, b) == CmpGreater ==> LessThan(NumberOf(b), NumberOf(a))
    ensures SameNumber(NumberOf(a), NumberOf(b)) ==> NumericCompare(a, b) == CmpEqual
    ensures NumericCompare(a, b) == CmpEqual ==> SameNumber(ImageOf(a), ImageOf(b))
    ensures NumericCompare(a, b) == CmpNanInequal <==> NumberOf(a) == NaN || NumberOf(b) == NaN
    ensures NumericCompare(b, a) == CmpFlip(NumericCompare(a, b))
  {
    LadderDecides(a, b);
    LadderDecides(b, a);
    if a.Dbl? || b.Dbl? {
      CmpDoubleMeaning(ImageOf(a), ImageOf(b));
      if a.Dbl? {
        ImageRespects(b, a.d);
      } else {
        ImageRespects(a, b.d);
      }
    } else {
      CmpDoubleMeaning(NumberOf(a), NumberOf(b));
    }
  }

  /** The mathematical verdict on two numbers. */
  function ExactCompare(a: Value, b: Value): CmpResult
    requires IsNumeric(a) && IsNumeric(b)
  {
    CmpDouble(NumberOf(a), NumberOf(b))
  }

  lemma ImageIsNumber(v: Value)
    requires IsNumeric(v)
    ensures v.Dbl? ==> ImageOf(v) == NumberOf(v)
    ensures ImageOf(v) == NaN <==> NumberOf(v) == NaN
  {
  }

  /** The ladder gives the mathematical verdict unless exactly one operand is a double, the two double
      images coincide and the numbers differ. */
  lemma LadderExactIff(a: Value, b: Value)
    requires IsNumeric(a) && IsNumeric(b)
    ensures NumericCompare(a, b) == ExactCompare(a, b) <==>
      !(a.Dbl? != b.Dbl? && SameNumber(ImageOf(a), ImageOf(b)) && NumberOf(a) != NumberOf(b))
  {
    hide NumericCompare, CmpDouble;
    LadderDecides(a, b);
    LadderIsSound(a, b);
    CmpDoubleMeaning(NumberOf(a), NumberOf(b));
    CmpDoubleMeaning(ImageOf(a), ImageOf(b));
    ImageIsNumber(a);
    ImageIsNumber(b);
  }

  /** Integers of magnitude at most 2^53 are never merged with anything: with one of them on a side, and
      a double on the other, the ladder is exact. */
  lemma SmallIntegersExact(x: Value, d: Value)
    requires (x.Int? && -TWO_53 <= x.i <= TWO_53) || (x.Uint? && x.u <= TWO_53)
    requires IsNumeric(d)
    ensures NumericCompare(x, d) == ExactCompare(x, d) && NumericCompare(d, x) == ExactCompare(d, x)
  {
    hide NumericCompare, CmpDouble;
    SmallIntegerRepresentable(if x.Int? then x.i else x.u);
    RoundIntExact(if x.Int? then x.i else x.u);
    LadderExactIff(x, d);
    LadderExactIff(d, x);
    ImageIsNumber(d);
  }

  lemma NeighbourImages(i: Int64)
    requires i == TWO_53 + 1
    ensures RoundInt(i) == i - 1 == RoundInt(i - 1)
  {
    assert IsLeading(i, Leading(TWO_52, 1, 1));
    LeadingBitsUnique(i, Leading(TWO_52, 1, 1));
    LeadingBitsUnique(i - 1, Leading(TWO_52, 0, 1));
  }

  /** The merging really happens: adjacent integers that share a double image compare Equal to that
      double, although only one of them is that number. */
  lemma LadderMergesNeighbours(i: Int64)
    requires i == TWO_53 + 1
    ensures NumericCompare(Int(i), Dbl(IntToDouble(i - 1))) == CmpEqual
    ensures !SameNumber(NumberOf(Int(i)), NumberOf(Dbl(IntToDouble(i - 1))))
  {
    NeighbourImages(i);
    LadderFlips(Int(i), Dbl(IntToDouble(i - 1)));
  }
}
