/** IEEE 754 binary64 as exact reals: a finite double is a real of the form m * 2^e with |m| < 2^53.
    The two zeros are one value here: no operation modelled below tells them apart. */
module Doubles {
  import opened Machine

  // ---- scaling by powers of two ----

  /** m * 2^e */
  function Scale(m: int, e: nat): int {
    if e == 0 then m else 2 * Scale(m, e - 1)
  }

  lemma {:induction false} ScaleAdds(a: int, b: int, e: nat)
    ensures Scale(a + b, e) == Scale(a, e) + Scale(b, e)
  {
    if e > 0 {
      ScaleAdds(a, b, e - 1);
    }
  }

  lemma {:induction false} ScaleScale(m: int, e: nat, f: nat)
    ensures Scale(Scale(m, e), f) == Scale(m, e + f)
  {
    if f > 0 {
      ScaleScale(m, e, f - 1);
    }
  }

  lemma {:induction false} ScaleMono(a: int, b: int, e: nat)
    requires a <= b
    ensures Scale(a, e) <= Scale(b, e)
    ensures a >= 0 ==> Scale(a, e) >= a
    ensures Scale(1, e) >= 1
    ensures a < b ==> Scale(a, e) + Scale(1, e) <= Scale(b, e)
  {
    if e > 0 {
      ScaleMono(a, b, e - 1);
    }
  }

  lemma {:induction false} ScaleZero(e: nat)
    ensures Scale(0, e) == 0
  {
    if e > 0 {
      ScaleZero(e - 1);
    }
  }

  lemma {:induction false} ScaleGrows(m: int, e: nat, f: nat)
    requires 0 <= m && e <= f
    ensures Scale(m, e) <= Scale(m, f)
    ensures e < f ==> Scale(2 * m, e) <= Scale(m, f)
  {
    ScaleAdds(m, m, e);
    if e < f {
      ScaleGrows(m, e, f - 1);
      ScaleMono(0, m, f - 1);
      ScaleMono(0, m, e);
      ScaleZero(e);
      ScaleZero(f - 1);
    }
  }

  lemma ScaleTen(m: int)
    ensures Scale(m, 10) == 1024 * m && Scale(m, 11) == 2048 * m && Scale(m, 12) == 4096 * m
  {
    assert Scale(m, 1) == 2 * m;
    assert Scale(m, 2) == 4 * m;
    assert Scale(m, 3) == 8 * m;
    assert Scale(m, 4) == 16 * m;
    assert Scale(m, 5) == 32 * m;
    assert Scale(m, 6) == 64 * m;
    assert Scale(m, 7) == 128 * m;
    assert Scale(m, 8) == 256 * m;
    assert Scale(m, 9) == 512 * m;
    assert Scale(m, 10) == 1024 * m;
    assert Scale(m, 11) == 2048 * m;
  }

  /** r * 2^k */
  function ScaleReal(r: real, k: nat): real {
    if k == 0 then r else 2.0 * ScaleReal(r, k - 1)
  }

  lemma {:induction false} ScaleRealGrows(r: real, k: nat)
    requires r >= 0.0
    ensures ScaleReal(r, k) >= r
    ensures k > 0 ==> ScaleReal(r, k) >= 2.0 * r
  {
    if k > 0 {
      ScaleRealGrows(r, k - 1);
    }
  }

  lemma {:induction false} ScaleNegates(m: int, r: real, e: nat)
    ensures Scale(-m, e) == -Scale(m, e)
    ensures ScaleReal(-r, e) == -ScaleReal(r, e)
  {
    if e > 0 {
      ScaleNegates(m, r, e - 1);
    }
  }

  // ---- the doubles ----

  datatype Extended = NaN | NegInf | Finite(r: real) | PosInf

  ghost predicate ScaledUp(r: real, m: int, e: nat) {
    -TWO_53 < m < TWO_53 && e <= 971 && r == Scale(m, e) as real
  }

  ghost predicate ScaledDown(r: real, m: int, k: nat) {
    -TWO_53 < m < TWO_53 && k <= 1074 && ScaleReal(r, k) == m as real
  }

  ghost predicate Representable(r: real) {
    (exists m: int, e: nat :: ScaledUp(r, m, e)) || (exists m: int, k: nat :: ScaledDown(r, m, k))
  }

  lemma IntegerRepresentable(m: int, e: nat)
    requires -TWO_53 < m < TWO_53 && e <= 971
    ensures Representable(Scale(m, e) as real)
  {
    assert ScaledUp(Scale(m, e) as real, m, e);
  }

  lemma SmallIntegerRepresentable(i: int)
    requires -TWO_53 <= i <= TWO_53
    ensures Representable(i as real)
  {
    if -TWO_53 < i < TWO_53 {
      IntegerRepresentable(i, 0);
    } else {
      IntegerRepresentable(i / 2, 1);
      assert Scale(i / 2, 1) == 2 * Scale(i / 2, 0) == i;
    }
  }

  lemma NegationRepresentable(r: real)
    requires Representable(r)
    ensures Representable(-r)
  {
    if m: int, e: nat :| ScaledUp(r, m, e) {
      ScaleNegates(m, r, e);
      assert ScaledUp(-r, -m, e);
    } else {
      var m: int, k: nat :| ScaledDown(r, m, k);
      ScaleNegates(m, r, k);
      assert ScaledDown(-r, -m, k);
    }
  }

  ghost predicate IsDouble(d: Extended) {
    d.Finite? ==> Representable(d.r)
  }

  type Double = d: Extended | IsDouble(d) witness NaN

  /** A double of magnitude at least 2^(52+e) is a multiple of 2^e. */
  lemma OnGrid(r: real, e: nat) returns (j: int)
    requires Representable(r)
    requires r >= Scale(TWO_52, e) as real
    ensures r == Scale(j, e) as real
  {
    ScaleMono(TWO_52, TWO_52, e);
    if m: int, f: nat :| ScaledUp(r, m, f) {
      if f < e {
        ScaleMono(m, TWO_53, f);
        ScaleGrows(TWO_52, f, e);
        assert false;
      }
      ScaleScale(m, f - e, e);
      j := Scale(m, f - e);
    } else {
      var m: int, k: nat :| ScaledDown(r, m, k);
      ScaleRealGrows(r, k);
      ScaleGrows(TWO_52, 0, e);
      j := m;
    }
  }

  // ---- the double image of an integer: round to nearest, ties to even ----

  /** n == q * 2^e + rem, with q the leading 53 bits. */
  datatype Leading = Leading(q: int, rem: int, e: nat)

  function LeadingBits(n: nat): Leading {
    if n < TWO_53 then Leading(n, 0, 0)
    else var c := LeadingBits(n / 2); Leading(c.q, 2 * c.rem + n % 2, c.e + 1)
  }

  ghost predicate IsLeading(n: nat, c: Leading) {
    && n == Scale(c.q, c.e) + c.rem
    && 0 <= c.rem < Scale(1, c.e)
    && 0 <= c.q < TWO_53
    && (c.e > 0 ==> TWO_52 <= c.q)
  }

  lemma {:induction false} LeadingBitsSplit(n: nat)
    ensures IsLeading(n, LeadingBits(n))
  {
    if n >= TWO_53 {
      LeadingBitsSplit(n / 2);
    }
  }

  lemma {:induction false} LeadingBitsUnique(n: nat, c: Leading)
    requires IsLeading(n, c)
    ensures LeadingBits(n) == c
  {
    if c.e > 0 {
      ScaleMono(TWO_52, c.q, c.e);
      ScaleGrows(TWO_52, 1, c.e);
      LeadingBitsUnique(n / 2, Leading(c.q, c.rem / 2, c.e - 1));
    }
  }

  function RoundNat(n: nat): int {
    var c, unit := LeadingBits(n), Scale(1, LeadingBits(n).e);
    if 2 * c.rem < unit || (2 * c.rem == unit && c.q % 2 == 0) then n - c.rem else n - c.rem + unit
  }

  function RoundInt(i: int): int {
    if i >= 0 then RoundNat(i) else -RoundNat(-i)
  }

  lemma ExponentBound(n: nat, e: nat)
    requires n < Scale(TWO_52, e)
    ensures LeadingBits(n).e < e || LeadingBits(n).e == 0
  {
    LeadingBitsSplit(n);
    var c := LeadingBits(n);
    if c.e >= e && c.e > 0 {
      ScaleMono(TWO_52, c.q, c.e);
      ScaleGrows(TWO_52, e, c.e);
    }
  }

  lemma RoundNatIsScaled(n: nat)
    ensures var c := LeadingBits(n);
      RoundNat(n) == Scale(c.q, c.e) || RoundNat(n) == Scale(c.q + 1, c.e)
    ensures RoundNat(n) >= 0
  {
    LeadingBitsSplit(n);
    var c := LeadingBits(n);
    ScaleAdds(c.q, 1, c.e);
    ScaleMono(c.q, c.q, c.e);
  }

  lemma RoundNatRepresentable(n: nat)
    requires n <= TWO_64
    ensures Representable(RoundNat(n) as real)
    ensures 0 <= RoundNat(n)
  {
    ScaleTen(2 * TWO_52);
    ScaleScale(TWO_52, 1, 12);
    ExponentBound(n, 13);
    LeadingBitsSplit(n);
    RoundNatIsScaled(n);
    var c := LeadingBits(n);
    IntegerRepresentable(c.q, c.e);
    if c.q + 1 < TWO_53 {
      IntegerRepresentable(c.q + 1, c.e);
    } else {
      ScaleScale(TWO_52, 1, c.e);
      IntegerRepresentable(TWO_52, c.e + 1);
    }
  }

  /** Rounding carries no integer across a double. */
  lemma RoundNatRespects(n: nat, b: real)
    requires Representable(b)
    ensures b <= n as real ==> b <= RoundNat(n) as real
    ensures b >= n as real ==> b >= RoundNat(n) as real
  {
    LeadingBitsSplit(n);
    var c := LeadingBits(n);
    if b >= Scale(TWO_52, c.e) as real {
      var j := OnGrid(b, c.e);
      if j <= c.q {
        ScaleMono(j, c.q, c.e);
      } else {
        ScaleMono(c.q, j, c.e);
      }
    } else if c.e > 0 {
      ScaleMono(TWO_52, c.q, c.e);
    }
  }

  /** The two doubles around a large n: nothing representable lies strictly between them. */
  lemma Neighbours(n: nat, b: real)
    requires Representable(b) && LeadingBits(n).e > 0
    ensures var c := LeadingBits(n);
      b <= (n - c.rem) as real || b >= (n - c.rem + Scale(1, c.e)) as real
  {
    LeadingBitsSplit(n);
    var c := LeadingBits(n);
    if b >= Scale(TWO_52, c.e) as real {
      var j := OnGrid(b, c.e);
      ScaleAdds(c.q, 1, c.e);
      if j <= c.q {
        ScaleMono(j, c.q, c.e);
      } else {
        ScaleMono(c.q + 1, j, c.e);
      }
    } else {
      ScaleMono(TWO_52, c.q, c.e);
    }
  }

  function Distance(x: real, y: real): real {
    if x < y then y - x else x - y
  }

  /** Rounding goes to a nearest double, and where another one is just as near, to the one with the even
      significand. */
  lemma RoundsToNearestEven(n: nat, b: real)
    requires Representable(b)
    ensures Distance(n as real, RoundNat(n) as real) <= Distance(n as real, b)
    ensures b != RoundNat(n) as real && Distance(n as real, b) == Distance(n as real, RoundNat(n) as real) ==>
      var c := LeadingBits(n);
      exists m: int :: m % 2 == 0 && TWO_52 <= m <= TWO_53 && RoundNat(n) == Scale(m, c.e)
  {
    LeadingBitsSplit(n);
    var c := LeadingBits(n);
    ScaleAdds(c.q, 1, c.e);
    if c.e > 0 {
      Neighbours(n, b);
    }
    if b != RoundNat(n) as real && Distance(n as real, b) == Distance(n as real, RoundNat(n) as real) {
      var m := if c.q % 2 == 0 then c.q else c.q + 1;
      assert 2 * c.rem == Scale(1, c.e);
      assert RoundNat(n) == Scale(m, c.e) && m % 2 == 0;
    }
  }

  /** The same on both sides of zero. */
  lemma RoundIntIsNearest(i: int, b: real)
    requires Representable(b)
    ensures Distance(i as real, RoundInt(i) as real) <= Distance(i as real, b)
  {
    if i >= 0 {
      RoundsToNearestEven(i, b);
    } else {
      NegationRepresentable(b);
      RoundsToNearestEven(-i, -b);
    }
  }

  lemma SeparateBinades(i: nat, j: nat)
    requires LeadingBits(i).e < LeadingBits(j).e
    ensures i < j && RoundNat(i) <= RoundNat(j)
  {
    LeadingBitsSplit(i);
    LeadingBitsSplit(j);
    var c, d := LeadingBits(i), LeadingBits(j);
    ScaleMono(c.q, TWO_53, c.e);
    ScaleGrows(TWO_52, c.e, d.e);
    ScaleMono(TWO_52, d.q, d.e);
  }

  lemma RoundNatMonotone(i: nat, j: nat)
    requires i <= j
    ensures RoundNat(i) <= RoundNat(j)
  {
    LeadingBitsSplit(i);
    LeadingBitsSplit(j);
    var c, d := LeadingBits(i), LeadingBits(j);
    if c.e == d.e {
      if c.q < d.q {
        ScaleMono(c.q, d.q, c.e);
      } else {
        ScaleMono(d.q, c.q, c.e);
      }
    } else if c.e < d.e {
      SeparateBinades(i, j);
    } else {
      SeparateBinades(j, i);
    }
  }

  /** (double)i */
  function IntToDouble(i: int): (d: Double)
    requires -TWO_64 <= i <= TWO_64
    ensures d.Finite?
  {
    assert Representable(RoundInt(i) as real) by {
      if i >= 0 {
        RoundNatRepresentable(i);
      } else {
        RoundNatRepresentable(-i);
        NegationRepresentable(RoundNat(-i) as real);
      }
    }
    Finite(RoundInt(i) as real)
  }

  lemma RoundIntRespects(i: int, b: real)
    requires Representable(b)
    ensures b <= i as real ==> b <= RoundInt(i) as real
    ensures b >= i as real ==> b >= RoundInt(i) as real
  {
    if i >= 0 {
      RoundNatRespects(i, b);
    } else {
      NegationRepresentable(b);
      RoundNatRespects(-i, -b);
    }
  }

  /** An integer that is a double is its own image. */
  lemma RoundIntExact(i: int)
    requires Representable(i as real)
    ensures RoundInt(i) == i
  {
    RoundIntRespects(i, i as real);
  }

  lemma RoundIntMonotone(i: int, j: int)
    requires -TWO_64 <= i <= j <= TWO_64
    ensures RoundInt(i) <= RoundInt(j)
  {
    if i >= 0 {
      RoundNatMonotone(i, j);
    } else if j < 0 {
      RoundNatMonotone(-j, -i);
    } else {
      RoundNatRepresentable(-i);
      RoundNatRepresentable(j);
    }
  }

  // ---- comparisons and casts ----

  predicate LessThan(x: Extended, y: Extended) {
    match (x, y)
    case (NaN, _) => false
    case (_, NaN) => false
    case (Finite(r), Finite(s)) => r < s
    case (NegInf, _) => y != NegInf
    case (_, PosInf) => x != PosInf
    case _ => false
  }

  /** The C operator ==, which holds of no NaN. */
  predicate SameNumber(x: Extended, y: Extended) {
    x == y && x != NaN
  }

  /** The C cast of a finite double to an integer type: towards zero. */
  function Truncate(r: real): int {
    if r >= 0.0 then r.Floor else -(-r).Floor
  }

  predicate IsIntegral(r: real) {
    r.Floor as real == r
  }

  /** The cast round trip `(double)(int64_t)d == d` accepts exactly the integral doubles. */
  lemma CastRoundTrip(d: Double)
    requires d.Finite? && -TWO_63 <= Truncate(d.r) < TWO_64
    ensures IntToDouble(Truncate(d.r)) == d <==> IsIntegral(d.r)
    ensures IsIntegral(d.r) ==> Truncate(d.r) as real == d.r
  {
    var i := Truncate(d.r);
    if IsIntegral(d.r) {
      assert i as real == d.r by {
        if d.r < 0.0 {
          assert ((-(d.r.Floor)) as real).Floor == -(d.r.Floor);
          assert -d.r == (-(d.r.Floor)) as real;
        }
      }
      RoundIntExact(i);
    } else {
      assert (RoundInt(i) as real).Floor == RoundInt(i);
    }
  }

  // ---- the ends of the integer ranges ----

  lemma EndsRepresentable()
    ensures Representable(-(TWO_63 as real)) && Representable(TWO_63 as real) && Representable(TWO_64 as real)
    ensures Representable(0.0)
  {
    ScaleTen(TWO_52);
    IntegerRepresentable(TWO_52, 11);
    IntegerRepresentable(TWO_52, 12);
    NegationRepresentable(TWO_63 as real);
    IntegerRepresentable(0, 0);
  }

  lemma ImageFromLeading(n: nat, c: Leading)
    requires IsLeading(n, c)
    ensures 2 * c.rem < Scale(1, c.e) ==> RoundNat(n) == n - c.rem
    ensures 2 * c.rem > Scale(1, c.e) ==> RoundNat(n) == n - c.rem + Scale(1, c.e)
  {
    LeadingBitsUnique(n, c);
  }

  /** (double)INT64_MIN, (double)INT64_MAX and (double)UINT64_MAX are -2^63, 2^63 and 2^64; the
      round-trip windows (double)(INT64_MAX - 512) and (double)(UINT64_MAX - 1024) are the largest doubles
      below 2^63 and 2^64. */
  lemma EndImages()
    ensures RoundInt(INT64_MIN) == -TWO_63
    ensures RoundInt(INT64_MAX) == TWO_63
    ensures RoundInt(UINT64_MAX) == TWO_64
    ensures RoundInt(INT64_MAX - 512) == TWO_63 - 1024
    ensures RoundInt(UINT64_MAX - 1024) == TWO_64 - 2048
  {
    ScaleTen(TWO_53 - 1);
    ScaleTen(1);
    ImageFromLeading(INT64_MAX, Leading(TWO_53 - 1, 1023, 10));
    ImageFromLeading(UINT64_MAX, Leading(TWO_53 - 1, 2047, 11));
    ImageFromLeading(INT64_MAX - 512, Leading(TWO_53 - 1, 511, 10));
    ImageFromLeading(UINT64_MAX - 1024, Leading(TWO_53 - 1, 1023, 11));
    EndsRepresentable();
    RoundIntExact(-TWO_63);
  }

  /** No double lies strictly between 2^(53+e) and the last multiple of 2^e below it. */
  lemma NoDoubleInGap(r: real, e: nat)
    requires Representable(r)
    requires r < Scale(TWO_53, e) as real
    ensures r <= Scale(TWO_53 - 1, e) as real
  {
    if r >= Scale(TWO_52, e) as real {
      var j := OnGrid(r, e);
      if j >= TWO_53 {
        ScaleMono(TWO_53, j, e);
      } else {
        ScaleMono(j, TWO_53 - 1, e);
      }
    } else {
      ScaleMono(TWO_52, TWO_53 - 1, e);
    }
  }
}
