/** math.min and math.max: a left fold over the cross-type ladder (runtime/cel_math_ext.c). */
module MinMax {
  import opened Machine
  import opened Doubles
  import opened Values
  import opened Compare

  predicate Replaces(best: Value, cand: Value, wantGreater: bool) {
    NumericCompare(best, cand) == if wantGreater then CmpLess else CmpGreater
  }

  /** x lies strictly on the wanted side of y; never with a NaN. */
  predicate Better(x: Extended, y: Extended, wantGreater: bool) {
    if wantGreater then LessThan(y, x) else LessThan(x, y)
  }

  predicate AllNumeric(es: seq<Value>) {
    forall k :: 0 <= k < |es| ==> IsNumeric(es[k])
  }

  predicate IsNaN(v: Value) {
    v == Dbl(NaN)
  }

  predicate NoNaN(es: seq<Value>) {
    forall k :: 0 <= k < |es| ==> !IsNaN(es[k])
  }

  predicate NoDouble(es: seq<Value>) {
    forall k :: 0 <= k < |es| ==> !es[k].Dbl?
  }

  function Fold(es: seq<Value>, wantGreater: bool): (best: Value)
    requires |es| > 0 && AllNumeric(es)
    ensures best in es
  {
    if |es| == 1 then es[0]
    else
      var best := Fold(es[..|es| - 1], wantGreater);
      if Replaces(best, es[|es| - 1], wantGreater) then es[|es| - 1] else best
  }

  lemma FoldStep(es: seq<Value>, wantGreater: bool)
    requires |es| > 1 && AllNumeric(es)
    ensures var best := Fold(es[..|es| - 1], wantGreater); var cand := es[|es| - 1];
      Fold(es, wantGreater) == if Replaces(best, cand, wantGreater) then cand else best
  {
  }

  predicate FirstOffender(es: seq<Value>, k: nat) {
    k < |es| && !IsNumeric(es[k]) && AllNumeric(es[..k])
  }

  /** The first element that is no number decides: an error or unknown is handed on, anything else is
      a type mismatch. An empty list is an invalid argument. */
  ghost predicate ListOutcome(es: seq<Value>, wantGreater: bool, out: Value) {
    if |es| == 0 then out == Error(ERR_INVALID_ARGUMENT)
    else if AllNumeric(es) then out == Fold(es, wantGreater)
    else exists k: nat :: FirstOffender(es, k) && out == if Absorbed(es[k]) then es[k] else Error(ERR_TYPE_MISMATCH)
  }

  lemma FoldOne(es: seq<Value>, wantGreater: bool)
    requires |es| == 1 && AllNumeric(es)
    ensures Fold(es, wantGreater) == es[0]
  {
  }

  lemma AbsorbedIsNoNumber(v: Value)
    requires Absorbed(v)
    ensures !IsNumeric(v)
  {
  }

  method MinMaxList(es: seq<Value>, wantGreater: bool) returns (out: Value)
    ensures ListOutcome(es, wantGreater, out)
  {
    hide NumericCompare, Fold, Replaces, IsNumeric;
    if |es| == 0 {
      return Error(ERR_INVALID_ARGUMENT);
    }
    var best := es[0];
    var i: nat := 0;
    while i < |es|
      invariant i <= |es| && AllNumeric(es[..i])
      invariant best == if i == 0 then es[0] else Fold(es[..i], wantGreater)
    {
      var e := es[i];
      ghost var seen := es[..i + 1];
      assert seen[..|seen| - 1] == es[..i];
      if Absorbed(e) {
        AbsorbedIsNoNumber(e);
        assert FirstOffender(es, i);
        return e;
      }
      if !IsNumeric(e) {
        assert FirstOffender(es, i);
        return Error(ERR_TYPE_MISMATCH);
      }
      assert AllNumeric(seen) by {
        forall k | 0 <= k < |seen| ensures IsNumeric(seen[k]) {
          if k < i { assert seen[k] == es[..i][k]; }
        }
      }
      if i == 0 { FoldOne(seen, wantGreater); } else { FoldStep(seen, wantGreater); }
      if i != 0 && Replaces(best, e, wantGreater) {
        best := e;
      }
      i := i + 1;
    }
    assert es[..i] == es;
    out := best;
  }

  /** The two-operand form, behind the strict envelope. */
  function MinMaxBinary(a: Value, b: Value, wantGreater: bool): Value {
    if !IsNumeric(a) || !IsNumeric(b) then Error(ERR_TYPE_MISMATCH)
    else if Replaces(a, b, wantGreater) then b
    else a
  }

  // ---- what the fold computes ----

  lemma ImagesOrdered(a: Value, b: Value)
    requires IsNumeric(a) && IsNumeric(b) && !IsNaN(a) && !IsNaN(b)
    ensures LessThan(NumberOf(a), NumberOf(b)) ==> !LessThan(ImageOf(b), ImageOf(a))
    ensures ImageOf(a) != NaN && ImageOf(b) != NaN
  {
    ImageRespects(a, NegInf);
    if LessThan(NumberOf(a), NumberOf(b)) {
      ImageMonotone(a, b);
    }
  }

  lemma StepKeepsBetter(best: Value, cand: Value, wantGreater: bool)
    requires IsNumeric(best) && IsNumeric(cand) && !IsNaN(best) && !IsNaN(cand)
    ensures Replaces(best, cand, wantGreater) ==> Better(NumberOf(cand), NumberOf(best), wantGreater)
    ensures Replaces(best, cand, wantGreater) ==> !Better(ImageOf(best), ImageOf(cand), wantGreater)
    ensures !Replaces(best, cand, wantGreater) ==> !Better(ImageOf(cand), ImageOf(best), wantGreater)
    ensures !Replaces(best, cand, wantGreater) && !best.Dbl? && !cand.Dbl? ==>
      !Better(NumberOf(cand), NumberOf(best), wantGreater)
  {
    hide NumericCompare, ImageOf;
    LadderIsSound(best, cand);
    LadderDecides(best, cand);
    ImagesOrdered(best, cand);
    ImagesOrdered(cand, best);
    CmpDoubleMeaning(NumberOf(best), NumberOf(cand));
  }

  /** Without NaN, no element's double image beats the image of the result. */
  lemma {:induction false} FoldExtremal(es: seq<Value>, wantGreater: bool)
    requires |es| > 0 && AllNumeric(es) && NoNaN(es)
    ensures !IsNaN(Fold(es, wantGreater))
    ensures forall j :: 0 <= j < |es| ==> !Better(ImageOf(es[j]), ImageOf(Fold(es, wantGreater)), wantGreater)
  {
    hide NumericCompare, ImageOf;
    if |es| > 1 {
      var front := es[..|es| - 1];
      FoldExtremal(front, wantGreater);
      var best, cand := Fold(front, wantGreater), es[|es| - 1];
      StepKeepsBetter(best, cand, wantGreater);
      ImagesOrdered(best, cand);
      forall j | 0 <= j < |es| ensures !Better(ImageOf(es[j]), ImageOf(Fold(es, wantGreater)), wantGreater) {
        if j < |es| - 1 {
          assert es[j] == front[j];
        }
      }
    }
  }

  lemma NeverBetterThanItself(x: Extended, wantGreater: bool)
    ensures !Better(x, x, wantGreater)
  {
  }

  lemma IntegerIsNumber(v: Value)
    requires IsNumeric(v) && !v.Dbl?
    ensures NumberOf(v) != NaN
  {
  }

  lemma BetterChains(x: Extended, y: Extended, z: Extended, wantGreater: bool)
    requires Better(x, y, wantGreater) && !Better(z, y, wantGreater) && z != NaN
    ensures Better(x, z, wantGreater) && !Better(z, x, wantGreater)
  {
  }

  /** Without doubles the result is the exact extremum, and the first element that attains it. */
  lemma {:induction false} FoldExact(es: seq<Value>, wantGreater: bool) returns (k: nat)
    requires |es| > 0 && AllNumeric(es) && NoDouble(es)
    ensures k < |es| && es[k] == Fold(es, wantGreater)
    ensures forall j :: 0 <= j < |es| ==> !Better(NumberOf(es[j]), NumberOf(es[k]), wantGreater)
    ensures forall j :: 0 <= j < k ==> Better(NumberOf(es[k]), NumberOf(es[j]), wantGreater)
  {
    hide NumericCompare, ImageOf, NumberOf, Replaces;
    if |es| == 1 {
      k := 0;
      NeverBetterThanItself(NumberOf(es[0]), wantGreater);
    } else {
      var front := es[..|es| - 1];
      k := FoldExact(front, wantGreater);
      hide Fold;
      FoldStep(es, wantGreater);
      var best, cand := es[k], es[|es| - 1];
      StepKeepsBetter(best, cand, wantGreater);
      assert forall j :: 0 <= j < |front| ==> front[j] == es[j];
      NeverBetterThanItself(NumberOf(cand), wantGreater);
      if Replaces(best, cand, wantGreater) {
        forall j | 0 <= j < |front|
          ensures Better(NumberOf(cand), NumberOf(es[j]), wantGreater) && !Better(NumberOf(es[j]), NumberOf(cand), wantGreater)
        {
          IntegerIsNumber(es[j]);
          BetterChains(NumberOf(cand), NumberOf(best), NumberOf(es[j]), wantGreater);
        }
        k := |es| - 1;
      }
    }
  }

  /** A NaN never replaces anything and is never replaced: the result is NaN exactly when the list
      starts with one. */
  lemma {:induction false} FoldNaN(es: seq<Value>, wantGreater: bool)
    requires |es| > 0 && AllNumeric(es)
    ensures IsNaN(Fold(es, wantGreater)) <==> IsNaN(es[0])
  {
    hide NumericCompare;
    if |es| > 1 {
      var front := es[..|es| - 1];
      FoldNaN(front, wantGreater);
      LadderIsSound(Fold(front, wantGreater), es[|es| - 1]);
    }
  }

  function WithoutNaN(es: seq<Value>): (r: seq<Value>)
    ensures AllNumeric(es) ==> AllNumeric(r)
    ensures NoNaN(r)
    ensures |es| > 0 && !IsNaN(es[0]) ==> |r| > 0 && r[0] == es[0]
  {
    if |es| == 0 then []
    else WithoutNaN(es[..|es| - 1]) + if IsNaN(es[|es| - 1]) then [] else [es[|es| - 1]]
  }

  /** Behind a first element that is no NaN, NaN elements are as good as absent. */
  lemma {:induction false} FoldIgnoresNaN(es: seq<Value>, wantGreater: bool)
    requires |es| > 0 && AllNumeric(es) && !IsNaN(es[0])
    ensures Fold(es, wantGreater) == Fold(WithoutNaN(es), wantGreater)
  {
    hide NumericCompare;
    if |es| > 1 {
      var front := es[..|es| - 1];
      FoldIgnoresNaN(front, wantGreater);
      hide Fold;
      FoldStep(es, wantGreater);
      LadderIsSound(Fold(front, wantGreater), es[|es| - 1]);
      var kept := WithoutNaN(es);
      if IsNaN(es[|es| - 1]) {
        assert kept == WithoutNaN(front);
      } else {
        assert kept[..|kept| - 1] == WithoutNaN(front);
        FoldStep(kept, wantGreater);
      }
    } else {
      assert es[..0] == [];
    }
  }

  lemma DoubleIsItsImage(v: Value)
    requires v.Dbl?
    ensures ImageOf(v) == NumberOf(v)
  {
  }

  /** Two numbers: the first one stays unless the second is strictly better, by double images if one of them is a
      double and as numbers otherwise. Anything else is a type mismatch. */
  lemma FirstOfTwoStays(a: Value, b: Value, wantGreater: bool)
    ensures !IsNumeric(a) || !IsNumeric(b) ==> MinMaxBinary(a, b, wantGreater) == Error(ERR_TYPE_MISMATCH)
    ensures IsNumeric(a) && IsNumeric(b) && (a.Dbl? || b.Dbl?) ==>
      MinMaxBinary(a, b, wantGreater) == if Better(ImageOf(b), ImageOf(a), wantGreater) then b else a
    ensures IsNumeric(a) && IsNumeric(b) && !a.Dbl? && !b.Dbl? ==>
      MinMaxBinary(a, b, wantGreater) == if Better(NumberOf(b), NumberOf(a), wantGreater) then b else a
  {
    hide NumericCompare, ImageOf;
    if IsNumeric(a) && IsNumeric(b) {
      LadderDecides(a, b);
      CmpDoubleMeaning(NumberOf(a), NumberOf(b));
      CmpDoubleMeaning(ImageOf(a), ImageOf(b));
    }
  }

  /** The list form is the two-operand form, repeated from the left. */
  lemma FoldRepeatsBinary(es: seq<Value>, x: Value, wantGreater: bool)
    requires AllNumeric(es) && IsNumeric(x)
    ensures Fold([x], wantGreater) == x
    ensures |es| > 0 ==> Fold(es + [x], wantGreater) == MinMaxBinary(Fold(es, wantGreater), x, wantGreater)
  {
    hide Replaces;
    assert (es + [x])[..|es|] == es;
  }

  /** Two operands: the result is the true extremum unless exactly one operand is a double, both have
      the same double image, and the second one is the better number. */
  lemma BinaryExactIff(a: Value, b: Value, wantGreater: bool)
    requires IsNumeric(a) && IsNumeric(b) && !IsNaN(a) && !IsNaN(b)
    ensures var r := MinMaxBinary(a, b, wantGreater);
      (!Better(NumberOf(a), NumberOf(r), wantGreater) && !Better(NumberOf(b), NumberOf(r), wantGreater))
      <==> !(a.Dbl? != b.Dbl? && SameNumber(ImageOf(a), ImageOf(b)) && Better(NumberOf(b), NumberOf(a), wantGreater))
  {
    hide NumericCompare, ImageOf;
    LadderIsSound(a, b);
    LadderDecides(a, b);
    ImagesOrdered(a, b);
    ImagesOrdered(b, a);
    CmpDoubleMeaning(NumberOf(a), NumberOf(b));
    CmpDoubleMeaning(ImageOf(a), ImageOf(b));
    if a.Dbl? && b.Dbl? {
      DoubleIsItsImage(a);
      DoubleIsItsImage(b);
    }
  }

  /** The excluded case exists: min of the int 2^53 + 1 and the double 2^53 is the int. */
  lemma MinKeepsTheLarger(i: Int64)
    requires i == TWO_53 + 1
    ensures MinMaxBinary(Int(i), Dbl(IntToDouble(i - 1)), false) == Int(i)
    ensures LessThan(NumberOf(Dbl(IntToDouble(i - 1))), NumberOf(Int(i)))
  {
    LadderMergesNeighbours(i);
    NeighbourImages(i);
  }

  function IntegerOf(v: Value): int
    requires v.Int? || v.Uint?
  {
    if v.Int? then v.i else v.u
  }

  /** On ints and uints in any mixture: min is a least element and max a greatest one. */
  lemma MinIsLeastMaxIsGreatest(es: seq<Value>)
    requires |es| > 0 && forall k :: 0 <= k < |es| ==> es[k].Int? || es[k].Uint?
    ensures var least := Fold(es, false);
      (least.Int? || least.Uint?) && forall j :: 0 <= j < |es| ==> IntegerOf(least) <= IntegerOf(es[j])
    ensures var greatest := Fold(es, true);
      (greatest.Int? || greatest.Uint?) && forall j :: 0 <= j < |es| ==> IntegerOf(es[j]) <= IntegerOf(greatest)
  {
    hide Fold;
    var k := FoldExact(es, false);
    var l := FoldExact(es, true);
    forall j | 0 <= j < |es| ensures IntegerOf(es[k]) <= IntegerOf(es[j]) <= IntegerOf(es[l]) {
      assert !Better(NumberOf(es[j]), NumberOf(es[k]), false);
      assert !Better(NumberOf(es[j]), NumberOf(es[l]), true);
    }
  }
}
