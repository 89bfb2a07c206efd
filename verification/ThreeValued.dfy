/** The three-valued kernels on decoded values: an operand is a value, an unknown with the set of the
    attributes it waits for, or an error. */
module ThreeValued {
  import opened Machine
  import opened Doubles
  import opened Values
  import opened Compare
  import opened Arith

  /** A decoded slot. `Ok` never wraps the Unknown or Error tags. */
  datatype Outcome = Ok(v: Value) | Unk(ids: set<UInt32>) | Err(code: UInt32)

  function FromValue(v: Value): Outcome {
    if v.Error? then Err(v.err) else Ok(v)
  }

  // ---- logic operators: UNKNOWN over ERROR ----

  predicate IsBool(o: Outcome, b: bool) {
    o == Ok(Bool(b))
  }

  predicate IsThreeValued(o: Outcome) {
    o.Ok? ==> o.v.Bool?
  }

  function LogicTail(a: Outcome, b: Outcome): Outcome {
    if a.Unk? && b.Unk? then Unk(a.ids + b.ids)
    else if a.Unk? then a
    else if b.Unk? then b
    else a
  }

  function And(a: Outcome, b: Outcome): Outcome {
    if IsBool(a, false) || IsBool(b, false) then Ok(Bool(false))
    else if !IsThreeValued(a) || !IsThreeValued(b) then Err(ERR_TYPE_MISMATCH)
    else if a.Ok? then b
    else if b.Ok? then a
    else LogicTail(a, b)
  }

  function Or(a: Outcome, b: Outcome): Outcome {
    if IsBool(a, true) || IsBool(b, true) then Ok(Bool(true))
    else if !IsThreeValued(a) || !IsThreeValued(b) then Err(ERR_TYPE_MISMATCH)
    else if a.Ok? then b
    else if b.Ok? then a
    else LogicTail(a, b)
  }

  function Not(a: Outcome): Outcome {
    if a.Ok? && a.v.Bool? then Ok(Bool(!a.v.b))
    else if a.Ok? then Err(ERR_TYPE_MISMATCH)
    else a
  }

  /** On three-valued operands the operators form bounded semilattices, exchanged by negation. */
  lemma LogicLaws(a: Outcome, b: Outcome, c: Outcome)
    requires IsThreeValued(a) && IsThreeValued(b) && IsThreeValued(c)
    ensures And(And(a, b), c) == And(a, And(b, c)) && Or(Or(a, b), c) == Or(a, Or(b, c))
    ensures And(Ok(Bool(true)), a) == a == And(a, Ok(Bool(true)))
    ensures Or(Ok(Bool(false)), a) == a == Or(a, Ok(Bool(false)))
    ensures And(Ok(Bool(false)), a) == Ok(Bool(false)) == And(a, Ok(Bool(false)))
    ensures Or(Ok(Bool(true)), a) == Ok(Bool(true)) == Or(a, Ok(Bool(true)))
    ensures And(a, a) == a == Or(a, a)
    ensures Not(And(a, b)) == Or(Not(a), Not(b)) && Not(Or(a, b)) == And(Not(a), Not(b))
    ensures Not(Not(a)) == a
  {
    if a.Unk? && b.Unk? && c.Unk? {
      assert (a.ids + b.ids) + c.ids == a.ids + (b.ids + c.ids);
    }
    if a.Unk? {
      assert a.ids + a.ids == a.ids;
    }
  }

  /** They commute except that of two different errors the left one survives. */
  lemma LogicCommutes(a: Outcome, b: Outcome)
    requires IsThreeValued(a) && IsThreeValued(b)
    ensures And(a, b) == And(b, a) <==> !(a.Err? && b.Err? && a != b)
    ensures Or(a, b) == Or(b, a) <==> !(a.Err? && b.Err? && a != b)
  {
    if a.Unk? && b.Unk? {
      assert a.ids + b.ids == b.ids + a.ids;
    }
  }

  /** Of two errors the left one survives. */
  lemma FirstErrorSurvives(a: Outcome, b: Outcome)
    requires a.Err? && b.Err?
    ensures And(a, b) == a && Or(a, b) == a
  {
  }

  /** A value that is no boolean is a type mismatch beside anything but the value that decides alone, on
      either side; negating it is one too. */
  lemma NonBooleans(v: Value, o: Outcome)
    requires !v.Bool?
    ensures And(Ok(v), o) == And(o, Ok(v)) == if o == Ok(Bool(false)) then o else Err(ERR_TYPE_MISMATCH)
    ensures Or(Ok(v), o) == Or(o, Ok(v)) == if o == Ok(Bool(true)) then o else Err(ERR_TYPE_MISMATCH)
    ensures Not(Ok(v)) == Err(ERR_TYPE_MISMATCH)
  {
  }

  /** On booleans the operators are the logical ones; negation hands on errors and unknowns. */
  lemma Booleans(p: bool, q: bool, o: Outcome)
    ensures And(Ok(Bool(p)), Ok(Bool(q))) == Ok(Bool(p && q)) && Or(Ok(Bool(p)), Ok(Bool(q))) == Ok(Bool(p || q))
    ensures Not(Ok(Bool(p))) == Ok(Bool(!p))
    ensures !o.Ok? ==> Not(o) == o
  {
  }

  // ---- chains ----

  /** o1 && o2 && ... */
  function AllOf(os: seq<Outcome>): Outcome {
    if |os| == 0 then Ok(Bool(true)) else And(AllOf(os[..|os| - 1]), os[|os| - 1])
  }

  /** o1 || o2 || ... */
  function AnyOf(os: seq<Outcome>): Outcome {
    if |os| == 0 then Ok(Bool(false)) else Or(AnyOf(os[..|os| - 1]), os[|os| - 1])
  }

  predicate Operands(os: seq<Outcome>) {
    forall k :: 0 <= k < |os| ==> IsThreeValued(os[k])
  }

  /** Element k is an error and no earlier one is. */
  predicate FirstError(os: seq<Outcome>, k: nat) {
    k < |os| && os[k].Err? && forall j :: 0 <= j < k ==> !os[j].Err?
  }

  /** What a chain comes to when `decisive` decides it alone: that value if it occurs; else an unknown with
      the ids of all unknowns if there is one; else the first error if there is one; else the other value. */
  ghost predicate ChainOutcome(os: seq<Outcome>, decisive: bool, r: Outcome) {
    if Ok(Bool(decisive)) in os then r == Ok(Bool(decisive))
    else if exists k :: 0 <= k < |os| && os[k].Unk? then
      r.Unk? && forall id :: id in r.ids <==> exists k :: 0 <= k < |os| && os[k].Unk? && id in os[k].ids
    else if exists k :: 0 <= k < |os| && os[k].Err? then
      exists k: nat :: FirstError(os, k) && r == os[k]
    else r == Ok(Bool(!decisive))
  }

  lemma ChainUnknown(os: seq<Outcome>, o: Outcome, decisive: bool, r: Outcome)
    requires Operands(os) && IsThreeValued(o) && IsThreeValued(r) && ChainOutcome(os, decisive, r)
    requires Ok(Bool(decisive)) !in os + [o] && exists k :: 0 <= k < |os + [o]| && (os + [o])[k].Unk?
    ensures ChainOutcome(os + [o], decisive, if decisive then Or(r, o) else And(r, o))
  {
    var all := os + [o];
    var next := if decisive then Or(r, o) else And(r, o);
    assert all[|os|] == o && forall k :: 0 <= k < |os| ==> all[k] == os[k];
    assert Ok(Bool(decisive)) !in os by {
      assert forall x :: x in os ==> x in all;
    }
    assert o in all;
    if exists k :: 0 <= k < |os| && os[k].Unk? {
      assert next == if o.Unk? then Unk(r.ids + o.ids) else r;
    } else {
      assert o.Unk? && next == o;
    }
    forall id ensures id in next.ids <==> exists k :: 0 <= k < |all| && all[k].Unk? && id in all[k].ids {
      if id in next.ids {
        if o.Unk? && id in o.ids {
          assert all[|os|].Unk? && id in all[|os|].ids;
        } else {
          var k :| 0 <= k < |os| && os[k].Unk? && id in os[k].ids;
          assert all[k].Unk? && id in all[k].ids;
        }
      }
    }
  }

  /** One more operand. */
  lemma ChainStep(os: seq<Outcome>, o: Outcome, decisive: bool, r: Outcome)
    requires Operands(os) && IsThreeValued(o) && IsThreeValued(r) && ChainOutcome(os, decisive, r)
    ensures ChainOutcome(os + [o], decisive, if decisive then Or(r, o) else And(r, o))
  {
    var all := os + [o];
    var next := if decisive then Or(r, o) else And(r, o);
    assert all[|os|] == o && forall k :: 0 <= k < |os| ==> all[k] == os[k];
    if Ok(Bool(decisive)) in all {
      assert Ok(Bool(decisive)) in os || o == Ok(Bool(decisive));
    } else if exists k :: 0 <= k < |all| && all[k].Unk? {
      ChainUnknown(os, o, decisive, r);
    } else if exists k :: 0 <= k < |os| && os[k].Err? {
      var k: nat :| FirstError(os, k) && r == os[k];
      assert FirstError(all, k);
    } else if o.Err? {
      assert FirstError(all, |os|);
    } else {
      assert o.Ok? && o.v.Bool? && o != Ok(Bool(decisive));
    }
  }

  /** Every chain of three-valued operands comes to that. */
  lemma {:induction false} ChainsComeTo(os: seq<Outcome>)
    requires Operands(os)
    ensures IsThreeValued(AllOf(os)) && ChainOutcome(os, false, AllOf(os))
    ensures IsThreeValued(AnyOf(os)) && ChainOutcome(os, true, AnyOf(os))
  {
    if |os| > 0 {
      var front, last := os[..|os| - 1], os[|os| - 1];
      ChainsComeTo(front);
      ChainStep(front, last, false, AllOf(front));
      ChainStep(front, last, true, AnyOf(front));
      assert front + [last] == os;
    }
  }

  // ---- strict operators: ERROR over UNKNOWN ----

  function AbsorbBinary(a: Outcome, b: Outcome): Option<Outcome> {
    if a.Err? then Some(a)
    else if b.Err? then Some(b)
    else if a.Unk? && b.Unk? then Some(Unk(a.ids + b.ids))
    else if a.Unk? then Some(a)
    else if b.Unk? then Some(b)
    else None
  }

  // ---- the string extensions: left to right ----

  /** The string-extension kernels hand on the first operand that is no value. */
  function AbsorbLeftFirst(a: Outcome, b: Outcome): Option<Outcome> {
    if !a.Ok? then Some(a) else if !b.Ok? then Some(b) else None
  }

  /** The two envelopes differ exactly when the left operand is an unknown that an error on the right
      would override, or whose ids lack some of the right one's. */
  lemma AbsorptionsAgree(a: Outcome, b: Outcome)
    ensures AbsorbLeftFirst(a, b) == AbsorbBinary(a, b) <==> !(a.Unk? && (b.Err? || (b.Unk? && !(b.ids <= a.ids))))
  {
    if a.Unk? && b.Unk? {
      assert b.ids <= a.ids <==> a.ids + b.ids == a.ids;
    }
  }

  datatype Type = TBool | TInt | TUint | TDouble

  predicate ValueHasType(v: Value, ty: Type) {
    match ty
    case TBool => v.Bool?
    case TInt => v.Int?
    case TUint => v.Uint?
    case TDouble => v.Dbl?
  }

  predicate IsIntOp(op: BinOp) {
    op.IntAdd? || op.IntSub? || op.IntMul? || op.IntDiv? || op.IntMod? || op.IntLt? || op.IntLe? || op.IntGt? || op.IntGe?
  }

  predicate IsUintOp(op: BinOp) {
    op.UintAdd? || op.UintSub? || op.UintMul? || op.UintDiv? || op.UintMod? || op.UintLt? || op.UintLe? || op.UintGt? || op.UintGe?
  }

  predicate IsDoubleOp(op: BinOp) {
    op.DoubleAdd? || op.DoubleSub? || op.DoubleMul? || op.DoubleDiv? || op.DoubleLt? || op.DoubleLe? || op.DoubleGt? || op.DoubleGe?
  }

  predicate IsBoolOp(op: BinOp) {
    op.BoolEq? || op.BoolLt? || op.BoolLe? || op.BoolGt? || op.BoolGe?
  }

  function DoubleKernel(fp: Floating, op: BinOp, a: Double, b: Double): (r: Value)
    ensures r.Dbl? || r.Bool? || r.Error?
  {
    match op
    case DoubleAdd => Dbl(fp.add(a, b))
    case DoubleSub => Dbl(fp.sub(a, b))
    case DoubleMul => Dbl(fp.mul(a, b))
    case DoubleDiv => Dbl(fp.div(a, b))
    case DoubleLt => Bool(LessThan(a, b))
    case DoubleLe => Bool(LessThan(a, b) || SameNumber(a, b))
    case DoubleGt => Bool(LessThan(b, a))
    case DoubleGe => Bool(LessThan(b, a) || SameNumber(a, b))
    case _ => Error(ERR_TYPE_MISMATCH)
  }

  function BoolKernel(op: BinOp, a: bool, b: bool): (r: Value)
    ensures r.Bool? || r.Error?
  {
    match op
    case BoolEq => Bool(a == b)
    case BoolLt => Bool(!a && b)
    case BoolLe => Bool(!a || b)
    case BoolGt => Bool(a && !b)
    case BoolGe => Bool(a || !b)
    case _ => Error(ERR_TYPE_MISMATCH)
  }

  function NumericKernel(op: BinOp, a: Value, b: Value): (r: Value)
    ensures r.Bool? || r.Error?
  {
    var r := NumericCompare(a, b);
    match op
    case NumericEq => Bool(r == CmpEqual)
    case NumericLt => Bool(r == CmpLess)
    case NumericLe => Bool(r == CmpLess || r == CmpEqual)
    case NumericGt => Bool(r == CmpGreater)
    case NumericGe => Bool(r == CmpGreater || r == CmpEqual)
    case _ => Error(ERR_TYPE_MISMATCH)
  }

  /** The kernel past absorption: the kind check, then the operation. */
  function BinaryKernel(fp: Floating, op: BinOp, a: Value, b: Value): Value {
    if IsIntOp(op) then if a.Int? && b.Int? then IntKernel(op, a.i, b.i) else Error(ERR_TYPE_MISMATCH)
    else if IsUintOp(op) then if a.Uint? && b.Uint? then UintKernel(op, a.u, b.u) else Error(ERR_TYPE_MISMATCH)
    else if IsDoubleOp(op) then if a.Dbl? && b.Dbl? then DoubleKernel(fp, op, a.d, b.d) else Error(ERR_TYPE_MISMATCH)
    else if IsBoolOp(op) then if a.Bool? && b.Bool? then BoolKernel(op, a.b, b.b) else Error(ERR_TYPE_MISMATCH)
    else if IsNumeric(a) && IsNumeric(b) then NumericKernel(op, a, b)
    else Error(ERR_TYPE_MISMATCH)
  }

  function StrictBinary(fp: Floating, op: BinOp, a: Outcome, b: Outcome): Outcome {
    match AbsorbBinary(a, b)
    case Some(o) => o
    case None => FromValue(BinaryKernel(fp, op, a.v, b.v))
  }

  function UnaryKernel(fp: Floating, op: UnOp, a: Value): Value {
    match op
    case IntNeg => if !a.Int? then Error(ERR_TYPE_MISMATCH) else if a.i == INT64_MIN then Error(ERR_OVERFLOW) else Int(-a.i)
    case DoubleNeg => if a.Dbl? then Dbl(fp.neg(a.d)) else Error(ERR_TYPE_MISMATCH)
  }

  function StrictUnary(fp: Floating, op: UnOp, a: Outcome): Outcome {
    if a.Ok? then FromValue(UnaryKernel(fp, op, a.v)) else a
  }
}
