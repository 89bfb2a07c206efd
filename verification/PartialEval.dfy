/** Why the two precedence rules differ: partial evaluation is sound. */
module PartialEval {
  import opened Machine
  import opened Values
  import opened Doubles
  import opened Compare
  import opened Arith
  import opened ThreeValued

  /** Expressions over the logic operators and the strict kernels; a leaf names a variable. */
  datatype Expr =
    | Leaf(name: nat)
    | AndE(l: Expr, r: Expr)
    | OrE(l: Expr, r: Expr)
    | NotE(e: Expr)
    | BinaryE(bop: BinOp, l: Expr, r: Expr)
    | UnaryE(uop: UnOp, e: Expr)

  type Env = seq<Outcome>

  function Eval(fp: Floating, e: Expr, env: Env): Outcome {
    match e
    case Leaf(n) => if n < |env| then env[n] else Err(ERR_TYPE_MISMATCH)
    case AndE(l, r) => And(Eval(fp, l, env), Eval(fp, r, env))
    case OrE(l, r) => Or(Eval(fp, l, env), Eval(fp, r, env))
    case NotE(x) => Not(Eval(fp, x, env))
    case BinaryE(op, l, r) => StrictBinary(fp, op, Eval(fp, l, env), Eval(fp, r, env))
    case UnaryE(op, x) => StrictUnary(fp, op, Eval(fp, x, env))
  }

  // ---- typing ----

  function ResultType(op: BinOp): Type {
    match op
    case IntAdd => TInt case IntSub => TInt case IntMul => TInt case IntDiv => TInt case IntMod => TInt
    case UintAdd => TUint case UintSub => TUint case UintMul => TUint case UintDiv => TUint case UintMod => TUint
    case DoubleAdd => TDouble case DoubleSub => TDouble case DoubleMul => TDouble case DoubleDiv => TDouble
    case _ => TBool
  }

  predicate Accepts(op: BinOp, a: Type, b: Type) {
    if IsIntOp(op) then a == b == TInt
    else if IsUintOp(op) then a == b == TUint
    else if IsDoubleOp(op) then a == b == TDouble
    else if IsBoolOp(op) then a == b == TBool
    else a != TBool && b != TBool
  }

  function UnaryType(op: UnOp): Type {
    if op.IntNeg? then TInt else TDouble
  }

  function TypeOf(e: Expr, types: seq<Type>): Option<Type> {
    match e
    case Leaf(n) => if n < |types| then Some(types[n]) else None
    case AndE(l, r) => if TypeOf(l, types) == Some(TBool) && TypeOf(r, types) == Some(TBool) then Some(TBool) else None
    case OrE(l, r) => if TypeOf(l, types) == Some(TBool) && TypeOf(r, types) == Some(TBool) then Some(TBool) else None
    case NotE(x) => if TypeOf(x, types) == Some(TBool) then Some(TBool) else None
    case BinaryE(op, l, r) =>
      if TypeOf(l, types).Some? && TypeOf(r, types).Some? && Accepts(op, TypeOf(l, types).value, TypeOf(r, types).value)
      then Some(ResultType(op)) else None
    case UnaryE(op, x) => if TypeOf(x, types) == Some(UnaryType(op)) then Some(UnaryType(op)) else None
  }

  predicate HasType(o: Outcome, ty: Type) {
    o.Ok? ==> ValueHasType(o.v, ty)
  }

  ghost predicate EnvHasTypes(env: Env, types: seq<Type>) {
    |env| == |types| && forall n :: 0 <= n < |env| ==> HasType(env[n], types[n])
  }

  predicate Delivers(v: Value, ty: Type) {
    ValueHasType(v, ty) || (v.Error? && v.err != ERR_TYPE_MISMATCH)
  }

  lemma IntKernelTyped(op: BinOp, a: Int64, b: Int64)
    requires IsIntOp(op)
    ensures Delivers(IntKernel(op, a, b), ResultType(op))
  {
    hide TruncDiv, TruncMod;
  }

  lemma UintKernelTyped(op: BinOp, a: UInt64, b: UInt64)
    requires IsUintOp(op)
    ensures Delivers(UintKernel(op, a, b), ResultType(op))
  {
  }

  lemma DoubleKernelTyped(fp: Floating, op: BinOp, a: Double, b: Double)
    requires IsDoubleOp(op)
    ensures Delivers(DoubleKernel(fp, op, a, b), ResultType(op))
  {
  }

  lemma BoolKernelTyped(op: BinOp, a: bool, b: bool)
    requires IsBoolOp(op)
    ensures Delivers(BoolKernel(op, a, b), ResultType(op))
  {
  }

  lemma NumericKernelTyped(op: BinOp, a: Value, b: Value)
    requires !IsIntOp(op) && !IsUintOp(op) && !IsDoubleOp(op) && !IsBoolOp(op)
    ensures Delivers(NumericKernel(op, a, b), ResultType(op))
  {
    hide NumericCompare;
  }

  lemma KernelTyped(fp: Floating, op: BinOp, a: Value, b: Value, s: Type, t: Type)
    requires Accepts(op, s, t) && ValueHasType(a, s) && ValueHasType(b, t)
    ensures HasType(FromValue(BinaryKernel(fp, op, a, b)), ResultType(op))
    ensures FromValue(BinaryKernel(fp, op, a, b)) != Err(ERR_TYPE_MISMATCH)
  {
    hide IntKernel, UintKernel, DoubleKernel, BoolKernel, NumericKernel;
    if IsIntOp(op) {
      IntKernelTyped(op, a.i, b.i);
    } else if IsUintOp(op) {
      UintKernelTyped(op, a.u, b.u);
    } else if IsDoubleOp(op) {
      DoubleKernelTyped(fp, op, a.d, b.d);
    } else if IsBoolOp(op) {
      BoolKernelTyped(op, a.b, b.b);
    } else {
      NumericKernelTyped(op, a, b);
    }
  }

  /** A well-typed expression yields a value of its type, an unknown or an error, and introduces no
      type error of its own. */
  lemma {:induction false} EvalTyped(fp: Floating, e: Expr, env: Env, types: seq<Type>)
    requires EnvHasTypes(env, types) && TypeOf(e, types).Some?
    ensures HasType(Eval(fp, e, env), TypeOf(e, types).value)
    ensures Eval(fp, e, env) == Err(ERR_TYPE_MISMATCH) ==> Err(ERR_TYPE_MISMATCH) in env
  {
    match e
    case Leaf(n) =>
    case NotE(x) => EvalTyped(fp, x, env, types);
    case UnaryE(op, x) => EvalTyped(fp, x, env, types);
    case AndE(l, r) =>
      EvalTyped(fp, l, env, types);
      EvalTyped(fp, r, env, types);
    case OrE(l, r) =>
      EvalTyped(fp, l, env, types);
      EvalTyped(fp, r, env, types);
    case BinaryE(op, l, r) =>
      EvalTyped(fp, l, env, types);
      EvalTyped(fp, r, env, types);
      var a, b := Eval(fp, l, env), Eval(fp, r, env);
      if a.Ok? && b.Ok? {
        KernelTyped(fp, op, a.v, b.v, TypeOf(l, types).value, TypeOf(r, types).value);
      }
  }

  // ---- soundness ----

  /** What knowing more may turn an outcome into: an unknown into anything, an error into an error of
      whichever code, a value only into itself. */
  predicate Settles(o: Outcome, p: Outcome) {
    match o
    case Ok(_) => p == o
    case Err(_) => p.Err?
    case Unk(_) => true
  }

  ghost predicate EnvSettles(env: Env, env': Env) {
    |env| == |env'| && forall n :: 0 <= n < |env| ==> Settles(env[n], env'[n])
  }

  lemma SettlesItself(o: Outcome)
    ensures Settles(o, o)
  {
  }

  /** ERROR over UNKNOWN suits a strict operator: whatever the unknown turns into, the error remains. */
  lemma StrictSettles(fp: Floating, op: BinOp, a: Outcome, b: Outcome, a': Outcome, b': Outcome)
    requires Settles(a, a') && Settles(b, b')
    ensures Settles(StrictBinary(fp, op, a, b), StrictBinary(fp, op, a', b'))
  {
    hide BinaryKernel;
  }

  /** A logic operator cannot take back the type error it reports when an unknown meets a value that is
      no boolean. */
  predicate Clash(a: Outcome, b: Outcome) {
    (a.Unk? && b.Ok? && !b.v.Bool?) || (b.Unk? && a.Ok? && !a.v.Bool?)
  }

  /** Exactly when the operands do not clash is the outcome of a logic operator safe against whatever
      its operands turn into. */
  lemma LogicMonotoneIff(a: Outcome, b: Outcome)
    ensures (forall a', b' :: Settles(a, a') && Settles(b, b') ==> Settles(And(a, b), And(a', b'))) <==> !Clash(a, b)
    ensures (forall a', b' :: Settles(a, a') && Settles(b, b') ==> Settles(Or(a, b), Or(a', b'))) <==> !Clash(a, b)
  {
    if Clash(a, b) {
      SettlesItself(a);
      SettlesItself(b);
      var no, yes := Ok(Bool(false)), Ok(Bool(true));
      if a.Unk? {
        assert Settles(a, no) && !Settles(And(a, b), And(no, b));
        assert Settles(a, yes) && !Settles(Or(a, b), Or(yes, b));
      } else {
        assert Settles(b, no) && !Settles(And(a, b), And(a, no));
        assert Settles(b, yes) && !Settles(Or(a, b), Or(a, yes));
      }
    }
  }

  /** At no logic node of the tree does an unknown meet a value that is no boolean. */
  predicate Harmonious(fp: Floating, e: Expr, env: Env) {
    match e
    case Leaf(_) => true
    case NotE(x) => Harmonious(fp, x, env)
    case UnaryE(_, x) => Harmonious(fp, x, env)
    case BinaryE(_, l, r) => Harmonious(fp, l, env) && Harmonious(fp, r, env)
    case AndE(l, r) => Harmonious(fp, l, env) && Harmonious(fp, r, env) && !Clash(Eval(fp, l, env), Eval(fp, r, env))
    case OrE(l, r) => Harmonious(fp, l, env) && Harmonious(fp, r, env) && !Clash(Eval(fp, l, env), Eval(fp, r, env))
  }

  /** Evaluation is monotone on dynamically typed trees too, as long as no unknown meets a value that is
      no boolean at a logic node: learning about unknown leaves never revises a settled result. */
  lemma {:induction false} DynamicPartialEvaluationSound(fp: Floating, e: Expr, env: Env, env': Env)
    requires Harmonious(fp, e, env) && EnvSettles(env, env')
    ensures Settles(Eval(fp, e, env), Eval(fp, e, env'))
  {
    hide And, Or, StrictBinary;
    match e
    case Leaf(n) =>
    case NotE(x) => DynamicPartialEvaluationSound(fp, x, env, env');
    case UnaryE(op, x) => DynamicPartialEvaluationSound(fp, x, env, env');
    case AndE(l, r) =>
      DynamicPartialEvaluationSound(fp, l, env, env');
      DynamicPartialEvaluationSound(fp, r, env, env');
      LogicMonotoneIff(Eval(fp, l, env), Eval(fp, r, env));
    case OrE(l, r) =>
      DynamicPartialEvaluationSound(fp, l, env, env');
      DynamicPartialEvaluationSound(fp, r, env, env');
      LogicMonotoneIff(Eval(fp, l, env), Eval(fp, r, env));
    case BinaryE(op, l, r) =>
      DynamicPartialEvaluationSound(fp, l, env, env');
      DynamicPartialEvaluationSound(fp, r, env, env');
      StrictSettles(fp, op, Eval(fp, l, env), Eval(fp, r, env), Eval(fp, l, env'), Eval(fp, r, env'));
  }

  /** Well-typed trees are harmonious in every environment of their types. */
  lemma {:induction false} TypedIsHarmonious(fp: Floating, e: Expr, env: Env, types: seq<Type>)
    requires TypeOf(e, types).Some? && EnvHasTypes(env, types)
    ensures Harmonious(fp, e, env)
  {
    hide And, Or, StrictBinary;
    match e
    case Leaf(n) =>
    case NotE(x) => TypedIsHarmonious(fp, x, env, types);
    case UnaryE(op, x) => TypedIsHarmonious(fp, x, env, types);
    case AndE(l, r) =>
      TypedIsHarmonious(fp, l, env, types);
      TypedIsHarmonious(fp, r, env, types);
      EvalTyped(fp, l, env, types);
      EvalTyped(fp, r, env, types);
    case OrE(l, r) =>
      TypedIsHarmonious(fp, l, env, types);
      TypedIsHarmonious(fp, r, env, types);
      EvalTyped(fp, l, env, types);
      EvalTyped(fp, r, env, types);
    case BinaryE(op, l, r) =>
      TypedIsHarmonious(fp, l, env, types);
      TypedIsHarmonious(fp, r, env, types);
  }

  /** Evaluation of a well-typed tree is monotone, for every type-correct or ill-typed way in which the
      unknown leaves turn out. */
  lemma PartialEvaluationSound(fp: Floating, e: Expr, env: Env, env': Env, types: seq<Type>)
    requires TypeOf(e, types).Some? && EnvHasTypes(env, types)
    requires EnvSettles(env, env')
    ensures Settles(Eval(fp, e, env), Eval(fp, e, env'))
  {
    TypedIsHarmonious(fp, e, env, types);
    DynamicPartialEvaluationSound(fp, e, env, env');
  }

  function LeftFirst(kernel: (Value, Value) -> Outcome, a: Outcome, b: Outcome): Outcome {
    match AbsorbLeftFirst(a, b)
    case Some(o) => o
    case None => kernel(a.v, b.v)
  }

  /** Whatever a kernel does with two values, absorbing left to right is monotone as well. */
  lemma LeftFirstSettles(kernel: (Value, Value) -> Outcome, a: Outcome, b: Outcome, a': Outcome, b': Outcome)
    requires Settles(a, a') && Settles(b, b')
    ensures Settles(LeftFirst(kernel, a, b), LeftFirst(kernel, a', b'))
  {
    if a.Ok? && b.Ok? {
      assert a' == a && b' == b;
    }
    SettlesItself(LeftFirst(kernel, a, b));
  }

  /** UNKNOWN over ERROR is what a logic operator needs: were `error && unknown` an error already, the
      unknown turning out false would revise it. */
  lemma ErrorFirstLogicUnsound(code: UInt32, ids: set<UInt32>)
    ensures AbsorbBinary(Err(code), Unk(ids)) == Some(Err(code))
    ensures !Settles(AbsorbBinary(Err(code), Unk(ids)).value, And(Err(code), Ok(Bool(false))))
    ensures !Settles(AbsorbBinary(Err(code), Unk(ids)).value, Or(Err(code), Ok(Bool(true))))
  {
  }

  /** Typing is needed: with a non-boolean operand a settled type error is revised. */
  lemma IllTypedLogicUnsound(ids: set<UInt32>, v: Value)
    requires !v.Bool?
    ensures And(Unk(ids), Ok(v)) == Err(ERR_TYPE_MISMATCH)
    ensures And(Ok(Bool(false)), Ok(v)) == Ok(Bool(false))
  {
  }

  function Leaves(e: Expr): set<nat> {
    match e
    case Leaf(n) => {n}
    case NotE(x) => Leaves(x)
    case UnaryE(_, x) => Leaves(x)
    case AndE(l, r) => Leaves(l) + Leaves(r)
    case OrE(l, r) => Leaves(l) + Leaves(r)
    case BinaryE(_, l, r) => Leaves(l) + Leaves(r)
  }

  predicate Waits(o: Outcome, id: UInt32) {
    o.Unk? && id in o.ids
  }

  /** An unknown result waits only for attributes that unknown leaves of the expression wait for. */
  lemma {:induction false} UnknownIdsComeFromLeaves(fp: Floating, e: Expr, env: Env, id: UInt32)
    requires Waits(Eval(fp, e, env), id)
    ensures exists n :: n in Leaves(e) && n < |env| && Waits(env[n], id)
  {
    match e
    case Leaf(n) =>
    case NotE(x) => UnknownIdsComeFromLeaves(fp, x, env, id);
    case UnaryE(op, x) => UnknownIdsComeFromLeaves(fp, x, env, id);
    case AndE(l, r) =>
      if Waits(Eval(fp, l, env), id) { UnknownIdsComeFromLeaves(fp, l, env, id); } else { UnknownIdsComeFromLeaves(fp, r, env, id); }
    case OrE(l, r) =>
      if Waits(Eval(fp, l, env), id) { UnknownIdsComeFromLeaves(fp, l, env, id); } else { UnknownIdsComeFromLeaves(fp, r, env, id); }
    case BinaryE(op, l, r) =>
      if Waits(Eval(fp, l, env), id) { UnknownIdsComeFromLeaves(fp, l, env, id); } else { UnknownIdsComeFromLeaves(fp, r, env, id); }
  }

  /** The classical meaning of a tree of logic operators. */
  function Classical(e: Expr, leaves: seq<bool>): Option<bool> {
    match e
    case Leaf(n) => if n < |leaves| then Some(leaves[n]) else None
    case NotE(x) => var v := Classical(x, leaves); if v.Some? then Some(!v.value) else None
    case AndE(l, r) =>
      var v, w := Classical(l, leaves), Classical(r, leaves);
      if v.Some? && w.Some? then Some(v.value && w.value) else None
    case OrE(l, r) =>
      var v, w := Classical(l, leaves), Classical(r, leaves);
      if v.Some? && w.Some? then Some(v.value || w.value) else None
    case _ => None
  }

  /** When all leaves are booleans, evaluation is classical. */
  lemma {:induction false} EvaluationIsClassical(fp: Floating, e: Expr, leaves: seq<bool>, env: Env)
    requires |env| == |leaves| && forall n :: 0 <= n < |env| ==> env[n] == Ok(Bool(leaves[n]))
    requires Classical(e, leaves).Some?
    ensures Eval(fp, e, env) == Ok(Bool(Classical(e, leaves).value))
  {
    match e
    case Leaf(n) =>
    case NotE(x) => EvaluationIsClassical(fp, x, leaves, env);
    case AndE(l, r) =>
      EvaluationIsClassical(fp, l, leaves, env);
      EvaluationIsClassical(fp, r, leaves, env);
    case OrE(l, r) =>
      EvaluationIsClassical(fp, l, leaves, env);
      EvaluationIsClassical(fp, r, leaves, env);
    case _ =>
  }
}
