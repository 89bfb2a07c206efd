/** Equality and hashing of map keys: the lossless rule, and the hash that canonicalises numbers to fit it. */
module MapKeys {
  import opened Machine
  import opened Doubles
  import opened Values
  import opened Compare

  // ---- equality ----

  /** The `==` operator's rule. */
  predicate ValueEq(a: Value, b: Value) {
    if IsNumeric(a) && IsNumeric(b) then NumericCompare(a, b) == CmpEqual
    else match (a, b)
      case (Str(s), Str(t)) => s == t
      case (Bool(x), Bool(y)) => x == y
      case (Bytes(s), Bytes(t)) => s == t
      case (Null, Null) => true
      case (Duration(s, n), Duration(t, m)) => s == t && n == m
      case (Timestamp(s, n), Timestamp(t, m)) => s == t && n == m
      case (Ip(f, s), Ip(g, t)) => f == g && s == t
      case (Cidr(f, p, s), Cidr(g, q, t)) => f == g && p == q && s == t
      case _ => false
  }

  // (double)(INT64_MAX - 512) and (double)(UINT64_MAX - 1024) (Doubles.EndImages).
  const MAX_DOUBLE_AS_INT: real := 9223372036854774784.0
  const MAX_DOUBLE_AS_UINT: real := 18446744073709549568.0

  function DoubleAsInt(d: Double): Option<Int64> {
    if !d.Finite? || d.r < INT_LOW.r || d.r > MAX_DOUBLE_AS_INT then None
    else if IntToDouble(Truncate(d.r)) != d then None
    else Some(Truncate(d.r))
  }

  function DoubleAsUint(d: Double): Option<UInt64> {
    if !d.Finite? || d.r < 0.0 || d.r > MAX_DOUBLE_AS_UINT then None
    else if IntToDouble(Truncate(d.r)) != d then None
    else Some(Truncate(d.r))
  }

  predicate DoubleMatchesInteger(d: Double, v: Value)
    requires v.Int? || v.Uint?
  {
    if v.Int? then DoubleAsInt(d) == Some(v.i) else DoubleAsUint(d) == Some(v.u)
  }

  predicate NumericKeyEq(a: Value, b: Value) {
    if !IsNumeric(a) || !IsNumeric(b) then false
    else if a.Dbl? && b.Dbl? then SameNumber(a.d, b.d)
    else if a.Dbl? then DoubleMatchesInteger(a.d, b)
    else if b.Dbl? then DoubleMatchesInteger(b.d, a)
    else NumericCompare(a, b) == CmpEqual
  }

  predicate MapKeyEq(a: Value, b: Value) {
    if IsNumeric(a) && IsNumeric(b) then NumericKeyEq(a, b) else ValueEq(a, b)
  }

  /** The two conversions accept exactly the doubles that are integers of their type. */
  lemma ConversionsLossless(d: Double)
    ensures forall i: Int64 :: DoubleAsInt(d) == Some(i) <==> d == Finite(i as real)
    ensures forall u: UInt64 :: DoubleAsUint(d) == Some(u) <==> d == Finite(u as real)
  {
    if d.Finite? {
      ScaleTen(TWO_53);
      ScaleTen(TWO_53 - 1);
      if d.r < TWO_63 as real {
        NoDoubleInGap(d.r, 10);
      }
      if d.r < TWO_64 as real {
        NoDoubleInGap(d.r, 11);
      }
      if -(TWO_63 as real) <= d.r < TWO_64 as real {
        CastRoundTrip(d);
      }
    }
  }

  /** Numeric key equality is equality of the numbers denoted, with NaN equal to nothing. */
  lemma NumericKeyEqExact(a: Value, b: Value)
    requires IsNumeric(a) && IsNumeric(b)
    ensures NumericKeyEq(a, b) <==> SameNumber(NumberOf(a), NumberOf(b))
  {
    if a.Dbl? {
      ConversionsLossless(a.d);
    } else if b.Dbl? {
      ConversionsLossless(b.d);
    }
  }

  /** What a key is, apart from its representation; None when it equals no key at all. */
  datatype Identity = Number(x: Extended) | Structure(v: Value)

  function KeyIdentity(v: Value): Option<Identity> {
    if IsNumeric(v) then if NumberOf(v) == NaN then None else Some(Number(NumberOf(v)))
    else if v.Other? || v.Unknown? || v.Error? then None
    else Some(Structure(v))
  }

  /** Map-key equality is equality of identities: so it is symmetric and transitive, and reflexive
      except on NaN and the kinds that are never keys. */
  lemma MapKeyEqIsIdentity(a: Value, b: Value)
    ensures MapKeyEq(a, b) <==> KeyIdentity(a).Some? && KeyIdentity(a) == KeyIdentity(b)
  {
    if IsNumeric(a) && IsNumeric(b) {
      NumericKeyEqExact(a, b);
    }
  }

  /** Key equality refines the operator's equality, strictly. */
  lemma KeyEqImpliesValueEq(a: Value, b: Value)
    requires MapKeyEq(a, b)
    ensures ValueEq(a, b)
  {
    if IsNumeric(a) && IsNumeric(b) {
      NumericKeyEqExact(a, b);
      LadderIsSound(a, b);
    }
  }

  /** The operator's equality: on numbers, the same double image when a double takes part and the same number
      otherwise; on everything else key equality. */
  lemma ValueEqIff(a: Value, b: Value)
    ensures IsNumeric(a) && IsNumeric(b) && (a.Dbl? || b.Dbl?) ==>
      (ValueEq(a, b) <==> SameNumber(ImageOf(a), ImageOf(b)))
    ensures IsNumeric(a) && IsNumeric(b) && !a.Dbl? && !b.Dbl? ==>
      (ValueEq(a, b) <==> SameNumber(NumberOf(a), NumberOf(b)))
    ensures !(IsNumeric(a) && IsNumeric(b)) ==> (ValueEq(a, b) <==> MapKeyEq(a, b))
  {
    hide NumericCompare, CmpDouble, ImageOf;
    if IsNumeric(a) && IsNumeric(b) {
      LadderDecides(a, b);
      CmpDoubleMeaning(ImageOf(a), ImageOf(b));
      CmpDoubleMeaning(NumberOf(a), NumberOf(b));
    }
  }

  /** Keys kind by kind: texts by their bytes, booleans by their value, and no key equals one of another kind
      except among the numbers. */
  lemma KeysByKind(a: Value, b: Value)
    ensures a.Str? && b.Str? ==> (MapKeyEq(a, b) <==> a.text == b.text)
    ensures a.Bytes? && b.Bytes? ==> (MapKeyEq(a, b) <==> a.octets == b.octets)
    ensures a.Bool? && b.Bool? ==> (MapKeyEq(a, b) <==> a.b == b.b)
    ensures a.Int? && b.Int? ==> (MapKeyEq(a, b) <==> a.i == b.i)
    ensures a.Uint? && b.Uint? ==> (MapKeyEq(a, b) <==> a.u == b.u)
    ensures a.Int? && b.Uint? ==> (MapKeyEq(a, b) <==> a.i == b.u)
    ensures IsNumeric(a) != IsNumeric(b) || a.Str? != b.Str? || a.Bool? != b.Bool? || a.Bytes? != b.Bytes? ==> !MapKeyEq(a, b)
  {
    hide IntToDouble;
  }

  // ---- hashing ----

  /** The 64-bit finalising mixer, the FNV byte step, and the mixer applied after folding a length in,
      are left open: nothing below depends on which functions they are. */
  datatype Mixer = Mixer(mix: UInt64 -> bv64, step: (bv64, Byte) -> bv64, finish: (bv64, UInt32) -> bv64)

  const SALT_BOOL: UInt64 := 0x00B001B001B001B0
  const SENTINEL: UInt64 := 0xDEADD0D0FFFFFFFF
  const SEED_STR: bv64 := 0x0057812345678900 ^ 0xCBF29CE484222325
  const SEED_BYTES: bv64 := 0x00B47E5678901234 ^ 0xCBF29CE484222325

  /** v xor bit, for a single bit. */
  function FlipBit(v: UInt64, bit: int): UInt64
    requires bit == 0x4000_0000_0000_0000 || bit == 0x8000_0000_0000_0000
  {
    if v / bit % 2 == 1 then v - bit else v + bit
  }

  function HashSentinel(m: Mixer): bv64 {
    m.mix(SENTINEL)
  }

  function HashNonNegative(m: Mixer, v: UInt64): bv64 {
    if v <= INT64_MAX then m.mix(v) else m.mix(FlipBit(v, 0x4000_0000_0000_0000))
  }

  /** The magnitude is formed without overflow even for INT64_MIN. */
  function HashNegative(m: Mixer, v: Int64): bv64
    requires v < 0
  {
    var less: Int64 := -(v + 1);
    m.mix(FlipBit(less + 1, 0x8000_0000_0000_0000))
  }

  function FnvFold(m: Mixer, s: seq<Byte>, h: bv64): bv64 {
    if |s| == 0 then h else m.step(FnvFold(m, s[..|s| - 1], h), s[|s| - 1])
  }

  function HashSpan(m: Mixer, s: seq<Byte>, seed: bv64): bv64 {
    m.finish(FnvFold(m, s, seed), |s| % TWO_32)
  }

  /** The byte hash as it runs: one pass over the span. */
  method HashBytes(m: Mixer, s: seq<Byte>, seed: bv64) returns (h: bv64)
    ensures h == HashSpan(m, s, seed)
  {
    h := seed;
    var i := 0;
    while i < |s|
      invariant 0 <= i <= |s|
      invariant h == FnvFold(m, s[..i], seed)
    {
      assert s[..i + 1][..i] == s[..i];
      h := m.step(h, s[i]);
      i := i + 1;
    }
    assert s[..i] == s;
    h := m.finish(h, |s| % TWO_32);
  }

  function HashDouble(m: Mixer, d: Double): bv64 {
    if d.Finite? && INT_LOW.r <= d.r < INT_HIGH.r then
      var i := Truncate(d.r);
      if IntToDouble(i) != d then HashSentinel(m)
      else if i >= 0 then HashNonNegative(m, i)
      else HashNegative(m, i)
    else if d.Finite? && 0.0 <= d.r < UINT_HIGH.r then
      var u := Truncate(d.r);
      if IntToDouble(u) != d then HashSentinel(m) else HashNonNegative(m, u)
    else HashSentinel(m)
  }

  function MapKeyHash(m: Mixer, key: Value): bv64 {
    match key
    case Bool(b) => m.mix(SALT_BOOL + (if b then 1 else 0))
    case Int(i) => if i >= 0 then HashNonNegative(m, i) else HashNegative(m, i)
    case Uint(u) => HashNonNegative(m, u)
    case Dbl(d) => HashDouble(m, d)
    case Str(s) => HashSpan(m, s, SEED_STR)
    case Bytes(s) => HashSpan(m, s, SEED_BYTES)
    case _ => HashSentinel(m)
  }

  /** The hash a number has, whichever kind carries it. */
  function HashOfNumber(m: Mixer, x: Extended): bv64 {
    if !x.Finite? || !IsIntegral(x.r) then HashSentinel(m)
    else if -TWO_63 <= x.r.Floor < 0 then HashNegative(m, x.r.Floor)
    else if 0 <= x.r.Floor < TWO_64 then HashNonNegative(m, x.r.Floor)
    else HashSentinel(m)
  }

  lemma FloorOfInteger(i: int)
    ensures (i as real).Floor == i && IsIntegral(i as real)
  {
  }

  lemma HashDoubleCanonical(m: Mixer, d: Double)
    ensures HashDouble(m, d) == HashOfNumber(m, d)
  {
    if d.Finite? && -(TWO_63 as real) <= d.r < TWO_64 as real {
      CastRoundTrip(d);
      if IsIntegral(d.r) {
        FloorOfInteger(Truncate(d.r));
      }
    }
  }

  lemma HashDependsOnNumber(m: Mixer, v: Value)
    requires IsNumeric(v)
    ensures MapKeyHash(m, v) == HashOfNumber(m, NumberOf(v))
  {
    match v
    case Int(i) => FloorOfInteger(i);
    case Uint(u) => FloorOfInteger(u);
    case Dbl(d) => HashDoubleCanonical(m, d);
  }

  /** Keys that compare equal hash alike, for every mixer: a probe can never miss for the hash's sake. */
  lemma EqualKeysHashAlike(m: Mixer, a: Value, b: Value)
    requires MapKeyEq(a, b)
    ensures MapKeyHash(m, a) == MapKeyHash(m, b)
  {
    MapKeyEqIsIdentity(a, b);
    if IsNumeric(a) {
      HashDependsOnNumber(m, a);
      HashDependsOnNumber(m, b);
    }
  }
}
