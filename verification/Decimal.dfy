/** Decimal text of 64-bit integers: the parsers and printers of runtime/cel_convert.c. */
module Decimal {
  import opened Machine
  import opened Values

  const ZERO: Byte := 48
  const PLUS: Byte := 43
  const MINUS: Byte := 45

  predicate IsDigit(b: Byte) {
    48 <= b <= 57
  }

  predicate AllDigits(s: seq<Byte>) {
    forall k :: 0 <= k < |s| ==> IsDigit(s[k])
  }

  /** The number a run of digits denotes. */
  function Positional(s: seq<Byte>): nat
    requires AllDigits(s)
  {
    if |s| == 0 then 0 else Positional(s[..|s| - 1]) * 10 + (s[|s| - 1] as int - 48)
  }

  lemma {:induction false} PositionalGrows(s: seq<Byte>, n: nat)
    requires AllDigits(s) && n <= |s|
    ensures Positional(s[..n]) <= Positional(s)
  {
    if n < |s| {
      assert s[..|s| - 1][..n] == s[..n];
      PositionalGrows(s[..|s| - 1], n);
    } else {
      assert s[..n] == s;
    }
  }

  /** The number denoted by the digits of p from start on, when they are digits and it fits 64 bits. */
  function Accumulated(p: seq<Byte>, start: nat): Option<UInt64>
    requires start <= |p|
  {
    if AllDigits(p[start..]) && Positional(p[start..]) <= UINT64_MAX then Some(Positional(p[start..])) else None
  }

  lemma NotAccumulated(p: seq<Byte>, start: nat, i: nat)
    requires start <= i <= |p| && AllDigits(p[start..i]) && Positional(p[start..i]) > UINT64_MAX
    ensures Accumulated(p, start) == None
  {
    if AllDigits(p[start..]) {
      PositionalGrows(p[start..], i - start);
      assert p[start..][..i - start] == p[start..i];
    }
  }

  lemma PositionalStep(p: seq<Byte>, start: nat, i: nat)
    requires start <= i < |p| && AllDigits(p[start..i]) && IsDigit(p[i])
    ensures AllDigits(p[start..i + 1])
    ensures Positional(p[start..i + 1]) == Positional(p[start..i]) * 10 + (p[i] as int - 48)
  {
    var s := p[start..i + 1];
    assert s[..|s| - 1] == p[start..i];
    forall k | 0 <= k < |s| ensures IsDigit(s[k]) {
      if k < |s| - 1 { assert s[k] == p[start..i][k]; }
    }
  }

  lemma NoDigits()
    ensures Positional([]) == 0
  {
  }

  method AccumulateDecimal(p: seq<Byte>, start: nat) returns (r: Option<UInt64>)
    requires start <= |p|
    ensures r == Accumulated(p, start)
  {
    hide Positional;
    var acc: int := 0;
    var i := start;
    NoDigits();
    assert p[start..start] == [];
    while i < |p|
      invariant start <= i <= |p| && AllDigits(p[start..i]) && acc == Positional(p[start..i])
      invariant 0 <= acc <= UINT64_MAX
    {
      if p[i] < 48 || p[i] > 57 {
        assert p[start..][i - start] == p[i];
        return None;
      }
      var d: int := p[i] as int - 48;
      PositionalStep(p, start, i);
      if acc > UINT64_MAX / 10 {
        NotAccumulated(p, start, i + 1);
        return None;
      }
      acc := acc * 10;
      if acc > UINT64_MAX - d {
        NotAccumulated(p, start, i + 1);
        return None;
      }
      acc := acc + d;
      i := i + 1;
    }
    assert p[start..i] == p[start..];
    r := Some(acc);
  }

  // ---- parsing ----

  function SignLength(p: seq<Byte>, signs: set<Byte>): (n: nat)
    ensures n <= |p|
  {
    if |p| > 0 && p[0] in signs then 1 else 0
  }

  /** An optional sign and at least one digit, nothing else. */
  predicate IsNumeral(p: seq<Byte>, signs: set<Byte>) {
    SignLength(p, signs) < |p| && AllDigits(p[SignLength(p, signs)..])
  }

  /** The integer a numeral denotes. */
  function Denoted(p: seq<Byte>, signs: set<Byte>): int
    requires IsNumeral(p, signs)
  {
    var n: int := Positional(p[SignLength(p, signs)..]);
    if p[0] == MINUS then -n else n
  }

  function ApplySign(acc: UInt64, neg: bool): Option<Int64> {
    if neg then
      if acc > INT64_MAX + 1 then None else if acc == INT64_MAX + 1 then Some(INT64_MIN) else Some(-(acc as int))
    else if acc > INT64_MAX then None
    else Some(acc)
  }

  /** Accepts exactly the numerals with an optional sign whose value fits int64, and returns it. */
  method ParseInt64(p: seq<Byte>) returns (r: Option<Int64>)
    ensures r.Some? <==> IsNumeral(p, {PLUS, MINUS}) && INT64_MIN <= Denoted(p, {PLUS, MINUS}) <= INT64_MAX
    ensures r.Some? ==> r.value == Denoted(p, {PLUS, MINUS})
  {
    hide Positional;
    if |p| == 0 {
      return None;
    }
    var neg := false;
    var i: nat := 0;
    if p[i] == MINUS {
      neg := true;
      i := i + 1;
    } else if p[i] == PLUS {
      i := i + 1;
    }
    if i == |p| {
      return None;
    }
    var acc := AccumulateDecimal(p, i);
    if acc.None? {
      return None;
    }
    r := ApplySign(acc.value, neg);
  }

  /** The unsigned parser takes a plus sign but no minus sign. */
  method ParseUint64(p: seq<Byte>) returns (r: Option<UInt64>)
    ensures r.Some? <==> IsNumeral(p, {PLUS}) && Denoted(p, {PLUS}) <= UINT64_MAX
    ensures r.Some? ==> r.value == Denoted(p, {PLUS})
  {
    hide Positional;
    if |p| == 0 {
      return None;
    }
    var i: nat := 0;
    if p[i] == PLUS {
      i := i + 1;
    }
    if i == |p| {
      return None;
    }
    r := AccumulateDecimal(p, i);
  }

  // ---- what numerals denote ----

  /** The characters behind the byte values, and what one digit counts. */
  lemma Characters(b: Byte)
    ensures PLUS == '+' as int && MINUS == '-' as int && ZERO == '0' as int
    ensures IsDigit(b) <==> '0' as int <= b <= '9' as int
    ensures IsDigit(b) ==> Positional([b]) == b - '0' as int
  {
    assert [b][..0] == [];
  }

  /** v times ten to the n. */
  function Shifted(v: nat, n: nat): nat {
    if n == 0 then v else 10 * Shifted(v, n - 1)
  }

  /** Digits count tens of what stands in front of them: the value of a run made of two. */
  lemma {:induction false} PositionalConcat(s: seq<Byte>, t: seq<Byte>)
    requires AllDigits(s) && AllDigits(t)
    ensures AllDigits(s + t)
    ensures Positional(s + t) == Shifted(Positional(s), |t|) + Positional(t)
  {
    if t == [] {
      assert s + t == s;
    } else {
      var front := t[..|t| - 1];
      PositionalConcat(s, front);
      assert (s + t)[..|s + t| - 1] == s + front;
    }
  }

  /** A numeral is a run of digits, leading zeros or not, behind nothing, a plus or a minus: that number,
      that number, and its negation. */
  lemma NumeralsDenote(d: seq<Byte>)
    requires d != [] && AllDigits(d)
    ensures IsNumeral(d, {PLUS, MINUS}) && Denoted(d, {PLUS, MINUS}) == Positional(d)
    ensures IsNumeral([PLUS] + d, {PLUS, MINUS}) && Denoted([PLUS] + d, {PLUS, MINUS}) == Positional(d)
    ensures IsNumeral([MINUS] + d, {PLUS, MINUS}) && Denoted([MINUS] + d, {PLUS, MINUS}) == -(Positional(d) as int)
    ensures IsNumeral(d, {PLUS}) && Denoted(d, {PLUS}) == Positional(d)
    ensures IsNumeral([PLUS] + d, {PLUS}) && Denoted([PLUS] + d, {PLUS}) == Positional(d)
    ensures !IsNumeral([MINUS] + d, {PLUS})
  {
    hide Positional;
    assert IsDigit(d[0]) && d[0..] == d;
    assert ([PLUS] + d)[1..] == d && ([MINUS] + d)[1..] == d;
    assert ([MINUS] + d)[0..][0] == MINUS;
  }

  /** And there are no others. */
  lemma NumeralShape(p: seq<Byte>) returns (d: seq<Byte>)
    requires IsNumeral(p, {PLUS, MINUS})
    ensures d != [] && AllDigits(d) && (p == d || p == [PLUS] + d || p == [MINUS] + d)
  {
    d := p[SignLength(p, {PLUS, MINUS})..];
    assert p == p[..SignLength(p, {PLUS, MINUS})] + d;
  }

  lemma {:induction false} ZeroShifted(n: nat)
    ensures Shifted(0, n) == 0
  {
    if n > 0 {
      ZeroShifted(n - 1);
    }
  }

  lemma {:induction false} LeadingZeros(d: seq<Byte>, n: nat)
    requires AllDigits(d)
    ensures var z := seq(n, i => ZERO); AllDigits(z + d) && Positional(z + d) == Positional(d)
    decreases n
  {
    var z := seq(n, i => ZERO);
    PositionalConcat(z, d);
    if n > 0 {
      LeadingZeros([], n - 1);
      assert z[..n - 1] == seq(n - 1, i => ZERO);
      assert z[..n - 1] + [] == z[..n - 1];
    }
    ZeroShifted(|d|);
  }

  // ---- printing ----

  function DigitByte(d: nat): Byte
    requires d < 10
  {
    48 + d
  }

  /** The digits of v, most significant first, without leading zeros. */
  function Digits(v: nat): (s: seq<Byte>)
    ensures |s| > 0
  {
    if v < 10 then [DigitByte(v)] else Digits(v / 10) + [DigitByte(v % 10)]
  }

  function IntText(v: int): seq<Byte> {
    if v >= 0 then Digits(v) else [MINUS] + Digits(-v)
  }

  function Pow10(n: nat): nat {
    if n == 0 then 1 else 10 * Pow10(n - 1)
  }

  lemma {:induction false} DigitsShort(v: nat, n: nat)
    requires 0 < n && v < Pow10(n)
    ensures |Digits(v)| <= n
  {
    if v >= 10 {
      DigitsShort(v / 10, n - 1);
    }
  }

  /** Twenty digits are enough for any 64-bit number. */
  lemma TwentyDigits(v: UInt64)
    ensures |Digits(v)| <= 20
  {
    assert Pow10(4) == 1_0000;
    assert Pow10(8) == 1_0000 * Pow10(4);
    assert Pow10(12) == 1_0000 * Pow10(8);
    assert Pow10(16) == 1_0000 * Pow10(12);
    assert Pow10(20) == 1_0000 * Pow10(16);
    DigitsShort(v, 20);
  }

  /** s with the bytes from `at` on overwritten. */
  function Splice(s: seq<Byte>, at: nat, text: seq<Byte>): (r: seq<Byte>)
    requires at + |text| <= |s|
    ensures |r| == |s|
  {
    s[..at] + text + s[at + |text|..]
  }

  lemma SpliceTwice(s: seq<Byte>, at: nat, head: Byte, tail: seq<Byte>)
    requires at + 1 + |tail| <= |s|
    ensures Splice(Splice(s, at, [head]), at + 1, tail) == Splice(s, at, [head] + tail)
  {
  }

  lemma DigitsStep(v: nat)
    ensures v < 10 ==> Digits(v) == [DigitByte(v)]
    ensures v >= 10 ==> Digits(v) == Digits(v / 10) + [DigitByte(v % 10)]
  {
  }

  method WriteUintDecimal(dst: array<Byte>, at: nat, v: UInt64) returns (n: nat)
    requires at + |Digits(v)| <= dst.Length
    modifies dst
    ensures n == |Digits(v)|
    ensures dst[..] == Splice(old(dst[..]), at, Digits(v))
  {
    hide Digits;
    DigitsStep(v);
    if v == 0 {
      dst[at] := ZERO;
      return 1;
    }
    TwentyDigits(v);
    var buf := new Byte[20];
    ghost var text := Digits(v);
    var rest: nat := v;
    n := 0;
    assert text[..|text|] == text;
    while rest > 0
      invariant 0 <= n <= |text|
      invariant if rest > 0 then n < |text| && Digits(rest) == text[..|text| - n] else n == |text|
      invariant forall k :: 0 <= k < n ==> buf[k] == text[|text| - 1 - k]
      invariant dst[..] == old(dst[..])
    {
      DigitsStep(rest);
      assert Digits(rest)[|text| - n - 1] == text[|text| - n - 1];
      buf[n] := DigitByte(rest % 10);
      assert rest >= 10 ==> Digits(rest)[..|text| - n - 1] == text[..|text| - n - 1];
      n := n + 1;
      rest := rest / 10;
    }
    var i: nat := 0;
    while i < n
      invariant 0 <= i <= n
      invariant forall k :: 0 <= k < n ==> buf[k] == text[n - 1 - k]
      invariant forall k :: 0 <= k < dst.Length ==>
        dst[k] == if at <= k < at + i then text[k - at] else old(dst[k])
    {
      dst[at + i] := buf[n - 1 - i];
      i := i + 1;
    }
  }

  method WriteByte(dst: array<Byte>, at: nat, b: Byte)
    requires at < dst.Length
    modifies dst
    ensures dst[..] == Splice(old(dst[..]), at, [b])
  {
    dst[at] := b;
  }

  method WriteIntDecimal(dst: array<Byte>, at: nat, v: Int64) returns (n: nat)
    requires at + |IntText(v)| <= dst.Length
    modifies dst
    ensures n == |IntText(v)|
    ensures dst[..] == Splice(old(dst[..]), at, IntText(v))
  {
    hide Digits, Splice;
    if v >= 0 {
      n := WriteUintDecimal(dst, at, v);
      return;
    }
    WriteByte(dst, at, MINUS);
    var magnitude: UInt64 := if v == INT64_MIN then INT64_MAX + 1 else -v;
    var m := WriteUintDecimal(dst, at + 1, magnitude);
    n := 1 + m;
    SpliceTwice(old(dst[..]), at, MINUS, Digits(magnitude));
  }

  // ---- the conversion kernels ----

  method StringToInt(a: Value) returns (out: Value)
    ensures Absorbed(a) ==> out == a
    ensures !Absorbed(a) && !a.Str? ==> out == Error(ERR_TYPE_MISMATCH)
    ensures a.Str? ==> (out.Int? || out == Error(ERR_OVERFLOW))
    ensures a.Str? ==> forall v: Int64 :: out == Int(v) <==>
      IsNumeral(a.text, {PLUS, MINUS}) && Denoted(a.text, {PLUS, MINUS}) == v
  {
    if Absorbed(a) {
      return a;
    }
    if !a.Str? {
      return Error(ERR_TYPE_MISMATCH);
    }
    var v := ParseInt64(a.text);
    out := if v.None? then Error(ERR_OVERFLOW) else Int(v.value);
  }

  method IntToString(a: Value, granted: bool) returns (out: Value)
    ensures Absorbed(a) ==> out == a
    ensures !Absorbed(a) && !a.Int? ==> out == Error(ERR_TYPE_MISMATCH)
    ensures a.Int? ==> out == if granted then Str(IntText(a.i)) else Error(ERR_OVERFLOW)
  {
    hide Digits;
    if Absorbed(a) {
      return a;
    }
    if !a.Int? {
      return Error(ERR_TYPE_MISMATCH);
    }
    TwentyDigits(if a.i < 0 then -(a.i as int) else a.i);
    var buf := new Byte[21];
    var n := WriteIntDecimal(buf, 0, a.i);
    assert buf[..n] == IntText(a.i);
    out := if granted then Str(buf[..n]) else Error(ERR_OVERFLOW);
  }

  // ---- round trips ----

  lemma {:induction false} DigitsRoundTrip(v: nat)
    ensures AllDigits(Digits(v)) && Positional(Digits(v)) == v
    ensures Digits(v)[0] == ZERO ==> v == 0
  {
    var s := Digits(v);
    if v >= 10 {
      DigitsRoundTrip(v / 10);
      assert s[..|s| - 1] == Digits(v / 10);
    } else {
      assert s[..0] == [];
    }
  }

  /** No leading zero in front of other digits. */
  predicate Minimal(s: seq<Byte>) {
    |s| > 0 && (s[0] == ZERO ==> |s| == 1)
  }

  lemma {:induction false} MinimalIsPrinted(s: seq<Byte>)
    requires AllDigits(s) && Minimal(s)
    ensures Digits(Positional(s)) == s
    ensures |s| > 1 ==> Positional(s) >= 10
  {
    var h := s[..|s| - 1];
    assert s == h + [s[|s| - 1]];
    if |s| > 1 {
      MinimalIsPrinted(h);
      if |h| == 1 {
        assert h[..0] == [];
      }
    } else {
      assert h == [];
    }
  }

  /** Reading back what was printed gives the number, for every int64 and every uint64. */
  lemma PrintThenParse(v: int)
    ensures IsNumeral(IntText(v), {PLUS, MINUS}) && Denoted(IntText(v), {PLUS, MINUS}) == v
    ensures v >= 0 ==> IsNumeral(IntText(v), {PLUS}) && Denoted(IntText(v), {PLUS}) == v
  {
    hide Digits, Positional;
    var d := Digits(if v < 0 then -v else v);
    DigitsRoundTrip(if v < 0 then -v else v);
    assert IsDigit(d[0]);
    assert v < 0 ==> IntText(v)[1..] == d;
    assert v >= 0 ==> IntText(v)[0..] == d;
  }

  /** Printing back what was read gives the text exactly when the numeral has no plus sign, no leading
      zero and is not a negative zero. */
  lemma ParseThenPrint(p: seq<Byte>)
    requires IsNumeral(p, {PLUS, MINUS})
    ensures IntText(Denoted(p, {PLUS, MINUS})) == p <==>
      p[0] != PLUS && Minimal(p[SignLength(p, {PLUS, MINUS})..]) && p != [MINUS, ZERO]
  {
    hide Digits, Positional;
    var n := SignLength(p, {PLUS, MINUS});
    var d := p[n..];
    var v := Denoted(p, {PLUS, MINUS});
    var m := Positional(d);
    DigitsRoundTrip(m);
    DigitsStep(m);
    assert p == p[..n] + d;
    if p[0] != PLUS && Minimal(d) && p != [MINUS, ZERO] {
      MinimalIsPrinted(d);
      if m == 0 {
        assert d == [ZERO];
        assert n == 0;
      }
    }
    if IntText(v) == p {
      PrintThenParse(v);
      assert IsDigit(Digits(m)[0]);
      if v >= 0 {
        assert p == Digits(m);
      } else {
        assert p[1..] == Digits(m);
      }
    }
  }
}
