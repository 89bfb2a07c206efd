/** UTF-8 (section 4 of RFC 3629): the encoding of Unicode scalar values, and the byte-wise validator. */
module Utf8 {
  import opened Machine

  predicate IsScalar(cp: int) {
    0 <= cp <= 0x10_FFFF && !(0xD800 <= cp <= 0xDFFF)
  }

  type Scalar = cp: int | 0 <= cp <= 0x10_FFFF && !(0xD800 <= cp <= 0xDFFF)

  /** The continuation byte that carries the low six bits of x. */
  function Trailing(x: nat): (b: Byte) {
    0x80 + x % 0x40
  }

  function Encode(cp: Scalar): (e: seq<Byte>)
    ensures 1 <= |e| <= 4
  {
    if cp < 0x80 then
      var lead: Byte := cp;
      [lead]
    else if cp < 0x800 then
      var lead: Byte := 0xC0 + cp / 0x40;
      [lead, Trailing(cp)]
    else if cp < 0x1_0000 then
      var lead: Byte := 0xE0 + cp / 0x1000;
      [lead, Trailing(cp / 0x40), Trailing(cp)]
    else
      var lead: Byte := 0xF0 + cp / 0x4_0000;
      [lead, Trailing(cp / 0x1000), Trailing(cp / 0x40), Trailing(cp)]
  }

  function EncodeAll(cps: seq<Scalar>): seq<Byte> {
    if |cps| == 0 then [] else Encode(cps[0]) + EncodeAll(cps[1..])
  }

  /** `(b & 0xC0) == 0x80` */
  predicate IsContinuation(b: Byte) {
    b / 0x40 == 2
  }

  // ---- the validator ----

  predicate TwoByteValid(p: seq<Byte>, i: nat)
    requires i < |p|
  {
    i + 1 < |p| && IsContinuation(p[i + 1])
  }

  predicate ThreeByteValid(p: seq<Byte>, i: nat)
    requires i < |p|
  {
    && i + 2 < |p|
    && IsContinuation(p[i + 1]) && IsContinuation(p[i + 2])
    && !(p[i] == 0xE0 && p[i + 1] < 0xA0)
    && !(p[i] == 0xED && p[i + 1] >= 0xA0)
  }

  predicate FourByteValid(p: seq<Byte>, i: nat)
    requires i < |p|
  {
    && i + 3 < |p|
    && IsContinuation(p[i + 1]) && IsContinuation(p[i + 2]) && IsContinuation(p[i + 3])
    && !(p[i] == 0xF0 && p[i + 1] < 0x90)
    && !(p[i] == 0xF4 && p[i + 1] >= 0x90)
  }

  /** Length of the sequence accepted at i, or 0. */
  function UnitAt(p: seq<Byte>, i: nat): (n: nat)
    requires i < |p|
    ensures i + n <= |p|
  {
    var b := p[i];
    if b < 0x80 then 1
    else if b < 0xC2 then 0
    else if b < 0xE0 then if TwoByteValid(p, i) then 2 else 0
    else if b < 0xF0 then if ThreeByteValid(p, i) then 3 else 0
    else if b < 0xF5 then if FourByteValid(p, i) then 4 else 0
    else 0
  }

  predicate ValidFrom(p: seq<Byte>, i: nat)
    requires i <= |p|
    decreases |p| - i
  {
    i == |p| || (UnitAt(p, i) > 0 && ValidFrom(p, i + UnitAt(p, i)))
  }

  function Two(b0: Byte, b1: Byte): int {
    (b0 - 0xC0) * 0x40 + (b1 - 0x80)
  }

  function Three(b0: Byte, b1: Byte, b2: Byte): int {
    ((b0 - 0xE0) * 0x40 + (b1 - 0x80)) * 0x40 + (b2 - 0x80)
  }

  function Four(b0: Byte, b1: Byte, b2: Byte, b3: Byte): int {
    (((b0 - 0xF0) * 0x40 + (b1 - 0x80)) * 0x40 + (b2 - 0x80)) * 0x40 + (b3 - 0x80)
  }

  /** The number that an accepted sequence stands for. */
  function ScalarAt(p: seq<Byte>, i: nat): int
    requires i < |p| && UnitAt(p, i) > 0
  {
    if p[i] < 0x80 then p[i]
    else if p[i] < 0xE0 then Two(p[i], p[i + 1])
    else if p[i] < 0xF0 then Three(p[i], p[i + 1], p[i + 2])
    else Four(p[i], p[i + 1], p[i + 2], p[i + 3])
  }

  lemma SixBits(hi: int, lo: int)
    requires 0 <= lo < 0x40
    ensures (hi * 0x40 + lo) / 0x40 == hi && (hi * 0x40 + lo) % 0x40 == lo
  {
  }

  lemma Shifts(x: nat)
    ensures x / 0x1000 == x / 0x40 / 0x40 && x / 0x4_0000 == x / 0x40 / 0x40 / 0x40
  {
  }

  lemma TwoEncodes(b0: Byte, b1: Byte)
    requires 0xC2 <= b0 < 0xE0 && IsContinuation(b1)
    ensures IsScalar(Two(b0, b1)) && Encode(Two(b0, b1)) == [b0, b1]
  {
    SixBits(b0 - 0xC0, b1 - 0x80);
  }

  lemma ThreeEncodes(b0: Byte, b1: Byte, b2: Byte)
    requires 0xE0 <= b0 < 0xF0 && IsContinuation(b1) && IsContinuation(b2)
    requires !(b0 == 0xE0 && b1 < 0xA0) && !(b0 == 0xED && b1 >= 0xA0)
    ensures IsScalar(Three(b0, b1, b2)) && Encode(Three(b0, b1, b2)) == [b0, b1, b2]
  {
    var cp := Three(b0, b1, b2);
    SixBits(b0 - 0xE0, b1 - 0x80);
    SixBits((b0 - 0xE0) * 0x40 + (b1 - 0x80), b2 - 0x80);
    Shifts(cp);
  }

  lemma FourEncodes(b0: Byte, b1: Byte, b2: Byte, b3: Byte)
    requires 0xF0 <= b0 < 0xF5 && IsContinuation(b1) && IsContinuation(b2) && IsContinuation(b3)
    requires !(b0 == 0xF0 && b1 < 0x90) && !(b0 == 0xF4 && b1 >= 0x90)
    ensures IsScalar(Four(b0, b1, b2, b3)) && Encode(Four(b0, b1, b2, b3)) == [b0, b1, b2, b3]
  {
    var cp := Four(b0, b1, b2, b3);
    SixBits(b0 - 0xF0, b1 - 0x80);
    SixBits((b0 - 0xF0) * 0x40 + (b1 - 0x80), b2 - 0x80);
    SixBits(((b0 - 0xF0) * 0x40 + (b1 - 0x80)) * 0x40 + (b2 - 0x80), b3 - 0x80);
    Shifts(cp);
  }

  lemma OneByte(b: Byte)
    requires b < 0x80
    ensures IsScalar(b) && Encode(b) == [b]
  {
  }

  /** Whatever is accepted is the encoding of a scalar value: no overlong form, no surrogate, nothing
      above U+10FFFF. */
  lemma UnitSound(p: seq<Byte>, i: nat)
    requires i < |p| && UnitAt(p, i) > 0
    ensures IsScalar(ScalarAt(p, i)) && p[i..i + UnitAt(p, i)] == Encode(ScalarAt(p, i))
  {
    hide IsScalar, IsContinuation, Two, Three, Four, Encode;
    if p[i] < 0x80 {
      OneByte(p[i]);
    } else if p[i] < 0xE0 {
      TwoEncodes(p[i], p[i + 1]);
    } else if p[i] < 0xF0 {
      ThreeEncodes(p[i], p[i + 1], p[i + 2]);
    } else {
      FourEncodes(p[i], p[i + 1], p[i + 2], p[i + 3]);
    }
  }

  lemma ShapeOfEncoding(cp: Scalar)
    ensures var e := Encode(cp); |e| == 1 ==> e[0] == cp < 0x80
    ensures var e := Encode(cp); |e| == 2 ==> 0xC2 <= e[0] < 0xE0 && Two(e[0], e[1]) == cp
    ensures var e := Encode(cp); |e| == 3 ==> 0xE0 <= e[0] < 0xF0 && Three(e[0], e[1], e[2]) == cp
    ensures var e := Encode(cp); |e| == 3 ==> !(e[0] == 0xE0 && e[1] < 0xA0) && !(e[0] == 0xED && e[1] >= 0xA0)
    ensures var e := Encode(cp); |e| == 4 ==> 0xF0 <= e[0] < 0xF5 && Four(e[0], e[1], e[2], e[3]) == cp
    ensures var e := Encode(cp); |e| == 4 ==> !(e[0] == 0xF0 && e[1] < 0x90) && !(e[0] == 0xF4 && e[1] >= 0x90)
  {
    Shifts(cp);
  }

  /** An encoding starts with a non-continuation byte and goes on with continuation bytes. */
  lemma EncodeShape(cp: Scalar)
    ensures !IsContinuation(Encode(cp)[0])
    ensures forall k :: 1 <= k < |Encode(cp)| ==> IsContinuation(Encode(cp)[k])
  {
  }

  /** And every encoding is accepted whole. */
  lemma UnitComplete(p: seq<Byte>, i: nat, cp: Scalar)
    requires i + |Encode(cp)| <= |p| && p[i..i + |Encode(cp)|] == Encode(cp)
    ensures UnitAt(p, i) == |Encode(cp)| && ScalarAt(p, i) == cp
  {
    hide IsScalar, IsContinuation, Two, Three, Four, Encode;
    ShapeOfEncoding(cp);
    EncodeShape(cp);
    forall k | 0 <= k < |Encode(cp)| ensures p[i + k] == Encode(cp)[k] {
      assert p[i..i + |Encode(cp)|][k] == Encode(cp)[k];
    }
    var e := Encode(cp);
    assert p[i] == e[0];
    assert |e| > 1 ==> p[i + 1] == e[1];
    assert |e| > 2 ==> p[i + 2] == e[2];
    assert |e| > 3 ==> p[i + 3] == e[3];
  }

  lemma {:induction false} ValidSound(p: seq<Byte>, i: nat) returns (cps: seq<Scalar>)
    requires i <= |p| && ValidFrom(p, i)
    ensures EncodeAll(cps) == p[i..]
    decreases |p| - i
  {
    hide UnitAt, ScalarAt, Encode;
    if i == |p| {
      cps := [];
    } else {
      UnitSound(p, i);
      var rest := ValidSound(p, i + UnitAt(p, i));
      cps := [ScalarAt(p, i)] + rest;
      assert p[i..] == p[i..i + UnitAt(p, i)] + p[i + UnitAt(p, i)..];
    }
  }

  lemma {:induction false} ValidComplete(p: seq<Byte>, i: nat, cps: seq<Scalar>)
    requires i <= |p| && p[i..] == EncodeAll(cps)
    ensures ValidFrom(p, i)
    decreases |cps|
  {
    if |cps| > 0 {
      var e := Encode(cps[0]);
      assert p[i..i + |e|] == p[i..][..|e|] == e;
      UnitComplete(p, i, cps[0]);
      assert p[i + |e|..] == p[i..][|e|..] == EncodeAll(cps[1..]);
      ValidComplete(p, i + |e|, cps[1..]);
    }
  }

  /** The validator accepts exactly the encodings of sequences of scalar values. */
  lemma ValidIffEncoded(p: seq<Byte>)
    ensures ValidFrom(p, 0) <==> exists cps: seq<Scalar> :: EncodeAll(cps) == p
  {
    if ValidFrom(p, 0) {
      var cps := ValidSound(p, 0);
    }
    if cps: seq<Scalar> :| EncodeAll(cps) == p {
      ValidComplete(p, 0, cps);
    }
  }

  method Utf8Valid(p: seq<Byte>) returns (ok: bool)
    ensures ok <==> exists cps: seq<Scalar> :: EncodeAll(cps) == p
  {
    ValidIffEncoded(p);
    var i: nat := 0;
    while i < |p|
      invariant i <= |p| && (ValidFrom(p, i) <==> ValidFrom(p, 0))
    {
      var b := p[i];
      if b < 0x80 {
        i := i + 1;
        continue;
      }
      if b < 0xC2 {
        return false;
      }
      if b < 0xE0 {
        if !TwoByteValid(p, i) {
          return false;
        }
        i := i + 2;
        continue;
      }
      if b < 0xF0 {
        if !ThreeByteValid(p, i) {
          return false;
        }
        i := i + 3;
        continue;
      }
      if b < 0xF5 {
        if !FourByteValid(p, i) {
          return false;
        }
        i := i + 4;
        continue;
      }
      return false;
    }
    ok := true;
  }

  /** The examples of section 7 of RFC 3629, and the forms its section 3 forbids. */
  lemma Examples()
    ensures Encode(0x41) == [0x41] && Encode(0x2262) == [0xE2, 0x89, 0xA2] && Encode(0x391) == [0xCE, 0x91]
    ensures Encode(0xD55C) == [0xED, 0x95, 0x9C] && Encode(0x233B4) == [0xF0, 0xA3, 0x8E, 0xB4]
    ensures !ValidFrom([0xC0, 0x80], 0) && !ValidFrom([0xED, 0xA1, 0x8C], 0) && !ValidFrom([0xF4, 0x90, 0x80, 0x80], 0)
  {
  }
}
