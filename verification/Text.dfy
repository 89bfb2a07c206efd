/** Code-point walks over byte strings (runtime/cel_string_ext_internal.h) and the charAt, trim and
    reverse operations built on them (runtime/cel_string_ext_codepoint.cc). Strings are byte
    sequences that need not be valid UTF-8. */
module Text {
  import opened Machine
  import opened Values
  import opened Utf8

  // ---- the forward walk ----

  datatype Decoded = Decoded(cp: nat, units: nat)

  /** Sequence length announced by a lead byte; 1 for every other byte. */
  function Expected(b: Byte): (n: nat)
    ensures 1 <= n <= 4
  {
    if b / 0x20 == 6 then 2 else if b / 0x10 == 14 then 3 else if b / 8 == 30 then 4 else 1
  }

  /** 2^(data bits of the lead byte). */
  function LeadRange(b: Byte): (n: nat)
    ensures n > 0
  {
    if b < 0x80 then 0x80
    else if b / 0x20 == 6 then 0x20
    else if b / 0x10 == 14 then 0x10
    else if b / 8 == 30 then 8
    else 0x100
  }

  predicate Trailed(s: seq<Byte>, n: nat) {
    n <= |s| && forall k :: 1 <= k < n ==> IsContinuation(s[k])
  }

  /** The bits gathered from the first n bytes. */
  function Bits(s: seq<Byte>, n: nat): nat
    requires 1 <= n <= |s|
  {
    if n == 1 then s[0] % LeadRange(s[0]) else Bits(s, n - 1) * 0x40 + s[n - 1] % 0x40
  }

  function Decode(s: seq<Byte>): (d: Decoded)
    requires |s| > 0
    ensures 1 <= d.units <= |s|
  {
    var n := Expected(s[0]);
    if Trailed(s, n) then Decoded(Bits(s, n), n) else Decoded(s[0], 1)
  }

  method Utf8DecodeMulti(s: seq<Byte>, p: nat, expected: nat, leadRange: nat) returns (d: Decoded)
    requires p < |s| && expected == Expected(s[p]) > 1 && leadRange == LeadRange(s[p])
    ensures d == Decode(s[p..])
  {
    ghost var t := s[p..];
    assert t[0] == s[p];
    if p + expected > |s| {
      return Decoded(s[p], 1);
    }
    var acc: nat := s[p] % leadRange;
    var k: nat := 1;
    while k < expected
      invariant 1 <= k <= expected && acc == Bits(t, k)
      invariant forall j :: 1 <= j < k ==> IsContinuation(t[j])
    {
      assert t[k] == s[p + k];
      if !IsContinuation(s[p + k]) {
        return Decoded(s[p], 1);
      }
      acc := acc * 0x40 + s[p + k] % 0x40;
      k := k + 1;
    }
    d := Decoded(acc, expected);
  }

  method Utf8Decode(s: seq<Byte>, p: nat) returns (d: Decoded)
    requires p < |s|
    ensures d == Decode(s[p..])
  {
    var b0 := s[p];
    if b0 < 0x80 {
      return Decoded(b0, 1);
    }
    if b0 / 0x20 == 6 {
      d := Utf8DecodeMulti(s, p, 2, 0x20);
    } else if b0 / 0x10 == 14 {
      d := Utf8DecodeMulti(s, p, 3, 0x10);
    } else if b0 / 8 == 30 {
      d := Utf8DecodeMulti(s, p, 4, 8);
    } else {
      d := Decoded(b0, 1);
    }
  }

  /** The continuation bytes 1 to n - 1 are there, by value. */
  predicate Continued(s: seq<Byte>, n: nat) {
    n <= |s| && forall k :: 1 <= k < n ==> 0x80 <= s[k] <= 0xBF
  }

  lemma BitsStart(s: seq<Byte>)
    requires |s| > 0
    ensures Bits(s, 1) == s[0] % LeadRange(s[0])
  {
  }

  /** Which bytes make a unit: a lead with its continuation bytes; every other byte stands for itself. */
  lemma DecodeUnits(s: seq<Byte>)
    requires |s| > 0
    ensures Decode(s).units == 2 <==> 0xC0 <= s[0] <= 0xDF && Continued(s, 2)
    ensures Decode(s).units == 3 <==> 0xE0 <= s[0] <= 0xEF && Continued(s, 3)
    ensures Decode(s).units == 4 <==> 0xF0 <= s[0] <= 0xF7 && Continued(s, 4)
    ensures Decode(s).units == 1 ==> Decode(s).cp == s[0]
    ensures Decode(s).units <= 4
  {
    hide Bits;
    BitsStart(s);
  }

  lemma BitsStep(s: seq<Byte>, n: nat)
    requires 1 < n <= |s| && IsContinuation(s[n - 1])
    ensures Bits(s, n) == Bits(s, n - 1) * 0x40 + (s[n - 1] as int - 0x80)
  {
  }

  /** And what the unit denotes, overlong or not. */
  lemma DecodePoints(s: seq<Byte>)
    requires |s| > 0
    ensures Decode(s).units == 2 ==> Decode(s).cp == (s[0] as int - 0xC0) * 0x40 + (s[1] as int - 0x80)
    ensures Decode(s).units == 3 ==>
      Decode(s).cp == ((s[0] as int - 0xE0) * 0x40 + (s[1] as int - 0x80)) * 0x40 + (s[2] as int - 0x80)
    ensures Decode(s).units == 4 ==>
      Decode(s).cp ==
      (((s[0] as int - 0xF0) * 0x40 + (s[1] as int - 0x80)) * 0x40 + (s[2] as int - 0x80)) * 0x40 + (s[3] as int - 0x80)
  {
    DecodeUnits(s);
    BitsStart(s);
    hide Bits;
    if Decode(s).units > 1 { BitsStep(s, 2); }
    if Decode(s).units > 2 { BitsStep(s, 3); }
    if Decode(s).units > 3 { BitsStep(s, 4); }
  }

  /** The byte runs that successive decodes consume. */
  function Pieces(s: seq<Byte>): seq<seq<Byte>> {
    if |s| == 0 then [] else [s[..Decode(s).units]] + Pieces(s[Decode(s).units..])
  }

  function Concat(ps: seq<seq<Byte>>): seq<Byte> {
    if |ps| == 0 then [] else ps[0] + Concat(ps[1..])
  }

  lemma BitsPrefix(s: seq<Byte>, m: nat, n: nat)
    requires 1 <= n <= m <= |s|
    ensures Bits(s[..m], n) == Bits(s, n)
  {
  }

  /** Cutting the string anywhere behind the decoded unit does not change what is decoded. */
  lemma DecodeStable(s: seq<Byte>, m: nat)
    requires |s| > 0 && Decode(s).units <= m <= |s|
    ensures Decode(s[..m]) == Decode(s)
  {
    var n := Expected(s[0]);
    assert forall k :: 0 <= k < m ==> s[..m][k] == s[k];
    if Trailed(s, n) {
      BitsPrefix(s, m, n);
    } else {
      assert !Trailed(s[..m], n);
    }
  }

  lemma NoPieces()
    ensures Pieces([]) == []
  {
  }

  lemma PiecesHead(s: seq<Byte>)
    requires |s| > 0
    ensures var u := Decode(s).units; Pieces(s) == [s[..u]] + Pieces(s[u..])
  {
  }

  /** The pieces of any byte string, valid or not, are a partition of it. */
  lemma {:induction false} PiecesPartition(s: seq<Byte>)
    ensures Concat(Pieces(s)) == s
    ensures forall k :: 0 <= k < |Pieces(s)| ==> |Pieces(s)[k]| > 0
  {
    hide Decode, Pieces;
    NoPieces();
    if |s| > 0 {
      PiecesHead(s);
      var u := Decode(s).units;
      PiecesPartition(s[u..]);
      assert Pieces(s)[1..] == Pieces(s[u..]);
      assert s == s[..u] + s[u..];
    }
  }

  lemma PiecesStep(s: seq<Byte>, p: nat)
    requires p < |s|
    ensures var u := Decode(s[p..]).units;
      p + u <= |s| && Pieces(s[p..]) == [s[p..p + u]] + Pieces(s[p + u..])
  {
    hide Decode;
    var u := Decode(s[p..]).units;
    assert s[p..][..u] == s[p..p + u] && s[p..][u..] == s[p + u..];
  }

  /** Offset at which piece k starts. */
  function StartOf(ps: seq<seq<Byte>>, k: nat): nat
    requires k <= |ps|
  {
    if k == 0 then 0 else StartOf(ps, k - 1) + |ps[k - 1]|
  }

  lemma {:induction false} StartOfTail(ps: seq<seq<Byte>>, k: nat)
    requires 1 <= k <= |ps|
    ensures StartOf(ps, k) == |ps[0]| + StartOf(ps[1..], k - 1)
  {
    if k > 1 {
      StartOfTail(ps, k - 1);
    }
  }

  /** A cut between pieces cuts the list of pieces. */
  lemma {:induction false} PiecesCut(s: seq<Byte>, k: nat)
    requires k <= |Pieces(s)|
    ensures var cut := StartOf(Pieces(s), k);
      && cut <= |s| && Pieces(s[..cut]) == Pieces(s)[..k] && Pieces(s[cut..]) == Pieces(s)[k..]
  {
    hide Decode, Pieces;
    NoPieces();
    if k == 0 {
      assert s[0..] == s && s[..0] == [];
    } else if |s| > 0 {
      PiecesHead(s);
      StartOfTail(Pieces(s), k);
      var u := Decode(s).units;
      assert Pieces(s)[1..] == Pieces(s[u..]);
      PiecesCut(s[u..], k - 1);
      var rest := StartOf(Pieces(s[u..]), k - 1);
      var cut := u + rest;
      DecodeStable(s, cut);
      PiecesHead(s[..cut]);
      assert s[..cut][..u] == s[..u];
      assert s[..cut][u..] == s[u..][..rest];
      assert s[cut..] == s[u..][rest..];
    }
  }

  // ---- on valid UTF-8 ----

  lemma DecodeEncode(cp: Scalar, t: seq<Byte>)
    ensures Decode(Encode(cp) + t) == Decoded(cp, |Encode(cp)|)
  {
    hide Encode, Bits, IsContinuation;
    var e := Encode(cp);
    var s := e + t;
    ShapeOfEncoding(cp);
    EncodeShape(cp);
    assert forall k :: 0 <= k < |e| ==> s[k] == e[k];
    assert Expected(s[0]) == |e|;
    BitsStart(s);
    if |e| > 1 { BitsStep(s, 2); }
    if |e| > 2 { BitsStep(s, 3); }
    if |e| > 3 { BitsStep(s, 4); }
  }

  /** On an encoded string the pieces are the encodings of the code points. */
  lemma {:induction false} PiecesOfEncoded(cps: seq<Scalar>)
    ensures |Pieces(EncodeAll(cps))| == |cps|
    ensures forall k :: 0 <= k < |cps| ==> Pieces(EncodeAll(cps))[k] == Encode(cps[k])
  {
    hide Encode, Decode;
    if |cps| > 0 {
      var e := Encode(cps[0]);
      var rest := EncodeAll(cps[1..]);
      DecodeEncode(cps[0], rest);
      assert (e + rest)[..|e|] == e && (e + rest)[|e|..] == rest;
      PiecesOfEncoded(cps[1..]);
    }
  }

  // ---- charAt ----

  /** The result of charAt over the pieces of the text: one piece, the empty string exactly at the end,
      an error elsewhere. Only a non-empty result allocates. */
  function Nth(ps: seq<seq<Byte>>, pos: int, granted: bool): Value {
    if 0 <= pos < |ps| then if granted then Str(ps[pos]) else Error(ERR_OVERFLOW)
    else if pos == |ps| then Str([])
    else Error(ERR_INVALID_ARGUMENT)
  }

  /** The answers for all positions in order, put together, are the text; the next position answers
      the empty text and the one behind it an error. */
  lemma CharAtPartition(s: seq<Byte>)
    ensures var n := |Pieces(s)|;
      && Concat(seq(n, i requires 0 <= i < n => Nth(Pieces(s), i, true).text)) == s
      && Nth(Pieces(s), n, true) == Str([]) && Nth(Pieces(s), n + 1, true) == Error(ERR_INVALID_ARGUMENT)
  {
    hide Pieces, Concat;
    var ps := Pieces(s);
    PiecesPartition(s);
    assert seq(|ps|, i requires 0 <= i < |ps| => Nth(ps, i, true).text) == ps;
  }

  /** Inside the text the answer is the unit that has exactly pos units in front of it, and it is one
      unit; everywhere else but just past the end there is none. */
  lemma CharAtAnswers(s: seq<Byte>, pos: int) returns (before: seq<Byte>, unit: seq<Byte>, after: seq<Byte>)
    ensures 0 <= pos < |Pieces(s)| ==>
      && s == before + unit + after && |unit| > 0 && Decode(unit + after).units == |unit|
      && |Pieces(before)| == pos && |Pieces(after)| == |Pieces(s)| - pos - 1
      && Nth(Pieces(s), pos, true) == Str(unit) && Nth(Pieces(s), pos, false) == Error(ERR_OVERFLOW)
    ensures pos == |Pieces(s)| ==> Nth(Pieces(s), pos, true) == Nth(Pieces(s), pos, false) == Str([])
    ensures pos < 0 || pos > |Pieces(s)| ==>
      Nth(Pieces(s), pos, true) == Nth(Pieces(s), pos, false) == Error(ERR_INVALID_ARGUMENT)
  {
    hide Decode, Pieces;
    before, unit, after := [], [], [];
    if 0 <= pos < |Pieces(s)| {
      PiecesCut(s, pos);
      before := s[..StartOf(Pieces(s), pos)];
      var rest := s[StartOf(Pieces(s), pos)..];
      NoPieces();
      assert Pieces(rest) == Pieces(s)[pos..];
      PiecesHead(rest);
      var u := Decode(rest).units;
      unit, after := rest[..u], rest[u..];
      assert rest == unit + after;
      assert Pieces(rest)[0] == Pieces(s)[pos];
    }
  }

  /** On encoded text charAt answers the encoding of the code point at that position. */
  lemma CharAtEncoded(cps: seq<Scalar>, k: nat)
    requires k < |cps|
    ensures Nth(Pieces(EncodeAll(cps)), k, true) == Str(Encode(cps[k]))
  {
    hide Pieces, Encode, EncodeAll;
    PiecesOfEncoded(cps);
  }

  /** The walk over the text. */
  method CharAtWalk(text: seq<Byte>, pos: Int64, granted: bool) returns (out: Value)
    ensures out == Nth(Pieces(text), pos, granted)
  {
    hide Decode, Pieces;
    if pos < 0 {
      return Error(ERR_INVALID_ARGUMENT);
    }
    var p: nat := 0;
    var remaining: int := pos;
    assert text[0..] == text;
    NoPieces();
    while p < |text|
      invariant p <= |text| && 0 <= remaining
      invariant Nth(Pieces(text), pos, granted) == Nth(Pieces(text[p..]), remaining, granted)
    {
      PiecesStep(text, p);
      var d := Utf8Decode(text, p);
      if remaining == 0 {
        return if granted then Str(text[p..p + d.units]) else Error(ERR_OVERFLOW);
      }
      p := p + d.units;
      remaining := remaining - 1;
    }
    assert text[p..] == [];
    if remaining == 0 {
      return Str([]);
    }
    out := Error(ERR_INVALID_ARGUMENT);
  }

  method CharAt(s: Value, i: Value, granted: bool) returns (out: Value)
    ensures Absorbed(s) ==> out == s
    ensures !Absorbed(s) && Absorbed(i) ==> out == i
    ensures !Absorbed(s) && !Absorbed(i) && !(s.Str? && i.Int?) ==> out == Error(ERR_TYPE_MISMATCH)
    ensures s.Str? && i.Int? ==> out == Nth(Pieces(s.text), i.i, granted)
    ensures forall cps: seq<Scalar> :: s.Str? && s.text == EncodeAll(cps) && i.Int? && 0 <= i.i < |cps| && granted ==>
      out == Str(Encode(cps[i.i]))
  {
    hide Pieces, Nth, Encode, EncodeAll;
    if Absorbed(s) {
      return s;
    }
    if Absorbed(i) {
      return i;
    }
    if !s.Str? || !i.Int? {
      return Error(ERR_TYPE_MISMATCH);
    }
    forall cps: seq<Scalar> | s.text == EncodeAll(cps) && 0 <= i.i < |cps|
      ensures Nth(Pieces(s.text), i.i, true) == Str(Encode(cps[i.i]))
    {
      CharAtEncoded(cps, i.i);
    }
    out := CharAtWalk(s.text, i.i, granted);
  }

  // ---- trim ----

  predicate IsUnicodeWhitespace(c: nat) {
    if c <= 0x20 then c == 0x20 || 0x9 <= c <= 0xD
    else c in {0x85, 0xA0, 0x1680, 0x2028, 0x2029, 0x202F, 0x205F, 0x3000} || 0x2000 <= c <= 0x200A
  }

  const WHITE_SPACE: seq<nat> := [
    0x9, 0xA, 0xB, 0xC, 0xD, 0x20, 0x85, 0xA0, 0x1680,
    0x2000, 0x2001, 0x2002, 0x2003, 0x2004, 0x2005, 0x2006, 0x2007, 0x2008, 0x2009, 0x200A,
    0x2028, 0x2029, 0x202F, 0x205F, 0x3000
  ]

  /** The code points with the Unicode White_Space property, all 25 of them. */
  lemma WhitespaceTable(c: nat)
    ensures IsUnicodeWhitespace(c) <==> c in WHITE_SPACE
    ensures |WHITE_SPACE| == 25 && forall i, j :: 0 <= i < j < |WHITE_SPACE| ==> WHITE_SPACE[i] < WHITE_SPACE[j]
  {
  }

  predicate Blank(piece: seq<Byte>) {
    |piece| > 0 && IsUnicodeWhitespace(Decode(piece).cp)
  }

  function StripLeft(ps: seq<seq<Byte>>): (r: seq<seq<Byte>>)
    ensures |r| <= |ps| && r == ps[|ps| - |r|..]
    ensures r == [] || !Blank(r[0])
    ensures forall k :: 0 <= k < |ps| - |r| ==> Blank(ps[k])
  {
    if |ps| > 0 && Blank(ps[0]) then StripLeft(ps[1..]) else ps
  }

  lemma StripLeftStep(ps: seq<seq<Byte>>)
    requires |ps| > 0
    ensures StripLeft(ps) == if Blank(ps[0]) then StripLeft(ps[1..]) else ps
  {
  }

  function StripRight(ps: seq<seq<Byte>>): (r: seq<seq<Byte>>)
    ensures |r| <= |ps| && r == ps[..|r|]
    ensures r == [] || !Blank(r[|r| - 1])
    ensures forall k :: |r| <= k < |ps| ==> Blank(ps[k])
  {
    if |ps| > 0 && Blank(ps[|ps| - 1]) then StripRight(ps[..|ps| - 1]) else ps
  }

  function Strip(ps: seq<seq<Byte>>): seq<seq<Byte>> {
    StripRight(StripLeft(ps))
  }

  function Trimmed(s: seq<Byte>): seq<Byte> {
    Concat(Strip(Pieces(s)))
  }

  predicate AllBlank(ps: seq<seq<Byte>>) {
    forall k :: 0 <= k < |ps| ==> Blank(ps[k])
  }

  lemma CutLeft(s: seq<Byte>) returns (before: seq<Byte>, rest: seq<Byte>)
    ensures s == before + rest && AllBlank(Pieces(before)) && Pieces(rest) == StripLeft(Pieces(s))
  {
    hide Decode, Pieces, Blank;
    var ps := Pieces(s);
    var i := |ps| - |StripLeft(ps)|;
    PiecesCut(s, i);
    before, rest := s[..StartOf(ps, i)], s[StartOf(ps, i)..];
  }

  lemma CutRight(s: seq<Byte>) returns (kept: seq<Byte>, after: seq<Byte>)
    ensures s == kept + after && AllBlank(Pieces(after)) && Pieces(kept) == StripRight(Pieces(s))
  {
    hide Decode, Pieces, Blank;
    var ps := Pieces(s);
    var i := |StripRight(ps)|;
    PiecesCut(s, i);
    kept, after := s[..StartOf(ps, i)], s[StartOf(ps, i)..];
  }

  /** Trimming takes whole blank pieces off both ends, and the rest still decodes to the pieces that
      were kept. */
  lemma TrimCuts(s: seq<Byte>) returns (before: seq<Byte>, after: seq<Byte>)
    ensures s == before + Trimmed(s) + after
    ensures Pieces(Trimmed(s)) == Strip(Pieces(s))
    ensures AllBlank(Pieces(before)) && AllBlank(Pieces(after))
  {
    hide Decode, Pieces, Blank, Concat, StripLeft, StripRight, AllBlank;
    var rest, kept;
    before, rest := CutLeft(s);
    kept, after := CutRight(rest);
    PiecesPartition(kept);
    assert before + (kept + after) == before + kept + after;
  }

  lemma StripNothing(ps: seq<seq<Byte>>)
    requires ps == [] || (!Blank(ps[0]) && !Blank(ps[|ps| - 1]))
    ensures Strip(ps) == ps
  {
  }

  /** What is left starts and ends with a unit that is not blank, or is empty. */
  lemma TrimEnds(s: seq<Byte>)
    ensures var kept := Pieces(Trimmed(s)); kept == [] || (!Blank(kept[0]) && !Blank(kept[|kept| - 1]))
  {
    hide Decode, Pieces, Blank;
    var before, after := TrimCuts(s);
    var left := StripLeft(Pieces(s));
    var kept := StripRight(left);
    assert kept != [] ==> kept[0] == left[0];
  }

  lemma BlankEncoded(cp: Scalar)
    ensures Blank(Encode(cp)) <==> IsUnicodeWhitespace(cp)
  {
    hide IsUnicodeWhitespace, Decode, Encode;
    DecodeEncode(cp, []);
    assert Encode(cp) + [] == Encode(cp);
  }

  lemma {:induction false} StripLeftIs(ps: seq<seq<Byte>>, j: nat)
    requires j <= |ps| && (j < |ps| ==> !Blank(ps[j]))
    requires forall k :: 0 <= k < j ==> Blank(ps[k])
    ensures StripLeft(ps) == ps[j..]
  {
    hide Blank;
    if j > 0 {
      StripLeftIs(ps[1..], j - 1);
      assert ps[1..][j - 1..] == ps[j..];
    }
  }

  lemma StripRightIs(ps: seq<seq<Byte>>, j: nat)
    requires j <= |ps| && (j == 0 || !Blank(ps[j - 1]))
    requires forall k :: j <= k < |ps| ==> Blank(ps[k])
    ensures StripRight(ps) == ps[..j]
  {
    hide Blank;
  }

  /** Blank pieces around a middle that is empty or starts and ends with others are what is stripped. */
  lemma StripMiddle(ps: seq<seq<Byte>>, i: nat, n: nat)
    requires i + n <= |ps|
    requires forall k :: 0 <= k < i || i + n <= k < |ps| ==> Blank(ps[k])
    requires n > 0 ==> !Blank(ps[i]) && !Blank(ps[i + n - 1])
    ensures Strip(ps) == ps[i..i + n]
  {
    hide Blank, StripLeft, StripRight;
    if n == 0 {
      StripLeftIs(ps, |ps|);
      StripRightIs([], 0);
    } else {
      StripLeftIs(ps, i);
      var left := ps[i..];
      assert left[n - 1] == ps[i + n - 1];
      forall k | n <= k < |left| ensures Blank(left[k]) {
        assert left[k] == ps[i + k];
      }
      StripRightIs(left, n);
      assert left[..n] == ps[i..i + n];
    }
  }

  /** On encoded text, trimming takes the white space code points off both ends and nothing else. */
  lemma TrimEncoded(a: seq<Scalar>, m: seq<Scalar>, b: seq<Scalar>)
    requires forall k :: 0 <= k < |a| ==> IsUnicodeWhitespace(a[k])
    requires forall k :: 0 <= k < |b| ==> IsUnicodeWhitespace(b[k])
    requires m == [] || (!IsUnicodeWhitespace(m[0]) && !IsUnicodeWhitespace(m[|m| - 1]))
    ensures Trimmed(EncodeAll(a + m + b)) == EncodeAll(m)
  {
    hide IsUnicodeWhitespace, Decode, Encode, Pieces, Blank, EncodeAll, Strip, Concat;
    var all := a + m + b;
    var ps := Pieces(EncodeAll(all));
    PiecesOfEncoded(all);
    PiecesOfEncoded(m);
    PiecesPartition(EncodeAll(m));
    forall k | 0 <= k < |all| ensures Blank(ps[k]) <==> IsUnicodeWhitespace(all[k]) {
      BlankEncoded(all[k]);
    }
    assert forall k :: 0 <= k < |m| ==> all[|a| + k] == m[k];
    assert ps[|a|..|a| + |m|] == Pieces(EncodeAll(m));
    StripMiddle(ps, |a|, |m|);
  }

  /** On arbitrary bytes, trimming twice is trimming once. */
  lemma TrimIdempotent(s: seq<Byte>)
    ensures Trimmed(Trimmed(s)) == Trimmed(s)
  {
    hide Decode, Pieces, Blank;
    var before, after := TrimCuts(s);
    var kept := Strip(Pieces(s));
    var left := StripLeft(Pieces(s));
    assert kept != [] ==> kept[0] == left[0] && !Blank(kept[0]) && !Blank(kept[|kept| - 1]);
    StripNothing(kept);
  }

  lemma BlankHead(s: seq<Byte>)
    requires |s| > 0
    ensures var d := Decode(s); Blank(s[..d.units]) <==> IsUnicodeWhitespace(d.cp)
  {
    DecodeStable(s, Decode(s).units);
  }

  lemma SkipStep(s: seq<Byte>)
    requires |s| > 0
    ensures var d := Decode(s);
      StripLeft(Pieces(s)) == if IsUnicodeWhitespace(d.cp) then StripLeft(Pieces(s[d.units..])) else Pieces(s)
  {
    hide Decode, Pieces, Blank, IsUnicodeWhitespace, StripLeft;
    PiecesHead(s);
    BlankHead(s);
    StripLeftStep(Pieces(s));
    assert Pieces(s)[1..] == Pieces(s[Decode(s).units..]);
  }

  /** Left trim: walks over the blank pieces at the front. */
  method SkipBlank(text: seq<Byte>) returns (lhs: nat)
    ensures lhs <= |text| && Pieces(text[lhs..]) == StripLeft(Pieces(text))
  {
    hide Decode, Pieces, Blank, IsUnicodeWhitespace, StripLeft;
    NoPieces();
    assert text[0..] == text;
    lhs := 0;
    while lhs < |text|
      invariant lhs <= |text| && StripLeft(Pieces(text[lhs..])) == StripLeft(Pieces(text))
    {
      var d := Utf8Decode(text, lhs);
      SkipStep(text[lhs..]);
      if !IsUnicodeWhitespace(d.cp) {
        return;
      }
      assert text[lhs..][d.units..] == text[lhs + d.units..];
      lhs := lhs + d.units;
    }
    assert text[lhs..] == [];
  }

  /** Right trim: walks forward and remembers the end of the last piece that is not blank. */
  method LastNonBlankEnd(text: seq<Byte>, lhs: nat) returns (lastEnd: nat)
    requires lhs <= |text|
    ensures lhs <= lastEnd <= |text| && Pieces(text[lhs..lastEnd]) == StripRight(Pieces(text[lhs..]))
  {
    hide Decode, Pieces, Blank, IsUnicodeWhitespace, StripRight;
    NoPieces();
    ghost var rest := text[lhs..];
    ghost var ps := Pieces(rest);
    var p := lhs;
    lastEnd := lhs;
    ghost var k: nat, j: nat := 0, 0;
    while p < |text|
      invariant lhs <= lastEnd <= p <= |text|
      invariant j <= k <= |ps| && p - lhs == StartOf(ps, k) && lastEnd - lhs == StartOf(ps, j)
      invariant Pieces(text[p..]) == ps[k..]
      invariant j == 0 || !Blank(ps[j - 1])
      invariant forall i :: j <= i < k ==> Blank(ps[i])
    {
      var d := Utf8Decode(text, p);
      PiecesStep(text, p);
      BlankHead(text[p..]);
      assert text[p..][..d.units] == text[p..p + d.units] == ps[k];
      k := k + 1;
      if !IsUnicodeWhitespace(d.cp) {
        lastEnd := p + d.units;
        j := k;
      }
      p := p + d.units;
      assert Pieces(text[p..]) == ps[k - 1..][1..] == ps[k..];
    }
    assert text[p..] == [];
    StripRightIs(ps, j);
    PiecesCut(rest, j);
    assert rest[..lastEnd - lhs] == text[lhs..lastEnd];
  }

  method Trim(s: Value) returns (out: Value)
    ensures Absorbed(s) ==> out == s
    ensures !Absorbed(s) && !s.Str? ==> out == Error(ERR_TYPE_MISMATCH)
    ensures s.Str? ==> out == Str(Trimmed(s.text))
  {
    hide Pieces, StripLeft, StripRight, Concat;
    if Absorbed(s) {
      return s;
    }
    if !s.Str? {
      return Error(ERR_TYPE_MISMATCH);
    }
    var text := s.text;
    var lhs := SkipBlank(text);
    var lastEnd := LastNonBlankEnd(text, lhs);
    PiecesPartition(text[lhs..lastEnd]);
    assert text[lhs..lastEnd] == Trimmed(text);
    if lhs == |text| {
      return Str([]);
    }
    out := Str(text[lhs..lastEnd]);
  }

  // ---- reverse ----

  /** Where the last code point of a non-empty string starts: its last byte that is no continuation,
      or the beginning. */
  function LastStart(s: seq<Byte>): (p: nat)
    requires |s| > 0
    ensures p < |s| && (p == 0 || !IsContinuation(s[p]))
    ensures forall k :: p < k < |s| ==> IsContinuation(s[k])
  {
    if |s| == 1 || !IsContinuation(s[|s| - 1]) then |s| - 1 else LastStart(s[..|s| - 1])
  }

  function Reversed(s: seq<Byte>): (r: seq<Byte>)
    ensures |r| == |s|
  {
    if |s| == 0 then [] else s[LastStart(s)..] + Reversed(s[..LastStart(s)])
  }

  lemma ReversedLast(s: seq<Byte>)
    requires |s| > 0
    ensures Reversed(s) == s[LastStart(s)..] + Reversed(s[..LastStart(s)])
  {
  }

  lemma LastStartIs(s: seq<Byte>, p: nat)
    requires p < |s| && (p == 0 || !IsContinuation(s[p]))
    requires forall k :: p < k < |s| ==> IsContinuation(s[k])
    ensures LastStart(s) == p
  {
    hide LastStart;
  }

  method PrevCodepoint(text: seq<Byte>, end: nat) returns (p: nat)
    requires 0 < end <= |text|
    ensures p == LastStart(text[..end])
  {
    p := end - 1;
    while p > 0 && IsContinuation(text[p])
      invariant p < end && forall k :: p < k < end ==> IsContinuation(text[k])
    {
      p := p - 1;
    }
    LastStartIs(text[..end], p);
  }

  method Memcpy(dst: array<Byte>, at: nat, src: seq<Byte>)
    requires at + |src| <= dst.Length
    modifies dst
    ensures dst[..] == old(dst[..at]) + src + old(dst[at + |src|..])
  {
    forall k | 0 <= k < |src| {
      dst[at + k] := src[k];
    }
  }

  method Reverse(s: Value, granted: bool) returns (out: Value)
    ensures Absorbed(s) ==> out == s
    ensures !Absorbed(s) && !s.Str? ==> out == Error(ERR_TYPE_MISMATCH)
    ensures s.Str? ==> out == if s.text != [] && !granted then Error(ERR_OVERFLOW) else Str(Reversed(s.text))
  {
    hide LastStart, Reversed, IsContinuation;
    if Absorbed(s) {
      return s;
    }
    if !s.Str? {
      return Error(ERR_TYPE_MISMATCH);
    }
    var text := s.text;
    if text == [] {
      return Str([]);
    }
    if !granted {
      return Error(ERR_OVERFLOW);
    }
    var dst := new Byte[|text|];
    var cursor: nat := 0;
    var ptr: nat := |text|;
    assert text[..ptr] == text;
    while ptr > 0
      invariant ptr <= |text| && cursor == |text| - ptr
      invariant Reversed(text) == dst[..cursor] + Reversed(text[..ptr])
    {
      var end := ptr;
      ptr := PrevCodepoint(text, ptr);
      ReversedLast(text[..end]);
      ghost var done := dst[..cursor];
      Memcpy(dst, cursor, text[ptr..end]);
      cursor := cursor + (end - ptr);
      assert text[..end][..ptr] == text[..ptr] && text[..end][ptr..] == text[ptr..end];
      assert dst[..cursor] == done + text[ptr..end];
    }
    assert dst[..cursor] == dst[..];
    out := Str(dst[..]);
  }

  /** Reversal permutes the bytes of any input. */
  lemma {:induction false} ReversedPermutes(s: seq<Byte>)
    ensures multiset(Reversed(s)) == multiset(s)
  {
    if |s| > 0 {
      var p := LastStart(s);
      assert s == s[..p] + s[p..];
      ReversedPermutes(s[..p]);
    }
  }

  predicate AllContinuation(s: seq<Byte>) {
    forall k :: 0 <= k < |s| ==> IsContinuation(s[k])
  }

  predicate StartsClean(s: seq<Byte>) {
    s == [] || !IsContinuation(s[0])
  }

  lemma LastStartConcat(s: seq<Byte>, t: seq<Byte>)
    requires t != [] && StartsClean(t)
    ensures LastStart(s + t) == |s| + LastStart(t)
  {
    hide LastStart, IsContinuation;
    var p := LastStart(t);
    assert (s + t)[|s| + p] == t[p];
    forall k | |s| + p < k < |s + t| ensures IsContinuation((s + t)[k]) {
      assert (s + t)[k] == t[k - |s|];
    }
    LastStartIs(s + t, |s| + p);
  }

  /** Reversal distributes, in swapped order, over a split in front of a non-continuation byte. */
  lemma {:induction false} ReversedConcat(s: seq<Byte>, t: seq<Byte>)
    requires StartsClean(t)
    ensures Reversed(s + t) == Reversed(t) + Reversed(s)
    decreases |t|
  {
    hide LastStart, Reversed, IsContinuation;
    if t == [] {
      assert s + t == s;
      assert Reversed(t) == [];
    } else {
      var p := LastStart(t);
      ReversedLast(t);
      ReversedLast(s + t);
      LastStartConcat(s, t);
      assert (s + t)[..|s| + p] == s + t[..p];
      assert (s + t)[|s| + p..] == t[p..];
      ReversedConcat(s, t[..p]);
    }
  }

  lemma ReversedUnit(u: seq<Byte>)
    requires |u| > 0 && AllContinuation(u[1..])
    ensures Reversed(u) == u
  {
    forall k | 0 < k < |u| ensures IsContinuation(u[k]) {
      assert u[1..][k - 1] == u[k];
    }
    LastStartIs(u, 0);
  }

  lemma {:induction false} Involution(s: seq<Byte>)
    requires StartsClean(s)
    ensures StartsClean(Reversed(s)) && Reversed(Reversed(s)) == s
  {
    if |s| > 0 {
      var p := LastStart(s);
      var unit := s[p..];
      Involution(s[..p]);
      ReversedUnit(unit);
      ReversedConcat(unit, Reversed(s[..p]));
      assert s == s[..p] + unit;
    }
  }

  /** Reversing twice gives the input back exactly when the input does not start in the middle of a
      code point, or is nothing but continuation bytes. */
  lemma ReverseTwice(s: seq<Byte>)
    ensures Reversed(Reversed(s)) == s <==> StartsClean(s) || AllContinuation(s)
  {
    if StartsClean(s) {
      Involution(s);
    } else if AllContinuation(s) {
      ReversedUnit(s);
    } else {
      var k :| 0 <= k < |s| && !IsContinuation(s[k]);
      var r := Reversed(s);
      ReversedPermutes(s);
      assert s[k] in multiset(s) && s[k] in multiset(r);
      assert s[k] in r;
      var p := LastStart(r);
      assert !IsContinuation(r[p]);
      assert Reversed(r)[0] == r[p];
    }
  }

  function Backwards(cps: seq<Scalar>): seq<Scalar> {
    if |cps| == 0 then [] else Backwards(cps[1..]) + [cps[0]]
  }

  lemma {:induction false} EncodeAllConcat(a: seq<Scalar>, b: seq<Scalar>)
    ensures EncodeAll(a + b) == EncodeAll(a) + EncodeAll(b)
  {
    if a == [] {
      assert a + b == b;
    } else {
      assert (a + b)[1..] == a[1..] + b;
      EncodeAllConcat(a[1..], b);
    }
  }

  /** Reversing an encoded string gives the encoding of its code points in reverse order. */
  lemma {:induction false} ReversedEncoded(cps: seq<Scalar>)
    ensures Reversed(EncodeAll(cps)) == EncodeAll(Backwards(cps))
  {
    if |cps| > 0 {
      var e := Encode(cps[0]);
      var rest := EncodeAll(cps[1..]);
      EncodeShape(cps[0]);
      if |cps| > 1 { EncodeShape(cps[1]); }
      ReversedConcat(e, rest);
      ReversedUnit(e);
      ReversedEncoded(cps[1..]);
      EncodeAllConcat(Backwards(cps[1..]), [cps[0]]);
      assert EncodeAll([cps[0]]) == e;
    }
  }
}
