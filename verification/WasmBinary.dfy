/** Custom sections of a WebAssembly binary (section 5.5.3 of the WebAssembly Core Specification): LEB128
    integers, the top-level section walk, and appending a section. */
module WasmBinary {
  import opened Machine
  import opened Values

  const MAX_LEB_BYTES: nat := 5
  const PREAMBLE_SIZE: nat := 8
  const PREAMBLE: seq<Byte> := [0x00, 0x61, 0x73, 0x6d, 0x01, 0x00, 0x00, 0x00]

  // ---- LEB128 ----

  /** v << (7 i) */
  function Shift(v: nat, i: nat): nat
    requires i < MAX_LEB_BYTES
  {
    match i
    case 0 => v
    case 1 => 0x80 * v
    case 2 => 0x4000 * v
    case 3 => 0x20_0000 * v
    case _ => 0x1000_0000 * v
  }

  datatype LebResult = Good(pos: nat, value: UInt32) | Bad(pos: nat)

  /** Seven bits a byte, at most five bytes; the bits of the fifth beyond 32 are dropped. */
  function LebFrom(bytes: seq<Byte>, pos: nat, i: nat, acc: UInt32): LebResult
    requires i <= MAX_LEB_BYTES
    decreases MAX_LEB_BYTES - i
  {
    if i == MAX_LEB_BYTES || pos >= |bytes| then Bad(pos)
    else
      var next := (acc + Shift(bytes[pos] % 0x80, i)) % TWO_32;
      if bytes[pos] < 0x80 then Good(pos + 1, next) else LebFrom(bytes, pos + 1, i + 1, next)
  }

  function ReadLeb(bytes: seq<Byte>, pos: nat): LebResult {
    LebFrom(bytes, pos, 0, 0)
  }

  function EncodeLeb(v: nat): (e: seq<Byte>)
    ensures |e| >= 1
  {
    if v < 0x80 then [v] else [v % 0x80 + 0x80] + EncodeLeb(v / 0x80)
  }

  /** `*pos` and `*out` are returned; `*out |= bits << shift` touches fresh bits, so it adds. */
  method ReadLeb128U32(bytes: seq<Byte>, pos: nat) returns (ok: bool, newPos: nat, out: UInt32)
    ensures ok == ReadLeb(bytes, pos).Good? && newPos == ReadLeb(bytes, pos).pos
    ensures ok ==> out == ReadLeb(bytes, pos).value
  {
    newPos, out := pos, 0;
    var i: nat := 0;
    while i < MAX_LEB_BYTES
      invariant i <= MAX_LEB_BYTES && LebFrom(bytes, newPos, i, out) == ReadLeb(bytes, pos)
    {
      if newPos >= |bytes| {
        return false, newPos, out;
      }
      var b := bytes[newPos];
      newPos := newPos + 1;
      out := (out + Shift(b % 0x80, i)) % TWO_32;
      if b < 0x80 {
        return true, newPos, out;
      }
      i := i + 1;
    }
    ok := false;
  }

  method AppendLeb128U32(out: seq<Byte>, value: UInt32) returns (r: seq<Byte>)
    ensures r == out + EncodeLeb(value)
  {
    r := out;
    var v: nat := value;
    while true
      invariant r + EncodeLeb(v) == out + EncodeLeb(value)
      decreases v
    {
      var b: Byte := v % 0x80;
      if v / 0x80 == 0 {
        return r + [b];
      }
      assert r + EncodeLeb(v) == (r + [b + 0x80]) + EncodeLeb(v / 0x80);
      r := r + [b + 0x80];
      v := v / 0x80;
    }
  }

  ghost predicate StandsAt(part: seq<Byte>, bytes: seq<Byte>, pos: nat) {
    pos + |part| <= |bytes| && bytes[pos..pos + |part|] == part
  }

  lemma EncodeUnfold(v: nat)
    ensures EncodeLeb(v) == if v < 0x80 then [v] else [v % 0x80 + 0x80] + EncodeLeb(v / 0x80)
  {
  }

  lemma LebUnfold(bytes: seq<Byte>, pos: nat, i: nat, acc: UInt32)
    requires i < MAX_LEB_BYTES && pos < |bytes|
    ensures var next := (acc + Shift(bytes[pos] % 0x80, i)) % TWO_32;
      LebFrom(bytes, pos, i, acc) == if bytes[pos] < 0x80 then Good(pos + 1, next) else LebFrom(bytes, pos + 1, i + 1, next)
    ensures i + 1 == MAX_LEB_BYTES && bytes[pos] >= 0x80 ==> LebFrom(bytes, pos, i, acc).Bad?
  {
  }

  lemma ShiftStep(i: nat, acc: nat, v: nat)
    requires i < MAX_LEB_BYTES && v >= 0x80 && acc + Shift(v, i) < TWO_32
    ensures i < 4 && acc + Shift(v % 0x80, i) < TWO_32
    ensures acc + Shift(v % 0x80, i) + Shift(v / 0x80, i + 1) == acc + Shift(v, i)
  {
    assert v == v / 0x80 * 0x80 + v % 0x80;
    match i
    case 0 => case 1 => case 2 => case 3 => case _ =>
  }

  lemma {:induction false} LebContinues(bytes: seq<Byte>, pos: nat, i: nat, acc: UInt32, v: nat)
    requires i < MAX_LEB_BYTES && StandsAt(EncodeLeb(v), bytes, pos)
    requires acc + Shift(v, i) < TWO_32
    ensures LebFrom(bytes, pos, i, acc) == Good(pos + |EncodeLeb(v)|, acc + Shift(v, i))
    decreases v
  {
    hide LebFrom, EncodeLeb, Shift;
    var e := EncodeLeb(v);
    EncodeUnfold(v);
    LebUnfold(bytes, pos, i, acc);
    assert bytes[pos] == bytes[pos..pos + |e|][0] == e[0];
    if v >= 0x80 {
      ShiftStep(i, acc, v);
      assert bytes[pos + 1..pos + |e|] == bytes[pos..pos + |e|][1..] == e[1..];
      LebContinues(bytes, pos + 1, i + 1, acc + Shift(v % 0x80, i), v / 0x80);
    }
  }

  /** Reading undoes appending on every u32, wherever the encoding stands. */
  lemma LebRoundTrip(bytes: seq<Byte>, pos: nat, v: UInt32)
    requires StandsAt(EncodeLeb(v), bytes, pos)
    ensures ReadLeb(bytes, pos) == Good(pos + |EncodeLeb(v)|, v)
  {
    LebContinues(bytes, pos, 0, 0, v);
  }

  /** A successful read looks at nothing past what it consumes. */
  lemma {:induction false} LebExtends(bytes: seq<Byte>, more: seq<Byte>, pos: nat, i: nat, acc: UInt32)
    requires i <= MAX_LEB_BYTES && LebFrom(bytes, pos, i, acc).Good?
    ensures LebFrom(bytes + more, pos, i, acc) == LebFrom(bytes, pos, i, acc)
    ensures pos < LebFrom(bytes, pos, i, acc).pos <= |bytes|
    decreases MAX_LEB_BYTES - i
  {
    if bytes[pos] >= 0x80 {
      LebExtends(bytes, more, pos + 1, i + 1, (acc + Shift(bytes[pos] % 0x80, i)) % TWO_32);
    }
  }

  // ---- the section walk ----

  datatype Reason = BadPreamble | BadLeb | SectionOverrun | NameOverrun | Duplicate | AlreadyPresent

  datatype FindResult = Found(payload: seq<Byte>) | NotFound | Invalid(reason: Reason)

  /** One top-level section: where it ends, and its name and payload if it is custom. */
  datatype Section = Custom(end: nat, name: seq<Byte>, payload: seq<Byte>) | Skipped(end: nat) | Broken(reason: Reason)

  lemma LebAdvances(bytes: seq<Byte>, pos: nat)
    requires ReadLeb(bytes, pos).Good?
    ensures pos < ReadLeb(bytes, pos).pos <= |bytes|
  {
    LebExtends(bytes, [], pos, 0, 0);
  }

  function SectionAt(bytes: seq<Byte>, pos: nat): (s: Section)
    requires pos < |bytes|
    ensures !s.Broken? ==> pos < s.end <= |bytes|
  {
    match ReadLeb(bytes, pos + 1)
    case Bad(_) => Broken(BadLeb)
    case Good(p, size) =>
      LebAdvances(bytes, pos + 1);
      if p + size > |bytes| then Broken(SectionOverrun)
      else if bytes[pos] != 0 then Skipped(p + size)
      else match ReadLeb(bytes, p)
        case Bad(_) => Broken(BadLeb)
        case Good(q, len) =>
          if q + len > p + size then Broken(NameOverrun)
          else Custom(p + size, bytes[q..q + len], bytes[q + len..p + size])
  }

  function Walk(bytes: seq<Byte>, pos: nat, name: seq<Byte>, found: Option<seq<Byte>>): FindResult
    decreases |bytes| - pos
  {
    if pos >= |bytes| then (match found case None => NotFound case Some(payload) => Found(payload))
    else match SectionAt(bytes, pos)
      case Broken(reason) => Invalid(reason)
      case Skipped(end) => Walk(bytes, end, name, found)
      case Custom(end, n, payload) =>
        if n != name then Walk(bytes, end, name, found)
        else if found.Some? then Invalid(Duplicate)
        else Walk(bytes, end, name, Some(payload))
  }

  predicate IsCoreModule(bytes: seq<Byte>) {
    |bytes| >= PREAMBLE_SIZE && bytes[..PREAMBLE_SIZE] == PREAMBLE
  }

  function Find(bytes: seq<Byte>, name: seq<Byte>): FindResult {
    if !IsCoreModule(bytes) then Invalid(BadPreamble) else Walk(bytes, PREAMBLE_SIZE, name, None)
  }

  lemma WalkStep(bytes: seq<Byte>, pos: nat, name: seq<Byte>, found: Option<seq<Byte>>)
    ensures pos >= |bytes| ==> Walk(bytes, pos, name, found) == if found.Some? then Found(found.value) else NotFound
    ensures pos < |bytes| ==>
      var s := SectionAt(bytes, pos);
      Walk(bytes, pos, name, found) ==
        if s.Broken? then Invalid(s.reason)
        else if s.Skipped? || s.name != name then Walk(bytes, s.end, name, found)
        else if found.Some? then Invalid(Duplicate) else Walk(bytes, s.end, name, Some(s.payload))
  {
  }

  lemma SectionRule(bytes: seq<Byte>, pos: nat)
    requires pos < |bytes|
    ensures ReadLeb(bytes, pos + 1).Bad? ==> SectionAt(bytes, pos) == Broken(BadLeb)
    ensures ReadLeb(bytes, pos + 1).Good? ==>
      var p, size := ReadLeb(bytes, pos + 1).pos, ReadLeb(bytes, pos + 1).value;
      && (p + size > |bytes| ==> SectionAt(bytes, pos) == Broken(SectionOverrun))
      && (p + size <= |bytes| && bytes[pos] != 0 ==> SectionAt(bytes, pos) == Skipped(p + size))
      && (p + size <= |bytes| && bytes[pos] == 0 && ReadLeb(bytes, p).Bad? ==> SectionAt(bytes, pos) == Broken(BadLeb))
      && (p + size <= |bytes| && bytes[pos] == 0 && ReadLeb(bytes, p).Good? ==>
        var q, len := ReadLeb(bytes, p).pos, ReadLeb(bytes, p).value;
        SectionAt(bytes, pos) == if q + len > p + size then Broken(NameOverrun)
          else Custom(p + size, bytes[q..q + len], bytes[q + len..p + size]))
  {
    hide LebFrom;
  }

  method FindCustomSection(bytes: seq<Byte>, name: seq<Byte>) returns (r: FindResult)
    ensures r == Find(bytes, name)
  {
    hide LebFrom, ReadLeb, Walk, SectionAt;
    if !IsCoreModule(bytes) {
      return Invalid(BadPreamble);
    }
    var pos: nat := PREAMBLE_SIZE;
    var found: Option<seq<Byte>> := None;
    while pos < |bytes|
      invariant Walk(bytes, pos, name, found) == Find(bytes, name)
      decreases |bytes| - pos
    {
      WalkStep(bytes, pos, name, found);
      SectionRule(bytes, pos);
      var id := bytes[pos];
      var ok, p, size := ReadLeb128U32(bytes, pos + 1);
      if !ok {
        return Invalid(BadLeb);
      }
      LebAdvances(bytes, pos + 1);
      if p + size > |bytes| {
        return Invalid(SectionOverrun);
      }
      var end := p + size;
      if id == 0 {
        var ok', q, len := ReadLeb128U32(bytes, p);
        if !ok' {
          return Invalid(BadLeb);
        }
        if q + len > end {
          return Invalid(NameOverrun);
        }
        if bytes[q..q + len] == name {
          if found.Some? {
            return Invalid(Duplicate);
          }
          found := Some(bytes[q + len..end]);
        }
      }
      pos := end;
    }
    WalkStep(bytes, pos, name, found);
    r := match found case None => NotFound case Some(payload) => Found(payload);
  }

  // ---- appending ----

  function Body(name: seq<Byte>, payload: seq<Byte>): seq<Byte> {
    EncodeLeb(|name| % TWO_32) + name + payload
  }

  /** Both sizes are cast to 32 bits. */
  function CustomSection(name: seq<Byte>, payload: seq<Byte>): seq<Byte> {
    [0] + EncodeLeb(|Body(name, payload)| % TWO_32) + Body(name, payload)
  }

  method BuildCustomSection(name: seq<Byte>, payload: seq<Byte>) returns (out: seq<Byte>)
    ensures out == CustomSection(name, payload)
  {
    var body := AppendLeb128U32([], |name| % TWO_32);
    body := body + name;
    body := body + payload;
    out := AppendLeb128U32([0], |body| % TWO_32);
    out := out + body;
  }

  datatype AppendResult = Appended(bytes: seq<Byte>) | Refused(reason: Reason)

  method AppendCustomSection(bytes: seq<Byte>, name: seq<Byte>, payload: seq<Byte>) returns (r: AppendResult)
    ensures r == match Find(bytes, name)
      case Found(_) => Refused(AlreadyPresent)
      case Invalid(reason) => Refused(reason)
      case NotFound => Appended(bytes + CustomSection(name, payload))
  {
    var existing := FindCustomSection(bytes, name);
    if existing.Found? {
      return Refused(AlreadyPresent);
    }
    if existing.Invalid? {
      return Refused(existing.reason);
    }
    var section := BuildCustomSection(name, payload);
    r := Appended(bytes + section);
  }

  // ---- a find after an append ----

  lemma SectionExtends(bytes: seq<Byte>, more: seq<Byte>, pos: nat)
    requires pos < |bytes| && !SectionAt(bytes, pos).Broken?
    ensures SectionAt(bytes + more, pos) == SectionAt(bytes, pos)
  {
    LebExtends(bytes, more, pos + 1, 0, 0);
    var p := ReadLeb(bytes, pos + 1).pos;
    if bytes[pos] == 0 {
      LebExtends(bytes, more, p, 0, 0);
    }
  }

  /** The sections run exactly to the end. */
  predicate Framed(bytes: seq<Byte>, pos: nat)
    decreases |bytes| - pos
  {
    pos >= |bytes| || (!SectionAt(bytes, pos).Broken? && Framed(bytes, SectionAt(bytes, pos).end))
  }

  lemma {:induction false} WalkedIsFramed(bytes: seq<Byte>, pos: nat, name: seq<Byte>, found: Option<seq<Byte>>)
    requires !Walk(bytes, pos, name, found).Invalid?
    ensures Framed(bytes, pos)
    decreases |bytes| - pos
  {
    if pos < |bytes| {
      match SectionAt(bytes, pos)
      case Skipped(end) => WalkedIsFramed(bytes, end, name, found);
      case Custom(end, n, payload) => WalkedIsFramed(bytes, end, name, if n != name then found else Some(payload));
    }
  }

  /** Walking the longer binary reaches the old end with whatever the old walk had found. */
  lemma {:induction false} WalkExtends(bytes: seq<Byte>, more: seq<Byte>, pos: nat, name: seq<Byte>, found: Option<seq<Byte>>)
    requires Framed(bytes, pos) && pos <= |bytes|
    ensures Walk(bytes + more, pos, name, found) == match Walk(bytes, pos, name, found)
      case Invalid(reason) => Invalid(reason)
      case Found(payload) => Walk(bytes + more, |bytes|, name, Some(payload))
      case NotFound => Walk(bytes + more, |bytes|, name, None)
    decreases |bytes| - pos
  {
    if pos < |bytes| {
      SectionExtends(bytes, more, pos);
      match SectionAt(bytes, pos)
      case Skipped(end) => WalkExtends(bytes, more, end, name, found);
      case Custom(end, n, payload) =>
        if n != name {
          WalkExtends(bytes, more, end, name, found);
        } else if found.None? {
          WalkExtends(bytes, more, end, name, Some(payload));
        }
    }
  }

  /** Once a payload is found, the walk can only return it or fail. */
  lemma {:induction false} WalkKeepsFound(bytes: seq<Byte>, pos: nat, name: seq<Byte>, payload: seq<Byte>)
    ensures Walk(bytes, pos, name, Some(payload)) == Found(payload) || Walk(bytes, pos, name, Some(payload)).Invalid?
    decreases |bytes| - pos
  {
    if pos < |bytes| && !SectionAt(bytes, pos).Broken? {
      WalkKeepsFound(bytes, SectionAt(bytes, pos).end, name, payload);
    }
  }

  /** A name of 2^32 bytes or more is never found: name lengths are read as 32-bit integers. */
  lemma {:induction false} LongNameNeverFound(bytes: seq<Byte>, pos: nat, name: seq<Byte>)
    requires |name| >= TWO_32
    ensures !Walk(bytes, pos, name, None).Found?
    decreases |bytes| - pos
  {
    if pos < |bytes| && !SectionAt(bytes, pos).Broken? {
      LongNameNeverFound(bytes, SectionAt(bytes, pos).end, name);
    }
  }

  lemma SectionRead(bytes: seq<Byte>, pos: nat, p: nat, size: UInt32, q: nat, len: UInt32)
    requires pos < |bytes| && bytes[pos] == 0 && p + size <= |bytes|
    requires ReadLeb(bytes, pos + 1) == Good(p, size) && ReadLeb(bytes, p) == Good(q, len)
    ensures SectionAt(bytes, pos) == if q + len > p + size then Broken(NameOverrun)
      else Custom(p + size, bytes[q..q + len], bytes[q + len..p + size])
  {
    hide LebFrom;
  }

  lemma Slices(w: seq<Byte>, e: seq<Byte>, n: seq<Byte>, rest: seq<Byte>)
    ensures var out, p := w + ([0] + e + (n + rest)), |w| + 1 + |e|;
      && out[|w|] == 0 && StandsAt(e, out, |w| + 1) && StandsAt(n, out, p) && out[p + |n|..] == rest
      && |out| == p + |n| + |rest|
  {
  }

  lemma CustomSectionIs(name: seq<Byte>, payload: seq<Byte>)
    ensures var b, n := |Body(name, payload)|, EncodeLeb(|name| % TWO_32);
      && b == |n| + |name + payload|
      && CustomSection(name, payload) == [0] + EncodeLeb(b % TWO_32) + (n + (name + payload))
  {
    hide EncodeLeb;
    var n := EncodeLeb(|name| % TWO_32);
    assert n + name + payload == n + (name + payload);
  }

  lemma PartsRead(w: seq<Byte>, e: seq<Byte>, n: seq<Byte>, rest: seq<Byte>, size: UInt32, len: UInt32)
    requires e == EncodeLeb(size) && n == EncodeLeb(len) && size <= |n| + |rest|
    ensures var out, p := w + ([0] + e + (n + rest)), |w| + 1 + |e|; var q, end := p + |n|, p + size;
      && |out| == q + |rest| && out[q..] == rest
      && SectionAt(out, |w|) == if q + len > end then Broken(NameOverrun) else Custom(end, out[q..q + len], out[q + len..end])
  {
    hide LebFrom, EncodeLeb, ReadLeb, SectionAt, StandsAt;
    var out, p := w + ([0] + e + (n + rest)), |w| + 1 + |e|;
    Slices(w, e, n, rest);
    LebRoundTrip(out, |w| + 1, size);
    LebRoundTrip(out, p, len);
    SectionRead(out, |w|, p, size, p + |n|, len);
  }

  /** The appended section as the walk meets it: its size is |body| mod 2^32. */
  lemma AppendedSection(w: seq<Byte>, name: seq<Byte>, payload: seq<Byte>, q: nat, end: nat)
    requires var b := |Body(name, payload)|; var p := |w| + 1 + |EncodeLeb(b % TWO_32)|;
      q == p + |EncodeLeb(|name| % TWO_32)| && end == p + b % TWO_32
    ensures var out, len := w + CustomSection(name, payload), |name| % TWO_32;
      && |w| < |out| && end <= |out| && |out| - q == |name| + |payload| && out[q..] == name + payload
      && SectionAt(out, |w|) == if q + len > end then Broken(NameOverrun) else Custom(end, out[q..q + len], out[q + len..end])
  {
    hide LebFrom, EncodeLeb, ReadLeb, SectionAt, StandsAt, Body, CustomSection;
    var b := |Body(name, payload)|;
    var e, n := EncodeLeb(b % TWO_32), EncodeLeb(|name| % TWO_32);
    CustomSectionIs(name, payload);
    PartsRead(w, e, n, name + payload, b % TWO_32, |name| % TWO_32);
  }

  lemma AppendedFits(w: seq<Byte>, name: seq<Byte>, payload: seq<Byte>)
    requires |Body(name, payload)| < TWO_32
    ensures var out := w + CustomSection(name, payload);
      |w| < |out| && SectionAt(out, |w|) == Custom(|out|, name, payload)
  {
    hide LebFrom, EncodeLeb, ReadLeb, SectionAt;
    var b := |Body(name, payload)|;
    var p := |w| + 1 + |EncodeLeb(b)|;
    var q := p + |EncodeLeb(|name|)|;
    AppendedSection(w, name, payload, q, p + b);
    var out := w + CustomSection(name, payload);
    assert out[q..q + |name|] == out[q..][..|name|] == name;
    assert out[q + |name|..p + b] == out[q..][|name|..] == payload;
  }

  lemma TruncatedPayloadShorter(w: seq<Byte>, name: seq<Byte>, payload: seq<Byte>)
    requires |Body(name, payload)| >= TWO_32 && |name| < TWO_32
    ensures var out := w + CustomSection(name, payload);
      |w| < |out| && !SectionAt(out, |w|).Skipped?
      && (SectionAt(out, |w|).Custom? ==> SectionAt(out, |w|).name == name && |SectionAt(out, |w|).payload| < |payload|)
  {
    hide LebFrom, EncodeLeb, ReadLeb, SectionAt;
    var b := |Body(name, payload)|;
    var p := |w| + 1 + |EncodeLeb(b % TWO_32)|;
    var q := p + |EncodeLeb(|name|)|;
    AppendedSection(w, name, payload, q, p + b % TWO_32);
    var out := w + CustomSection(name, payload);
    assert out[q..q + |name|] == out[q..][..|name|] == name;
  }

  /** Finding an appended section gives back exactly its payload if and only if the section's body fits a
      32-bit size; then every other name is answered as before. */
  lemma FindAfterAppend(w: seq<Byte>, name: seq<Byte>, payload: seq<Byte>, other: seq<Byte>)
    requires Find(w, name) == NotFound
    ensures Find(w + CustomSection(name, payload), name) == Found(payload) <==> |Body(name, payload)| < TWO_32
    ensures |Body(name, payload)| < TWO_32 && other != name ==> Find(w + CustomSection(name, payload), other) == Find(w, other)
  {
    var out := w + CustomSection(name, payload);
    hide SectionAt, Body, CustomSection;
    assert out[..PREAMBLE_SIZE] == w[..PREAMBLE_SIZE];
    WalkedIsFramed(w, PREAMBLE_SIZE, name, None);
    WalkExtends(w, CustomSection(name, payload), PREAMBLE_SIZE, name, None);
    WalkExtends(w, CustomSection(name, payload), PREAMBLE_SIZE, other, None);
    if |Body(name, payload)| < TWO_32 {
      AppendedFits(w, name, payload);
    } else if |name| >= TWO_32 {
      LongNameNeverFound(out, PREAMBLE_SIZE, name);
    } else {
      TruncatedPayloadShorter(w, name, payload);
      if SectionAt(out, |w|).Custom? {
        WalkKeepsFound(out, SectionAt(out, |w|).end, name, SectionAt(out, |w|).payload);
      }
    }
  }

  // ---- the formats spelled out ----

  /** The number that the groups of an unsigned LEB128 denote (section 5.2.2 of the WebAssembly Core
      Specification): a byte below 2^7 is its own value, any other adds to 2^7 times what follows. */
  function Uleb(b: seq<Byte>): nat
    requires |b| > 0
  {
    if |b| == 1 then b[0] % 0x80 else (b[0] % 0x80) + 0x80 * Uleb(b[1..])
  }

  lemma WrapInner(a: nat, b: nat)
    ensures (a % TWO_32 + b) % TWO_32 == (a + b) % TWO_32
  {
    var q := a / TWO_32;
    assert a + b == a % TWO_32 + b + q * TWO_32;
  }

  lemma ShiftUleb(low: nat, high: nat, i: nat)
    requires i + 1 < MAX_LEB_BYTES
    ensures Shift(low + 0x80 * high, i) == Shift(low, i) + Shift(high, i + 1)
  {
    if i == 0 {} else if i == 1 {} else if i == 2 {}
  }

  lemma UlebUnfold(bytes: seq<Byte>, pos: nat)
    requires pos < |bytes|
    ensures Uleb([bytes[pos]]) == bytes[pos] % 0x80
    ensures forall p :: pos + 1 < p <= |bytes| ==>
      Uleb(bytes[pos..p]) == (bytes[pos] % 0x80) + 0x80 * Uleb(bytes[pos + 1..p])
  {
    forall p | pos + 1 < p <= |bytes|
      ensures Uleb(bytes[pos..p]) == (bytes[pos] % 0x80) + 0x80 * Uleb(bytes[pos + 1..p])
    {
      assert bytes[pos..p][1..] == bytes[pos + 1..p];
    }
  }

  lemma {:induction false} LebFromShape(bytes: seq<Byte>, pos: nat, i: nat, acc: UInt32)
    requires i < MAX_LEB_BYTES && LebFrom(bytes, pos, i, acc).Good?
    ensures var p := LebFrom(bytes, pos, i, acc).pos;
      && pos < p <= |bytes| && p - pos <= MAX_LEB_BYTES - i
      && bytes[p - 1] < 0x80 && (forall k :: pos <= k < p - 1 ==> bytes[k] >= 0x80)
    decreases MAX_LEB_BYTES - i
  {
    LebUnfold(bytes, pos, i, acc);
    LebExtends(bytes, [], pos, i, acc);
    if bytes[pos] >= 0x80 {
      var next := (acc + Shift(bytes[pos] % 0x80, i)) % TWO_32;
      LebFromShape(bytes, pos + 1, i + 1, next);
    }
  }

  /** One group more in front: the low bits at place i, the rest at place i + 1. */
  lemma GroupInFront(acc: UInt32, low: nat, high: nat, i: nat)
    requires i + 1 < MAX_LEB_BYTES
    ensures ((acc + Shift(low, i)) % TWO_32 + Shift(high, i + 1)) % TWO_32 == (acc + Shift(low + 0x80 * high, i)) % TWO_32
  {
    ShiftUleb(low, high, i);
    hide Shift;
    WrapInner(acc + Shift(low, i), Shift(high, i + 1));
  }

  lemma {:induction false} LebFromDenotes(bytes: seq<Byte>, pos: nat, i: nat, acc: UInt32, p: nat)
    requires i < MAX_LEB_BYTES && pos < p <= |bytes|
    requires LebFrom(bytes, pos, i, acc).Good? && LebFrom(bytes, pos, i, acc).pos == p
    ensures LebFrom(bytes, pos, i, acc).value == (acc + Shift(Uleb(bytes[pos..p]), i)) % TWO_32
    decreases MAX_LEB_BYTES - i
  {
    hide Shift, LebFrom, Uleb;
    LebUnfold(bytes, pos, i, acc);
    UlebUnfold(bytes, pos);
    if bytes[pos] < 0x80 {
      assert bytes[pos..p] == [bytes[pos]];
    } else {
      var next := (acc + Shift(bytes[pos] % 0x80, i)) % TWO_32;
      LebFromShape(bytes, pos + 1, i + 1, next);
      LebFromDenotes(bytes, pos + 1, i + 1, next, p);
      GroupInFront(acc, bytes[pos] % 0x80, Uleb(bytes[pos + 1..p]), i);
    }
  }

  /** What a successful read returns: at most five bytes, all but the last with the top bit set, and the number
      they denote cut to 32 bits. */
  lemma LebDenotes(bytes: seq<Byte>, pos: nat)
    requires ReadLeb(bytes, pos).Good?
    ensures var p := ReadLeb(bytes, pos).pos;
      && pos < p <= |bytes| && p - pos <= 5
      && bytes[p - 1] < 0x80 && (forall k :: pos <= k < p - 1 ==> bytes[k] >= 0x80)
      && ReadLeb(bytes, pos).value == Uleb(bytes[pos..p]) % TWO_32
  {
    LebFromShape(bytes, pos, 0, 0);
    LebFromDenotes(bytes, pos, 0, 0, ReadLeb(bytes, pos).pos);
  }

  lemma {:induction false} LebFromGood(bytes: seq<Byte>, pos: nat, i: nat, acc: UInt32, p: nat)
    requires i < MAX_LEB_BYTES && pos < p <= |bytes| && p - pos <= MAX_LEB_BYTES - i
    requires bytes[p - 1] < 0x80 && forall k :: pos <= k < p - 1 ==> bytes[k] >= 0x80
    ensures LebFrom(bytes, pos, i, acc).Good? && LebFrom(bytes, pos, i, acc).pos == p
    decreases p - pos
  {
    hide Shift;
    if pos + 1 < p {
      LebFromGood(bytes, pos + 1, i + 1, (acc + Shift(bytes[pos] % 0x80, i)) % TWO_32, p);
    }
  }

  lemma {:induction false} FirstEnd(bytes: seq<Byte>, pos: nat, k: nat) returns (first: nat)
    requires pos <= k < |bytes| && bytes[k] < 0x80
    ensures pos <= first <= k && bytes[first] < 0x80 && forall j :: pos <= j < first ==> bytes[j] >= 0x80
    decreases k - pos
  {
    if bytes[pos] < 0x80 {
      first := pos;
    } else {
      first := FirstEnd(bytes, pos + 1, k);
    }
  }

  /** A read succeeds exactly when one of the five bytes from pos on ends the groups. */
  lemma LebAcceptedIff(bytes: seq<Byte>, pos: nat)
    ensures ReadLeb(bytes, pos).Good? <==> exists k :: pos <= k < pos + 5 && k < |bytes| && bytes[k] < 0x80
  {
    hide LebFrom;
    if ReadLeb(bytes, pos).Good? {
      LebDenotes(bytes, pos);
      var last := ReadLeb(bytes, pos).pos - 1;
      assert bytes[last] < 0x80;
    }
    if k :| pos <= k < pos + 5 && k < |bytes| && bytes[k] < 0x80 {
      var first := FirstEnd(bytes, pos, k);
      LebFromGood(bytes, pos, 0, 0, first + 1);
    }
  }

  lemma LastGroupPositive(v: nat)
    requires v > 0
    ensures |EncodeLeb(v)| == 1 ==> EncodeLeb(v)[0] > 0
  {
  }

  /** The encoding denotes its number and is no longer than it need be. */
  lemma {:induction false} EncodeLebDenotes(v: nat)
    ensures Uleb(EncodeLeb(v)) == v
    ensures var e := EncodeLeb(v); e[|e| - 1] < 0x80 && (|e| > 1 ==> e[|e| - 1] > 0)
    ensures forall k :: 0 <= k < |EncodeLeb(v)| - 1 ==> EncodeLeb(v)[k] >= 0x80
  {
    EncodeUnfold(v);
    hide EncodeLeb;
    if v >= 0x80 {
      EncodeLebDenotes(v / 0x80);
      var e, rest := EncodeLeb(v), EncodeLeb(v / 0x80);
      assert e[1..] == rest && e[0] == v % 0x80 + 0x80 && e[|e| - 1] == rest[|rest| - 1];
      forall k | 0 <= k < |e| - 1 ensures e[k] >= 0x80 {
        if k > 0 { assert e[k] == rest[k - 1]; }
      }
      LastGroupPositive(v / 0x80);
    }
  }

  /** A short custom section, byte by byte. */
  lemma ShortSection(name: seq<Byte>, payload: seq<Byte>, nameLength: Byte, bodyLength: Byte)
    requires nameLength == |name| && bodyLength == 1 + |name| + |payload| < 0x80
    ensures CustomSection(name, payload) == [0, bodyLength, nameLength] + name + payload
  {
  }

  lemma {:induction false} WalkReason(bytes: seq<Byte>, pos: nat, name: seq<Byte>, found: Option<seq<Byte>>)
    ensures Walk(bytes, pos, name, found) != Invalid(BadPreamble)
    decreases |bytes| - pos
  {
    hide ReadLeb;
    if pos < |bytes| && !SectionAt(bytes, pos).Broken? {
      var s := SectionAt(bytes, pos);
      WalkReason(bytes, s.end, name, found);
      if s.Custom? {
        WalkReason(bytes, s.end, name, Some(s.payload));
      }
    }
  }

  /** A core module starts with these eight bytes, and nothing else is turned away for its preamble. */
  lemma PreambleIff(bytes: seq<Byte>, name: seq<Byte>)
    ensures Find(bytes, name) == Invalid(BadPreamble) <==>
      !(|bytes| >= 8 && bytes[..8] == [0, 'a' as int, 's' as int, 'm' as int, 1, 0, 0, 0])
  {
    hide Walk;
    WalkReason(bytes, 8, name, None);
  }

  // ---- whole modules ----

  /** A top-level section: a custom one, or one with another id and any content. */
  datatype Part = CustomPart(name: seq<Byte>, payload: seq<Byte>) | OtherPart(id: Byte, content: seq<Byte>)

  predicate PartFits(p: Part) {
    match p
    case CustomPart(name, payload) => |Body(name, payload)| < TWO_32
    case OtherPart(id, content) => id != 0 && |content| < TWO_32
  }

  function PartBytes(p: Part): (b: seq<Byte>)
    ensures |b| > 0
  {
    match p
    case CustomPart(name, payload) => CustomSection(name, payload)
    case OtherPart(id, content) => [id] + EncodeLeb(|content|) + content
  }

  function PartsBytes(parts: seq<Part>): seq<Byte> {
    if |parts| == 0 then [] else PartBytes(parts[0]) + PartsBytes(parts[1..])
  }

  /** The payloads of the custom sections with a name, in order. */
  function Payloads(parts: seq<Part>, name: seq<Byte>): seq<seq<Byte>> {
    if |parts| == 0 then []
    else (if parts[0].CustomPart? && parts[0].name == name then [parts[0].payload] else []) + Payloads(parts[1..], name)
  }

  /** None, the one, or a complaint about several. */
  function Lookup(payloads: seq<seq<Byte>>): FindResult {
    if |payloads| == 0 then NotFound else if |payloads| == 1 then Found(payloads[0]) else Invalid(Duplicate)
  }

  lemma OtherSection(w: seq<Byte>, id: Byte, content: seq<Byte>)
    requires id != 0 && |content| < TWO_32
    ensures var out := w + PartBytes(OtherPart(id, content)); |w| < |out| && SectionAt(out, |w|) == Skipped(|out|)
  {
    hide LebFrom, EncodeLeb, ReadLeb;
    var e := EncodeLeb(|content|);
    var out := w + PartBytes(OtherPart(id, content));
    assert out == w + [id] + e + content;
    assert out[|w|] == id && out[|w| + 1..|w| + 1 + |e|] == e;
    LebRoundTrip(out, |w| + 1, |content|);
  }

  lemma PartStands(w: seq<Byte>, p: Part, more: seq<Byte>)
    requires PartFits(p)
    ensures var out, end := w + PartBytes(p) + more, |w| + |PartBytes(p)|;
      |w| < |out| && SectionAt(out, |w|) == if p.CustomPart? then Custom(end, p.name, p.payload) else Skipped(end)
  {
    hide SectionAt, CustomSection, Body, EncodeLeb;
    if p.CustomPart? {
      AppendedFits(w, p.name, p.payload);
    } else {
      OtherSection(w, p.id, p.content);
    }
    SectionExtends(w + PartBytes(p), more, |w|);
  }

  lemma {:induction false} WalkParts(w: seq<Byte>, parts: seq<Part>, name: seq<Byte>, found: Option<seq<Byte>>)
    requires forall k :: 0 <= k < |parts| ==> PartFits(parts[k])
    ensures Walk(w + PartsBytes(parts), |w|, name, found) ==
      Lookup((if found.Some? then [found.value] else []) + Payloads(parts, name))
    decreases |parts|
  {
    hide SectionAt, PartBytes, PartFits, Walk;
    var bytes := w + PartsBytes(parts);
    WalkStep(bytes, |w|, name, found);
    if |parts| > 0 {
      var p, rest := parts[0], parts[1..];
      var next := w + PartBytes(p);
      assert bytes == next + PartsBytes(rest);
      PartStands(w, p, PartsBytes(rest));
      if p.OtherPart? || p.name != name {
        WalkParts(next, rest, name, found);
        assert Payloads(parts, name) == Payloads(rest, name);
      } else if found.None? {
        WalkParts(next, rest, name, Some(p.payload));
        assert [] + Payloads(parts, name) == [p.payload] + Payloads(rest, name);
      }
    }
  }

  /** On every well-formed module, section by section, the answer is the payload of the one custom section with
      the name, a complaint if there are several, and not found otherwise. */
  lemma FindInModule(parts: seq<Part>, name: seq<Byte>)
    requires forall k :: 0 <= k < |parts| ==> PartFits(parts[k])
    ensures Find([0, 'a' as int, 's' as int, 'm' as int, 1, 0, 0, 0] + PartsBytes(parts), name) == Lookup(Payloads(parts, name))
  {
    hide Walk, PartBytes, PartFits;
    WalkParts(PREAMBLE, parts, name, None);
    assert (PREAMBLE + PartsBytes(parts))[..8] == PREAMBLE;
    assert [] + Payloads(parts, name) == Payloads(parts, name);
  }
}
