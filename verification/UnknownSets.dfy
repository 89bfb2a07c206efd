/** The three-valued kernels as they run: operand slots overwritten in place, unknown sets as descriptors
    in the linear memory, merged into fresh arena storage. */
module UnknownSets {
  import opened Machine
  import opened Values
  import opened Arith
  import opened Compare
  import opened ThreeValued
  import opened BumpArena

  // ---- 32-bit words in memory ----

  function LoadU32(m: seq<Byte>, off: nat): UInt32
    requires off + 4 <= |m|
  {
    (m[off] as int) + 0x100 * (m[off + 1] as int) + 0x1_0000 * (m[off + 2] as int) + 0x100_0000 * (m[off + 3] as int)
  }

  lemma LowByte(low: Byte, rest: nat)
    ensures ((low as int) + 0x100 * rest) % 0x100 == low as int
    ensures ((low as int) + 0x100 * rest) / 0x100 == rest
  {
  }

  /** The lowest byte comes first. */
  lemma LowestByteFirst(m: seq<Byte>, off: nat)
    requires off + 4 <= |m|
    ensures var v := LoadU32(m, off);
      && m[off] as int == v % 0x100
      && m[off + 1] as int == v / 0x100 % 0x100
      && m[off + 2] as int == v / 0x100 / 0x100 % 0x100
      && m[off + 3] as int == v / 0x100 / 0x100 / 0x100
  {
    var a, b, c, d := m[off], m[off + 1], m[off + 2], m[off + 3] as int;
    var upper := (c as int) + 0x100 * d;
    var middle := (b as int) + 0x100 * upper;
    assert LoadU32(m, off) == (a as int) + 0x100 * middle;
    LowByte(a, middle);
    LowByte(b, upper);
    LowByte(c, d);
  }

  function ReadIds(m: seq<Byte>, off: nat, len: nat): (ids: seq<UInt32>)
    requires off + 4 * len <= |m|
    ensures |ids| == len && forall i :: 0 <= i < len ==> ids[i] == LoadU32(m, off + 4 * i)
  {
    seq(len, i requires 0 <= i < len => LoadU32(m, off + 4 * i))
  }

  lemma BytesOfWord(v: UInt32)
    ensures v % 0x100 + 0x100 * (v / 0x100 % 0x100) + 0x1_0000 * (v / 0x1_0000 % 0x100) + 0x100_0000 * (v / 0x100_0000) == v
  {
  }

  method StoreU32(mem: array<Byte>, off: nat, v: UInt32)
    requires off + 4 <= mem.Length
    modifies mem
    ensures LoadU32(mem[..], off) == v
    ensures forall x :: 0 <= x < mem.Length && !(off <= x < off + 4) ==> mem[x] == old(mem[x])
  {
    var a: Byte, b: Byte, c: Byte, d: Byte := v % 0x100, v / 0x100 % 0x100, v / 0x1_0000 % 0x100, v / 0x100_0000;
    BytesOfWord(v);
    mem[off] := a;
    mem[off + 1] := b;
    mem[off + 2] := c;
    mem[off + 3] := d;
  }

  // ---- sorted id arrays ----

  ghost predicate StrictlySorted(s: seq<UInt32>) {
    forall i, j :: 0 <= i < j < |s| ==> s[i] < s[j]
  }

  function SetOf(s: seq<UInt32>): set<UInt32> {
    set x | x in s
  }

  function Merge(a: seq<UInt32>, b: seq<UInt32>): seq<UInt32>
    decreases |a| + |b|
  {
    if |a| == 0 then b
    else if |b| == 0 then a
    else if a[0] < b[0] then [a[0]] + Merge(a[1..], b)
    else if a[0] > b[0] then [b[0]] + Merge(a, b[1..])
    else [a[0]] + Merge(a[1..], b[1..])
  }

  lemma {:induction false} MergeMember(a: seq<UInt32>, b: seq<UInt32>, x: UInt32)
    ensures x in Merge(a, b) <==> x in a || x in b
    decreases |a| + |b|
  {
    if |a| > 0 && |b| > 0 {
      assert x in a <==> x == a[0] || x in a[1..];
      assert x in b <==> x == b[0] || x in b[1..];
      if a[0] < b[0] {
        MergeMember(a[1..], b, x);
      } else if a[0] > b[0] {
        MergeMember(a, b[1..], x);
      } else {
        MergeMember(a[1..], b[1..], x);
      }
    }
  }

  lemma ConsMerge(x: UInt32, a: seq<UInt32>, b: seq<UInt32>)
    requires StrictlySorted(Merge(a, b))
    requires (forall y :: y in a ==> x < y) && (forall y :: y in b ==> x < y)
    ensures StrictlySorted([x] + Merge(a, b))
  {
    var s := Merge(a, b);
    forall j | 0 <= j < |s| ensures x < s[j] {
      MergeMember(a, b, s[j]);
    }
  }

  lemma {:induction false} MergeSorted(a: seq<UInt32>, b: seq<UInt32>)
    requires StrictlySorted(a) && StrictlySorted(b)
    ensures StrictlySorted(Merge(a, b)) && |Merge(a, b)| <= |a| + |b|
    decreases |a| + |b|
  {
    if |a| > 0 && |b| > 0 {
      if a[0] < b[0] {
        MergeSorted(a[1..], b);
        ConsMerge(a[0], a[1..], b);
      } else if a[0] > b[0] {
        MergeSorted(a, b[1..]);
        ConsMerge(b[0], a, b[1..]);
      } else {
        MergeSorted(a[1..], b[1..]);
        ConsMerge(a[0], a[1..], b[1..]);
      }
    }
  }

  /** The merge of two strictly sorted arrays is the strictly sorted array of their union. */
  lemma MergeIsUnion(a: seq<UInt32>, b: seq<UInt32>)
    requires StrictlySorted(a) && StrictlySorted(b)
    ensures StrictlySorted(Merge(a, b)) && |Merge(a, b)| <= |a| + |b|
    ensures SetOf(Merge(a, b)) == SetOf(a) + SetOf(b)
  {
    MergeSorted(a, b);
    forall x: UInt32 ensures x in Merge(a, b) <==> x in a || x in b {
      MergeMember(a, b, x);
    }
  }

  // ---- the merge over memory ----

  lemma LoadFrame(m: seq<Byte>, n: seq<Byte>, off: nat)
    requires off + 4 <= |m| == |n| && forall x :: off <= x < off + 4 ==> m[x] == n[x]
    ensures LoadU32(m, off) == LoadU32(n, off)
  {
  }

  lemma ReadFrame(m: seq<Byte>, n: seq<Byte>, off: nat, len: nat)
    requires off + 4 * len <= |m| == |n| && forall x :: off <= x < off + 4 * len ==> m[x] == n[x]
    ensures ReadIds(m, off, len) == ReadIds(n, off, len)
  {
    forall i | 0 <= i < len ensures LoadU32(m, off + 4 * i) == LoadU32(n, off + 4 * i) {
      LoadFrame(m, n, off + 4 * i);
    }
  }

  /** `out[k++] = v` */
  method AppendId(mem: array<Byte>, dst: nat, k: nat, v: UInt32, ghost w: seq<UInt32>)
    requires dst + 4 * (k + 1) <= mem.Length && ReadIds(mem[..], dst, k) == w
    modifies mem
    ensures ReadIds(mem[..], dst, k + 1) == w + [v]
    ensures forall x :: 0 <= x < mem.Length && !(dst + 4 * k <= x < dst + 4 * k + 4) ==> mem[x] == old(mem[x])
  {
    hide LoadU32;
    StoreU32(mem, dst + 4 * k, v);
    ReadFrame(old(mem[..]), mem[..], dst, k);
    assert ReadIds(mem[..], dst, k + 1)[..k] == ReadIds(mem[..], dst, k);
  }

  method LoadId(mem: array<Byte>, ids: nat, i: nat, ghost m: seq<Byte>, ghost len: nat) returns (v: UInt32)
    requires i < len && ids + 4 * len <= mem.Length == |m|
    requires forall x :: ids <= x < ids + 4 * len ==> mem[x] == m[x]
    ensures v == ReadIds(m, ids, len)[i]
  {
    hide LoadU32;
    LoadFrame(mem[..], m, ids + 4 * i);
    v := LoadU32(mem[..], ids + 4 * i);
  }

  predicate Clear(a: nat, aLen: nat, b: nat, bLen: nat) {
    aLen == 0 || bLen == 0 || a + aLen <= b || b + bLen <= a
  }

  lemma HeldIsClear(a: nat, aLen: nat, b: nat, bLen: nat, held: iset<int>)
    requires forall x :: a <= x < a + aLen ==> x in held
    requires forall x :: b <= x < b + bLen ==> x !in held
    ensures Clear(a, aLen, b, bLen)
  {
    var x := if a < b then b else a;
    var held := x in held;
  }

  /** `w` has been written and what remains of the two arrays is still to be merged. */
  ghost predicate Merging(a: seq<UInt32>, b: seq<UInt32>, i: nat, j: nat, w: seq<UInt32>) {
    i <= |a| && j <= |b| && |w| <= i + j && w + Merge(a[i..], b[j..]) == Merge(a, b)
  }

  lemma MergingStart(a: seq<UInt32>, b: seq<UInt32>)
    ensures Merging(a, b, 0, 0, [])
  {
    assert a[0..] == a && b[0..] == b;
  }

  lemma MergeUnfolds(a: seq<UInt32>, b: seq<UInt32>, i: nat, j: nat)
    requires i <= |a| && j <= |b|
    ensures i < |a| && (j == |b| || a[i] < b[j]) ==> Merge(a[i..], b[j..]) == [a[i]] + Merge(a[i + 1..], b[j..])
    ensures j < |b| && (i == |a| || b[j] < a[i]) ==> Merge(a[i..], b[j..]) == [b[j]] + Merge(a[i..], b[j + 1..])
    ensures i < |a| && j < |b| && a[i] == b[j] ==> Merge(a[i..], b[j..]) == [a[i]] + Merge(a[i + 1..], b[j + 1..])
    ensures i == |a| && j == |b| ==> Merge(a[i..], b[j..]) == []
  {
    if i < |a| {
      assert a[i..][1..] == a[i + 1..];
      assert a[i..] == [a[i]] + a[i + 1..];
    }
    if j < |b| {
      assert b[j..][1..] == b[j + 1..];
      assert b[j..] == [b[j]] + b[j + 1..];
    }
  }

  lemma Shift(w: seq<UInt32>, x: UInt32, rest: seq<UInt32>)
    ensures w + ([x] + rest) == (w + [x]) + rest
  {
  }

  lemma MergingStep(a: seq<UInt32>, b: seq<UInt32>, i: nat, j: nat, w: seq<UInt32>)
    requires Merging(a, b, i, j, w)
    ensures i < |a| && (j == |b| || a[i] < b[j]) ==> Merging(a, b, i + 1, j, w + [a[i]])
    ensures j < |b| && (i == |a| || b[j] < a[i]) ==> Merging(a, b, i, j + 1, w + [b[j]])
    ensures i < |a| && j < |b| && a[i] == b[j] ==> Merging(a, b, i + 1, j + 1, w + [a[i]])
    ensures i == |a| && j == |b| ==> w == Merge(a, b)
  {
    hide Merge;
    MergeUnfolds(a, b, i, j);
    if i < |a| && (j == |b| || a[i] < b[j]) {
      Shift(w, a[i], Merge(a[i + 1..], b[j..]));
    } else if j < |b| && (i == |a| || b[j] < a[i]) {
      Shift(w, b[j], Merge(a[i..], b[j + 1..]));
    } else if i < |a| {
      Shift(w, a[i], Merge(a[i + 1..], b[j + 1..]));
    } else {
      assert w + [] == w;
    }
  }

  method MergeSortedIdArrays(mem: array<Byte>, idsA: nat, lenA: nat, idsB: nat, lenB: nat, dst: nat) returns (k: nat)
    requires idsA + 4 * lenA <= mem.Length && idsB + 4 * lenB <= mem.Length && dst + 4 * (lenA + lenB) <= mem.Length
    requires Clear(idsA, 4 * lenA, dst, 4 * (lenA + lenB)) && Clear(idsB, 4 * lenB, dst, 4 * (lenA + lenB))
    modifies mem
    ensures k <= lenA + lenB
    ensures ReadIds(mem[..], dst, k) == Merge(ReadIds(old(mem[..]), idsA, lenA), ReadIds(old(mem[..]), idsB, lenB))
    ensures forall x :: 0 <= x < mem.Length && !(dst <= x < dst + 4 * (lenA + lenB)) ==> mem[x] == old(mem[x])
  {
    hide LoadU32, ReadIds, Merge, Merging;
    ghost var m := mem[..];
    ghost var a, b := ReadIds(m, idsA, lenA), ReadIds(m, idsB, lenB);
    ghost var w: seq<UInt32> := [];
    var i: nat, j: nat := 0, 0;
    k := 0;
    MergingStart(a, b);
    while i < lenA && j < lenB
      invariant i <= lenA && j <= lenB && k == |w| <= i + j && ReadIds(mem[..], dst, k) == w
      invariant Merging(a, b, i, j, w)
      invariant forall x :: 0 <= x < mem.Length && !(dst <= x < dst + 4 * k) ==> mem[x] == m[x]
    {
      MergingStep(a, b, i, j, w);
      var ai := LoadId(mem, idsA, i, m, lenA);
      var bj := LoadId(mem, idsB, j, m, lenB);
      if ai < bj {
        AppendId(mem, dst, k, ai, w);
        w := w + [ai];
        i := i + 1;
      } else if ai > bj {
        AppendId(mem, dst, k, bj, w);
        w := w + [bj];
        j := j + 1;
      } else {
        AppendId(mem, dst, k, ai, w);
        w := w + [ai];
        i, j := i + 1, j + 1;
      }
      k := k + 1;
    }
    while i < lenA
      invariant i <= lenA && j <= lenB && (i < lenA ==> j == lenB) && k == |w| <= i + j && ReadIds(mem[..], dst, k) == w
      invariant Merging(a, b, i, j, w)
      invariant forall x :: 0 <= x < mem.Length && !(dst <= x < dst + 4 * k) ==> mem[x] == m[x]
    {
      MergingStep(a, b, i, j, w);
      var ai := LoadId(mem, idsA, i, m, lenA);
      AppendId(mem, dst, k, ai, w);
      w := w + [ai];
      i, k := i + 1, k + 1;
    }
    while j < lenB
      invariant i == lenA && j <= lenB && k == |w| <= i + j && ReadIds(mem[..], dst, k) == w
      invariant Merging(a, b, i, j, w)
      invariant forall x :: 0 <= x < mem.Length && !(dst <= x < dst + 4 * k) ==> mem[x] == m[x]
    {
      MergingStep(a, b, i, j, w);
      var bj := LoadId(mem, idsB, j, m, lenB);
      AppendId(mem, dst, k, bj, w);
      w := w + [bj];
      j, k := j + 1, k + 1;
    }
    MergingStep(a, b, i, j, w);
  }

  // ---- descriptors ----

  /** A descriptor {ids offset, length} at u, and the strictly sorted ids it points at. */
  ghost predicate DescriptorIn(m: seq<Byte>, u: nat) {
    && u + 8 <= |m|
    && LoadU32(m, u) + 4 * LoadU32(m, u + 4) <= |m|
    && StrictlySorted(ReadIds(m, LoadU32(m, u), LoadU32(m, u + 4)))
  }

  ghost function IdsOf(m: seq<Byte>, u: nat): seq<UInt32>
    requires DescriptorIn(m, u)
  {
    ReadIds(m, LoadU32(m, u), LoadU32(m, u + 4))
  }

  ghost predicate InFootprint(m: seq<Byte>, u: nat, x: int)
    requires DescriptorIn(m, u)
  {
    u <= x < u + 8 || LoadU32(m, u) <= x < LoadU32(m, u) + 4 * LoadU32(m, u + 4)
  }

  /** An unknown's descriptor lies in storage that someone holds. Offset 0 is the empty set. */
  ghost predicate HeldIn(v: Value, m: seq<Byte>, held: iset<int>) {
    v.Unknown? && v.unk != 0 ==> DescriptorIn(m, v.unk) && forall x :: InFootprint(m, v.unk, x) ==> x in held
  }

  /** What a slot denotes. */
  ghost function Meaning(v: Value, m: seq<Byte>): Outcome {
    match v
    case Unknown(u) => if u != 0 && DescriptorIn(m, u) then Unk(SetOf(IdsOf(m, u))) else Unk({})
    case Error(c) => Err(c)
    case _ => Ok(v)
  }

  /** What an envelope hands on is exactly what denotes no value. */
  lemma AbsorbedIffNoValue(v: Value, m: seq<Byte>)
    ensures Absorbed(v) <==> !Meaning(v, m).Ok?
  {
  }

  /** The layout on an instance: the descriptor at 8 points at two ids behind it. */
  lemma DescriptorExample()
    ensures Meaning(Unknown(8), [0, 0, 0, 0, 0, 0, 0, 0, 16, 0, 0, 0, 2, 0, 0, 0, 5, 0, 0, 0, 9, 1, 0, 0]) == Unk({5, 0x109})
  {
    var m: seq<Byte> := [0, 0, 0, 0, 0, 0, 0, 0, 16, 0, 0, 0, 2, 0, 0, 0, 5, 0, 0, 0, 9, 1, 0, 0];
    assert LoadU32(m, 8) == 16 && LoadU32(m, 12) == 2 && LoadU32(m, 16) == 5 && LoadU32(m, 20) == 0x109;
    assert ReadIds(m, 16, 2) == [5, 0x109];
    assert SetOf([5, 0x109]) == {5, 0x109};
  }

  /** How many ids an unknown carries. */
  ghost function SetSize(v: Value, m: seq<Byte>): nat {
    if v.Unknown? && v.unk != 0 && DescriptorIn(m, v.unk) then |IdsOf(m, v.unk)| else 0
  }

  ghost predicate Keeps(m: seq<Byte>, held: iset<int>, n: seq<Byte>, held': iset<int>) {
    |m| == |n| && held <= held' && forall x :: 0 <= x < |m| && x in held ==> m[x] == n[x]
  }

  lemma KeepsPastWrite(l: seq<Byte>, h: iset<int>, m: seq<Byte>, i: iset<int>, n: seq<Byte>, out: nat, len: nat)
    requires Keeps(l, h, m, i) && |m| == |n|
    requires forall x :: 0 <= x < |m| && !(out <= x < out + len) ==> m[x] == n[x]
    requires forall x :: out <= x < out + len ==> x !in h
    ensures Keeps(l, h, n, i)
  {
  }

  /** Memory that changes only where nobody holds it changes no slot's meaning. */
  lemma HeldKept(v: Value, m: seq<Byte>, held: iset<int>, n: seq<Byte>, held': iset<int>)
    requires HeldIn(v, m, held) && Keeps(m, held, n, held')
    ensures HeldIn(v, n, held') && Meaning(v, m) == Meaning(v, n)
    ensures v.Unknown? && v.unk != 0 ==> DescriptorIn(m, v.unk) && DescriptorIn(n, v.unk) && IdsOf(m, v.unk) == IdsOf(n, v.unk)
  {
    if v.Unknown? && v.unk != 0 {
      hide ReadIds, LoadU32, SetOf;
      var u: nat := v.unk;
      assert forall x :: u <= x < u + 8 ==> InFootprint(m, u, x);
      LoadFrame(m, n, u);
      LoadFrame(m, n, u + 4);
      assert forall x :: LoadU32(m, u) <= x < LoadU32(m, u) + 4 * LoadU32(m, u + 4) ==> InFootprint(m, u, x);
      ReadFrame(m, n, LoadU32(m, u), LoadU32(m, u + 4));
    }
  }

  // ---- what a merge asks for, and what it writes ----

  /** The size computation `(len_a + len_b) * 4` is exact in 32 bits below this many ids. */
  const MAX_MERGED: nat := 0x4000_0000

  /** The bytes asked for: a 32-bit sum times four in 32 bits, at least one word. */
  function Requested(lenA: nat, lenB: nat): (bytes: UInt32)
    ensures lenA + lenB < MAX_MERGED ==> bytes >= 4 * (lenA + lenB)
    ensures lenA + lenB + 1 < MAX_MERGED ==> bytes <= UINT32_MAX - 7
  {
    var maxTotal := (lenA + lenB) % TWO_32;
    var bytes := maxTotal * 4 % TWO_32;
    if bytes == 0 then 4 else bytes
  }

  /** The merged ids stay inside the block that is obtained for them. */
  predicate StaysInside(a: seq<UInt32>, b: seq<UInt32>) {
    4 * |Merge(a, b)| <= NeedOf(Requested(|a|, |b|))
  }

  lemma {:induction false} MergeAtLeast(a: seq<UInt32>, b: seq<UInt32>)
    ensures |a| <= |Merge(a, b)| && |b| <= |Merge(a, b)| <= |a| + |b|
    decreases |a| + |b|
  {
    if |a| > 0 && |b| > 0 {
      if a[0] < b[0] {
        MergeAtLeast(a[1..], b);
      } else if a[0] > b[0] {
        MergeAtLeast(a, b[1..]);
      } else {
        MergeAtLeast(a[1..], b[1..]);
      }
    }
  }

  /** Each set fits the memory next to its descriptor. */
  predicate FitsMemory(a: seq<UInt32>) {
    4 * |a| + 8 <= TWO_32
  }

  lemma WrappedRequest(lenA: nat, lenB: nat)
    requires lenA <= MAX_MERGED - 2 && lenB <= MAX_MERGED - 2 && MAX_MERGED <= lenA + lenB
    ensures var s := lenA + lenB - MAX_MERGED;
      Requested(lenA, lenB) == (if s == 0 then 4 else 4 * s) && Requested(lenA, lenB) <= UINT32_MAX - 7
    ensures NeedOf(Requested(lenA, lenB)) < 4 * Max(lenA, lenB)
  {
  }

  /** For sets that a memory can hold, a merge whose storage is granted stays inside its block exactly when
      the two sets have fewer than 2^30 ids together. (With one id less than that, the request is the one
      size that is never granted.) */
  lemma MergeStaysInsideIff(a: seq<UInt32>, b: seq<UInt32>)
    requires FitsMemory(a) && FitsMemory(b)
    requires Requested(|a|, |b|) <= UINT32_MAX - 7
    ensures StaysInside(a, b) <==> |a| + |b| < MAX_MERGED
  {
    hide Merge, Requested, NeedOf;
    MergeAtLeast(a, b);
    if |a| + |b| >= MAX_MERGED {
      WrappedRequest(|a|, |b|);
    }
  }

  /** The instance: a set of 2^29 ids merged with itself asks for one word and writes 2 GiB. */
  lemma HalfMemoryMerge(a: seq<UInt32>)
    requires |a| == 0x2000_0000
    ensures Requested(|a|, |a|) == 4 && NeedOf(4) == 8 && 4 * |Merge(a, a)| >= 0x8000_0000 && !StaysInside(a, a)
  {
    hide Merge;
    MergeAtLeast(a, a);
  }

  ghost predicate AllHeld(slots: seq<Value>, m: seq<Byte>, held: iset<int>) {
    forall s :: 0 <= s < |slots| ==> HeldIn(slots[s], m, held)
  }

  /** Writing one slot of a memory whose held part was kept. */
  lemma WriteKeeps(before: seq<Value>, m: seq<Byte>, held: iset<int>, n: seq<Byte>, held': iset<int>, out: nat, v: Value)
    requires AllHeld(before, m, held) && Keeps(m, held, n, held') && out < |before| && HeldIn(v, n, held')
    ensures AllHeld(before[out := v], n, held')
    ensures forall s :: 0 <= s < |before| && s != out ==> Meaning(before[s], m) == Meaning(before[s], n)
  {
    hide HeldIn, Keeps, Meaning;
    forall s | 0 <= s < |before| ensures HeldIn(before[s], n, held') && Meaning(before[s], m) == Meaning(before[s], n) {
      HeldKept(before[s], m, held, n, held');
    }
  }

  // ---- the kernels ----

  predicate IsThreeValuedKind(v: Value) {
    v.Bool? || v.Unknown? || v.Error?
  }

  lemma KernelNeverUnknown(fp: Floating, op: BinOp, a: Value, b: Value)
    ensures !BinaryKernel(fp, op, a, b).Unknown?
  {
    hide IntKernel, UintKernel, DoubleKernel, BoolKernel, NumericKernel;
  }

  lemma RequestTooLarge(lenA: UInt32, lenB: UInt32)
    requires lenA <= MAX_MERGED - 2 && lenB <= MAX_MERGED - 2
    ensures Requested(lenA, lenB) > UINT32_MAX - 7 <==> lenA + lenB + 1 == MAX_MERGED
  {
    if lenA + lenB >= MAX_MERGED {
      WrappedRequest(lenA, lenB);
    }
  }

  lemma IdsFit(m: seq<Byte>, held: iset<int>, u: UInt32)
    requires u != 0 && HeldIn(Unknown(u), m, held)
    ensures u + 8 <= |m| && DescriptorIn(m, u) && LoadU32(m, u) + 4 * LoadU32(m, u + 4) <= |m|
    ensures |IdsOf(m, u)| == LoadU32(m, u + 4)
  {
  }

  lemma IdsHeld(m: seq<Byte>, held: iset<int>, u: UInt32)
    requires u != 0 && HeldIn(Unknown(u), m, held)
    ensures DescriptorIn(m, u)
    ensures forall x :: LoadU32(m, u) <= x < LoadU32(m, u) + 4 * LoadU32(m, u + 4) ==> x in held
    ensures StrictlySorted(IdsOf(m, u))
  {
    hide LoadU32, ReadIds;
    forall x | LoadU32(m, u) <= x < LoadU32(m, u) + 4 * LoadU32(m, u + 4) ensures x in held {
      assert InFootprint(m, u, x);
    }
  }

  /** After storage clear of everything held was obtained, an operand's ids still read the same and lie
      clear of it. */
  lemma SourceReady(m: seq<Byte>, held: iset<int>, n: seq<Byte>, held': iset<int>, u: UInt32, out: nat, bytes: nat)
    requires u != 0 && HeldIn(Unknown(u), m, held) && Keeps(m, held, n, held')
    requires forall x :: out <= x < out + bytes ==> x !in held
    ensures u + 8 <= |m| && DescriptorIn(m, u) && LoadU32(m, u) + 4 * LoadU32(m, u + 4) <= |m| == |n|
    ensures Clear(LoadU32(m, u), 4 * LoadU32(m, u + 4), out, bytes)
    ensures ReadIds(n, LoadU32(m, u), LoadU32(m, u + 4)) == IdsOf(m, u)
  {
    hide LoadU32, ReadIds, StrictlySorted, InFootprint;
    IdsHeld(m, held, u);
    HeldIsClear(LoadU32(m, u), 4 * LoadU32(m, u + 4), out, bytes, held);
    ReadFrame(m, n, LoadU32(m, u), LoadU32(m, u + 4));
  }

  class Kernels {
    const slots: array<Value>
    const arena: Arena

    constructor (slots: array<Value>, arena: Arena)
      ensures this.slots == slots && this.arena == arena
    {
      this.slots, this.arena := slots, arena;
    }

    ghost function Held(): iset<int>
      reads arena, arena.heap
    {
      iset x: int | arena.Reserved(x)
    }

    ghost predicate Valid()
      reads this, slots, arena, arena.heap, arena.mem, arena.chain
    {
      && arena.Valid() && arena.initialized
      && AllHeld(slots[..], arena.mem[..], Held())
    }

    ghost function Read(s: nat): Outcome
      requires s < slots.Length
      reads slots, arena.mem
    {
      Meaning(slots[s], arena.mem[..])
    }

    /** Storage from the arena disturbs nothing that is held. */
    method Obtain(n: UInt32) returns (off: UInt32)
      requires arena.Valid() && arena.initialized
      modifies arena, arena.heap, arena.mem, arena.chain
      ensures arena.Valid() && arena.initialized
      ensures forall i :: 0 <= i < |arena.chain| ==> arena.chain[i] in old(arena.chain) || fresh(arena.chain[i])
      ensures Keeps(old(arena.mem[..]), old(Held()), arena.mem[..], Held())
      ensures off == 0 && n <= UINT32_MAX - 7 ==> arena.heap.refused > old(arena.heap.refused)
      ensures arena.heap.refused >= old(arena.heap.refused)
      ensures off != 0 ==> n <= UINT32_MAX - 7 && off + n <= arena.mem.Length
      ensures off != 0 ==> forall x :: off <= x < off + n ==> x in Held() && x !in old(Held())
    {
      hide Arena.Valid, ReservedIn;
      off := arena.Alloc(n);
    }

    /** A fresh {ids, len} pair, or 0. */
    method AllocUnknownDescriptor(idsOff: UInt32, len: UInt32) returns (desc: UInt32)
      requires arena.Valid() && arena.initialized
      modifies arena, arena.heap, arena.mem, arena.chain
      ensures arena.Valid() && arena.initialized
      ensures forall i :: 0 <= i < |arena.chain| ==> arena.chain[i] in old(arena.chain) || fresh(arena.chain[i])
      ensures Keeps(old(arena.mem[..]), old(Held()), arena.mem[..], Held())
      ensures desc == 0 ==> arena.heap.refused > old(arena.heap.refused)
      ensures desc != 0 ==> desc + 8 <= arena.mem.Length && (forall x :: desc <= x < desc + 8 ==> x in Held())
      ensures desc != 0 ==> LoadU32(arena.mem[..], desc) == idsOff && LoadU32(arena.mem[..], desc + 4) == len
    {
      hide Arena.Valid, ReservedIn, LoadU32;
      desc := Obtain(8);
      if desc == 0 {
        return;
      }
      StoreU32(arena.mem, desc, idsOff);
      ghost var m := arena.mem[..];
      StoreU32(arena.mem, desc + 4, len);
      LoadFrame(m, arena.mem[..], desc);
    }

    /** Storage of the requested size for the ids of both operands. */
    method ObtainIds(lenA: UInt32, lenB: UInt32) returns (outIds: UInt32)
      requires arena.Valid() && arena.initialized
      modifies arena, arena.heap, arena.mem, arena.chain
      ensures arena.Valid() && arena.initialized
      ensures forall i :: 0 <= i < |arena.chain| ==> arena.chain[i] in old(arena.chain) || fresh(arena.chain[i])
      ensures Keeps(old(arena.mem[..]), old(Held()), arena.mem[..], Held())
      ensures var bytes := Requested(lenA, lenB);
        && (outIds == 0 ==> bytes > UINT32_MAX - 7 || arena.heap.refused > old(arena.heap.refused))
        && (outIds != 0 ==> bytes <= UINT32_MAX - 7 && outIds + bytes <= arena.mem.Length)
        && (outIds != 0 ==> forall x :: outIds <= x < outIds + bytes ==> x in Held() && x !in old(Held()))
      ensures arena.heap.refused >= old(arena.heap.refused)
    {
      hide Arena.Valid, ReservedIn, Keeps;
      var maxTotal := (lenA + lenB) % TWO_32;
      var bytes := maxTotal * 4 % TWO_32;
      if bytes == 0 {
        bytes := 4;
      }
      outIds := Obtain(bytes);
    }

    /** Merge the ids of two non-empty sets into fresh storage. The run is given up as an overrun where
        the merge would write behind the storage it obtained. */
    method MergeIds(setA: UInt32, setB: UInt32, ghost a: seq<UInt32>, ghost b: seq<UInt32>)
      returns (overruns: bool, outIds: UInt32, k: UInt32)
      requires arena.Valid() && arena.initialized && setA != 0 && setB != 0
      requires HeldIn(Unknown(setA), arena.mem[..], Held()) && HeldIn(Unknown(setB), arena.mem[..], Held())
      requires a == IdsOf(arena.mem[..], setA) && b == IdsOf(arena.mem[..], setB)
      modifies arena, arena.heap, arena.mem, arena.chain
      ensures overruns ==> |a| + |b| >= MAX_MERGED && !StaysInside(a, b)
      ensures !overruns && outIds != 0 ==> |a| + |b| < MAX_MERGED && StaysInside(a, b)
      ensures !overruns ==> arena.Valid() && arena.initialized
      ensures forall i :: 0 <= i < |arena.chain| ==> arena.chain[i] in old(arena.chain) || fresh(arena.chain[i])
      ensures !overruns ==> Keeps(old(arena.mem[..]), old(Held()), arena.mem[..], Held())
      ensures !overruns && outIds == 0 ==> |a| + |b| + 1 == MAX_MERGED || arena.heap.refused > old(arena.heap.refused)
      ensures arena.heap.refused >= old(arena.heap.refused)
      ensures !overruns && outIds != 0 ==> outIds + 4 * k <= arena.mem.Length && ReadIds(arena.mem[..], outIds, k) == Merge(a, b)
      ensures !overruns && outIds != 0 ==> forall x :: outIds <= x < outIds + 4 * k ==> x in Held()
    {
      hide Arena.Valid, ReservedIn, LoadU32, ReadIds, Merge, IdsOf, HeldIn, DescriptorIn, Clear, Keeps, Requested, StaysInside;
      ghost var m, held := arena.mem[..], Held();
      IdsFit(m, held, setA);
      IdsFit(m, held, setB);
      SetFits(setA, a);
      SetFits(setB, b);
      var idsA, lenA := LoadU32(arena.mem[..], setA), LoadU32(arena.mem[..], setA + 4);
      var idsB, lenB := LoadU32(arena.mem[..], setB), LoadU32(arena.mem[..], setB + 4);
      RequestTooLarge(lenA, lenB);
      overruns := false;
      outIds := ObtainIds(lenA, lenB);
      if outIds == 0 {
        return false, 0, 0;
      }
      MergeStaysInsideIff(a, b);
      if lenA + lenB >= MAX_MERGED {
        return true, 0, 0;
      }
      SourceReady(m, held, arena.mem[..], Held(), setA, outIds, 4 * (lenA + lenB));
      SourceReady(m, held, arena.mem[..], Held(), setB, outIds, 4 * (lenA + lenB));
      ghost var n := arena.mem[..];
      k := MergeSortedIdArrays(arena.mem, idsA, lenA, idsB, lenB, outIds);
      KeepsPastWrite(m, held, n, Held(), arena.mem[..], outIds, 4 * (lenA + lenB));
    }

    lemma SetFits(u: UInt32, a: seq<UInt32>)
      requires arena.Valid() && u != 0 && HeldIn(Unknown(u), arena.mem[..], Held())
      requires a == IdsOf(arena.mem[..], u)
      ensures FitsMemory(a)
    {
      hide LoadU32, ReadIds, Arena.Valid, ReservedIn;
      var m := arena.mem[..];
      IdsFit(m, Held(), u);
      IdsHeld(m, Held(), u);
      if |a| > 0 {
        var first: int := LoadU32(m, u);
        assert first in Held();
        arena.ReservedAboveZero(first);
        arena.MemorySize();
      }
    }

    /** The merged set's descriptor, or 0. The operands' descriptors are left as they were. */
    method MergeUnknownDescriptors(setA: UInt32, setB: UInt32, ghost a: seq<UInt32>, ghost b: seq<UInt32>)
      returns (overruns: bool, desc: UInt32)
      requires arena.Valid() && arena.initialized && setA != 0 && setB != 0
      requires HeldIn(Unknown(setA), arena.mem[..], Held()) && HeldIn(Unknown(setB), arena.mem[..], Held())
      requires a == IdsOf(arena.mem[..], setA) && b == IdsOf(arena.mem[..], setB)
      modifies arena, arena.heap, arena.mem, arena.chain
      ensures overruns ==> |a| + |b| >= MAX_MERGED && !StaysInside(a, b)
      ensures !overruns && desc != 0 ==> |a| + |b| < MAX_MERGED && StaysInside(a, b)
      ensures !overruns ==> arena.Valid() && arena.initialized
      ensures !overruns ==> Keeps(old(arena.mem[..]), old(Held()), arena.mem[..], Held())
      ensures !overruns && desc == 0 ==> |a| + |b| + 1 == MAX_MERGED || arena.heap.refused > old(arena.heap.refused)
      ensures !overruns && desc != 0 ==>
        HeldIn(Unknown(desc), arena.mem[..], Held()) && IdsOf(arena.mem[..], desc) == Merge(a, b)
    {
      hide Arena.Valid, ReservedIn, LoadU32, ReadIds, Merge, SetOf, StaysInside;
      IdsHeld(arena.mem[..], Held(), setA);
      IdsHeld(arena.mem[..], Held(), setB);
      MergeSorted(a, b);
      var outIds, k;
      overruns, outIds, k := MergeIds(setA, setB, a, b);
      if overruns || outIds == 0 {
        return overruns, 0;
      }
      ghost var m, held := arena.mem[..], Held();
      desc := AllocUnknownDescriptor(outIds, k);
      ReadFrame(m, arena.mem[..], outIds, k);
    }

    /** Every slot but one, and what it denotes, is as it was. */
    twostate predicate OnlyWrites(out: nat)
      reads this, slots, arena.mem
    {
      forall s :: 0 <= s < slots.Length && s != out ==> slots[s] == old(slots[s]) && Read(s) == old(Read(s))
    }

    /** Overwrite a slot with a value whose descriptor, if any, is held. */
    method Write(out: nat, v: Value)
      requires Valid() && out < slots.Length && HeldIn(v, arena.mem[..], Held())
      modifies slots
      ensures Valid() && OnlyWrites(out) && slots[out] == v
    {
      hide Arena.Valid, HeldIn, Meaning, ReservedIn;
      slots[out] := v;
    }

    /** Both operands are non-empty sets, together of 2^30 ids or more. */
    ghost predicate Oversized(a: nat, b: nat)
      requires a < slots.Length && b < slots.Length
      reads this, slots, arena, arena.mem
    {
      && slots[a].Unknown? && slots[b].Unknown? && slots[a].unk != 0 && slots[b].unk != 0
      && SetSize(slots[a], arena.mem[..]) + SetSize(slots[b], arena.mem[..]) >= MAX_MERGED
    }

    /** Why a merge may fail: malloc refused a chunk, or the ids fill all but one word of 4 GiB. */
    twostate predicate Exhausted(a: nat, b: nat)
      requires a < slots.Length && b < slots.Length
      reads this, slots, arena, arena.heap
    {
      || arena.heap.refused > old(arena.heap.refused)
      || old(SetSize(slots[a], arena.mem[..]) + SetSize(slots[b], arena.mem[..])) + 1 == MAX_MERGED
    }

    /** Sorted union of two unknown sets; `out` may be either operand. Oversized operands never have a
        result: the run overruns its storage, or the storage is refused. */
    method UnknownMerge(out: nat, a: nat, b: nat) returns (overruns: bool)
      requires Valid() && out < slots.Length && a < slots.Length && b < slots.Length
      modifies slots, arena, arena.heap, arena.mem, arena.chain
      ensures overruns ==> old(Oversized(a, b))
      ensures !overruns ==> Valid() && OnlyWrites(out)
      ensures !overruns && !(old(slots[a]).Unknown? && old(slots[b]).Unknown?) ==> slots[out] == Error(ERR_TYPE_MISMATCH)
      ensures !overruns && old(slots[a]).Unknown? && old(slots[b]).Unknown? ==>
        || (Read(out) == Unk(old(Read(a)).ids + old(Read(b)).ids) && !old(Oversized(a, b)))
        || (Read(out) == Err(ERR_OVERFLOW) && old(slots[a]).unk != 0 && old(slots[b]).unk != 0 && Exhausted(a, b))
    {
      hide Arena.Valid, ReservedIn, LoadU32, ReadIds, Merge, SetOf, InFootprint, StrictlySorted;
      overruns := false;
      if !slots[a].Unknown? || !slots[b].Unknown? {
        Write(out, Error(ERR_TYPE_MISMATCH));
        return;
      }
      var setA, setB := slots[a].unk, slots[b].unk;
      if setA == 0 && setB == 0 {
        Write(out, Unknown(0));
        return;
      }
      if setA == 0 {
        Write(out, Unknown(setB));
        return;
      }
      if setB == 0 {
        Write(out, Unknown(setA));
        return;
      }
      ghost var m, held := arena.mem[..], Held();
      ghost var idsA, idsB := IdsOf(m, setA), IdsOf(m, setB);
      IdsHeld(m, held, setA);
      IdsHeld(m, held, setB);
      MergeIsUnion(idsA, idsB);
      var desc;
      overruns, desc := MergeUnknownDescriptors(setA, setB, idsA, idsB);
      if overruns {
        return;
      }
      var result := if desc == 0 then Error(ERR_OVERFLOW) else Unknown(desc);
      WriteKeeps(slots[..], m, held, arena.mem[..], Held(), out, result);
      slots[out] := result;
    }

    /** The outcome a two-operand kernel leaves: the specified one, except that a merge of two non-empty
        sets may find the arena exhausted, and of oversized ones must. */
    twostate predicate Computes(out: nat, a: nat, b: nat, r: Outcome)
      requires out < slots.Length && a < slots.Length && b < slots.Length
      reads this, slots, arena, arena.heap, arena.mem
    {
      || (Read(out) == r && !old(Oversized(a, b)))
      || (Read(out) == Err(ERR_OVERFLOW) && r.Unk? && Exhausted(a, b)
          && old(slots[a]).Unknown? && old(slots[b]).Unknown? && old(slots[a]).unk != 0 && old(slots[b]).unk != 0)
    }

    method LogicUnknownErrorTail(out: nat, a: nat, b: nat) returns (overruns: bool)
      requires Valid() && out < slots.Length && a < slots.Length && b < slots.Length
      requires !Read(a).Ok? && !Read(b).Ok?
      modifies slots, arena, arena.heap, arena.mem, arena.chain
      ensures overruns ==> old(Oversized(a, b))
      ensures !overruns ==> Valid() && OnlyWrites(out) && Computes(out, a, b, LogicTail(old(Read(a)), old(Read(b))))
    {
      hide Arena.Valid, ReservedIn, HeldIn, AllHeld, IdsOf, DescriptorIn;
      overruns := false;
      if slots[a].Unknown? && slots[b].Unknown? {
        overruns := UnknownMerge(out, a, b);
      } else if slots[a].Unknown? {
        Copy(out, a);
      } else if slots[b].Unknown? {
        Copy(out, b);
      } else {
        Copy(out, a);
      }
    }

    method WritePlain(out: nat, v: Value)
      requires Valid() && out < slots.Length && !v.Unknown?
      modifies slots
      ensures Valid() && OnlyWrites(out) && slots[out] == v
    {
      hide Arena.Valid, AllHeld, DescriptorIn, IdsOf, Meaning;
      Write(out, v);
    }

    /** `*out = *src` */
    method Copy(out: nat, src: nat)
      requires Valid() && out < slots.Length && src < slots.Length
      modifies slots
      ensures Valid() && OnlyWrites(out) && slots[out] == old(slots[src]) && Read(out) == old(Read(src))
    {
      Write(out, slots[src]);
    }

    method CelAnd(out: nat, a: nat, b: nat) returns (overruns: bool)
      requires Valid() && out < slots.Length && a < slots.Length && b < slots.Length
      modifies slots, arena, arena.heap, arena.mem, arena.chain
      ensures overruns ==> old(Oversized(a, b))
      ensures !overruns ==> Valid() && OnlyWrites(out) && Computes(out, a, b, And(old(Read(a)), old(Read(b))))
      ensures old(slots[a]).Error? && old(slots[b]).Error? ==> !overruns && slots[out] == old(slots[a])
    {
      hide Arena.Valid, ReservedIn, HeldIn, AllHeld, IdsOf, DescriptorIn;
      overruns := false;
      if slots[a] == Bool(false) || slots[b] == Bool(false) {
        WritePlain(out, Bool(false));
      } else if !IsThreeValuedKind(slots[a]) || !IsThreeValuedKind(slots[b]) {
        WritePlain(out, Error(ERR_TYPE_MISMATCH));
      } else if slots[a].Bool? {
        Copy(out, b);
      } else if slots[b].Bool? {
        Copy(out, a);
      } else {
        overruns := LogicUnknownErrorTail(out, a, b);
      }
    }

    method CelOr(out: nat, a: nat, b: nat) returns (overruns: bool)
      requires Valid() && out < slots.Length && a < slots.Length && b < slots.Length
      modifies slots, arena, arena.heap, arena.mem, arena.chain
      ensures overruns ==> old(Oversized(a, b))
      ensures !overruns ==> Valid() && OnlyWrites(out) && Computes(out, a, b, Or(old(Read(a)), old(Read(b))))
      ensures old(slots[a]).Error? && old(slots[b]).Error? ==> !overruns && slots[out] == old(slots[a])
    {
      hide Arena.Valid, ReservedIn, HeldIn, AllHeld, IdsOf, DescriptorIn;
      overruns := false;
      if slots[a] == Bool(true) || slots[b] == Bool(true) {
        WritePlain(out, Bool(true));
      } else if !IsThreeValuedKind(slots[a]) || !IsThreeValuedKind(slots[b]) {
        WritePlain(out, Error(ERR_TYPE_MISMATCH));
      } else if slots[a].Bool? {
        Copy(out, b);
      } else if slots[b].Bool? {
        Copy(out, a);
      } else {
        overruns := LogicUnknownErrorTail(out, a, b);
      }
    }

    method CelNot(out: nat, a: nat)
      requires Valid() && out < slots.Length && a < slots.Length
      modifies slots
      ensures Valid() && OnlyWrites(out) && Read(out) == Not(old(Read(a)))
    {
      if slots[a].Bool? {
        WritePlain(out, Bool(!slots[a].b));
      } else if slots[a].Unknown? || slots[a].Error? {
        Copy(out, a);
      } else {
        WritePlain(out, Error(ERR_TYPE_MISMATCH));
      }
    }

    /** Absorption for the strict kernels: true when `out` has been written. */
    method AbsorbBinaryAt(out: nat, a: nat, b: nat) returns (done: bool, overruns: bool)
      requires Valid() && out < slots.Length && a < slots.Length && b < slots.Length
      modifies slots, arena, arena.heap, arena.mem, arena.chain
      ensures overruns ==> old(Oversized(a, b))
      ensures done <==> AbsorbBinary(old(Read(a)), old(Read(b))).Some?
      ensures !overruns ==> Valid() && OnlyWrites(out)
      ensures done && !overruns ==> Computes(out, a, b, AbsorbBinary(old(Read(a)), old(Read(b))).value)
      ensures !done ==> slots[..] == old(slots[..]) && slots[a] == Read(a).v && slots[b] == Read(b).v && Read(a).Ok? && Read(b).Ok?
    {
      hide Arena.Valid, ReservedIn, HeldIn, AllHeld, IdsOf, DescriptorIn;
      done, overruns := true, false;
      if slots[a].Error? {
        Copy(out, a);
      } else if slots[b].Error? {
        Copy(out, b);
      } else if slots[a].Unknown? && slots[b].Unknown? {
        overruns := UnknownMerge(out, a, b);
      } else if slots[a].Unknown? {
        Copy(out, a);
      } else if slots[b].Unknown? {
        Copy(out, b);
      } else {
        done := false;
      }
    }

    /** The envelope every strict two-operand kernel shares: absorb, check kinds, compute, write. */
    method StrictBinaryAt(fp: Floating, op: BinOp, out: nat, a: nat, b: nat) returns (overruns: bool)
      requires Valid() && out < slots.Length && a < slots.Length && b < slots.Length
      modifies slots, arena, arena.heap, arena.mem, arena.chain
      ensures overruns ==> old(Oversized(a, b))
      ensures !overruns ==> Valid() && OnlyWrites(out) && Computes(out, a, b, StrictBinary(fp, op, old(Read(a)), old(Read(b))))
    {
      hide Arena.Valid, ReservedIn, AllHeld, IdsOf, DescriptorIn, BinaryKernel;
      overruns := false;
      var done;
      done, overruns := AbsorbBinaryAt(out, a, b);
      if done {
        return;
      }
      KernelNeverUnknown(fp, op, slots[a], slots[b]);
      WritePlain(out, BinaryKernel(fp, op, slots[a], slots[b]));
    }
  }
}
