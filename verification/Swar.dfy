/** Eight bytes at a time in one 64-bit word: lane i of a little-endian load is byte i. */
module Swar {
  import opened Values

  const LSBS: bv64 := 0x0101010101010101
  const MSBS: bv64 := 0x8080808080808080

  type Lane = i: int | 0 <= i < 8

  function ByteAt(w: bv64, i: Lane): bv8 {
    (match i
     case 0 => w & 0xFF
     case 1 => (w >> 8) & 0xFF
     case 2 => (w >> 16) & 0xFF
     case 3 => (w >> 24) & 0xFF
     case 4 => (w >> 32) & 0xFF
     case 5 => (w >> 40) & 0xFF
     case 6 => (w >> 48) & 0xFF
     case _ => w >> 56) as bv8
  }

  function Word(a: bv8, b: bv8, c: bv8, d: bv8, e: bv8, f: bv8, g: bv8, h: bv8): bv64 {
    (a as bv64) | (b as bv64 << 8) | (c as bv64 << 16) | (d as bv64 << 24)
    | (e as bv64 << 32) | (f as bv64 << 40) | (g as bv64 << 48) | (h as bv64 << 56)
  }

  lemma WordLanes(a: bv8, b: bv8, c: bv8, d: bv8, e: bv8, f: bv8, g: bv8, h: bv8)
    ensures var w := Word(a, b, c, d, e, f, g, h);
      && ByteAt(w, 0) == a && ByteAt(w, 1) == b && ByteAt(w, 2) == c && ByteAt(w, 3) == d
      && ByteAt(w, 4) == e && ByteAt(w, 5) == f && ByteAt(w, 6) == g && ByteAt(w, 7) == h
  {
  }

  /** An unaligned 8-byte load. */
  function Load(s: seq<bv8>, at: nat): bv64
    requires at + 8 <= |s|
  {
    Word(s[at], s[at + 1], s[at + 2], s[at + 3], s[at + 4], s[at + 5], s[at + 6], s[at + 7])
  }

  lemma LoadLanes(s: seq<bv8>, at: nat, i: Lane)
    requires at + 8 <= |s|
    ensures ByteAt(Load(s, at), i) == s[at + i]
  {
    WordLanes(s[at], s[at + 1], s[at + 2], s[at + 3], s[at + 4], s[at + 5], s[at + 6], s[at + 7]);
  }

  predicate Flag(m: bv64, i: Lane) {
    ByteAt(m, i) & 0x80 != 0
  }

  // ---- the has-zero trick ----

  function ZeroFlags(x: bv64): bv64 {
    (x - LSBS) & !x & MSBS
  }

  lemma ZeroFlagsLane(x: bv64, i: Lane)
    ensures ByteAt(x, i) == 0 ==> Flag(ZeroFlags(x), i)
    ensures Flag(ZeroFlags(x), i) ==> ByteAt(x, i) == 0 || ByteAt(x, i) == 1
  {
    match i
    case 0 => case 1 => case 2 => case 3 => case 4 => case 5 => case 6 => case _ =>
  }

  /** The borrow only runs upwards, so the lowest flag is never false. */
  lemma LowestZeroFlagExact(x: bv64, i: Lane)
    requires Flag(ZeroFlags(x), i)
    requires forall j: Lane :: j < i ==> ByteAt(x, j) != 0
    ensures ByteAt(x, i) == 0
  {
    assert i > 0 ==> ByteAt(x, 0) != 0;
    assert i > 1 ==> ByteAt(x, 1) != 0;
    assert i > 2 ==> ByteAt(x, 2) != 0;
    assert i > 3 ==> ByteAt(x, 3) != 0;
    assert i > 4 ==> ByteAt(x, 4) != 0;
    assert i > 5 ==> ByteAt(x, 5) != 0;
    assert i > 6 ==> ByteAt(x, 6) != 0;
    match i
    case 0 => case 1 => case 2 => case 3 => case 4 => case 5 => case 6 => case _ =>
  }

  /** The byte b in every lane. */
  function Broadcast(b: bv8): bv64 {
    Word(b, b, b, b, b, b, b, b)
  }

  /** The kernels compute it as a product. */
  lemma BroadcastIsProduct(b: bv8)
    ensures LSBS * (b as bv64) == Broadcast(b)
  {
  }

  lemma BroadcastByte(b: bv8, i: Lane)
    ensures ByteAt(Broadcast(b), i) == b
  {
    match i
    case 0 => case 1 => case 2 => case 3 => case 4 => case 5 => case 6 => case _ =>
  }

  lemma XorLane(v: bv64, w: bv64, i: Lane)
    ensures ByteAt(v ^ w, i) == ByteAt(v, i) ^ ByteAt(w, i)
  {
    match i
    case 0 => case 1 => case 2 => case 3 => case 4 => case 5 => case 6 => case _ =>
  }

  lemma XorIsZeroOrOne(a: bv8, b: bv8)
    ensures a ^ b == 0 <==> a == b
    ensures a ^ b == 1 <==> a == b ^ 1
    ensures b < 0x80 ==> b ^ 1 < 0x80
  {
  }

  lemma XorBytes(w: bv64, p: bv64, a: bv8, b: bv8, i: Lane)
    requires ByteAt(w, i) == a && ByteAt(p, i) == b
    ensures ByteAt(w ^ p, i) == 0 <==> a == b
    ensures ByteAt(w ^ p, i) == 1 <==> a == b ^ 1
    ensures b < 0x80 ==> b ^ 1 < 0x80
  {
    hide *;
    XorLane(w, p, i);
    XorIsZeroOrOne(a, b);
  }

  lemma FlagsOfXor(w: bv64, p: bv64, a: bv8, b: bv8, i: Lane)
    requires ByteAt(w, i) == a && ByteAt(p, i) == b
    ensures a == b ==> Flag(ZeroFlags(w ^ p), i)
    ensures Flag(ZeroFlags(w ^ p), i) ==> a == b || a == b ^ 1
    ensures Flag(ZeroFlags(w ^ p), i) && b < 0x80 ==> a < 0x80
  {
    hide *;
    XorBytes(w, p, a, b, i);
    var x := w ^ p;
    ZeroFlagsLane(x, i);
  }

  function GroupMatch(ctrl: bv64, h2: bv8): bv64 {
    ZeroFlags(ctrl ^ Broadcast(h2))
  }

  function GroupMatchEmpty(ctrl: bv64): bv64 {
    ctrl & (!ctrl << 6) & MSBS
  }

  lemma GroupMatchUnfolded(ctrl: bv64, h2: bv8)
    ensures GroupMatch(ctrl, h2) == ZeroFlags(ctrl ^ Broadcast(h2))
  {
  }

  /** No lane holding h2 is missed, and a false positive holds h2 xor 1: a full slot, never an empty one. */
  lemma GroupMatchLane(ctrl: bv64, h2: bv8, i: Lane)
    ensures ByteAt(ctrl, i) == h2 ==> Flag(GroupMatch(ctrl, h2), i)
    ensures Flag(GroupMatch(ctrl, h2), i) ==> ByteAt(ctrl, i) == h2 || ByteAt(ctrl, i) == h2 ^ 1
    ensures Flag(GroupMatch(ctrl, h2), i) && h2 < 0x80 ==> ByteAt(ctrl, i) < 0x80
  {
    GroupMatchUnfolded(ctrl, h2);
    hide *;
    BroadcastByte(h2, i);
    FlagsOfXor(ctrl, Broadcast(h2), ByteAt(ctrl, i), h2, i);
  }

  /** Exact wherever the byte is a full slot's (below 0x80) or the empty mark 0x80. */
  lemma GroupMatchEmptyLane(ctrl: bv64, i: Lane)
    requires ByteAt(ctrl, i) <= 0x80
    ensures Flag(GroupMatchEmpty(ctrl), i) <==> ByteAt(ctrl, i) == 0x80
  {
    match i
    case 0 => case 1 => case 2 => case 3 => case 4 => case 5 => case 6 => case _ =>
  }

  // ---- walking the flags ----

  function ByteZeros(b: bv8): nat {
    if b & 1 != 0 then 0 else if b & 2 != 0 then 1 else if b & 4 != 0 then 2 else if b & 8 != 0 then 3
    else if b & 16 != 0 then 4 else if b & 32 != 0 then 5 else if b & 64 != 0 then 6 else 7
  }

  /** Count of trailing zero bits. */
  function TrailingZeros(m: bv64): nat {
    if ByteAt(m, 0) != 0 then ByteZeros(ByteAt(m, 0))
    else if ByteAt(m, 1) != 0 then 8 + ByteZeros(ByteAt(m, 1))
    else if ByteAt(m, 2) != 0 then 16 + ByteZeros(ByteAt(m, 2))
    else if ByteAt(m, 3) != 0 then 24 + ByteZeros(ByteAt(m, 3))
    else if ByteAt(m, 4) != 0 then 32 + ByteZeros(ByteAt(m, 4))
    else if ByteAt(m, 5) != 0 then 40 + ByteZeros(ByteAt(m, 5))
    else if ByteAt(m, 6) != 0 then 48 + ByteZeros(ByteAt(m, 6))
    else if ByteAt(m, 7) != 0 then 56 + ByteZeros(ByteAt(m, 7))
    else 64
  }

  predicate OnlyFlags(m: bv64) {
    m & MSBS == m
  }

  lemma ScansAreOnlyFlags(x: bv64)
    ensures OnlyFlags(ZeroFlags(x)) && OnlyFlags(GroupMatchEmpty(x))
  {
  }

  lemma FlagIsNonZero(m: bv64, i: Lane)
    requires OnlyFlags(m)
    ensures Flag(m, i) <==> ByteAt(m, i) != 0
  {
    match i
    case 0 => case 1 => case 2 => case 3 => case 4 => case 5 => case 6 => case _ =>
  }

  lemma NonZeroHasByte(m: bv64)
    requires forall i: Lane :: ByteAt(m, i) == 0
    ensures m == 0
  {
    assert ByteAt(m, 0) == 0 && ByteAt(m, 1) == 0 && ByteAt(m, 2) == 0 && ByteAt(m, 3) == 0;
    assert ByteAt(m, 4) == 0 && ByteAt(m, 5) == 0 && ByteAt(m, 6) == 0 && ByteAt(m, 7) == 0;
  }

  /** `ctz(m) >> 3` is the lowest flagged lane. */
  lemma LowestFlag(m: bv64)
    requires OnlyFlags(m) && m != 0
    ensures TrailingZeros(m) / 8 < 8
    ensures var lane := TrailingZeros(m) / 8; Flag(m, lane) && forall j: Lane :: j < lane ==> !Flag(m, j)
  {
    forall j: Lane ensures Flag(m, j) <==> ByteAt(m, j) != 0 {
      FlagIsNonZero(m, j);
    }
    if TrailingZeros(m) == 64 {
      NonZeroHasByte(m);
    }
  }

  function LaneFlag(i: Lane): bv64 {
    match i
    case 0 => 0x80
    case 1 => 0x8000
    case 2 => 0x800000
    case 3 => 0x80000000
    case 4 => 0x8000000000
    case 5 => 0x800000000000
    case 6 => 0x80000000000000
    case _ => 0x8000000000000000
  }

  lemma LaneFlagBytes(lane: Lane, i: Lane)
    ensures ByteAt(LaneFlag(lane), i) == if i == lane then 0x80 else 0
  {
  }

  lemma ClearIsXor(m: bv64, lane: Lane)
    requires OnlyFlags(m) && Flag(m, lane) && forall j: Lane :: j < lane ==> !Flag(m, j)
    ensures m & (m - 1) == m ^ LaneFlag(lane)
  {
    assert lane > 0 ==> !Flag(m, 0);
    assert lane > 1 ==> !Flag(m, 1);
    assert lane > 2 ==> !Flag(m, 2);
    assert lane > 3 ==> !Flag(m, 3);
    assert lane > 4 ==> !Flag(m, 4);
    assert lane > 5 ==> !Flag(m, 5);
    assert lane > 6 ==> !Flag(m, 6);
    match lane
    case 0 => case 1 => case 2 => case 3 => case 4 => case 5 => case 6 => case _ =>
  }

  lemma XorTopBit(b: bv8)
    ensures (b ^ 0x80) & 0x80 != 0 <==> b & 0x80 == 0
    ensures b ^ 0 == b
  {
  }

  /** `m & (m - 1)` clears the lowest flag and no other. */
  lemma ClearLowestFlag(m: bv64, lane: Lane)
    requires OnlyFlags(m) && Flag(m, lane) && forall j: Lane :: j < lane ==> !Flag(m, j)
    ensures OnlyFlags(m & (m - 1))
    ensures forall i: Lane :: Flag(m & (m - 1), i) <==> Flag(m, i) && i != lane
  {
    assert OnlyFlags(m & (m - 1));
    forall i: Lane ensures Flag(m & (m - 1), i) <==> Flag(m, i) && i != lane {
      ClearIsXor(m, lane);
      XorLane(m, LaneFlag(lane), i);
      LaneFlagBytes(lane, i);
      XorTopBit(ByteAt(m, i));
    }
  }

  /** The flagged lanes of a scan's result. */
  ghost function FlagSet(m: bv64): set<int> {
    set i: int | 0 <= i < 8 && Flag(m, i)
  }

  lemma NoFlags(m: bv64)
    requires m == 0
    ensures forall i: Lane :: !Flag(m, i)
  {
  }

  lemma FlagSetWalk(m: bv64)
    requires OnlyFlags(m)
    ensures m == 0 <==> FlagSet(m) == {}
    ensures m != 0 ==> TrailingZeros(m) / 8 in FlagSet(m) && OnlyFlags(m & (m - 1))
    ensures m != 0 ==> forall i :: i in FlagSet(m) ==> TrailingZeros(m) / 8 <= i
    ensures m != 0 ==> FlagSet(m & (m - 1)) == FlagSet(m) - {TrailingZeros(m) / 8}
  {
    hide ByteAt, TrailingZeros, Flag, OnlyFlags;
    if m == 0 {
      NoFlags(m);
    } else {
      LowestFlag(m);
      var lane, rest := TrailingZeros(m) / 8, m & (m - 1);
      ClearLowestFlag(m, lane);
      assert lane in FlagSet(m);
      forall i: Lane ensures i in FlagSet(rest) <==> i in FlagSet(m) && i != lane {
        assert Flag(rest, i) <==> Flag(m, i) && i != lane;
      }
      assert FlagSet(rest) == FlagSet(m) - {lane};
    }
  }

  lemma FlagSetMembers(m: bv64)
    ensures forall i :: i in FlagSet(m) <==> 0 <= i < 8 && Flag(m, i)
  {
  }

  /** The candidate lanes of a group: none with the wanted byte is missing, and every one is full. */
  lemma CandidateLanes(w: bv64, h2: bv8)
    requires h2 < 0x80
    ensures OnlyFlags(GroupMatch(w, h2))
    ensures forall i: Lane :: ByteAt(w, i) == h2 ==> i in FlagSet(GroupMatch(w, h2))
    ensures forall i: Lane :: i in FlagSet(GroupMatch(w, h2)) ==> ByteAt(w, i) < 0x80
  {
    GroupMatchUnfolded(w, h2);
    hide *;
    var g := GroupMatch(w, h2);
    FlagSetMembers(g);
    var x := w ^ Broadcast(h2);
    ScansAreOnlyFlags(x);
    forall i: Lane
      ensures ByteAt(w, i) == h2 ==> i in FlagSet(g)
      ensures i in FlagSet(g) ==> ByteAt(w, i) < 0x80
    {
      GroupMatchLane(w, h2, i);
    }
  }

  /** The empty lanes of a group, exactly, on a table without deletions. */
  lemma EmptyLanes(w: bv64)
    requires forall i: Lane :: ByteAt(w, i) <= 0x80
    ensures OnlyFlags(GroupMatchEmpty(w))
    ensures forall i: Lane :: i in FlagSet(GroupMatchEmpty(w)) <==> ByteAt(w, i) == 0x80
  {
    hide *;
    ScansAreOnlyFlags(w);
    FlagSetMembers(GroupMatchEmpty(w));
    forall i: Lane ensures i in FlagSet(GroupMatchEmpty(w)) <==> ByteAt(w, i) == 0x80 {
      GroupMatchEmptyLane(w, i);
    }
  }

  // ---- the scans over byte spans ----

  lemma ScanFlags(x: bv64, hit: bv64)
    requires hit == ZeroFlags(x)
    ensures hit == 0 ==> forall i: Lane :: ByteAt(x, i) != 0
    ensures hit != 0 ==> TrailingZeros(hit) / 8 < 8 && ByteAt(x, TrailingZeros(hit) / 8) == 0
    ensures hit != 0 ==> forall i: Lane :: i < TrailingZeros(hit) / 8 ==> ByteAt(x, i) != 0
  {
    hide *;
    forall i: Lane ensures ByteAt(x, i) == 0 ==> Flag(hit, i) {
      ZeroFlagsLane(x, i);
    }
    ScansAreOnlyFlags(x);
    if hit == 0 {
      NoFlags(hit);
    } else {
      LowestFlag(hit);
      LowestZeroFlagExact(x, TrailingZeros(hit) / 8);
    }
  }

  lemma XorLoadLane(s: seq<bv8>, p: nat, c: bv8, w: bv64, b: bv64, i: Lane)
    requires p + 8 <= |s| && w == Load(s, p) && b == Broadcast(c)
    ensures ByteAt(w ^ b, i) == 0 <==> s[p + i] == c
  {
    hide *;
    LoadLanes(s, p, i);
    BroadcastByte(c, i);
    XorBytes(w, b, s[p + i], c, i);
  }

  /** The flags of one word point at the first occurrence of c in it, or there is none. */
  lemma WordScan(s: seq<bv8>, p: nat, c: bv8, w: bv64, b: bv64, hit: bv64)
    requires p + 8 <= |s| && w == Load(s, p) && b == Broadcast(c) && hit == ZeroFlags(w ^ b)
    ensures hit == 0 ==> forall k :: p <= k < p + 8 ==> s[k] != c
    ensures hit != 0 ==> TrailingZeros(hit) / 8 < 8 && s[p + TrailingZeros(hit) / 8] == c
    ensures hit != 0 ==> forall k :: p <= k < p + TrailingZeros(hit) / 8 ==> s[k] != c
  {
    hide *;
    var x := w ^ b;
    ScanFlags(x, hit);
    forall k | p <= k < p + 8 ensures ByteAt(x, k - p) == 0 <==> s[k] == c {
      XorLoadLane(s, p, c, w, b, k - p);
    }
  }

  /** The word-at-a-time memchr finds the first occurrence at every length, despite the cross-lane borrow. */
  method SwarMemchr(s: seq<bv8>, c: bv8) returns (r: Option<nat>)
    ensures r.Some? ==> r.value < |s| && s[r.value] == c && c !in s[..r.value]
    ensures r.None? <==> c !in s
  {
    hide *;
    var p: nat := 0;
    while |s| - p >= 8
      invariant p <= |s|
      invariant forall k :: 0 <= k < p ==> s[k] != c
    {
      var w, b := Load(s, p), Broadcast(c);
      var hit := ZeroFlags(w ^ b);
      WordScan(s, p, c, w, b, hit);
      if hit != 0 {
        return Some(p + TrailingZeros(hit) / 8);
      }
      p := p + 8;
    }
    while p < |s|
      invariant p <= |s|
      invariant forall k :: 0 <= k < p ==> s[k] != c
    {
      if s[p] == c {
        return Some(p);
      }
      p := p + 1;
    }
    r := None;
  }

  lemma WordEquality(v: bv64, w: bv64)
    ensures v == w <==> forall i: Lane :: ByteAt(v, i) == ByteAt(w, i)
  {
    if forall i: Lane :: ByteAt(v, i) == ByteAt(w, i) {
      assert ByteAt(v, 0) == ByteAt(w, 0) && ByteAt(v, 1) == ByteAt(w, 1) && ByteAt(v, 2) == ByteAt(w, 2);
      assert ByteAt(v, 3) == ByteAt(w, 3) && ByteAt(v, 4) == ByteAt(w, 4) && ByteAt(v, 5) == ByteAt(w, 5);
      assert ByteAt(v, 6) == ByteAt(w, 6) && ByteAt(v, 7) == ByteAt(w, 7);
    }
  }

  /** Word-at-a-time equality of two spans of one length. */
  method BytesEqual(a: seq<bv8>, b: seq<bv8>) returns (eq: bool)
    requires |a| == |b|
    ensures eq <==> a == b
  {
    hide *;
    var p: nat := 0;
    while |a| - p >= 8
      invariant p <= |a|
      invariant a[..p] == b[..p]
    {
      WordEquality(Load(a, p), Load(b, p));
      forall i: Lane ensures ByteAt(Load(a, p), i) == a[p + i] && ByteAt(Load(b, p), i) == b[p + i] {
        LoadLanes(a, p, i);
        LoadLanes(b, p, i);
      }
      if Load(a, p) != Load(b, p) {
        return false;
      }
      forall k | p <= k < p + 8 ensures a[k] == b[k] {
        var i: Lane := k - p;
        assert ByteAt(Load(a, p), i) == ByteAt(Load(b, p), i);
      }
      p := p + 8;
    }
    while p < |a|
      invariant p <= |a|
      invariant a[..p] == b[..p]
    {
      if a[p] != b[p] {
        return false;
      }
      p := p + 1;
    }
    eq := true;
  }

  lemma HighBits(w: bv64)
    ensures w & MSBS == 0 ==> forall i: Lane :: ByteAt(w, i) < 0x80
    ensures w & MSBS != 0 ==> exists i: Lane :: ByteAt(w, i) >= 0x80
  {
    if forall i: Lane :: ByteAt(w, i) < 0x80 {
      assert ByteAt(w, 0) < 0x80 && ByteAt(w, 1) < 0x80 && ByteAt(w, 2) < 0x80 && ByteAt(w, 3) < 0x80;
      assert ByteAt(w, 4) < 0x80 && ByteAt(w, 5) < 0x80 && ByteAt(w, 6) < 0x80 && ByteAt(w, 7) < 0x80;
    }
  }

  lemma HighBitsOfLoad(s: seq<bv8>, p: nat, high: bv64)
    requires p + 8 <= |s| && high == Load(s, p) & MSBS
    ensures high == 0 ==> forall k :: p <= k < p + 8 ==> s[k] < 0x80
    ensures high != 0 ==> exists k :: p <= k < p + 8 && s[k] >= 0x80
  {
    var w := Load(s, p);
    HighBits(w);
    hide *;
    forall i: Lane ensures ByteAt(w, i) == s[p + i] {
      LoadLanes(s, p, i);
    }
    if high == 0 {
      forall k | p <= k < p + 8 ensures s[k] < 0x80 {
        var i: Lane := k - p;
        assert ByteAt(w, i) == s[p + i];
      }
    } else {
      var i: Lane :| ByteAt(w, i) >= 0x80;
      assert s[p + i] >= 0x80;
    }
  }

  /** The ASCII prefix in whole 8-byte blocks: everything before `run` is ASCII and the next whole
      block, if there is one, is not. */
  method AsciiPrefixBlocks(s: seq<bv8>) returns (run: nat)
    ensures run <= |s| && run % 8 == 0
    ensures forall k :: 0 <= k < run ==> s[k] < 0x80
    ensures run + 8 <= |s| ==> exists k :: run <= k < run + 8 && s[k] >= 0x80
  {
    hide *;
    run := 0;
    while |s| - run >= 8
      invariant run <= |s| && run % 8 == 0
      invariant forall k :: 0 <= k < run ==> s[k] < 0x80
    {
      var high := Load(s, run) & MSBS;
      HighBitsOfLoad(s, run, high);
      if high != 0 {
        return;
      }
      run := run + 8;
    }
  }
}
