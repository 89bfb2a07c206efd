/** The hash index over an arena map's dense entries: open addressing, eight control bytes to a probe. */
module MapIndex {
  import opened Machine
  import opened Counting
  import opened Values
  import opened MapKeys
  import opened Probe
  import opened Swar

  const EMPTY: bv8 := 0x80
  const INDEX_THRESHOLD: nat := 8

  function H1(h: bv64): nat {
    (h >> 7) as nat
  }

  function H2(h: bv64): (b: bv8)
    ensures b < 0x80
  {
    (h & 0x7F) as bv8
  }

  // ---- what a linear scan finds ----

  function ScanFrom(keys: seq<Value>, key: Value, i: nat): UInt32
    requires i <= |keys| < UINT32_MAX
    decreases |keys| - i
  {
    if i == |keys| then UINT32_MAX
    else if MapKeyEq(keys[i], key) then i
    else ScanFrom(keys, key, i + 1)
  }

  lemma {:induction false} ScanFinds(keys: seq<Value>, key: Value, i: nat, e: nat)
    requires i <= |keys| < UINT32_MAX && i <= e <= |keys|
    requires forall j :: i <= j < e ==> !MapKeyEq(keys[j], key)
    requires e < |keys| ==> MapKeyEq(keys[e], key)
    ensures ScanFrom(keys, key, i) == if e < |keys| then e else UINT32_MAX
    decreases e - i
  {
    if i < e {
      ScanFinds(keys, key, i + 1, e);
    }
  }

  ghost predicate PairwiseDistinct(keys: seq<Value>) {
    forall i, j :: 0 <= i < j < |keys| ==> !MapKeyEq(keys[i], keys[j])
  }

  // ---- block geometry ----

  function CtrlTotalBytes(slots: nat): nat {
    slots + 7
  }

  function SlotArrayOffset(slots: nat): nat {
    (CtrlTotalBytes(slots) + 3) / 4 * 4
  }

  function IndexBlockBytes(slots: nat): nat {
    SlotArrayOffset(slots) + slots * 4
  }

  /** Control bytes and slot array lie disjoint and aligned inside the block, and no size wraps. */
  lemma BlockGeometry(slots: nat)
    requires slots <= 0x1000_0000
    ensures CtrlTotalBytes(slots) <= SlotArrayOffset(slots) < CtrlTotalBytes(slots) + 4
    ensures SlotArrayOffset(slots) % 4 == 0
    ensures IndexBlockBytes(slots) <= UINT32_MAX - 7
    ensures forall s :: 0 <= s < slots ==> s + 8 <= CtrlTotalBytes(slots) && SlotArrayOffset(slots) + 4 * s + 4 <= IndexBlockBytes(slots)
    ensures slots > 0 ==> (slots - 1) + 8 == CtrlTotalBytes(slots) && SlotArrayOffset(slots) + 4 * slots == IndexBlockBytes(slots)
  {
  }

  // ---- the table and its invariant ----

  datatype Table = Table(ctrl: seq<bv8>, slots: seq<UInt32>)

  /** Where an entry was placed, and at which step of its own probe. */
  datatype Place = Place(slot: nat, step: nat)

  ghost predicate Geometry(t: Table, m: nat) {
    && IsTableSize(|t.slots|, m)
    && |t.ctrl| == |t.slots| + 7
    && (forall j :: 0 <= j < 7 ==> t.ctrl[|t.slots| + j] == t.ctrl[j])
  }

  function StartOf(mx: Mixer, key: Value, slots: nat): nat
    requires slots > 0
  {
    H1(MapKeyHash(mx, key)) % slots
  }

  ghost predicate GroupFull(t: Table, start: nat, k: nat)
    requires |t.ctrl| >= |t.slots| > 0
  {
    forall lane :: 0 <= lane < 8 ==> t.ctrl[GroupSlot(start, k, lane, |t.slots|)] != EMPTY
  }

  ghost predicate InGroup(start: nat, k: nat, slot: nat, slots: nat)
    requires slots > 0
  {
    exists lane :: 0 <= lane < 8 && GroupSlot(start, k, lane, slots) == slot
  }

  ghost predicate PlacedAt(mx: Mixer, key: Value, e: nat, t: Table, p: Place)
    requires |t.ctrl| >= |t.slots| > 0
  {
    var start := StartOf(mx, key, |t.slots|);
    && p.slot < |t.slots|
    && t.slots[p.slot] == e
    && t.ctrl[p.slot] == H2(MapKeyHash(mx, key))
    && InGroup(start, p.step, p.slot, |t.slots|)
    && (forall k :: 0 <= k < p.step ==> GroupFull(t, start, k))
  }

  /** The first `|places|` entries are in the table, each exactly once; every group that an entry's own
      probe visits before its group is full; everything else is empty; the clones mirror. */
  ghost predicate Indexes(mx: Mixer, keys: seq<Value>, t: Table, m: nat, places: seq<Place>) {
    && Geometry(t, m)
    && |places| <= |keys| < |t.slots|
    && (forall e :: 0 <= e < |places| ==> PlacedAt(mx, keys[e], e, t, places[e]))
    && (forall s :: 0 <= s < |t.slots| ==>
      t.ctrl[s] == EMPTY || (t.ctrl[s] < 0x80 && t.slots[s] < |places| && places[t.slots[s]].slot == s))
  }

  /** A load at any slot sees the group's bytes, through the clones when it runs past the end. */
  lemma GroupBytes(t: Table, m: nat, start: nat, k: nat, lane: Lane)
    requires Geometry(t, m)
    ensures ByteAt(Load(t.ctrl, GroupStart(start, k, |t.slots|)), lane) == t.ctrl[GroupSlot(start, k, lane, |t.slots|)]
  {
    hide ByteAt, Load;
    var n, p := |t.slots|, GroupStart(start, k, |t.slots|);
    LoadLanes(t.ctrl, p, lane);
    if p + lane >= n {
      assert t.ctrl[n + (p + lane - n)] == t.ctrl[p + lane - n];
      ModShift(p + lane - n, 1, n);
      SmallMod(p + lane - n, n);
    } else {
      SmallMod(p + lane, n);
    }
  }

  lemma GroupWord(mx: Mixer, keys: seq<Value>, t: Table, m: nat, places: seq<Place>, start: nat, k: nat, w: bv64)
    requires Indexes(mx, keys, t, m, places) && w == Load(t.ctrl, GroupStart(start, k, |t.slots|))
    ensures forall i: Lane :: ByteAt(w, i) == t.ctrl[GroupSlot(start, k, i, |t.slots|)]
    ensures forall i: Lane :: ByteAt(w, i) <= 0x80
  {
    forall i: Lane
      ensures ByteAt(w, i) == t.ctrl[GroupSlot(start, k, i, |t.slots|)]
      ensures ByteAt(w, i) <= 0x80
    {
      hide ByteAt, Load;
      GroupBytes(t, m, start, k, i);
    }
  }

  /** Entries are fewer than slots, so a probe meets an empty slot before it runs out of groups. */
  lemma SomeGroupNotFull(mx: Mixer, keys: seq<Value>, t: Table, m: nat, places: seq<Place>, start: nat)
    requires Indexes(mx, keys, t, m, places)
    ensures exists k :: 0 <= k < Pow2(m) && !GroupFull(t, start, k)
  {
    if forall k :: 0 <= k < Pow2(m) ==> GroupFull(t, start, k) {
      forall s | 0 <= s < |t.slots| ensures t.ctrl[s] != EMPTY {
        var k, lane := ProbeCovers(start, s, |t.slots|, m);
        assert GroupFull(t, start, k);
      }
      forall i, j | 0 <= i < j < |t.slots| ensures t.slots[i] != t.slots[j] {
        assert places[t.slots[i]].slot == i && places[t.slots[j]].slot == j;
      }
      Pigeonhole(t.slots, |places|);
    }
  }

  // ---- looking through one group ----

  /** No slot of the k-th group with the wanted control byte holds a key equal to the one sought. */
  ghost predicate GroupLacks(keys: seq<Value>, t: Table, start: nat, k: nat, h2: bv8, key: Value)
    requires |t.ctrl| >= |t.slots| > 0
  {
    forall lane :: 0 <= lane < 8 ==>
      var s := GroupSlot(start, k, lane, |t.slots|);
      t.ctrl[s] == h2 && t.slots[s] < |keys| ==> !MapKeyEq(keys[t.slots[s]], key)
  }

  lemma PlacedWithin(mx: Mixer, stored: Value, e: nat, t: Table, p: Place, start: nat, k: nat)
    requires |t.ctrl| >= |t.slots| > 0 && PlacedAt(mx, stored, e, t, p)
    requires start == StartOf(mx, stored, |t.slots|) && !GroupFull(t, start, k)
    ensures p.step <= k
  {
  }

  lemma LacksAt(keys: seq<Value>, t: Table, start: nat, k: nat, h2: bv8, key: Value, slot: nat)
    requires |t.ctrl| >= |t.slots| > slot && t.ctrl[slot] == h2 && t.slots[slot] < |keys|
    requires GroupLacks(keys, t, start, k, h2, key) && InGroup(start, k, slot, |t.slots|)
    ensures !MapKeyEq(keys[t.slots[slot]], key)
  {
  }

  /** If the groups up to one with an empty slot all lack the key, no indexed entry equals it. */
  lemma AbsentAfterEmpty(mx: Mixer, keys: seq<Value>, t: Table, m: nat, places: seq<Place>, key: Value, k: nat, e: nat)
    requires Indexes(mx, keys, t, m, places) && e < |places|
    requires var start := StartOf(mx, key, |t.slots|);
      && !GroupFull(t, start, k)
      && forall l :: 0 <= l <= k ==> GroupLacks(keys, t, start, l, H2(MapKeyHash(mx, key)), key)
    ensures !MapKeyEq(keys[e], key)
  {
    hide H1, H2, MapKeyHash, MapKeyEq;
    if MapKeyEq(keys[e], key) {
      EqualKeysHashAlike(mx, keys[e], key);
      var start := StartOf(mx, key, |t.slots|);
      PlacedWithin(mx, keys[e], e, t, places[e], start, k);
      LacksAt(keys, t, start, places[e].step, H2(MapKeyHash(mx, key)), key, places[e].slot);
    }
  }

  /** While the candidate lanes are confirmed: those left are full slots, and every other lane with the
      wanted byte has been found to hold a different key. */
  ghost predicate Scanning(keys: seq<Value>, t: Table, n: nat, start: nat, k: nat, h2: bv8, key: Value, g: bv64)
    requires |t.ctrl| >= |t.slots| > 0 && n <= |keys|
  {
    && OnlyFlags(g)
    && forall i: Lane ::
      var s := GroupSlot(start, k, i, |t.slots|);
      && (i in FlagSet(g) ==> t.slots[s] < n)
      && (t.ctrl[s] == h2 && i !in FlagSet(g) ==> t.slots[s] < |keys| ==> !MapKeyEq(keys[t.slots[s]], key))
  }

  lemma ScanBegins(mx: Mixer, keys: seq<Value>, t: Table, m: nat, places: seq<Place>, start: nat, k: nat, w: bv64, h2: bv8, key: Value)
    requires Indexes(mx, keys, t, m, places) && w == Load(t.ctrl, GroupStart(start, k, |t.slots|)) && h2 < 0x80
    ensures Scanning(keys, t, |places|, start, k, h2, key, GroupMatch(w, h2))
  {
    GroupWord(mx, keys, t, m, places, start, k, w);
    CandidateLanes(w, h2);
    hide ByteAt, Load, Flag, OnlyFlags, GroupMatch, GroupStart;
    var g := GroupMatch(w, h2);
    forall i: Lane
      ensures i in FlagSet(g) ==> t.slots[GroupSlot(start, k, i, |t.slots|)] < |places|
      ensures t.ctrl[GroupSlot(start, k, i, |t.slots|)] == h2 ==> i in FlagSet(g)
    {
      assert ByteAt(w, i) == t.ctrl[GroupSlot(start, k, i, |t.slots|)];
    }
  }

  lemma ScanContinues(keys: seq<Value>, t: Table, n: nat, start: nat, k: nat, h2: bv8, key: Value, g: bv64, slot: nat)
    requires |t.ctrl| >= |t.slots| > 0 && n <= |keys| && Scanning(keys, t, n, start, k, h2, key, g) && g != 0
    requires slot == (GroupStart(start, k, |t.slots|) + TrailingZeros(g) / 8) % |t.slots|
    ensures t.slots[slot] < n
    ensures !MapKeyEq(keys[t.slots[slot]], key) ==> Scanning(keys, t, n, start, k, h2, key, g & (g - 1))
    ensures FlagSet(g & (g - 1)) < FlagSet(g)
  {
    FlagSetWalk(g);
    FlagSetMembers(g);
    hide ByteAt, Flag, OnlyFlags, TrailingZeros, GroupStart, FlagSet, MapKeyEq;
    var lane: Lane := TrailingZeros(g) / 8;
    assert slot == GroupSlot(start, k, lane, |t.slots|);
    assert lane !in FlagSet(g & (g - 1));
  }

  lemma ScanEnds(keys: seq<Value>, t: Table, n: nat, start: nat, k: nat, h2: bv8, key: Value, g: bv64)
    requires |t.ctrl| >= |t.slots| > 0 && n <= |keys| && Scanning(keys, t, n, start, k, h2, key, g) && g == 0
    ensures GroupLacks(keys, t, start, k, h2, key)
  {
    FlagSetWalk(g);
    hide ByteAt, Flag, FlagSet, MapKeyEq;
    forall lane | 0 <= lane < 8
      ensures var s := GroupSlot(start, k, lane, |t.slots|);
        t.ctrl[s] == h2 && t.slots[s] < |keys| ==> !MapKeyEq(keys[t.slots[s]], key)
    {
      var i: Lane := lane;
      assert i !in FlagSet(g);
    }
  }

  // ---- placing one entry ----

  function Put(t: Table, s: nat, h2: bv8, e: UInt32): Table
    requires s < |t.slots| && |t.ctrl| == |t.slots| + 7 && |t.slots| >= 8
  {
    var ctrl := t.ctrl[s := h2];
    Table(if s < 7 then ctrl[s + |t.slots| := h2] else ctrl, t.slots[s := e])
  }

  lemma PutKeepsFull(t: Table, s: nat, h2: bv8, e: UInt32, start: nat, k: nat)
    requires s < |t.slots| && |t.ctrl| == |t.slots| + 7 && |t.slots| >= 8 && h2 < 0x80
    requires GroupFull(t, start, k)
    ensures GroupFull(Put(t, s, h2, e), start, k)
  {
  }

  lemma PutIndexes(mx: Mixer, keys: seq<Value>, t: Table, m: nat, places: seq<Place>, p: Place)
    requires Indexes(mx, keys, t, m, places) && |places| < |keys| < UINT32_MAX
    requires p.slot < |t.slots| && t.ctrl[p.slot] == EMPTY
    requires var start := StartOf(mx, keys[|places|], |t.slots|);
      && InGroup(start, p.step, p.slot, |t.slots|)
      && forall k :: 0 <= k < p.step ==> GroupFull(t, start, k)
    ensures Indexes(mx, keys, Put(t, p.slot, H2(MapKeyHash(mx, keys[|places|])), |places|), m, places + [p])
  {
    hide H1, MapKeyHash, MapKeyEq, GroupSlot;
    var n, h2 := |places|, H2(MapKeyHash(mx, keys[|places|]));
    assert |t.slots| >= 8;
    var u, q := Put(t, p.slot, h2, n), places + [p];
    forall e | 0 <= e < n + 1 ensures PlacedAt(mx, keys[e], e, u, q[e]) {
      if e < n {
        assert PlacedAt(mx, keys[e], e, t, places[e]);
      }
      var start := StartOf(mx, keys[e], |t.slots|);
      forall k | 0 <= k < q[e].step ensures GroupFull(u, start, k) {
        PutKeepsFull(t, p.slot, h2, n, start, k);
      }
    }
  }

  // ---- the index block ----

  /** The index block: control bytes and slot array of one allocation. */
  class IndexBlock {
    const numSlots: nat
    const ctrl: array<bv8>
    const slots: array<UInt32>

    /** As the arena hands it out: zeroed. */
    constructor (numSlots: nat)
      ensures this.numSlots == numSlots && fresh(ctrl) && fresh(slots)
      ensures ctrl.Length == CtrlTotalBytes(numSlots) && slots.Length == numSlots
    {
      this.numSlots := numSlots;
      ctrl := new bv8[CtrlTotalBytes(numSlots)](_ => 0);
      slots := new UInt32[numSlots](_ => 0);
    }

    ghost function View(): Table
      reads ctrl, slots
    {
      Table(ctrl[..], slots[..])
    }

    /** Mark every control byte, clones included, empty. */
    method Clear()
      modifies ctrl
      ensures forall b :: 0 <= b < ctrl.Length ==> ctrl[b] == EMPTY
    {
      for b := 0 to ctrl.Length
        invariant forall c :: 0 <= c < b ==> ctrl[c] == EMPTY
      {
        ctrl[b] := EMPTY;
      }
    }

    /** Fill a slot, and the clone of its control byte if it has one. */
    method Store(slot: nat, h2: bv8, e: UInt32)
      requires slot < slots.Length == numSlots && ctrl.Length == numSlots + 7 && numSlots >= 8
      modifies ctrl, slots
      ensures View() == Put(old(View()), slot, h2, e)
    {
      ctrl[slot] := h2;
      if slot < 7 {
        ctrl[slot + numSlots] := h2;
      }
      slots[slot] := e;
    }
  }

  datatype Status = Live | NotAnArenaMap | Poisoned(err: UInt32)

  lemma EmptyTableIndexes(mx: Mixer, keys: seq<Value>, t: Table, m: nat)
    requires IsTableSize(|t.slots|, m) && |t.ctrl| == |t.slots| + 7 && |keys| < |t.slots|
    requires forall b :: 0 <= b < |t.ctrl| ==> t.ctrl[b] == EMPTY
    ensures Indexes(mx, keys, t, m, [])
  {
  }

  /** A published index holds every entry in exactly one full slot, under its key's control byte. */
  lemma EachEntryOnce(mx: Mixer, keys: seq<Value>, t: Table, m: nat, places: seq<Place>, e: nat)
    requires Indexes(mx, keys, t, m, places) && |places| == |keys| && e < |keys|
    ensures exists s :: 0 <= s < |t.slots| && t.ctrl[s] != EMPTY && t.slots[s] == e
    ensures forall s, r ::
      (0 <= s < |t.slots| && 0 <= r < |t.slots| && t.ctrl[s] != EMPTY && t.ctrl[r] != EMPTY
       && t.slots[s] == e && t.slots[r] == e) ==> s == r
  {
    assert PlacedAt(mx, keys[e], e, t, places[e]);
  }

  /** At the k-th group: the groups before it are full and lack the key, and groups remain. */
  ghost predicate Probing(mx: Mixer, keys: seq<Value>, t: Table, m: nat, places: seq<Place>, key: Value,
                          k: nat, seqPos: nat, step: nat, h2: bv8)
  {
    && Indexes(mx, keys, t, m, places)
    && h2 == H2(MapKeyHash(mx, key))
    && step == 8 * (k + 1) && k < Pow2(m)
    && var start := StartOf(mx, key, |t.slots|);
    && seqPos == GroupStart(start, k, |t.slots|)
    && forall l :: 0 <= l < k ==> GroupFull(t, start, l) && GroupLacks(keys, t, start, l, h2, key)
  }

  /** The stop test is exact: no flag means the group is full, and a flag points at an empty slot. */
  lemma EmptyOrFull(mx: Mixer, keys: seq<Value>, t: Table, m: nat, places: seq<Place>, start: nat, k: nat, w: bv64)
    requires Indexes(mx, keys, t, m, places) && w == Load(t.ctrl, GroupStart(start, k, |t.slots|))
    ensures GroupMatchEmpty(w) == 0 <==> GroupFull(t, start, k)
    ensures GroupMatchEmpty(w) != 0 ==>
      var lane := TrailingZeros(GroupMatchEmpty(w)) / 8;
      lane < 8 && t.ctrl[GroupSlot(start, k, lane, |t.slots|)] == EMPTY
  {
    GroupWord(mx, keys, t, m, places, start, k, w);
    EmptyLanes(w);
    hide ByteAt, Load, Flag, OnlyFlags, TrailingZeros, GroupMatchEmpty, GroupStart;
    var empties := GroupMatchEmpty(w);
    FlagSetWalk(empties);
    if empties == 0 {
      forall i: Lane ensures t.ctrl[GroupSlot(start, k, i, |t.slots|)] != EMPTY {
        assert i !in FlagSet(empties);
      }
    } else {
      var lane: Lane := TrailingZeros(empties) / 8;
      assert ByteAt(w, lane) == EMPTY;
    }
  }

  lemma PutAtEmpty(mx: Mixer, keys: seq<Value>, t: Table, m: nat, places: seq<Place>,
                   k: nat, seqPos: nat, step: nat, h2: bv8, w: bv64, slot: nat)
    requires |places| < |keys| < UINT32_MAX && Probing(mx, keys, t, m, places, keys[|places|], k, seqPos, step, h2)
    requires |t.ctrl| == |t.slots| + 7 && seqPos < |t.slots| && w == Load(t.ctrl, seqPos) && GroupMatchEmpty(w) != 0
    requires slot == (seqPos + TrailingZeros(GroupMatchEmpty(w)) / 8) % |t.slots|
    ensures |t.slots| >= 8
    ensures Indexes(mx, keys, Put(t, slot, h2, |places|), m, places + [Place(slot, k)])
  {
    hide Load, ByteAt, H1, H2, GroupMatchEmpty, TrailingZeros, MapKeyHash, GroupFull, GroupLacks, GroupStart, PlacedAt;
    var start := StartOf(mx, keys[|places|], |t.slots|);
    EmptyOrFull(mx, keys, t, m, places, start, k, w);
    var lane := TrailingZeros(GroupMatchEmpty(w)) / 8;
    assert GroupSlot(start, k, lane, |t.slots|) == slot;
    PutIndexes(mx, keys, t, m, places, Place(slot, k));
  }

  // ---- the probe loop, shared by lookup and placement ----

  lemma ProbeBegins(mx: Mixer, keys: seq<Value>, t: Table, m: nat, places: seq<Place>, key: Value, seqPos: nat, h2: bv8)
    requires Indexes(mx, keys, t, m, places) && h2 == H2(MapKeyHash(mx, key))
    requires seqPos == H1(MapKeyHash(mx, key)) % |t.slots|
    ensures Probing(mx, keys, t, m, places, key, 0, seqPos, 8, h2)
  {
    GroupStartStep(seqPos, 0, |t.slots|);
    SmallMod(seqPos, |t.slots|);
  }

  lemma ProbeFacts(mx: Mixer, keys: seq<Value>, t: Table, m: nat, places: seq<Place>, key: Value,
                   k: nat, seqPos: nat, step: nat, h2: bv8)
    requires Probing(mx, keys, t, m, places, key, k, seqPos, step, h2)
    ensures |t.slots| > 0 && |t.ctrl| == |t.slots| + 7 && seqPos < |t.slots| && step == 8 * (k + 1) && k < Pow2(m)
    ensures Indexes(mx, keys, t, m, places) && |places| <= |keys| && h2 < 0x80
    ensures seqPos == GroupStart(StartOf(mx, key, |t.slots|), k, |t.slots|)
  {
  }

  lemma ProbeAdvances(mx: Mixer, keys: seq<Value>, t: Table, m: nat, places: seq<Place>, key: Value,
                      k: nat, seqPos: nat, step: nat, h2: bv8, w: bv64)
    requires Probing(mx, keys, t, m, places, key, k, seqPos, step, h2) && |t.ctrl| >= |t.slots| + 7 && seqPos < |t.slots|
    requires w == Load(t.ctrl, seqPos) && GroupMatchEmpty(w) == 0
    requires GroupLacks(keys, t, StartOf(mx, key, |t.slots|), k, h2, key)
    ensures Probing(mx, keys, t, m, places, key, k + 1, (seqPos + step) % |t.slots|, step + 8, h2)
  {
    hide Load, ByteAt, H1, H2, GroupMatchEmpty, MapKeyHash, GroupFull, GroupLacks, GroupStart;
    var start := StartOf(mx, key, |t.slots|);
    EmptyOrFull(mx, keys, t, m, places, start, k, w);
    SomeGroupNotFull(mx, keys, t, m, places, start);
    GroupStartStep(start, k, |t.slots|);
  }

  lemma MissIsAbsent(mx: Mixer, keys: seq<Value>, t: Table, m: nat, places: seq<Place>, key: Value,
                     k: nat, seqPos: nat, step: nat, h2: bv8, w: bv64)
    requires Probing(mx, keys, t, m, places, key, k, seqPos, step, h2) && |t.ctrl| >= |t.slots| + 7 && seqPos < |t.slots|
    requires w == Load(t.ctrl, seqPos) && GroupMatchEmpty(w) != 0
    requires GroupLacks(keys, t, StartOf(mx, key, |t.slots|), k, h2, key)
    ensures forall e :: 0 <= e < |places| ==> !MapKeyEq(keys[e], key)
    ensures |places| == |keys| < UINT32_MAX ==> ScanFrom(keys, key, 0) == UINT32_MAX
  {
    hide Load, ByteAt, H1, H2, GroupMatchEmpty, MapKeyHash, MapKeyEq, GroupFull, GroupLacks, GroupStart;
    EmptyOrFull(mx, keys, t, m, places, StartOf(mx, key, |t.slots|), k, w);
    forall e | 0 <= e < |places| ensures !MapKeyEq(keys[e], key) {
      AbsentAfterEmpty(mx, keys, t, m, places, key, k, e);
    }
    if |places| == |keys| < UINT32_MAX {
      ScanFinds(keys, key, 0, |keys|);
    }
  }

  /** Stored keys being pairwise distinct, the entry that equals the key is the one a scan meets. */
  lemma MatchIsUnique(keys: seq<Value>, key: Value, e: nat)
    requires |keys| < UINT32_MAX && PairwiseDistinct(keys) && e < |keys| && MapKeyEq(keys[e], key)
    ensures ScanFrom(keys, key, 0) == e
  {
    forall j | 0 <= j < e ensures !MapKeyEq(keys[j], key) {
      MapKeyEqIsIdentity(keys[e], key);
      MapKeyEqIsIdentity(keys[j], key);
      MapKeyEqIsIdentity(keys[j], keys[e]);
    }
    ScanFinds(keys, key, 0, e);
  }

  // ---- the map ----

  class ArenaMap {
    var status: Status
    const keys: seq<Value>
    var index: IndexBlock?
    ghost var exponent: nat
    ghost var places: seq<Place>

    /** The entries run lies in a 32-bit memory. An index, when published, covers every entry, and the
        keys are then pairwise distinct. */
    ghost predicate Valid(mx: Mixer)
      reads this, index, if index == null then {} else {index.ctrl, index.slots}
    {
      && |keys| <= MAX_ENTRIES
      && (index != null ==>
        && IsNumSlots(index.numSlots, |keys|)
        && |index.View().slots| == index.numSlots
        && |places| == |keys|
        && Indexes(mx, keys, index.View(), exponent, places)
        && PairwiseDistinct(keys))
    }

    constructor (keys: seq<Value>, status: Status)
      requires |keys| <= MAX_ENTRIES
      ensures this.keys == keys && this.status == status && index == null
    {
      this.keys := keys;
      this.status := status;
      index := null;
    }

    /** One group: confirm each candidate lane against its stored key, lowest lane first. */
    method ScanGroup(mx: Mixer, block: IndexBlock, w: bv64, h2: bv8, key: Value, seqPos: nat,
                     ghost t: Table, ghost m: nat, ghost places: seq<Place>, ghost start: nat, ghost k: nat)
      returns (hit: Option<UInt32>)
      requires Indexes(mx, keys, t, m, places) && block.slots[..] == t.slots && block.numSlots == |t.slots|
      requires seqPos == GroupStart(start, k, |t.slots|) && w == Load(t.ctrl, seqPos) && h2 < 0x80
      ensures hit.Some? ==> hit.value < |places| && MapKeyEq(keys[hit.value], key)
      ensures hit.None? ==> GroupLacks(keys, t, start, k, h2, key)
    {
      ScanBegins(mx, keys, t, m, places, start, k, w, h2, key);
      var candidates := GroupMatch(w, h2);
      assert |t.ctrl| >= |t.slots| > 0 && |places| <= |keys|;
      hide *;
      while candidates != 0
        invariant Scanning(keys, t, |places|, start, k, h2, key, candidates)
        decreases FlagSet(candidates)
      {
        var lane := TrailingZeros(candidates) / 8;
        var slot := (seqPos + lane) % block.numSlots;
        ScanContinues(keys, t, |places|, start, k, h2, key, candidates, slot);
        var entry := block.slots[slot];
        assert entry == t.slots[slot];
        if MapKeyEq(keys[entry], key) {
          return Some(entry);
        }
        candidates := candidates & (candidates - 1);
      }
      ScanEnds(keys, t, |places|, start, k, h2, key, candidates);
      hit := None;
    }

    /** The accelerated lookup answers exactly as a linear scan does, for every key of every kind. */
    method Find(mx: Mixer, key: Value) returns (entry: UInt32)
      requires Valid(mx)
      ensures index == null ==> entry == UINT32_MAX
      ensures index != null ==> entry == ScanFrom(keys, key, 0)
    {
      if index == null {
        return UINT32_MAX;
      }
      var block := index;
      var slots := NumSlots(|keys|);
      NumSlotsUnique(slots, block.numSlots, |keys|);
      ghost var t, m, places := block.View(), exponent, places;
      var h := MapKeyHash(mx, key);
      var h2 := H2(h);
      var seqPos: nat := H1(h) % slots;
      ghost var start: nat, k: nat := seqPos, 0;
      var step: nat := 8;
      ProbeBegins(mx, keys, t, m, places, key, seqPos, h2);
      assert start == StartOf(mx, key, slots);
      hide *;
      while true
        invariant block.ctrl[..] == t.ctrl && block.slots[..] == t.slots
        invariant Probing(mx, keys, t, m, places, key, k, seqPos, step, h2)
        decreases Pow2(m) - k
      {
        ProbeFacts(mx, keys, t, m, places, key, k, seqPos, step, h2);
        var w := Load(block.ctrl[..], seqPos);
        var hit := ScanGroup(mx, block, w, h2, key, seqPos, t, m, places, start, k);
        if hit.Some? {
          MatchIsUnique(keys, key, hit.value);
          return hit.value;
        }
        var empties := GroupMatchEmpty(w);
        if empties != 0 {
          MissIsAbsent(mx, keys, t, m, places, key, k, seqPos, step, h2, w);
          return UINT32_MAX;
        }
        ProbeAdvances(mx, keys, t, m, places, key, k, seqPos, step, h2, w);
        seqPos := (seqPos + step) % slots;
        step := step + 8;
        k := k + 1;
      }
    }

    /** Place entry i at the first empty slot of its probe, unless an entry placed before equals it. */
    method PlaceEntry(mx: Mixer, block: IndexBlock, i: UInt32, ghost m: nat, ghost places: seq<Place>)
      returns (ok: bool, ghost place: Place)
      requires |places| == i < |keys| < UINT32_MAX && block.numSlots == |block.View().slots|
      requires Indexes(mx, keys, block.View(), m, places)
      modifies block.ctrl, block.slots
      ensures ok <==> forall e :: 0 <= e < i ==> !MapKeyEq(keys[e], keys[i])
      ensures ok ==> Indexes(mx, keys, block.View(), m, places + [place])
      ensures |block.View().slots| == block.numSlots
    {
      var key := keys[i];
      var slots := block.numSlots;
      ghost var t := block.View();
      var h := MapKeyHash(mx, key);
      var h2 := H2(h);
      var seqPos: nat := H1(h) % slots;
      ghost var start: nat, k: nat := seqPos, 0;
      var step: nat := 8;
      ProbeBegins(mx, keys, t, m, places, key, seqPos, h2);
      assert start == StartOf(mx, key, slots);
      hide *;
      while true
        invariant block.ctrl[..] == t.ctrl && block.slots[..] == t.slots
        invariant Probing(mx, keys, t, m, places, key, k, seqPos, step, h2)
        decreases Pow2(m) - k
      {
        ProbeFacts(mx, keys, t, m, places, key, k, seqPos, step, h2);
        var w := Load(block.ctrl[..], seqPos);
        var hit := ScanGroup(mx, block, w, h2, key, seqPos, t, m, places, start, k);
        if hit.Some? {
          return false, Place(0, 0);
        }
        var empties := GroupMatchEmpty(w);
        if empties != 0 {
          var slot := (seqPos + TrailingZeros(empties) / 8) % slots;
          MissIsAbsent(mx, keys, t, m, places, key, k, seqPos, step, h2, w);
          place := Place(slot, k);
          PutAtEmpty(mx, keys, t, m, places, k, seqPos, step, h2, w, slot);
          block.Store(slot, h2, i);
          return true, place;
        }
        ProbeAdvances(mx, keys, t, m, places, key, k, seqPos, step, h2, w);
        seqPos := (seqPos + step) % slots;
        step := step + 8;
        k := k + 1;
      }
    }

    /** Terminal construction step. `granted` is the outcome of the block's arena allocation. */
    method Build(mx: Mixer, granted: bool)
      requires Valid(mx)
      modifies this
      ensures Valid(mx)
      ensures old(status) != Live ==> status == old(status) && index == old(index)
      ensures old(status) == Live && (|keys| < 8 || !granted) ==> status == Live && index == null
      ensures old(status) == Live && |keys| >= 8 && granted ==>
        if PairwiseDistinct(keys) then status == Live && index != null
        else status == Poisoned(ERR_DUPLICATE_KEY) && index == null
    {
      if status != Live {
        return;
      }
      if |keys| < INDEX_THRESHOLD {
        index := null;
        return;
      }
      var slots := NumSlots(|keys|);
      BlockGeometry(slots);
      if !granted {
        index := null;
        return;
      }
      ghost var m: nat :| IsTableSize(slots, m);
      var block := new IndexBlock(slots);
      block.Clear();
      EmptyTableIndexes(mx, keys, block.View(), m);
      var ok, placed := PlaceAll(mx, block, m);
      if ok {
        index, exponent, places := block, m, placed;
      } else {
        index := null;
        status := Poisoned(ERR_DUPLICATE_KEY);
      }
    }

    /** Place the entries in order, stopping at the first duplicate. */
    method PlaceAll(mx: Mixer, block: IndexBlock, ghost m: nat) returns (ok: bool, ghost placed: seq<Place>)
      requires |keys| < UINT32_MAX && block.numSlots == |block.View().slots|
      requires Indexes(mx, keys, block.View(), m, [])
      modifies block.ctrl, block.slots
      ensures ok <==> PairwiseDistinct(keys)
      ensures ok ==> |placed| == |keys| && Indexes(mx, keys, block.View(), m, placed)
      ensures |block.View().slots| == block.numSlots
    {
      placed := [];
      hide Indexes, MapKeyEq;
      for i := 0 to |keys|
        invariant |placed| == i && |block.View().slots| == block.numSlots
        invariant Indexes(mx, keys, block.View(), m, placed)
        invariant forall d, e :: 0 <= d < e < i ==> !MapKeyEq(keys[d], keys[e])
      {
        var placing, place := PlaceEntry(mx, block, i, m, placed);
        if !placing {
          return false, placed;
        }
        placed := placed + [place];
      }
      ok := true;
    }
  }
}
