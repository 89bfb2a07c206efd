/** The triangular probe over groups of eight slots, and the size of the table it runs on. */
module Probe {
  import opened Machine
  import opened Counting

  /** 1 + 2 + ... + k */
  function Triangle(k: nat): nat {
    if k == 0 then 0 else Triangle(k - 1) + k
  }

  lemma {:induction false} TriangleDoubled(k: nat)
    ensures 2 * Triangle(k) == k * (k + 1)
  {
    if k > 0 {
      TriangleDoubled(k - 1);
    }
  }

  /** First slot of the k-th group probed from a start slot. */
  function GroupStart(start: nat, k: nat, slots: nat): (r: nat)
    requires slots > 0
    ensures r < slots
  {
    (start + 8 * Triangle(k)) % slots
  }

  /** A slot of that group; groups wrap around the end of the table. */
  function GroupSlot(start: nat, k: nat, lane: nat, slots: nat): (r: nat)
    requires slots > 0
    ensures r < slots
  {
    (GroupStart(start, k, slots) + lane) % slots
  }

  lemma MultipleSize(q: int, m: int)
    requires m > 0
    ensures q >= 1 ==> m * q >= m
    ensures q <= -1 ==> m * q <= -m
    ensures q == 0 ==> m * q == 0
  {
  }

  lemma MultipleInRange(q: int, m: int, d: int)
    requires m > 0 && m * q == d && -m < d < m
    ensures d == 0
  {
    MultipleSize(q, m);
  }

  lemma ModShift(a: int, q: int, m: int)
    requires m > 0
    ensures (m * q + a) % m == a % m
  {
    var r, s := a / m, (m * q + a) / m;
    assert a == m * r + a % m;
    assert m * q + a == m * s + (m * q + a) % m;
    assert m * (q + r - s) == (m * q + a) % m - a % m;
    MultipleInRange(q + r - s, m, (m * q + a) % m - a % m);
  }

  lemma ModAdd(a: int, b: int, m: int)
    requires m > 0
    ensures (a % m + b) % m == (a + b) % m
  {
    var q := a / m;
    assert a == m * q + a % m;
    assert a + b == m * q + (a % m + b);
    ModShift(a % m + b, q, m);
  }

  /** The probe's update `seq = (seq + step) & mask; step += 8` walks the groups in this order. */
  lemma GroupStartStep(start: nat, k: nat, slots: nat)
    requires slots > 0
    ensures GroupStart(start, 0, slots) == start % slots
    ensures (GroupStart(start, k, slots) + 8 * (k + 1)) % slots == GroupStart(start, k + 1, slots)
  {
    ModAdd(start + 8 * Triangle(k), 8 * (k + 1), slots);
    assert 8 * Triangle(k + 1) == 8 * Triangle(k) + 8 * (k + 1);
  }

  // ---- triangular numbers modulo a power of two ----

  /** 2^n divides d. */
  predicate TwosDivide(n: nat, d: int) {
    n == 0 || (d % 2 == 0 && TwosDivide(n - 1, d / 2))
  }

  lemma {:induction false} DividedIsLarge(n: nat, d: int)
    requires TwosDivide(n, d) && d > 0
    ensures d >= Pow2(n)
  {
    if n > 0 {
      DividedIsLarge(n - 1, d / 2);
    }
  }

  lemma DoubleProduct(p: int, q: int)
    ensures (2 * p) * q == 2 * (p * q) && p * (2 * q) == 2 * (p * q)
  {
  }

  lemma {:induction false} MultipleIsDivided(n: nat, q: int)
    ensures TwosDivide(n, Pow2(n) * q)
  {
    if n > 0 {
      MultipleIsDivided(n - 1, q);
      DoubleProduct(Pow2(n - 1), q);
    }
  }

  lemma OddProduct(k: int, j: int)
    ensures (2 * k + 1) * (2 * j + 1) == 2 * (2 * (k * j) + k + j) + 1
  {
  }

  /** An odd factor carries none of the twos. */
  lemma {:induction false} OddFactor(n: nat, a: int, b: int)
    requires a % 2 == 1 && TwosDivide(n, a * b)
    ensures TwosDivide(n, b)
  {
    if n > 0 {
      if b % 2 == 1 {
        OddProduct(a / 2, b / 2);
      }
      DoubleProduct(a, b / 2);
      OddFactor(n - 1, a, b / 2);
    }
  }

  lemma ProductOfDifference(g: int, x: int, y: int)
    ensures g * (x - y) == g * x - g * y
  {
  }

  lemma EqualResidues(n: nat, a: int, b: int)
    requires a % Pow2(n) == b % Pow2(n)
    ensures TwosDivide(n, a - b)
  {
    var g := Pow2(n);
    var x, y := a / g, b / g;
    assert a == g * x + a % g && b == g * y + b % g;
    ProductOfDifference(g, x, y);
    MultipleIsDivided(n, x - y);
  }

  lemma TriangleDifference(k: nat, l: nat)
    ensures 2 * (Triangle(l) - Triangle(k)) == (l - k) * (l + k + 1)
  {
    TriangleDoubled(k);
    TriangleDoubled(l);
    assert (l - k) * (l + k + 1) == l * (l + 1) - k * (k + 1);
  }

  lemma DoubleDivided(n: nat, d: int)
    ensures TwosDivide(n, d) ==> TwosDivide(n + 1, 2 * d)
  {
  }

  lemma Commutes(a: int, b: int)
    ensures a * b == b * a
  {
  }

  /** Of a product of an odd and an even factor below 2 * 2^m, 2^m does not divide half. */
  lemma HalfNotDivided(m: nat, a: int, b: int, d: int)
    requires 2 * d == a * b && a % 2 != b % 2
    requires 0 < a < 2 * Pow2(m) && 0 < b < 2 * Pow2(m)
    ensures !TwosDivide(m, d)
  {
    if TwosDivide(m, d) {
      DoubleDivided(m, d);
      if a % 2 == 1 {
        OddFactor(m + 1, a, b);
        DividedIsLarge(m + 1, b);
      } else {
        Commutes(a, b);
        OddFactor(m + 1, b, a);
        DividedIsLarge(m + 1, a);
      }
    }
  }

  lemma ParitiesDiffer(k: int, l: int)
    ensures (l - k) % 2 != (l + k + 1) % 2
  {
  }

  /** The first 2^m triangular numbers are distinct modulo 2^m. */
  lemma TrianglesDistinct(k: nat, l: nat, m: nat)
    requires k < l < Pow2(m)
    ensures Triangle(k) % Pow2(m) != Triangle(l) % Pow2(m)
  {
    hide *;
    TriangleDifference(k, l);
    ParitiesDiffer(k, l);
    HalfNotDivided(m, l - k, l + k + 1, Triangle(l) - Triangle(k));
    if Triangle(k) % Pow2(m) == Triangle(l) % Pow2(m) {
      EqualResidues(m, Triangle(l), Triangle(k));
    }
  }

  lemma TriangleHits(residue: nat, m: nat) returns (k: nat)
    requires residue < Pow2(m)
    ensures k < Pow2(m) && Triangle(k) % Pow2(m) == residue
  {
    var g := Pow2(m);
    var s := seq(g, k requires 0 <= k < g => Triangle(k) % g);
    forall i, j | 0 <= i < j < |s| ensures s[i] != s[j] {
      TrianglesDistinct(i, j, m);
    }
    Pigeonhole(s, g);
    assert residue in s;
    k :| 0 <= k < g && s[k] == residue;
  }

  ghost predicate IsTableSize(slots: nat, m: nat) {
    slots == 8 * Pow2(m)
  }

  lemma GroupSlotIs(start: nat, k: nat, lane: nat, slots: nat)
    requires slots > 0
    ensures GroupSlot(start, k, lane, slots) == (start + 8 * Triangle(k) + lane) % slots
  {
    ModAdd(start + 8 * Triangle(k), lane, slots);
  }

  lemma EightTimes(g: int, t: int)
    ensures (8 * g) * t == 8 * (g * t)
  {
  }

  lemma SmallMod(a: nat, m: nat)
    requires a < m
    ensures a % m == a
  {
  }

  /** Every slot is in a group that the probe reaches within slots/8 steps. */
  lemma ProbeCovers(start: nat, slot: nat, slots: nat, m: nat) returns (k: nat, lane: nat)
    requires IsTableSize(slots, m) && slot < slots
    ensures k < Pow2(m) && lane < 8 && GroupSlot(start, k, lane, slots) == slot
  {
    var g := Pow2(m);
    var d := (slot - start) % slots;
    k := TriangleHits(d / 8, m);
    lane := d % 8;
    GroupSlotIs(start, k, lane, slots);
    var t := Triangle(k) / g;
    assert Triangle(k) == g * t + d / 8;
    EightTimes(g, t);
    ModShift(start + d, t, slots);
    ModAdd(slot - start, start, slots);
    SmallMod(slot, slots);
  }

  lemma LanesAndGroups(start: nat, t: nat, i: nat, u: nat, j: nat, turn: int)
    requires i < 8 && j < 8 && start + 8 * t + i == 8 * turn + (start + 8 * u + j)
    ensures i == j && t == turn + u
  {
  }

  lemma SameResidue(a: int, b: int, m: int) returns (q: int)
    requires m > 0 && a % m == b % m
    ensures a == m * q + b
  {
    q := a / m - b / m;
    assert a == m * (a / m) + a % m && b == m * (b / m) + b % m;
    ProductOfDifference(m, a / m, b / m);
  }

  /** And no slot is reached twice: a group and lane are determined by the slot. */
  lemma ProbeInjective(start: nat, k: nat, i: nat, l: nat, j: nat, slots: nat, m: nat)
    requires IsTableSize(slots, m) && k < Pow2(m) && l < Pow2(m) && i < 8 && j < 8
    requires GroupSlot(start, k, i, slots) == GroupSlot(start, l, j, slots)
    ensures k == l && i == j
  {
    GroupSlotIs(start, k, i, slots);
    GroupSlotIs(start, l, j, slots);
    var q := SameResidue(start + 8 * Triangle(k) + i, start + 8 * Triangle(l) + j, slots);
    EightTimes(Pow2(m), q);
    LanesAndGroups(start, Triangle(k), i, Triangle(l), j, Pow2(m) * q);
    ModShift(Triangle(l), q, Pow2(m));
    if k < l {
      TrianglesDistinct(k, l, m);
    } else if l < k {
      TrianglesDistinct(l, k, m);
    }
  }

  // ---- table size ----

  function Needed(count: nat): nat {
    if (8 * count + 6) / 7 < 8 then 8 else (8 * count + 6) / 7
  }

  /** Smallest power of two at or above the load bound, and at least one group. */
  ghost predicate IsNumSlots(slots: nat, count: nat) {
    (exists m :: IsTableSize(slots, m)) && Needed(count) <= slots && (slots == 8 || slots / 2 < Needed(count))
  }

  /** 48 bytes an entry in a 32-bit memory. */
  const MAX_ENTRIES: nat := 0x1_0000_0000 / 48

  method NumSlots(count: nat) returns (slots: UInt32)
    requires count <= MAX_ENTRIES
    ensures IsNumSlots(slots, count)
    ensures 8 * count <= 7 * slots && count < slots
    ensures slots == 8 || 8 * count > 7 * (slots / 2)
    ensures slots <= 0x1000_0000
  {
    var needed := (count * 8 + 6) / 7;
    if needed < 8 {
      needed := 8;
    }
    slots := 8;
    ghost var m := 0;
    assert IsTableSize(slots, m);
    while slots < needed
      invariant IsTableSize(slots, m) && slots >= 8
      invariant slots == 8 || slots / 2 < needed
      invariant slots < 0x1000_0000
      decreases needed - slots
    {
      slots := slots * 2;
      m := m + 1;
    }
  }

  /** The size is determined, so find and build agree on it. */
  lemma NumSlotsUnique(a: nat, b: nat, count: nat)
    requires IsNumSlots(a, count) && IsNumSlots(b, count)
    ensures a == b
  {
    var m: nat :| IsTableSize(a, m);
    var n: nat :| IsTableSize(b, n);
    if m < n {
      Pow2Mono(m, n);
    } else if n < m {
      Pow2Mono(n, m);
    }
  }
}
