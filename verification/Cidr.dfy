/** Address blocks (runtime/cel_net_ext.c): prefix matching, masking and containment over parsed
    addresses of 16 bytes, of which family 4 uses the first four. */
module Cidr {
  import opened Machine
  import opened Values
  import Decimal

  // ---- bits of one byte, most significant first ----

  function Weight(j: nat): bv8 {
    if j == 0 then 0x80 else if j == 1 then 0x40 else if j == 2 then 0x20 else if j == 3 then 0x10
    else if j == 4 then 8 else if j == 5 then 4 else if j == 6 then 2 else 1
  }

  predicate BitOf(x: bv8, j: nat) {
    x & Weight(j) != 0
  }

  /** Bit 0 is the top one, and shifting left moves every bit one place down in number. */
  lemma MostSignificantFirst(x: bv8, j: nat)
    ensures BitOf(x, 0) <==> x >= 0x80
    ensures j < 7 ==> (BitOf(x, j + 1) <==> BitOf(x << 1, j))
  {
  }

  /** `0xff << (8 - rem)`, cut to a byte. */
  function HighMask(rem: nat): bv8
    requires 1 <= rem <= 7
  {
    (0xFF as bv8) << (8 - rem)
  }

  lemma HighMaskIs(rem: nat)
    requires 1 <= rem <= 7
    ensures HighMask(rem) == [0x80, 0xC0, 0xE0, 0xF0, 0xF8, 0xFC, 0xFE][rem - 1]
  {
    if rem == 1 {} else if rem == 2 {} else if rem == 3 {} else if rem == 4 {} else if rem == 5 {} else if rem == 6 {}
  }

  lemma MaskWeight(rem: nat, j: nat)
    requires 1 <= rem <= 7 && j < 8
    ensures HighMask(rem) & Weight(j) == if j < rem then Weight(j) else 0
  {
    HighMaskIs(rem);
  }

  lemma AndAssociates(x: bv8, m: bv8, w: bv8)
    ensures (x & m) & w == x & (m & w)
  {
  }

  lemma MaskedBit(x: bv8, rem: nat, j: nat)
    requires 1 <= rem <= 7 && j < 8
    ensures BitOf(x & HighMask(rem), j) <==> j < rem && BitOf(x, j)
  {
    hide HighMask, Weight;
    MaskWeight(rem, j);
    AndAssociates(x, HighMask(rem), Weight(j));
    assert x & 0 == 0;
  }

  lemma ByteExtensional(x: bv8, y: bv8)
    requires forall j: nat :: j < 8 ==> (BitOf(x, j) <==> BitOf(y, j))
    ensures x == y
  {
    assert BitOf(x, 0) <==> BitOf(y, 0);
    assert BitOf(x, 1) <==> BitOf(y, 1);
    assert BitOf(x, 2) <==> BitOf(y, 2);
    assert BitOf(x, 3) <==> BitOf(y, 3);
    assert BitOf(x, 4) <==> BitOf(y, 4);
    assert BitOf(x, 5) <==> BitOf(y, 5);
    assert BitOf(x, 6) <==> BitOf(y, 6);
    assert BitOf(x, 7) <==> BitOf(y, 7);
  }

  lemma XorDistributes(x: bv8, w: bv8, v: bv8)
    ensures (x ^ w) & v == (x & v) ^ (w & v)
  {
  }

  lemma WeightsApart(j: nat, k: nat)
    requires j < 8 && k < 8
    ensures Weight(j) & Weight(k) == if j == k then Weight(k) else 0
  {
  }

  lemma OneBitFlips(x: bv8, k: nat)
    ensures (x & Weight(k)) ^ Weight(k) != 0 <==> x & Weight(k) == 0
  {
  }

  lemma FlippedBit(x: bv8, j: nat, k: nat)
    requires j < 8 && k < 8
    ensures BitOf(x ^ Weight(j), k) <==> (BitOf(x, k) <==> j != k)
  {
    hide Weight;
    XorDistributes(x, Weight(j), Weight(k));
    WeightsApart(j, k);
    OneBitFlips(x, k);
  }

  lemma ZeroBits(j: nat)
    ensures !BitOf(0, j)
  {
  }

  // ---- addresses ----

  type Addr = a: seq<bv8> | |a| == 16 witness [0, 0, 0, 0, 0, 0, 0, 0, 0, 0, 0, 0, 0, 0, 0, 0]

  datatype IpAddr = IpAddr(family: nat, addr: Addr)
  datatype Block = Block(family: nat, prefix: nat, addr: Addr)

  function Limit(family: nat): nat {
    if family == 4 then 32 else 128
  }

  predicate ZeroTail(addr: Addr, bytes: nat) {
    forall k :: bytes <= k < 16 ==> addr[k] == 0
  }

  predicate ValidIp(ip: IpAddr) {
    ip.family in {4, 6} && ZeroTail(ip.addr, Limit(ip.family) / 8)
  }

  predicate ValidBlock(c: Block) {
    ValidIp(IpAddr(c.family, c.addr)) && c.prefix <= Limit(c.family)
  }

  /** Four bytes and prefixes up to 32 for family 4, sixteen and up to 128 for family 6, and no other family. */
  lemma FamilyWidths(c: Block)
    ensures ValidBlock(c) <==>
      || (c.family == 4 && c.prefix <= 32 && c.addr[4..] == [0, 0, 0, 0, 0, 0, 0, 0, 0, 0, 0, 0])
      || (c.family == 6 && c.prefix <= 128)
  {
    if c.family == 4 && c.addr[4..] == [0, 0, 0, 0, 0, 0, 0, 0, 0, 0, 0, 0] {
      assert forall k :: 4 <= k < 16 ==> c.addr[k] == c.addr[4..][k - 4];
    }
  }

  predicate Bit(a: Addr, i: nat)
    requires i < 128
  {
    BitOf(a[i / 8], i % 8)
  }

  predicate SamePrefix(a: Addr, b: Addr, n: nat)
    requires n <= 128
  {
    forall i: nat :: i < n ==> (Bit(a, i) <==> Bit(b, i))
  }

  lemma ByteOfPrefix(a: Addr, b: Addr, n: nat, k: nat)
    requires 8 * k + 8 <= n <= 128 && SamePrefix(a, b, n)
    ensures a[k] == b[k]
  {
    hide BitOf;
    forall j: nat | j < 8 ensures BitOf(a[k], j) <==> BitOf(b[k], j) {
      var i := 8 * k + j;
      assert i / 8 == k && i % 8 == j;
      assert Bit(a, i) <==> Bit(b, i);
    }
    ByteExtensional(a[k], b[k]);
  }

  /** Two addresses with the same 128 bits are the same. */
  lemma AddrExtensional(a: Addr, b: Addr)
    requires SamePrefix(a, b, 128)
    ensures a == b
  {
    hide Bit;
    forall k | 0 <= k < 16 ensures a[k] == b[k] {
      ByteOfPrefix(a, b, 128, k);
    }
  }

  lemma MaskedEqual(x: bv8, y: bv8, rem: nat)
    requires 1 <= rem <= 7
    ensures x & HighMask(rem) == y & HighMask(rem) <==> forall j: nat :: j < rem ==> (BitOf(x, j) <==> BitOf(y, j))
  {
    hide HighMask, BitOf;
    var p, q := x & HighMask(rem), y & HighMask(rem);
    forall j: nat | j < 8
      ensures (BitOf(p, j) <==> j < rem && BitOf(x, j)) && (BitOf(q, j) <==> j < rem && BitOf(y, j))
    {
      MaskedBit(x, rem, j);
      MaskedBit(y, rem, j);
    }
    if forall j: nat :: j < rem ==> (BitOf(x, j) <==> BitOf(y, j)) {
      ByteExtensional(p, q);
    }
  }

  lemma PrefixOfBytes(a: Addr, b: Addr, full: nat)
    requires full <= 16 && forall k :: 0 <= k < full ==> a[k] == b[k]
    ensures SamePrefix(a, b, 8 * full)
  {
  }

  lemma BitsOfPart(a: Addr, b: Addr, n: nat)
    requires n <= 128 && n % 8 != 0 && SamePrefix(a, b, n - n % 8)
    ensures SamePrefix(a, b, n) <==> forall j: nat :: j < n % 8 ==> (BitOf(a[n / 8], j) <==> BitOf(b[n / 8], j))
  {
    hide BitOf;
    var full, rem := n / 8, n % 8;
    if SamePrefix(a, b, n) {
      forall j: nat | j < rem ensures BitOf(a[full], j) <==> BitOf(b[full], j) {
        var i := 8 * full + j;
        assert i / 8 == full && i % 8 == j;
        assert Bit(a, i) <==> Bit(b, i);
      }
    } else if forall j: nat :: j < rem ==> (BitOf(a[full], j) <==> BitOf(b[full], j)) {
      forall i: nat | i < n ensures Bit(a, i) <==> Bit(b, i) {
        if i >= 8 * full {
          assert i / 8 == full && i % 8 < rem;
        }
      }
    }
  }

  /** A prefix of whole bytes agrees exactly when the leading bytes do. */
  lemma WholeBytePrefix(a: Addr, b: Addr, k: nat)
    requires k <= 16
    ensures SamePrefix(a, b, 8 * k) <==> a[..k] == b[..k]
  {
    hide Bit;
    if SamePrefix(a, b, 8 * k) {
      forall j | 0 <= j < k ensures a[j] == b[j] {
        ByteOfPrefix(a, b, 8 * k, j);
      }
    }
    if a[..k] == b[..k] {
      forall j | 0 <= j < k ensures a[j] == b[j] {
        assert a[..k][j] == b[..k][j];
      }
      PrefixOfBytes(a, b, k);
    }
  }

  /** The byte that the prefix cuts agrees under its mask. */
  predicate PartMatches(a: Addr, b: Addr, nbits: nat)
    requires nbits <= 128 && nbits % 8 != 0
  {
    var full, mask := nbits / 8, HighMask(nbits % 8);
    a[full] & mask == b[full] & mask
  }

  lemma PrefixOfPart(a: Addr, b: Addr, n: nat)
    requires n <= 128 && n % 8 != 0 && SamePrefix(a, b, n - n % 8)
    ensures SamePrefix(a, b, n) <==> PartMatches(a, b, n)
  {
    hide HighMask, BitOf, SamePrefix;
    MaskedEqual(a[n / 8], b[n / 8], n % 8);
    BitsOfPart(a, b, n);
  }

  /** Compares whole leading bytes, then the partial byte under a mask. */
  method FirstNBitsMatch(a: Addr, b: Addr, nbits: nat) returns (same: bool)
    requires nbits <= 128
    ensures same <==> SamePrefix(a, b, nbits)
  {
    hide HighMask, SamePrefix, PartMatches;
    var full := nbits / 8;
    var k: nat := 0;
    while k < full
      invariant k <= full && forall j :: 0 <= j < k ==> a[j] == b[j]
    {
      if a[k] != b[k] {
        if SamePrefix(a, b, nbits) {
          ByteOfPrefix(a, b, nbits, k);
        }
        return false;
      }
      k := k + 1;
    }
    PrefixOfBytes(a, b, full);
    var rem := nbits % 8;
    assert 8 * full == nbits - rem;
    if rem != 0 {
      PrefixOfPart(a, b, nbits);
      if !PartMatches(a, b, nbits) {
        return false;
      }
    }
    same := true;
  }

  function MaskedByte(x: bv8, k: nat, nbits: nat): bv8 {
    if k * 8 >= nbits then 0
    else if nbits < (k + 1) * 8 then x & HighMask(nbits - k * 8)
    else x
  }

  function Masked(a: Addr, nbits: nat): Addr {
    seq(16, k requires 0 <= k < 16 => MaskedByte(a[k], k, nbits))
  }

  /** Masking clears exactly the bits behind the prefix. */
  lemma MaskedBits(a: Addr, nbits: nat, i: nat)
    requires i < 128
    ensures Bit(Masked(a, nbits), i) <==> i < nbits && Bit(a, i)
  {
    hide BitOf, HighMask;
    var k, j := i / 8, i % 8;
    assert Masked(a, nbits)[k] == MaskedByte(a[k], k, nbits);
    if k * 8 >= nbits {
      ZeroBits(j);
    } else if nbits < (k + 1) * 8 {
      MaskedBit(a[k], nbits - k * 8, j);
    }
  }

  method MaskBits(addr: array<bv8>, nbits: nat)
    requires addr.Length == 16
    modifies addr
    ensures addr[..] == Masked(old(addr[..]), nbits)
  {
    hide HighMask;
    var k: nat := 0;
    while k < 16
      invariant k <= 16
      invariant forall j :: 0 <= j < k ==> addr[j] == MaskedByte(old(addr[j]), j, nbits)
      invariant forall j :: k <= j < 16 ==> addr[j] == old(addr[j])
    {
      if k * 8 >= nbits {
        addr[k] := 0;
      } else if nbits < (k + 1) * 8 {
        var rem := nbits - k * 8;
        addr[k] := addr[k] & HighMask(rem);
      }
      k := k + 1;
    }
  }

  // ---- the kernels ----

  predicate Contains(c: Block, ip: IpAddr)
    requires c.prefix <= 128
  {
    c.family == ip.family && SamePrefix(c.addr, ip.addr, c.prefix)
  }

  predicate Covers(a: Block, b: Block)
    requires a.prefix <= 128
  {
    a.family == b.family && a.prefix <= b.prefix && SamePrefix(a.addr, b.addr, a.prefix)
  }

  function MaskedBlock(c: Block): Block {
    c.(addr := Masked(c.addr, c.prefix))
  }

  method CidrContainsIp(c: Block, ip: IpAddr) returns (r: bool)
    requires c.prefix <= 128
    ensures r <==> Contains(c, ip)
  {
    if c.family != ip.family {
      return false;
    }
    r := FirstNBitsMatch(c.addr, ip.addr, c.prefix);
  }

  method CidrContainsCidr(a: Block, b: Block) returns (r: bool)
    requires a.prefix <= 128
    ensures r <==> Covers(a, b)
  {
    if a.family != b.family || a.prefix > b.prefix {
      return false;
    }
    r := FirstNBitsMatch(a.addr, b.addr, a.prefix);
  }

  method CidrMasked(c: Block) returns (m: Block)
    ensures m == MaskedBlock(c)
  {
    var addr := new bv8[16](k requires 0 <= k < 16 => c.addr[k]);
    assert addr[..] == c.addr;
    MaskBits(addr, c.prefix);
    m := c.(addr := addr[..]);
  }

  // ---- what the kernels mean ----

  function Flip(a: Addr, i: nat): Addr
    requires i < 128
  {
    a[i / 8 := a[i / 8] ^ Weight(i % 8)]
  }

  lemma FlipBits(a: Addr, i: nat, k: nat)
    requires i < 128 && k < 128
    ensures Bit(Flip(a, i), k) <==> (Bit(a, k) <==> i != k)
  {
    hide BitOf, Weight;
    if i / 8 == k / 8 {
      FlippedBit(a[i / 8], i % 8, k % 8);
    }
  }

  lemma FlippedIsValid(b: Block)
    requires ValidBlock(b) && b.prefix < Limit(b.family)
    ensures ValidIp(IpAddr(b.family, Flip(b.addr, b.prefix)))
  {
    var f := Flip(b.addr, b.prefix);
    assert b.prefix / 8 < Limit(b.family) / 8;
    forall k | Limit(b.family) / 8 <= k < 16 ensures f[k] == 0 {
      assert f[k] == b.addr[k];
    }
  }

  /** Block containment is containment of address sets: A covers B exactly when every valid address in
      B is in A. */
  lemma CoversIsSubset(a: Block, b: Block)
    requires ValidBlock(a) && ValidBlock(b)
    ensures Covers(a, b) <==> forall ip :: ValidIp(ip) && Contains(b, ip) ==> Contains(a, ip)
  {
    hide Bit, Flip;
    if Covers(a, b) {
      forall ip | ValidIp(ip) && Contains(b, ip) ensures Contains(a, ip) {
      }
    } else {
      var own := IpAddr(b.family, b.addr);
      assert ValidIp(own) && Contains(b, own);
      if Contains(a, own) {
        assert b.prefix < a.prefix;
        var outside := IpAddr(b.family, Flip(b.addr, b.prefix));
        FlippedIsValid(b);
        forall k: nat | k < 128 ensures Bit(outside.addr, k) <==> (Bit(b.addr, k) <==> k != b.prefix) {
          FlipBits(b.addr, b.prefix, k);
        }
        assert Contains(b, outside);
        assert !(Bit(outside.addr, b.prefix) <==> Bit(b.addr, b.prefix));
        assert Bit(a.addr, b.prefix) <==> Bit(b.addr, b.prefix);
        assert !SamePrefix(a.addr, outside.addr, a.prefix);
        assert ValidIp(outside) && !Contains(a, outside);
      }
    }
  }

  lemma SamePrefixMasked(a: Addr, b: Addr, n: nat)
    requires n <= 128
    ensures SamePrefix(a, b, n) <==> Masked(a, n) == Masked(b, n)
  {
    hide Bit, Masked;
    forall i: nat | i < 128
      ensures Bit(Masked(a, n), i) <==> i < n && Bit(a, i)
      ensures Bit(Masked(b, n), i) <==> i < n && Bit(b, i)
    {
      MaskedBits(a, n, i);
      MaskedBits(b, n, i);
    }
    if SamePrefix(a, b, n) {
      AddrExtensional(Masked(a, n), Masked(b, n));
    } else {
      var i: nat :| i < n && !(Bit(a, i) <==> Bit(b, i));
    }
  }

  lemma MaskedTwice(a: Addr, n: nat)
    ensures Masked(Masked(a, n), n) == Masked(a, n)
  {
    hide Bit, Masked;
    var m := Masked(a, n);
    forall i: nat | i < 128 ensures Bit(Masked(m, n), i) <==> Bit(m, i) {
      MaskedBits(m, n, i);
      MaskedBits(a, n, i);
    }
    AddrExtensional(Masked(m, n), m);
  }

  /** Within a family, membership is equality of masked addresses. */
  lemma ContainsIffMaskedEqual(c: Block, ip: IpAddr)
    requires c.prefix <= 128
    ensures Contains(c, ip) <==> c.family == ip.family && Masked(c.addr, c.prefix) == Masked(ip.addr, c.prefix)
  {
    SamePrefixMasked(c.addr, ip.addr, c.prefix);
  }

  lemma MaskedTail(a: Addr, n: nat, bytes: nat)
    requires ZeroTail(a, bytes)
    ensures ZeroTail(Masked(a, n), bytes)
  {
    hide HighMask;
    forall k | bytes <= k < 16 ensures Masked(a, n)[k] == 0 {
      assert a[k] == 0;
      if k * 8 < n < (k + 1) * 8 {
        var m := HighMask(n - k * 8);
        assert 0 & m == 0;
      }
    }
  }

  /** Masking a block is idempotent, keeps it valid and keeps its address set. */
  lemma MaskingKeepsTheSet(c: Block)
    requires ValidBlock(c)
    ensures MaskedBlock(MaskedBlock(c)) == MaskedBlock(c)
    ensures ValidBlock(MaskedBlock(c))
    ensures forall ip :: Contains(MaskedBlock(c), ip) <==> Contains(c, ip)
  {
    hide Bit;
    MaskedTwice(c.addr, c.prefix);
    assert ZeroTail(Masked(c.addr, c.prefix), Limit(c.family) / 8) by {
      MaskedTail(c.addr, c.prefix, Limit(c.family) / 8);
    }
    forall ip ensures Contains(MaskedBlock(c), ip) <==> Contains(c, ip) {
      ContainsIffMaskedEqual(c, ip);
      ContainsIffMaskedEqual(MaskedBlock(c), ip);
    }
  }

  /** Two blocks cover each other exactly when masking makes them the same block. */
  lemma MutualCover(a: Block, b: Block)
    requires a.prefix <= 128 && b.prefix <= 128
    ensures Covers(a, b) && Covers(b, a) <==> MaskedBlock(a) == MaskedBlock(b)
  {
    hide Bit, Masked;
    SamePrefixMasked(a.addr, b.addr, a.prefix);
  }

  // ---- the prefix length ----

  /** Accepts exactly a non-empty run of digits whose value is at most max. */
  method ParsePrefix(text: seq<Byte>, from: nat, max: nat) returns (r: Option<nat>)
    requires from <= |text| + 1 && max <= 128
    ensures r.Some? <==> from < |text| && Decimal.AllDigits(text[from..]) && Decimal.Positional(text[from..]) <= max
    ensures r.Some? ==> r.value == Decimal.Positional(text[from..])
  {
    hide Decimal.Positional;
    if from >= |text| {
      return None;
    }
    var prefix: nat := 0;
    var k := from;
    Decimal.NoDigits();
    assert text[from..from] == [];
    while k < |text|
      invariant from <= k <= |text| && Decimal.AllDigits(text[from..k]) && prefix == Decimal.Positional(text[from..k])
    {
      var c := text[k];
      if c < 48 || c > 57 {
        assert text[from..][k - from] == c;
        return None;
      }
      Decimal.PositionalStep(text, from, k);
      prefix := prefix * 10 + (c as int - 48);
      k := k + 1;
      if prefix > 128 {
        if Decimal.AllDigits(text[from..]) {
          Decimal.PositionalGrows(text[from..], k - from);
          assert text[from..][..k - from] == text[from..k];
        }
        return None;
      }
    }
    assert text[from..k] == text[from..];
    if prefix > max {
      return None;
    }
    r := Some(prefix);
  }
}
