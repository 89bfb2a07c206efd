/** Machine integers as ranges of the mathematical ones, and powers of two. */
module Machine {

  const TWO_32: int := 0x1_0000_0000
  const TWO_52: int := 0x10_0000_0000_0000
  const TWO_53: int := 0x20_0000_0000_0000
  const TWO_63: int := 0x8000_0000_0000_0000
  const TWO_64: int := 0x1_0000_0000_0000_0000

  type Byte = b: int | 0 <= b < 0x100
  type UInt32 = n: int | 0 <= n < 0x1_0000_0000
  type UInt64 = n: int | 0 <= n < 0x1_0000_0000_0000_0000
  type Int64 = n: int | -0x8000_0000_0000_0000 <= n < 0x8000_0000_0000_0000

  const INT64_MIN: Int64 := -0x8000_0000_0000_0000
  const INT64_MAX: Int64 := 0x7FFF_FFFF_FFFF_FFFF
  const UINT64_MAX: UInt64 := 0xFFFF_FFFF_FFFF_FFFF
  const UINT32_MAX: UInt32 := 0xFFFF_FFFF

  function Pow2(n: nat): (p: nat)
    ensures p >= 1
  {
    if n == 0 then 1 else 2 * Pow2(n - 1)
  }

  lemma {:induction false} Pow2Add(a: nat, b: nat)
    ensures Pow2(a + b) == Pow2(a) * Pow2(b)
  {
    if a > 0 {
      Pow2Add(a - 1, b);
    }
  }

  lemma {:induction false} Pow2Mono(a: nat, b: nat)
    requires a <= b
    ensures Pow2(a) <= Pow2(b)
    ensures a < b ==> 2 * Pow2(a) <= Pow2(b)
  {
    if a < b {
      Pow2Mono(a, b - 1);
    }
  }

  /** Rounding up to a multiple of 8, in 32-bit arithmetic: it wraps to 0 in the last seven values. */
  function AlignUp8(n: UInt32): (r: UInt32)
    ensures r % 8 == 0
    ensures n <= UINT32_MAX - 7 ==> n <= r < n + 8
    ensures n > UINT32_MAX - 7 ==> r == 0
  {
    ((n + 7) % TWO_32) / 8 * 8
  }
}
