/** The integer types of the original, as subset types: assigning a value that does
    not fit is a proof obligation, so a member that verifies cannot overflow. */
module Machine {
  const U32_LIMIT: nat := 0x1_0000_0000
  const U64_MAX: nat := 0xFFFF_FFFF_FFFF_FFFF
  const U64_LIMIT: nat := 0x1_0000_0000_0000_0000
  const U128_LIMIT: nat := 0x1_0000_0000_0000_0000_0000_0000_0000_0000

  type byte = x: int | 0 <= x < 256
  type u16 = x: int | 0 <= x < 0x1_0000
  type u32 = x: int | 0 <= x < U32_LIMIT
  type u64 = x: int | 0 <= x < U64_LIMIT
  type u128 = x: int | 0 <= x < U128_LIMIT
  type i64 = x: int | -0x8000_0000_0000_0000 <= x < 0x8000_0000_0000_0000
  /** A 64-bit target. */
  type usize = u64

  datatype Option<+T> = None | Some(value: T)

  function Max(a: int, b: int): int {
    if a < b then b else a
  }

  function Min(a: int, b: int): int {
    if a < b then a else b
  }

  lemma {:induction false} ProductLe(a: nat, b: nat, c: nat, d: nat)
    requires a <= c && b <= d
    ensures a * b <= c * d
  {
    assert a * b <= c * b by {
      assert c * b - a * b == (c - a) * b;
    }
    assert c * b <= c * d by {
      assert c * d - c * b == c * (d - b);
    }
  }

  /** The product of two 64-bit values fits 128 bits. */
  lemma {:induction false} ProductFits(a: u64, b: u64)
    ensures 0 <= a * b < U128_LIMIT
  {
    ProductLe(a, b, U64_MAX, U64_MAX);
    assert U64_MAX * U64_MAX < U128_LIMIT;
  }
}
