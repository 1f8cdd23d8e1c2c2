/** Fixed-width machine integers of the adapter, and the truncating casts it
    performs between them. Dafny integers are unbounded, so every width the
    Rust code relies on is written out here. */
module Ints {

  const U32_LIMIT: int := 0x1_0000_0000
  const U64_LIMIT: int := 0x1_0000_0000_0000_0000

  type u32 = x: int | 0 <= x < 0x1_0000_0000
  type u64 = x: int | 0 <= x < 0x1_0000_0000_0000_0000
  type i64 = x: int | -0x8000_0000_0000_0000 <= x < 0x8000_0000_0000_0000
  type byte = x: int | 0 <= x < 0x100

  /** `x as u32` on a wider integer: keeps the low 32 bits. Dafny's `%` is
      Euclidean, which is exactly two's-complement truncation, negative
      operands included. */
  function TruncU32(x: int): (r: u32)
    ensures 0 <= x < U32_LIMIT ==> r == x
    ensures (x - r) % U32_LIMIT == 0
  {
    x % U32_LIMIT
  }

  /** `x as usize` on a 64-bit target: keeps the low 64 bits. */
  function TruncU64(x: int): (r: u64)
    ensures 0 <= x < U64_LIMIT ==> r == x
    ensures (x - r) % U64_LIMIT == 0
    ensures x < 0 && -x <= U64_LIMIT / 2 ==> r >= U64_LIMIT / 2
  {
    x % U64_LIMIT
  }

  /** `cmp::min`. */
  function Min(a: int, b: int): int {
    if a <= b then a else b
  }
}
