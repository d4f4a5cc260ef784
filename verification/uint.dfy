/** Fixed-width unsigned integers of the C++ source and the implicit
    narrowing conversion between them. */
module Uint {

  const TwoTo32: nat := 0x1_0000_0000

  /** `uint32_t` */
  type U32 = x: int | 0 <= x < 0x1_0000_0000

  /** `uint64_t` */
  type U64 = x: int | 0 <= x < 0x1_0000_0000_0000_0000

  /** The implicit conversion of a `uint64_t` to a `uint32_t`: the result is
      the unique 32-bit value congruent to `n` modulo 2^32, so numbers below
      2^32 survive unchanged. */
  function Truncate32(n: U64): (r: U32)
    ensures r <= n
    ensures n < TwoTo32 ==> r == n
    ensures (n - r) % TwoTo32 == 0
  {
    n % TwoTo32
  }

  /** Two 64-bit numbers truncate to the same 32-bit value exactly when they
      differ by a multiple of 2^32. */
  lemma SameTruncationIff(a: U64, b: U64)
    ensures Truncate32(a) == Truncate32(b) <==> (a - b) % TwoTo32 == 0
  {
  }
}
