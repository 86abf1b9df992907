/** Shared vocabulary: the repository's unsigned 64-bit keys and words and the
    three-way key comparison `k_cmp` (include/util.h). */
module Keys {
  /** 2^64: one past the largest `uint64_t`. */
  const U64_LIMIT: int := 0x1_0000_0000_0000_0000

  /** `ukey_t` / `pkey_t`: an unsigned 64-bit key. */
  type Key = x: int | 0 <= x < U64_LIMIT

  /** `uval_t` / `pval_t`: a machine word stored as a value. */
  type Word = x: int | 0 <= x < U64_LIMIT

  /** The largest key, `~0` in C. */
  const MAX_KEY: Key := U64_LIMIT - 1

  /** `k_cmp(a, b)`: 1, -1 or 0 as `a` is above, below or equal to `b`. */
  function KCmp(a: Key, b: Key): (r: int)
    ensures -1 <= r <= 1
    ensures r < 0 <==> a < b
    ensures r == 0 <==> a == b
    ensures r > 0 <==> a > b
  {
    if a > b then 1 else if a < b then -1 else 0
  }
}
