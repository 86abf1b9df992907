/** The integer and bit arithmetic of the split-ordered hash set
    (hashset/lock_free/hashset.c): 64-bit bit reversal, the sentinel-key and
    regular-key encodings, the father-bucket index, cluster coordinates, the
    bucket index and the doubling of the bucket count.

    A 64-bit word is an integer in [0, 2^64); its bits are read with `Bit`
    and collected, least significant first, by `Bits64`. */
module SplitOrder {
  import opened Keys

  const BITS: nat := 64

  /** hashset.h: MIN_NUM_BUCKETS, BUCKET_PER_CLUSTER, CLUSTER_LEN. */
  const MIN_NUM_BUCKETS: nat := 2
  const BUCKET_PER_CLUSTER: nat := 1024
  const CLUSTER_LEN: nat := 2048
  /** The most buckets the cluster table can address. */
  const MAX_BUCKETS: nat := CLUSTER_LEN * BUCKET_PER_CLUSTER

  function Pow2(n: nat): (r: nat)
    ensures r >= 1
  {
    if n == 0 then 1 else 2 * Pow2(n - 1)
  }

  /** Bit `i` of `x`, i.e. `x & (1UL << i) != 0`. */
  predicate Bit(x: nat, i: nat)
  {
    if i == 0 then x % 2 == 1 else Bit(x / 2, i - 1)
  }

  /** The 64 bits of `x`, least significant first. */
  function Bits64(x: Key): (s: seq<bool>)
    ensures |s| == BITS
    ensures forall i :: 0 <= i < BITS ==> s[i] == Bit(x, i)
  {
    seq(BITS, i requires 0 <= i => Bit(x, i))
  }

  /** The number whose bits, least significant first, are `s`. */
  function FromBits(s: seq<bool>): nat
  {
    if s == [] then 0 else (if s[0] then 1 else 0) + 2 * FromBits(s[1..])
  }

  function Reverse(s: seq<bool>): (r: seq<bool>)
    ensures |r| == |s|
    ensures forall j :: 0 <= j < |s| ==> r[j] == s[|s| - 1 - j]
  {
    seq(|s|, j requires 0 <= j < |s| => s[|s| - 1 - j])
  }

  lemma {:induction false} Pow2Add(a: nat, b: nat)
    ensures Pow2(a + b) == Pow2(a) * Pow2(b)
  {
    if a > 0 {
      Pow2Add(a - 1, b);
    }
  }

  /** 2^64 and 2^63, the word size and its top bit. */
  lemma Pow2Word()
    ensures Pow2(BITS) == U64_LIMIT
    ensures Pow2(BITS - 1) == U64_LIMIT / 2
  {
    assert Pow2(2) == 4;
    Pow2Add(2, 2);
    assert Pow2(4) == 16;
    Pow2Add(4, 4);
    assert Pow2(8) == 0x100;
    Pow2Add(8, 8);
    assert Pow2(16) == 0x1_0000;
    Pow2Add(16, 16);
    assert Pow2(32) == 0x1_0000_0000;
    Pow2Add(32, 32);
    assert Pow2(64) == U64_LIMIT;
    Pow2Add(63, 1);
    assert Pow2(1) == 2;
  }

  lemma {:induction false} FromBitsBound(s: seq<bool>)
    ensures FromBits(s) < Pow2(|s|)
  {
    if s != [] {
      FromBitsBound(s[1..]);
    }
  }

  lemma {:induction false} BitOfFromBits(s: seq<bool>, i: nat)
    requires i < |s|
    ensures Bit(FromBits(s), i) == s[i]
  {
    if i > 0 {
      BitOfFromBits(s[1..], i - 1);
    }
  }

  lemma {:induction false} FromBitsOfBits(x: nat, n: nat)
    requires x < Pow2(n)
    ensures FromBits(seq(n, i requires 0 <= i => Bit(x, i))) == x
  {
    var s := seq(n, i requires 0 <= i => Bit(x, i));
    if n > 0 {
      var t := seq(n - 1, i requires 0 <= i => Bit(x / 2, i));
      assert s[1..] == t;
      FromBitsOfBits(x / 2, n - 1);
    }
  }

  /** A word is determined by its 64 bits. */
  lemma BitsDetermine(x: Key)
    ensures FromBits(Bits64(x)) == x
  {
    Pow2Word();
    FromBitsOfBits(x, BITS);
  }

  lemma BitsOfFromBits(s: seq<bool>)
    requires |s| == BITS
    ensures FromBits(s) < U64_LIMIT
    ensures Bits64(FromBits(s)) == s
  {
    FromBitsBound(s);
    Pow2Word();
    forall i | 0 <= i < BITS ensures Bits64(FromBits(s))[i] == s[i] {
      BitOfFromBits(s, i);
    }
  }

  /** Setting a clear bit `j` adds 2^j: `res |= 1UL << j`. */
  lemma {:induction false} SetClearBit(s: seq<bool>, j: nat)
    requires j < |s| && !s[j]
    ensures FromBits(s[j := true]) == FromBits(s) + Pow2(j)
  {
    if j > 0 {
      assert s[j := true][1..] == s[1..][j - 1 := true];
      SetClearBit(s[1..], j - 1);
    }
  }

  /** The reference reversal: bit `i` of the result is bit `63 - i` of `k`. */
  function ReverseBits(k: Key): (r: Key)
  {
    BitsOfFromBits(Reverse(Bits64(k)));
    FromBits(Reverse(Bits64(k)))
  }

  lemma ReverseBitsAt(k: Key, i: nat)
    requires i < BITS
    ensures Bit(ReverseBits(k), i) == Bit(k, BITS - 1 - i)
  {
    BitOfFromBits(Reverse(Bits64(k)), i);
  }

  /** `reverse_by_bit` (hashset.c:14-26): the loop tests bit `i` of `k` and
      sets bit `63 - i` of the result. */
  method ReverseByBit(k: Key) returns (res: Key)
    ensures forall i :: 0 <= i < BITS ==> Bit(res, i) == Bit(k, BITS - 1 - i)
    ensures res == ReverseBits(k)
  {
    ghost var bits := Bits64(k);
    ghost var r: seq<bool> := seq(BITS, _ => false);
    assert FromBits(r) == 0 by {
      var n := 0;
      while n < BITS
        invariant n <= BITS
        invariant FromBits(r[BITS - n..]) == 0
      {
        assert r[BITS - n - 1..][1..] == r[BITS - n..];
        n := n + 1;
      }
      assert r[0..] == r;
    }
    res := 0;
    var i: nat := 0;
    while i < BITS
      invariant i <= BITS && |r| == BITS
      invariant res == FromBits(r)
      invariant forall j :: 0 <= j < BITS ==> r[j] == (BITS - 1 - j < i && bits[BITS - 1 - j])
    {
      if Bit(k, i) {
        SetClearBit(r, BITS - 1 - i);
        r := r[BITS - 1 - i := true];
        BitsOfFromBits(r);
        res := res + Pow2(BITS - 1 - i);
      }
      i := i + 1;
    }
    assert r == Reverse(bits);
    forall j | 0 <= j < BITS ensures Bit(res, j) == Bit(k, BITS - 1 - j) {
      ReverseBitsAt(k, j);
    }
  }

  /** Reversing twice gives the key back. */
  lemma ReverseInvolution(k: Key)
    ensures ReverseBits(ReverseBits(k)) == k
  {
    var r := ReverseBits(k);
    BitsOfFromBits(Reverse(Bits64(k)));
    assert Bits64(r) == Reverse(Bits64(k));
    assert Reverse(Reverse(Bits64(k))) == Bits64(k);
    BitsDetermine(k);
  }

  /** The parity of a word is its bit 0. */
  lemma {:induction false} OddIffBit0(x: nat)
    ensures x % 2 == 1 <==> Bit(x, 0)
  {
  }

  /** `k & MASK` with MASK = 0x7fffffffffffffff: bit 63 cleared. */
  function ClearTop(k: Key): (r: Key)
  {
    BitsOfFromBits(Bits64(k)[BITS - 1 := false]);
    FromBits(Bits64(k)[BITS - 1 := false])
  }

  /** `x | ~MASK`: bit 63 set. */
  function SetTop(k: Key): (r: Key)
  {
    BitsOfFromBits(Bits64(k)[BITS - 1 := true]);
    FromBits(Bits64(k)[BITS - 1 := true])
  }

  /** `set_sentinel_key` (hashset.c:28-31). */
  function SentinelKey(k: Key): Key
  {
    ReverseBits(ClearTop(k))
  }

  /** `set_key` (hashset.c:33-36). */
  function RegularKey(k: Key): Key
  {
    ReverseBits(SetTop(ClearTop(k)))
  }

  lemma TopBitOf(k: Key, b: bool, i: nat)
    requires i < BITS
    ensures Bit(FromBits(Bits64(k)[BITS - 1 := b]), i) == if i == BITS - 1 then b else Bit(k, i)
  {
    BitOfFromBits(Bits64(k)[BITS - 1 := b], i);
  }

  /** A sentinel key is even: bit 0 is clear. */
  lemma SentinelKeyIsEven(k: Key)
    ensures SentinelKey(k) % 2 == 0
  {
    ReverseBitsAt(ClearTop(k), 0);
    TopBitOf(k, false, BITS - 1);
    OddIffBit0(SentinelKey(k));
  }

  /** A regular key is odd: bit 0 is set. */
  lemma RegularKeyIsOdd(k: Key)
    ensures RegularKey(k) % 2 == 1
  {
    ReverseBitsAt(SetTop(ClearTop(k)), 0);
    TopBitOf(ClearTop(k), true, BITS - 1);
    OddIffBit0(RegularKey(k));
  }

  /** No regular key collides with a sentinel key. */
  lemma SentinelNeverRegular(b: Key, k: Key)
    ensures SentinelKey(b) != RegularKey(k)
  {
    SentinelKeyIsEven(b);
    RegularKeyIsOdd(k);
  }

  lemma {:induction false} BitIgnoresHigherPower(x: nat, n: nat, i: nat)
    requires i < n
    ensures Bit(x + Pow2(n), i) == Bit(x, i)
  {
    if i > 0 {
      assert (x + Pow2(n)) / 2 == x / 2 + Pow2(n - 1);
      BitIgnoresHigherPower(x / 2, n - 1, i - 1);
    }
  }

  /** "The first bit of a key is invalid" (hashset.c:11-12): keys that differ
      only in bit 63 have the same regular key. */
  lemma RegularKeyIgnoresTopBit(k: Key)
    requires k < U64_LIMIT / 2
    ensures RegularKey(k) == RegularKey(k + U64_LIMIT / 2)
  {
    Pow2Word();
    var k2: Key := k + Pow2(BITS - 1);
    forall i | 0 <= i < BITS - 1 ensures Bit(k2, i) == Bit(k, i) {
      BitIgnoresHigherPower(k, BITS - 1, i);
    }
    assert Bits64(k)[BITS - 1 := false] == Bits64(k2)[BITS - 1 := false];
  }

  /** Bits 0..62 of a key survive into its regular key (bit 63 -> bit 0 is
      forced to 1), so two keys below 2^63 share a regular key only if equal. */
  lemma RegularKeyInjective(k1: Key, k2: Key)
    requires k1 < U64_LIMIT / 2 && k2 < U64_LIMIT / 2
    requires RegularKey(k1) == RegularKey(k2)
    ensures k1 == k2
  {
    Pow2Word();
    ReverseInvolution(SetTop(ClearTop(k1)));
    ReverseInvolution(SetTop(ClearTop(k2)));
    assert SetTop(ClearTop(k1)) == SetTop(ClearTop(k2));
    forall i | 0 <= i < BITS ensures Bits64(k1)[i] == Bits64(k2)[i] {
      if i < BITS - 1 {
        TopBitOf(k1, false, i);
        TopBitOf(k2, false, i);
        TopBitOf(ClearTop(k1), true, i);
        TopBitOf(ClearTop(k2), true, i);
        assert Bit(SetTop(ClearTop(k1)), i) == Bit(k1, i);
        assert Bit(SetTop(ClearTop(k2)), i) == Bit(k2, i);
      } else {
        BitBelowPower(k1, BITS - 1);
        BitBelowPower(k2, BITS - 1);
      }
    }
    assert Bits64(k1) == Bits64(k2);
    BitsDetermine(k1);
    BitsDetermine(k2);
  }

  lemma {:induction false} BitBelowPower(x: nat, n: nat)
    requires x < Pow2(n)
    ensures !Bit(x, n)
  {
    if n > 0 {
      BitBelowPower(x / 2, n - 1);
    }
  }

  // ----- bucket arithmetic -----

  ghost predicate IsPow2(n: nat)
  {
    exists e: nat :: n == Pow2(e)
  }

  /** The highest power of two not above `b`: the fence `get_fa_index`
      halves down to. */
  function HighBit(b: nat): (h: nat)
    requires b > 0
  {
    if b == 1 then 1 else 2 * HighBit(b / 2)
  }

  lemma {:induction false} HighBitBounds(b: nat)
    requires b > 0
    ensures HighBit(b) <= b < 2 * HighBit(b)
    ensures IsPow2(HighBit(b))
  {
    if b == 1 {
      assert HighBit(b) == Pow2(0);
    } else {
      HighBitBounds(b / 2);
      var e: nat :| HighBit(b / 2) == Pow2(e);
      assert HighBit(b) == Pow2(e + 1);
    }
  }

  /** The reference father bucket: `b` with its highest set bit cleared. */
  function FatherIndex(b: nat): (f: nat)
    requires b > 0
    ensures f < HighBit(b) <= b && IsPow2(HighBit(b))
  {
    HighBitBounds(b);
    b - HighBit(b)
  }

  /** A power of two at most `b`, halved while above `b`, stops at HighBit(b). */
  lemma {:induction false} PowersBelow(e: nat, b: nat)
    requires 0 < b && b < 2 * Pow2(e)
    ensures Pow2(e) <= b ==> Pow2(e) == HighBit(b)
  {
    if Pow2(e) <= b {
      if e == 0 {
      } else {
        PowersBelow(e - 1, b / 2);
      }
    }
  }

  /** `get_fa_index` (hashset.c:39-48): halve the fence, starting from the
      bucket count, until it is not above `b`; the father is `b - fence`. */
  method GetFaIndex(numB: nat, b: nat) returns (f: int)
    requires IsPow2(numB) && b < numB
    ensures b == 0 ==> f == 0
    ensures b > 0 ==> f == FatherIndex(b) && 0 <= f < b
  {
    ghost var e: nat :| numB == Pow2(e);
    var fence := numB;
    while fence > b
      invariant fence == Pow2(e) || (fence == 0 && b == 0)
      invariant b < 2 * fence || fence == 0 || fence == numB
      decreases fence
    {
      if fence == 1 {
        fence := 0;
      } else {
        e := e - 1;
        fence := fence / 2;
      }
    }
    if b > 0 {
      PowersBelow(e, b);
      HighBitBounds(b);
    }
    f := b - fence;
  }

  /** Father indices strictly decrease, so `get_bucket_list`'s recursion on
      the father bucket (hashset.c:60-63) reaches bucket 0. This lists the
      buckets it initialises, innermost call last. */
  function AncestorChain(b: nat): (c: seq<nat>)
    ensures |c| >= 1 && c[0] == b && c[|c| - 1] == 0
    ensures forall i :: 0 < i < |c| ==> c[i] < c[i - 1]
    decreases b
  {
    if b == 0 then [0] else [b] + AncestorChain(FatherIndex(b))
  }

  /** `get_bucket_list`'s cluster coordinates (hashset.c:51-52). */
  function ClusterCoords(b: nat): (cc: (nat, nat))
    ensures cc.0 * BUCKET_PER_CLUSTER + cc.1 == b
    ensures cc.1 < BUCKET_PER_CLUSTER
    ensures b < MAX_BUCKETS ==> cc.0 < CLUSTER_LEN
  {
    (b / BUCKET_PER_CLUSTER, b % BUCKET_PER_CLUSTER)
  }

  /** `hs_insert`'s bucket index `k % num_b` (hashset.c:148). */
  function BucketOf(k: Key, numB: nat): (b: nat)
    requires numB > 0
    ensures b < numB
  {
    k % numB
  }

  /** The bucket count after an insert (hashset.c:161-169); whether the load
      factor was exceeded is a parameter, the float test is not modelled. */
  function NextNumBuckets(numB: nat, overloaded: bool): nat
  {
    if overloaded && numB * 2 <= MAX_BUCKETS then numB * 2 else numB
  }

  /** The bucket count starts at MIN_NUM_BUCKETS and stays a power of two
      within the cluster table. */
  ghost predicate ValidNumBuckets(n: nat)
  {
    IsPow2(n) && MIN_NUM_BUCKETS <= n <= MAX_BUCKETS
  }

  lemma NumBucketsStartValid()
    ensures ValidNumBuckets(MIN_NUM_BUCKETS)
  {
    assert MIN_NUM_BUCKETS == Pow2(1);
  }

  lemma NumBucketsStaysValid(numB: nat, overloaded: bool)
    requires ValidNumBuckets(numB)
    ensures ValidNumBuckets(NextNumBuckets(numB, overloaded))
    ensures NextNumBuckets(numB, overloaded) >= numB
  {
    if overloaded && numB * 2 <= MAX_BUCKETS {
      var e: nat :| numB == Pow2(e);
      assert numB * 2 == Pow2(e + 1);
    }
  }
}
