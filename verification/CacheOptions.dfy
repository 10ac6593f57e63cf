/**
 The cache's policy numbers and the normalization that makes any of them legal.
 */
module CacheOptions {
  import opened Arithmetic

  const MIN_BLOCK_SIZE: nat := 4096
  const MAX_BLOCK_SIZE: nat := 67108864
  const DEFAULT_BLOCK_SIZE: nat := 65536
  const MAX_U32: nat := 0xFFFF_FFFF

  datatype Options = Options(
    blockSize: nat,
    budgetBytes: nat,
    coalesceGapBlocks: nat,
    maxRequestBytes: nat,
    bypassThresholdBytes: nat)

  ghost predicate IsPowerOfTwo(n: nat) { exists k: nat :: n == Pow2(k) }

  /** A legal block size: a power of two between the two bounds. */
  ghost predicate LegalBlockSize(n: nat) {
    MIN_BLOCK_SIZE <= n <= MAX_BLOCK_SIZE && IsPowerOfTwo(n)
  }

  /** Doubles `power` as long as the double still fits under `value`. */
  function DoubledUpTo(power: nat, value: nat): (r: nat)
    requires 0 < power
    ensures 0 < r
    decreases value - power
  {
    if power * 2 <= value then DoubledUpTo(power * 2, value) else power
  }

  function RoundedDown(value: nat): (r: nat)
    ensures 0 < r
  {
    if value < MIN_BLOCK_SIZE then MIN_BLOCK_SIZE
    else if value >= MAX_BLOCK_SIZE then MAX_BLOCK_SIZE
    else DoubledUpTo(MIN_BLOCK_SIZE, value)
  }

  method RoundDownToPowerOfTwo(value: nat) returns (power: nat)
    ensures power == RoundedDown(value)
    ensures LegalBlockSize(power)
    ensures forall other: nat :: LegalBlockSize(other) && other <= value ==> other <= power
    ensures MIN_BLOCK_SIZE <= value ==> power <= value
  {
    RoundedDownIsLargest(value);
    if value < MIN_BLOCK_SIZE { return MIN_BLOCK_SIZE; }
    if value >= MAX_BLOCK_SIZE { return MAX_BLOCK_SIZE; }
    power := MIN_BLOCK_SIZE;
    while power * 2 <= value
      invariant 0 < power <= value
      invariant DoubledUpTo(power, value) == DoubledUpTo(MIN_BLOCK_SIZE, value)
      decreases value - power
    {
      power := power * 2;
    }
  }

  function Normalized(o: Options): Options {
    var blockSize := RoundedDown(if o.blockSize == 0 then DEFAULT_BLOCK_SIZE else o.blockSize);
    var maxRequest := Max(o.maxRequestBytes, blockSize);
    var blocksPerRequest := maxRequest / blockSize;
    var gapCeiling := if blocksPerRequest >= 2 then blocksPerRequest - 2 else 0;
    Options(
      blockSize,
      Max(o.budgetBytes, blockSize),
      if o.coalesceGapBlocks > gapCeiling then Min(gapCeiling, MAX_U32) else o.coalesceGapBlocks,
      maxRequest,
      Max(o.bypassThresholdBytes, blockSize))
  }

  // ----- the rounding ------------------------------------------------------

  lemma BoundsArePowers()
    ensures Pow2(12) == MIN_BLOCK_SIZE && Pow2(26) == MAX_BLOCK_SIZE
  {
    assert Pow2(6) == 64;
    assert Pow2(12) == 64 * Pow2(6);
    assert Pow2(18) == 64 * Pow2(12);
    assert Pow2(24) == 64 * Pow2(18);
  }

  lemma {:induction false} DoublingStopsBelow(k: nat, value: nat)
    requires Pow2(k) <= value
    ensures var r := DoubledUpTo(Pow2(k), value);
            Pow2(k) <= r <= value && value < 2 * r && IsPowerOfTwo(r)
    decreases value - Pow2(k)
  {
    if Pow2(k) * 2 <= value {
      assert Pow2(k + 1) == 2 * Pow2(k);
      DoublingStopsBelow(k + 1, value);
    }
  }

  /** Rounding picks the largest legal block size not above the request, or the floor. */
  lemma RoundedDownIsLargest(value: nat)
    ensures LegalBlockSize(RoundedDown(value))
    ensures forall other: nat :: LegalBlockSize(other) && other <= value ==> other <= RoundedDown(value)
    ensures MIN_BLOCK_SIZE <= value ==> RoundedDown(value) <= value
  {
    BoundsArePowers();
    if MIN_BLOCK_SIZE <= value < MAX_BLOCK_SIZE {
      var r := RoundedDown(value);
      DoublingStopsBelow(12, value);
      forall other: nat | LegalBlockSize(other) && other <= value ensures other <= r {
        var a: nat :| r == Pow2(a);
        var b: nat :| other == Pow2(b);
        if a < b { Pow2Monotone(a, b); }
        if b < a { Pow2Monotone(b, a); }
      }
    }
  }

  lemma RoundedDownFixesLegal(n: nat)
    requires LegalBlockSize(n)
    ensures RoundedDown(n) == n
  {
    RoundedDownIsLargest(n);
  }

  // ----- what normalization promises ---------------------------------------

  /**
   Every field of the normalized options is usable with every other: budget, request ceiling and
   bypass threshold each hold a block, and a merge across the resolved gap fits in one request.
   */
  lemma NormalizedIsUsable(o: Options)
    ensures var n := Normalized(o);
            && LegalBlockSize(n.blockSize)
            && n.blockSize <= n.budgetBytes && n.blockSize <= n.maxRequestBytes
            && n.blockSize <= n.bypassThresholdBytes
            && n.coalesceGapBlocks <= o.coalesceGapBlocks
            && (0 < n.coalesceGapBlocks ==> (n.coalesceGapBlocks + 2) * n.blockSize <= n.maxRequestBytes)
  {
    RoundedDownIsLargest(if o.blockSize == 0 then DEFAULT_BLOCK_SIZE else o.blockSize);
    var n := Normalized(o);
    if 0 < n.coalesceGapBlocks {
      QuotientFits(n.coalesceGapBlocks + 2, n.maxRequestBytes, n.blockSize);
    }
  }

  /**
   And nothing is changed more than that takes: what is raised is raised to one block, the gap is lowered only to the
   widest that fits the request ceiling, and zero stands for a block of 64 KiB.
   */
  lemma NormalizedChangesLeast(o: Options)
    requires o.coalesceGapBlocks <= 0xFFFF_FFFF
    ensures var n := Normalized(o);
            && (LegalBlockSize(o.blockSize) ==> n.blockSize == o.blockSize)
            && (o.blockSize == 0 ==> n.blockSize == 65536)
            && (n.budgetBytes != o.budgetBytes ==> o.budgetBytes < n.budgetBytes == n.blockSize)
            && (n.maxRequestBytes != o.maxRequestBytes ==> o.maxRequestBytes < n.maxRequestBytes == n.blockSize)
            && (n.bypassThresholdBytes != o.bypassThresholdBytes ==>
                  o.bypassThresholdBytes < n.bypassThresholdBytes == n.blockSize)
            && (n.coalesceGapBlocks != o.coalesceGapBlocks ==>
                  && n.coalesceGapBlocks < o.coalesceGapBlocks
                  && n.maxRequestBytes < (n.coalesceGapBlocks + 3) * n.blockSize)
            && (LegalBlockSize(n.blockSize) ==> 4096 <= n.blockSize <= 67108864)
  {
    if LegalBlockSize(o.blockSize) { RoundedDownFixesLegal(o.blockSize); }
    BoundsArePowers();
    RoundedDownFixesLegal(65536) by { assert 65536 == Pow2(16) by { SixtyFourKilobytes(); } }
    var n := Normalized(o);
    var fit := n.maxRequestBytes / n.blockSize;
    assert n.maxRequestBytes < (fit + 1) * n.blockSize;
    if n.coalesceGapBlocks != o.coalesceGapBlocks { ProductMonotone(fit + 1, n.coalesceGapBlocks + 3, n.blockSize); }
  }

  lemma SixtyFourKilobytes()
    ensures Pow2(16) == 65536
  {
    assert Pow2(6) == 64;
    assert Pow2(12) == 64 * Pow2(6);
  }

  lemma NormalizedIsIdempotent(o: Options)
    ensures Normalized(Normalized(o)) == Normalized(o)
  {
    NormalizedIsUsable(o);
    RoundedDownFixesLegal(Normalized(o).blockSize);
  }
}
