/**
 A histogram of latencies in buckets that double: bucket zero holds zero, bucket `b` holds `[2^(b-1), 2^b)`, and the
 last bucket holds everything beyond. Quantiles are read off the bounds of buckets, and never off samples.
 */
module LatencyHistograms {
  import opened Arithmetic
  import opened Basics

  const BUCKETS: nat := 41

  // ----- buckets -----------------------------------------------------------

  function Climb(value: nat, bucket: nat, bound: nat): nat
    decreases BUCKETS - bucket
  {
    if bucket + 1 < BUCKETS && value >= bound * 2 then Climb(value, bucket + 1, bound * 2) else bucket
  }

  function Bucket(value: nat): nat { if value == 0 then 0 else Climb(value, 1, 1) }

  method BucketFor(value: nat) returns (bucket: nat)
    ensures bucket == Bucket(value)
  {
    if value == 0 { return 0; }
    bucket := 1;
    var bound: nat := 1;
    while bucket + 1 < BUCKETS && value >= bound * 2
      invariant Climb(value, bucket, bound) == Climb(value, 1, 1)
      decreases BUCKETS - bucket
    {
      bound := bound * 2;
      bucket := bucket + 1;
    }
  }

  /** The largest value a bucket holds, saturation aside. */
  function UpperBound(bucket: nat): nat { Pow2(bucket) - 1 }

  method BucketUpperBound(bucket: nat) returns (bound: nat)
    ensures bound == UpperBound(bucket)
  {
    if bucket == 0 { return 0; }
    bound := 1;
    for i := 1 to bucket
      invariant bound == Pow2(i - 1)
    {
      bound := bound * 2;
    }
    bound := bound * 2 - 1;
  }

  lemma {:induction false} ClimbFinds(value: nat, bucket: nat)
    requires 1 <= bucket < BUCKETS && value >= Pow2(bucket - 1)
    ensures var b := Climb(value, bucket, Pow2(bucket - 1));
            && bucket <= b < BUCKETS && Pow2(b - 1) <= value && (b + 1 < BUCKETS ==> value < Pow2(b))
    decreases BUCKETS - bucket
  {
    assert Pow2(bucket) == 2 * Pow2(bucket - 1);
    if bucket + 1 < BUCKETS && value >= Pow2(bucket) { ClimbFinds(value, bucket + 1); }
  }

  /** A bucket holds its value: not above its bound, unless it is the last, and more than half of it. */
  lemma BucketHolds(value: nat)
    ensures var b := Bucket(value);
            && b < BUCKETS && (b == 0 <==> value == 0)
            && (b + 1 < BUCKETS ==> value <= UpperBound(b))
            && (value > 0 ==> UpperBound(b) < 2 * value)
  {
    if value > 0 {
      ClimbFinds(value, 1);
      var b := Bucket(value);
      assert Pow2(b) == 2 * Pow2(b - 1);
    }
  }

  /** The last bucket is the only one that can hold more than its bound. */
  lemma BoundHoldsBelowTop(value: nat)
    ensures value <= UpperBound(Bucket(value)) <==> value < Pow2(40)
  {
    hide Climb;
    BucketHolds(value);
    var b := Bucket(value);
    if b + 1 < BUCKETS { Pow2Monotone(b, BUCKETS - 1); }
  }

  lemma Pow2IsMonotone(a: nat, b: nat)
    requires a <= b
    ensures Pow2(a) <= Pow2(b)
  {
    if a < b { Pow2Monotone(a, b); }
  }

  /** Larger values are never in smaller buckets. */
  lemma BucketIsMonotone(x: nat, y: nat)
    requires x <= y
    ensures Bucket(x) <= Bucket(y)
  {
    if x > 0 {
      ClimbFinds(x, 1);
      ClimbFinds(y, 1);
      var a, b := Bucket(x), Bucket(y);
      if b < a { Pow2IsMonotone(b, a - 1); }
    }
  }

  // ----- counting ----------------------------------------------------------

  /** Samples in one bucket. */
  function Tally(samples: seq<nat>, bucket: nat): nat {
    if samples == [] then 0
    else Tally(samples[1..], bucket) + if Bucket(samples[0]) == bucket then 1 else 0
  }

  /** Samples in the buckets below one. */
  function Within(samples: seq<nat>, bucket: nat): (n: nat)
    ensures n <= |samples|
  {
    if samples == [] then 0
    else Within(samples[1..], bucket) + if Bucket(samples[0]) < bucket then 1 else 0
  }

  function Sum(samples: seq<nat>): nat { if samples == [] then 0 else samples[0] + Sum(samples[1..]) }

  function Largest(samples: seq<nat>): nat {
    if samples == [] then 0 else Max(samples[0], Largest(samples[1..]))
  }

  lemma {:induction false} WithinAddsUp(samples: seq<nat>, bucket: nat)
    ensures Within(samples, bucket + 1) == Within(samples, bucket) + Tally(samples, bucket)
  {
    hide Bucket;
    if samples != [] { WithinAddsUp(samples[1..], bucket); }
  }

  lemma {:induction false} WithinNone(samples: seq<nat>)
    ensures Within(samples, 0) == 0
  {
    if samples != [] { WithinNone(samples[1..]); }
  }

  lemma {:induction false} TallyJoins(a: seq<nat>, b: seq<nat>, bucket: nat)
    ensures Tally(a + b, bucket) == Tally(a, bucket) + Tally(b, bucket)
  {
    hide Bucket;
    if a == [] {
      assert a + b == b;
    } else {
      assert (a + b)[1..] == a[1..] + b;
      TallyJoins(a[1..], b, bucket);
    }
  }

  lemma {:induction false} TotalsJoin(a: seq<nat>, b: seq<nat>)
    ensures Sum(a + b) == Sum(a) + Sum(b) && Largest(a + b) == Max(Largest(a), Largest(b))
  {
    if a == [] {
      assert a + b == b;
    } else {
      assert (a + b)[1..] == a[1..] + b;
      TotalsJoin(a[1..], b);
    }
  }

  lemma {:induction false} LargestIsLargest(samples: seq<nat>, i: nat)
    requires i < |samples|
    ensures samples[i] <= Largest(samples)
  {
    if i > 0 { LargestIsLargest(samples[1..], i - 1); }
  }

  // ----- quantiles ---------------------------------------------------------

  /** The first of the buckets below `limit` at which the running count reaches `rank`. */
  function Reaching(samples: seq<nat>, rank: nat, limit: nat): Option<nat> {
    if limit == 0 then None
    else
      match Reaching(samples, rank, limit - 1)
      case Some(b) => Some(b)
      case None => if Within(samples, limit) >= rank then Some(limit - 1) else None
  }

  function BoundAt(samples: seq<nat>, rank: nat, limit: nat): nat {
    match Reaching(samples, rank, limit) case None => 0 case Some(b) => UpperBound(b)
  }

  /** What is reported for a rank: a bucket's bound, but never more than was observed. */
  function Reported(samples: seq<nat>, rank: nat): nat { Min(BoundAt(samples, rank, BUCKETS), Largest(samples)) }

  ghost predicate Sorted(s: seq<nat>) { forall i, j :: 0 <= i < j < |s| ==> s[i] <= s[j] }

  function Without(s: seq<nat>, k: nat): (rest: seq<nat>)
    requires k < |s|
    ensures |rest| == |s| - 1
  {
    s[..k] + s[k + 1..]
  }

  lemma {:induction false} WithinRemove(samples: seq<nat>, k: nat, bucket: nat)
    requires k < |samples|
    ensures Within(samples, bucket)
            == Within(Without(samples, k), bucket) + if Bucket(samples[k]) < bucket then 1 else 0
  {
    hide Bucket;
    if k == 0 {
      assert Without(samples, 0) == samples[1..];
    } else {
      var rest := samples[1..];
      WithinRemove(rest, k - 1, bucket);
      assert Without(rest, k - 1) == Without(samples, k)[1..];
    }
  }

  lemma WithoutOne(s: seq<nat>, k: nat)
    requires k < |s|
    ensures multiset(Without(s, k)) == multiset(s) - multiset{s[k]}
  {
    assert s == s[..k] + ([s[k]] + s[k + 1..]);
    assert multiset(s) == multiset(s[..k]) + (multiset{s[k]} + multiset(s[k + 1..]));
  }

  /** Counting does not depend on the order samples came in. */
  lemma {:induction false} WithinPermutes(a: seq<nat>, b: seq<nat>, bucket: nat)
    requires multiset(a) == multiset(b)
    ensures Within(a, bucket) == Within(b, bucket)
    decreases |a|
  {
    hide Bucket, Within, Without;
    assert |multiset(a)| == |a| && |multiset(b)| == |b|;
    if a == [] {
      assert b == [];
    } else {
      assert a[0] in multiset(b);
      var k :| 0 <= k < |b| && b[k] == a[0];
      WithoutOne(a, 0);
      WithoutOne(b, k);
      WithinPermutes(Without(a, 0), Without(b, k), bucket);
      WithinRemove(a, 0, bucket);
      WithinRemove(b, k, bucket);
    }
  }

  /** In a sorted list the samples below a bucket are a prefix. */
  lemma {:induction false} WithinSorted(s: seq<nat>, r: nat, bucket: nat)
    requires Sorted(s) && r < |s|
    ensures Within(s, bucket) > r <==> Bucket(s[r]) < bucket
    decreases |s|
  {
    hide Bucket;
    var rest := s[1..];
    assert Sorted(rest) by { assert forall i :: 0 <= i < |rest| ==> rest[i] == s[i + 1]; }
    BucketIsMonotone(s[0], s[r]);
    if r > 0 {
      WithinSorted(rest, r - 1, bucket);
    } else if Bucket(s[0]) >= bucket {
      WithinAbove(s, bucket);
    }
  }

  lemma {:induction false} WithinAbove(s: seq<nat>, bucket: nat)
    requires Sorted(s) && (s != [] ==> Bucket(s[0]) >= bucket)
    ensures Within(s, bucket) == 0
    decreases |s|
  {
    hide Bucket;
    if |s| > 1 {
      var rest := s[1..];
      assert Sorted(rest) by { assert forall i :: 0 <= i < |rest| ==> rest[i] == s[i + 1]; }
      assert s[0] <= s[1];
      BucketIsMonotone(s[0], s[1]);
      WithinAbove(rest, bucket);
    }
  }

  /** The bucket a rank is reported from is the bucket of the sample at that rank. */
  lemma {:induction false} ReachingIsItsBucket(samples: seq<nat>, sorted: seq<nat>, rank: nat, limit: nat)
    requires Sorted(sorted) && multiset(sorted) == multiset(samples) && 1 <= rank <= |sorted|
    ensures Reaching(samples, rank, limit)
         == if Bucket(sorted[rank - 1]) < limit then Some(Bucket(sorted[rank - 1])) else None
  {
    hide Bucket, Within;
    if limit > 0 {
      ReachingIsItsBucket(samples, sorted, rank, limit - 1);
      WithinPermutes(samples, sorted, limit);
      WithinSorted(sorted, rank - 1, limit);
    }
  }

  /**
   For every list of samples and every rank, against the exact order statistic `x` of that rank: what is reported
   is below twice `x`, zero only with it, and never above the maximum; and it is at least `x` exactly when `x` is
   below the point where the last bucket saturates.
   */
  lemma ReportedBoundsOrderStatistic(samples: seq<nat>, sorted: seq<nat>, rank: nat)
    requires Sorted(sorted) && multiset(sorted) == multiset(samples) && 1 <= rank <= |sorted|
    ensures var x, q := sorted[rank - 1], Reported(samples, rank);
            && q <= Largest(samples)
            && (x == 0 ==> q == 0) && (x > 0 ==> q < 2 * x)
            && (x <= q <==> x < Pow2(40))
  {
    hide Bucket, Reaching, Pow2;
    var x := sorted[rank - 1];
    ReachingIsItsBucket(samples, sorted, rank, BUCKETS);
    BucketHolds(x);
    BoundHoldsBelowTop(x);
    if x == 0 { ZeroBound(); }
    assert x in multiset(samples);
    var i :| 0 <= i < |samples| && samples[i] == x;
    LargestIsLargest(samples, i);
  }

  lemma ZeroBound()
    ensures UpperBound(0) == 0
  {
  }

  // ----- the histogram -----------------------------------------------------

  datatype Summary = Summary(count: nat, sum: nat, max: nat, p50: nat, p90: nat, p99: nat)

  /** The ceiling of a percentage of the count. */
  function Rank(count: nat, percent: nat): nat { (count * percent + 99) / 100 }

  lemma RankIsRank(count: nat, percent: nat)
    requires count > 0 && 1 <= percent <= 100
    ensures 1 <= Rank(count, percent) <= count
    ensures 100 * (Rank(count, percent) - 1) < count * percent <= 100 * Rank(count, percent)
  {
    assert count * percent >= 1 by { ProductMonotone(1, count, percent); }
    assert count * percent <= count * 100 by { ProductMonotone(percent, 100, count); }
  }

  class LatencyHistogram {
    const buckets: array<nat>
    var count: nat
    var sum: nat
    var max: nat
    /** Every sample recorded here or folded in. */
    ghost var samples: seq<nat>

    ghost predicate Valid()
      reads this, buckets
    {
      && buckets.Length == BUCKETS
      && (forall b :: 0 <= b < BUCKETS ==> buckets[b] == Tally(samples, b))
      && count == |samples| && sum == Sum(samples) && max == Largest(samples)
    }

    constructor ()
      ensures Valid() && fresh(buckets) && samples == []
    {
      buckets := new nat[BUCKETS](_ => 0);
      count, sum, max, samples := 0, 0, 0, [];
    }

    method Record(value: nat)
      requires Valid()
      modifies this, buckets
      ensures Valid() && samples == [value] + old(samples)
    {
      hide Bucket;
      var bucket := BucketFor(value);
      BucketHolds(value);
      buckets[bucket] := buckets[bucket] + 1;
      count, sum, max := count + 1, sum + value, Max(max, value);
      samples := [value] + samples;
      assert samples[1..] == old(samples);
    }

    /** Another histogram, or this one, bucket by bucket. */
    method Fold(other: LatencyHistogram)
      requires Valid() && other.Valid()
      modifies this, buckets
      ensures Valid() && samples == old(samples) + old(other.samples)
    {
      hide Tally, Sum, Largest;
      for i := 0 to BUCKETS
        invariant forall b :: 0 <= b < i ==> buckets[b] == old(buckets[b]) + old(other.buckets[b])
        invariant forall b :: i <= b < BUCKETS ==>
                    buckets[b] == old(buckets[b]) && other.buckets[b] == old(other.buckets[b])
        invariant unchanged(this)
      {
        buckets[i] := buckets[i] + other.buckets[i];
      }
      var theirCount, theirSum, theirMax := other.count, other.sum, other.max;
      count, sum, max := count + theirCount, sum + theirSum, Max(max, theirMax);
      samples := samples + old(other.samples);
      forall b | 0 <= b < BUCKETS ensures buckets[b] == Tally(samples, b) {
        TallyJoins(old(samples), old(other.samples), b);
      }
      TotalsJoin(old(samples), old(other.samples));
    }

    method Snapshot() returns (s: Summary)
      requires Valid()
      ensures s.count == |samples| && s.sum == Sum(samples) && s.max == Largest(samples)
      ensures samples == [] ==> s.p50 == s.p90 == s.p99 == 0
      ensures samples != [] ==>
                && s.p50 == Reported(samples, Rank(|samples|, 50))
                && s.p90 == Reported(samples, Rank(|samples|, 90))
                && s.p99 == Reported(samples, Rank(|samples|, 99))
    {
      hide Bucket, Tally, Sum, Largest, Rank, UpperBound, Within;
      if count == 0 { return Summary(count, sum, max, 0, 0, 0); }
      var rank50, rank90, rank99 := Rank(count, 50), Rank(count, 90), Rank(count, 99);
      var found50, found90, found99 := false, false, false;
      var p50, p90, p99 := 0, 0, 0;
      var cumulative := 0;
      WithinNone(samples);
      for i := 0 to BUCKETS
        invariant cumulative == Within(samples, i)
        invariant found50 == Reaching(samples, rank50, i).Some? && p50 == BoundAt(samples, rank50, i)
        invariant found90 == Reaching(samples, rank90, i).Some? && p90 == BoundAt(samples, rank90, i)
        invariant found99 == Reaching(samples, rank99, i).Some? && p99 == BoundAt(samples, rank99, i)
      {
        WithinAddsUp(samples, i);
        cumulative := cumulative + buckets[i];
        var bound := BucketUpperBound(i);
        if !found50 && cumulative >= rank50 { p50, found50 := bound, true; }
        if !found90 && cumulative >= rank90 { p90, found90 := bound, true; }
        if !found99 && cumulative >= rank99 { p99, found99 := bound, true; }
      }
      return Summary(count, sum, max, Min(p50, max), Min(p90, max), Min(p99, max));
    }
  }
}
