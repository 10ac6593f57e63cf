/**
 The process-wide ceiling on resident bytes, and exactly which blocks it can be promised for: those that fit a
 stripe's share.
 */
module BlockCacheBudget {
  import opened Arithmetic
  import opened Basics
  import opened BlockCaches
  import opened Stripes
  import CacheOptions

  ghost predicate AllAtMost(ops: seq<Op>, limit: nat) { forall op :: op in ops ==> BlocksAtMost(op, limit) }

  function Budget(requested: CacheOptions.Options): nat { CacheOptions.Normalized(requested).budgetBytes }

  /** After these operations on a new store, what is resident is what is counted, and fits the budget. */
  ghost predicate FitsAfter(requested: CacheOptions.Options, hash: Key -> nat, ops: seq<Op>) {
    && StoreValid(Fresh(requested, hash))
    && var r := BlockCaches.After(Fresh(requested, hash), ops);
       r.total == SumResident(r.stripes) <= Budget(requested)
  }

  ghost predicate IsReached(st: Store, i: nat) { exists k :: st.place(k) == i }

  ghost predicate ReachesEveryStripe(st: Store) { forall i :: 0 <= i < |st.stripes| ==> IsReached(st, i) }

  /** Keys are spread by their hash over all stripes: one that counts up reaches each of them. */
  lemma CountingReachesEveryStripe(requested: CacheOptions.Options, hash: Key -> nat)
    requires forall k: Key :: hash(k) == k.block
    ensures ReachesEveryStripe(Fresh(requested, hash))
  {
    var st := Fresh(requested, hash);
    hide CacheOptions.Normalized, ShardCount;
    forall i | 0 <= i < |st.stripes| ensures IsReached(st, i) {
      assert st.place(Key(0, i)) == i;
    }
  }

  // ----- blocks that fit a share -------------------------------------------

  /** When no published block is larger than a share, no operations whatever take the store past its budget. */
  lemma SharesKeepBudget(requested: CacheOptions.Options, hash: Key -> nat, ops: seq<Op>)
    requires AllAtMost(ops, Fresh(requested, hash).shardBudget)
    ensures FitsAfter(requested, hash, ops)
  {
    hide Fresh, CacheOptions.Normalized;
    SharesFitBudget(requested, hash);
    var st := Fresh(requested, hash);
    HistoryKeepsShares(st, ops);
    var r := BlockCaches.After(st, ops);
    SharesBoundTotal(r.stripes, r.shardBudget);
  }

  /** In particular blocks of the store's own size, the ones its configuration names. */
  lemma BudgetHolds(requested: CacheOptions.Options, hash: Key -> nat, ops: seq<Op>)
    requires AllAtMost(ops, CacheOptions.Normalized(requested).blockSize)
    ensures FitsAfter(requested, hash, ops)
  {
    hide Fresh, CacheOptions.Normalized, FitsAfter;
    SharesFitBudget(requested, hash);
    assert AllAtMost(ops, Fresh(requested, hash).shardBudget);
    SharesKeepBudget(requested, hash, ops);
  }

  // ----- blocks that do not ------------------------------------------------

  lemma {:induction false} AfterJoins(st: Store, a: seq<Op>, b: seq<Op>)
    requires StoreValid(st)
    ensures BlockCaches.After(st, a + b) == BlockCaches.After(BlockCaches.After(st, a), b)
    decreases |a|
  {
    if a == [] {
      assert a + b == b;
    } else {
      ApplyIsValid(st, a[0]);
      hide StoreValid, BlockCaches.Apply;
      assert (a + b)[0] == a[0] && (a + b)[1..] == a[1..] + b;
      AfterJoins(BlockCaches.Apply(st, a[0]), a[1..], b);
    }
  }

  /** One block into an empty stripe stays, whatever its size: eviction never takes the last entry. */
  lemma FillOne(st: Store, k: Key, bytes: seq<byte>)
    requires StoreValid(st) && st.StripeOf(k) == EMPTY
    ensures var r := BlockCaches.After(st, [DoAcquire(k), DoPublish(k, bytes)]);
            && SameShape(st, r)
            && r.stripes[st.IndexOf(k)].resident == |bytes|
            && forall i :: 0 <= i < |st.stripes| && i != st.IndexOf(k) ==> r.stripes[i] == st.stripes[i]
  {
    AcquireEffect(st, k);
    var a := Acquire(st, k).0;
    assert a.StripeOf(k).lru == [] && a.StripeOf(k).resident == 0;
    var ops := [DoAcquire(k), DoPublish(k, bytes)];
    assert ops[1..] == [DoPublish(k, bytes)] && ops[1..][1..] == [];
    var i := Inserted(a.StripeOf(k), k, bytes);
    assert i.lru == [k] && i.resident == |bytes|;
    assert Evicted(i, a.shardBudget) == i;
    assert BlockCaches.After(a, [DoPublish(k, bytes)]) == Publish(a, k, bytes);
  }

  /** One block per stripe, for the first `n` stripes. */
  lemma {:induction false} FillStripes(st: Store, n: nat, limit: nat) returns (ops: seq<Op>)
    requires StoreValid(st) && ReachesEveryStripe(st) && n <= |st.stripes|
    requires forall i :: 0 <= i < |st.stripes| ==> st.stripes[i] == EMPTY
    ensures AllAtMost(ops, limit)
    ensures var r := BlockCaches.After(st, ops);
            && SameShape(st, r)
            && (forall i :: 0 <= i < n ==> r.stripes[i].resident == limit)
            && forall i :: n <= i < |st.stripes| ==> r.stripes[i] == EMPTY
    decreases n
  {
    if n == 0 {
      ops := [];
    } else {
      hide StoreValid, Stripes.Valid;
      var before := FillStripes(st, n - 1, limit);
      assert IsReached(st, n - 1);
      var k :| st.place(k) == n - 1;
      var pair := [DoAcquire(k), DoPublish(k, seq(limit, i => 0))];
      FillOne(BlockCaches.After(st, before), k, seq(limit, i => 0));
      AfterJoins(st, before, pair);
      ops := before + pair;
    }
  }

  lemma {:induction false} EqualStripesSum(stripes: seq<Stripe>, each: nat)
    requires forall i :: 0 <= i < |stripes| ==> stripes[i].resident == each
    ensures SumResident(stripes) == |stripes| * each
  {
    if stripes != [] {
      EqualStripesSum(stripes[1..], each);
      assert |stripes| * each == each + (|stripes| - 1) * each;
    }
  }

  lemma OneMoreThanShareOverflows(budget: nat, count: nat, limit: nat)
    requires 0 < count && limit > budget / count
    ensures count * limit > budget
  {
    var q := budget / count;
    assert budget < q * count + count;
    ProductMonotone(q + 1, limit, count);
    assert (q + 1) * count == q * count + count;
  }

  lemma ShareIsAtLeast(requested: CacheOptions.Options, hash: Key -> nat)
    ensures var st := Fresh(requested, hash);
            && 0 < |st.stripes| && Budget(requested) / |st.stripes| <= st.shardBudget
            && forall i :: 0 <= i < |st.stripes| ==> st.stripes[i] == EMPTY
  {
    hide CacheOptions.Normalized, ShardCount;
  }

  /** One block too large for a share in every stripe takes the store past its budget. */
  lemma LargerBlocksBreakBudget(requested: CacheOptions.Options, hash: Key -> nat, limit: nat) returns (ops: seq<Op>)
    requires ReachesEveryStripe(Fresh(requested, hash)) && limit > Fresh(requested, hash).shardBudget
    ensures AllAtMost(ops, limit) && !FitsAfter(requested, hash, ops)
  {
    hide Fresh, CacheOptions.Normalized, AllAtMost, ReachesEveryStripe;
    SharesFitBudget(requested, hash);
    ShareIsAtLeast(requested, hash);
    var st := Fresh(requested, hash);
    ops := FillStripes(st, |st.stripes|, limit);
    EqualStripesSum(BlockCaches.After(st, ops).stripes, limit);
    OneMoreThanShareOverflows(Budget(requested), |st.stripes|, limit);
  }

  // ----- exactly when ------------------------------------------------------

  /**
   For a hash that reaches every stripe: histories whose published blocks are at most `limit` all stay within the
   normalized budget iff `limit` is at most a stripe's share.
   */
  lemma BudgetHoldsIff(requested: CacheOptions.Options, hash: Key -> nat, limit: nat)
    requires ReachesEveryStripe(Fresh(requested, hash))
    ensures (forall ops :: AllAtMost(ops, limit) ==> FitsAfter(requested, hash, ops))
            <==> limit <= Fresh(requested, hash).shardBudget
  {
    hide Fresh, CacheOptions.Normalized, FitsAfter, ReachesEveryStripe;
    if limit <= Fresh(requested, hash).shardBudget {
      forall ops | AllAtMost(ops, limit) ensures FitsAfter(requested, hash, ops) {
        assert AllAtMost(ops, Fresh(requested, hash).shardBudget);
        SharesKeepBudget(requested, hash, ops);
      }
    } else {
      var ops := LargerBlocksBreakBudget(requested, hash, limit);
    }
  }

  /** Under any hash at all, one block larger than the whole budget breaks it. */
  lemma OversizedBlockBreaksBudget(requested: CacheOptions.Options, hash: Key -> nat, k: Key, bytes: seq<byte>)
    requires |bytes| > CacheOptions.Normalized(requested).budgetBytes
    ensures StoreValid(Fresh(requested, hash))
    ensures var r := BlockCaches.After(Fresh(requested, hash), [DoAcquire(k), DoPublish(k, bytes)]);
            r.total == |bytes| > CacheOptions.Normalized(requested).budgetBytes
  {
    SharesFitBudget(requested, hash);
    var st := Fresh(requested, hash);
    AcquireEffect(st, k);
    var a := Acquire(st, k).0;
    assert a.StripeOf(k).lru == [] && a.total == 0;
    var ops := [DoAcquire(k), DoPublish(k, bytes)];
    assert ops[1..] == [DoPublish(k, bytes)] && ops[1..][1..] == [];
    var i := Inserted(a.StripeOf(k), k, bytes);
    assert i.lru == [k];
    assert Evicted(i, a.shardBudget) == i;
    assert BlockCaches.After(a, [DoPublish(k, bytes)]) == Publish(a, k, bytes);
  }
}
