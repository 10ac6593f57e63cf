/**
 The striped block store: which stripe a key lives in, the share of the budget each stripe gets, and
 the identities readers are bound to.
 */
module BlockCaches {
  import opened Basics
  import opened Stripes
  import opened Arithmetic
  import CacheOptions

  // ----- the store as a value ----------------------------------------------

  /** `place` says which stripe a key belongs to. */
  datatype Store = Store(stripes: seq<Stripe>, shardBudget: nat, total: int, place: Key -> nat) {
    ghost predicate HasStripes() { forall k :: place(k) < |stripes| }

    function IndexOf(k: Key): nat
      requires HasStripes()
      ensures IndexOf(k) < |stripes|
    {
      place(k)
    }

    function StripeOf(k: Key): Stripe
      requires HasStripes()
    {
      stripes[IndexOf(k)]
    }

    /** What the store holds under a key. */
    function At(k: Key): Option<Entry>
      requires HasStripes()
    {
      if k in StripeOf(k).entries then Some(StripeOf(k).entries[k]) else None
    }

    /** The store after a critical section turned the key's stripe into `s`. */
    function With(k: Key, s: Stripe): Store
      requires HasStripes()
    {
      this.(stripes := stripes[IndexOf(k) := s], total := total + s.resident - StripeOf(k).resident)
    }
  }

  function Acquire(st: Store, k: Key): (Store, Acquisition)
    requires st.HasStripes()
  {
    var (s, outcome) := AfterAcquire(st.StripeOf(k), k);
    (st.With(k, s), outcome)
  }

  function Await(st: Store, k: Key): (Store, Option<seq<byte>>)
    requires st.HasStripes()
  {
    var (s, block) := AfterAwait(st.StripeOf(k), k);
    (st.With(k, s), block)
  }

  function Publish(st: Store, k: Key, bytes: seq<byte>): Store
    requires st.HasStripes()
  {
    st.With(k, AfterPublish(st.StripeOf(k), k, bytes, st.shardBudget))
  }

  function Abandon(st: Store, k: Key): Store
    requires st.HasStripes()
  {
    st.With(k, AfterAbandon(st.StripeOf(k), k))
  }

  /** A private binding closes in every stripe. */
  function Close(st: Store, id: nat): Store {
    var stripes := Closed(st.stripes, id);
    st.(stripes := stripes, total := st.total + SumResident(stripes) - SumResident(st.stripes))
  }

  function Closed(stripes: seq<Stripe>, id: nat): seq<Stripe> {
    seq(|stripes|, i requires 0 <= i < |stripes| => AfterClose(stripes[i], id))
  }

  function SumResident(stripes: seq<Stripe>): int {
    if stripes == [] then 0 else stripes[0].resident + SumResident(stripes[1..])
  }

  /** Every stripe is valid, holds only keys that hash to it, and the total is the sum of the stripes. */
  ghost predicate StoreValid(st: Store) {
    && st.HasStripes()
    && (forall i :: 0 <= i < |st.stripes| ==> Valid(st.stripes[i]))
    && (forall i :: 0 <= i < |st.stripes| ==> Placed(st, st.stripes[i], i))
    && st.total == SumResident(st.stripes)
  }

  /** Everything in `s` belongs to stripe `i`. */
  ghost predicate Placed(st: Store, s: Stripe, i: nat) {
    forall k :: k in s.entries ==> st.place(k) == i
  }

  /** Stripes are neither added nor removed, and their share of the budget is fixed. */
  ghost predicate SameShape(a: Store, b: Store) {
    |a.stripes| == |b.stripes| && a.shardBudget == b.shardBudget && a.place == b.place
  }

  ghost predicate WithinShares(st: Store) {
    forall i :: 0 <= i < |st.stripes| ==> st.stripes[i].resident <= st.shardBudget
  }

  // ----- building a store --------------------------------------------------

  function DoubledCount(count: nat, desired: nat): (r: nat)
    requires 0 < count
    ensures 0 < r
    decreases 64 - count
  {
    if count < 64 && count * 2 <= desired then DoubledCount(count * 2, desired) else count
  }

  /** As many stripes as leave each of them eight blocks. */
  function WantedStripes(budgetBytes: nat, blockSize: nat): nat {
    if blockSize > 0 then Quotient(budgetBytes, blockSize * 8) else 1
  }

  function ShardCount(budgetBytes: nat, blockSize: nat): (count: nat)
    ensures 0 < count
  {
    DoubledCount(1, WantedStripes(budgetBytes, blockSize))
  }

  /** An empty store with the stripes and shares the options call for, under any hash of the key. */
  function Fresh(requested: CacheOptions.Options, hash: Key -> nat): Store {
    var o := CacheOptions.Normalized(requested);
    var count := ShardCount(o.budgetBytes, o.blockSize);
    Store(seq(count, i => EMPTY), Max(o.budgetBytes / count, o.blockSize), 0, k => hash(k) % count)
  }

  /** The stripe count: a power of two up to 64 that leaves every stripe room for eight blocks. */
  method ChooseShardCount(budgetBytes: nat, blockSize: nat) returns (count: nat)
    ensures count == ShardCount(budgetBytes, blockSize)
    ensures count in {1, 2, 4, 8, 16, 32, 64}
    ensures count > 1 ==> count <= WantedStripes(budgetBytes, blockSize)
    ensures blockSize > 0 ==>
              && (count > 1 ==> count * (8 * blockSize) <= budgetBytes)
              && (count < 64 ==> budgetBytes < 2 * count * (8 * blockSize))
  {
    var desired := WantedStripes(budgetBytes, blockSize);
    count := 1;
    while count < 64 && count * 2 <= desired
      invariant count in {1, 2, 4, 8, 16, 32, 64}
      invariant count > 1 ==> count <= desired
      invariant DoubledCount(count, desired) == DoubledCount(1, desired)
      decreases 64 - count
    {
      count := count * 2;
    }
    if blockSize > 0 {
      if count > 1 { QuotientFits(count, budgetBytes, 8 * blockSize); }
      if 2 * count * (8 * blockSize) <= budgetBytes { QuotientAtLeast(2 * count, budgetBytes, 8 * blockSize); }
    }
  }

  lemma {:induction false} DoubledCountBounds(count: nat, desired: nat)
    requires 0 < count <= 64 && (count == 1 || count <= desired)
    requires count == 1 || count == 2 || count == 4 || count == 8 || count == 16 || count == 32 || count == 64
    ensures var c := DoubledCount(count, desired); 0 < c <= 64 && (c == 1 || c <= desired)
    decreases 64 - count
  {
    if count < 64 && count * 2 <= desired { DoubledCountBounds(count * 2, desired); }
  }

  /** The share arithmetic on its own: `count` shares fit the budget and each holds a block. */
  lemma ShareArithmetic(budget: nat, blockSize: nat, count: nat)
    requires 0 < blockSize <= budget && count == ShardCount(budget, blockSize)
    ensures 0 < count && count * Max(budget / count, blockSize) <= budget
  {
    var desired := budget / (blockSize * 8);
    DoubledCountBounds(1, desired);
    if count > 1 {
      QuotientFits(count, budget, blockSize * 8);
      BlocksFit(count, blockSize, budget);
      QuotientAtLeast(blockSize, budget, count);
      QuotientFits(budget / count, budget, count);
    }
  }

  lemma BlocksFit(count: nat, blockSize: nat, budget: nat)
    requires count * (blockSize * 8) <= budget
    ensures blockSize * count <= budget
  {
    assert count * (blockSize * 8) == 8 * (blockSize * count);
  }

  /** All shares together stay within the normalized budget, and each share holds a block. */
  lemma SharesFitBudget(requested: CacheOptions.Options, hash: Key -> nat)
    ensures var o := CacheOptions.Normalized(requested);
            var st := Fresh(requested, hash);
            && StoreValid(st) && WithinShares(st)
            && |st.stripes| * st.shardBudget <= o.budgetBytes
            && o.blockSize <= st.shardBudget
  {
    CacheOptions.NormalizedIsUsable(requested);
    var o := CacheOptions.Normalized(requested);
    ShareArithmetic(o.budgetBytes, o.blockSize, ShardCount(o.budgetBytes, o.blockSize));
    EmptyStripesSumToZero(Fresh(requested, hash).stripes);
  }

  lemma {:induction false} EmptyStripesSumToZero(stripes: seq<Stripe>)
    requires forall i :: 0 <= i < |stripes| ==> stripes[i] == EMPTY
    ensures SumResident(stripes) == 0
  {
    if stripes != [] { EmptyStripesSumToZero(stripes[1..]); }
  }

  // ----- every critical section keeps the store valid ----------------------

  lemma {:induction false} SumAfterUpdate(stripes: seq<Stripe>, i: nat, s: Stripe)
    requires i < |stripes|
    ensures SumResident(stripes[i := s]) == SumResident(stripes) + s.resident - stripes[i].resident
  {
    if i == 0 {
      assert stripes[i := s][1..] == stripes[1..];
    } else {
      assert stripes[i := s][1..] == stripes[1..][i - 1 := s];
      SumAfterUpdate(stripes[1..], i - 1, s);
    }
  }

  /** Replacing a stripe by a valid one with no new keys but `k` keeps the store valid. */
  lemma WithIsValid(st: Store, k: Key, s: Stripe)
    requires StoreValid(st) && Valid(s)
    requires forall x :: x in s.entries ==> x == k || x in st.StripeOf(k).entries
    ensures StoreValid(st.With(k, s))
    ensures WithinShares(st) && s.resident <= st.shardBudget ==> WithinShares(st.With(k, s))
  {
    SumAfterUpdate(st.stripes, st.IndexOf(k), s);
    assert Placed(st, s, st.IndexOf(k)) by { assert Placed(st, st.StripeOf(k), st.IndexOf(k)); }
    var w := st.With(k, s);
    forall i | 0 <= i < |w.stripes| ensures Placed(w, w.stripes[i], i) {
      assert Placed(st, w.stripes[i], i);
    }
  }

  lemma AcquireEffect(st: Store, k: Key)
    requires StoreValid(st)
    ensures var (st', outcome) := Acquire(st, k);
            && StoreValid(st') && SameShape(st, st') && (WithinShares(st) ==> WithinShares(st'))
            && (forall x :: x != k ==> st'.At(x) == st.At(x))
            && st'.At(k) == (if st.At(k).None? then Some(Pending) else st.At(k))
            && outcome == (match st.At(k)
                           case None => Owned
                           case Some(Pending) => Busy
                           case Some(Published(bytes)) => Hit(bytes))
  {
    AcquireIsValid(st.StripeOf(k), k);
    WithIsValid(st, k, AfterAcquire(st.StripeOf(k), k).0);
  }

  lemma AwaitEffect(st: Store, k: Key)
    requires StoreValid(st)
    ensures var (st', block) := Await(st, k);
            && StoreValid(st') && SameShape(st, st') && (WithinShares(st) ==> WithinShares(st'))
            && (forall x :: st'.At(x) == st.At(x))
            && block == (match st.At(k) case Some(Published(bytes)) => Some(bytes) case _ => None)
  {
    var s := st.StripeOf(k);
    if IsPublished(s.entries, k) { TouchedIsValid(s, k); }
    WithIsValid(st, k, AfterAwait(s, k).0);
  }

  lemma PublishEffect(st: Store, k: Key, bytes: seq<byte>)
    requires StoreValid(st)
    ensures var st' := Publish(st, k, bytes);
            && StoreValid(st') && SameShape(st, st')
            && (WithinShares(st) && |bytes| <= st.shardBudget ==> WithinShares(st'))
            && (st.At(k) == Some(Pending) ==> st'.At(k) == Some(Published(bytes)))
            && (forall x :: x != k ==>
                  st'.At(x) == st.At(x) || (st'.At(x).None? && st.At(x).Some? && st.At(x).value.Published?))
            && (st.At(k) != Some(Pending) ==> forall x :: st'.At(x) == st.At(x))
  {
    var s := st.StripeOf(k);
    var p := AfterPublish(s, k, bytes, st.shardBudget);
    PublishIsValid(s, k, bytes, st.shardBudget);
    WithIsValid(st, k, p);
    if IsPending(s.entries, k) && |p.lru| == 1 {
      assert p.lru == [k] && p.lru[1..] == [];
      assert BytesOf(p.entries, p.lru) == SizeOf(p.entries, k) + BytesOf(p.entries, p.lru[1..]);
    }
    var q := Publish(st, k, bytes);
    forall x | x != k && q.At(x) != st.At(x)
      ensures q.At(x).None? && st.At(x).Some? && st.At(x).value.Published?
    {
      assert IsPending(p.entries, x) <==> IsPending(s.entries, x) && x != k;
    }
  }

  lemma AbandonEffect(st: Store, k: Key)
    requires StoreValid(st)
    ensures var st' := Abandon(st, k);
            && StoreValid(st') && SameShape(st, st') && (WithinShares(st) ==> WithinShares(st'))
            && (forall x :: x != k ==> st'.At(x) == st.At(x))
            && st'.At(k) == (if st.At(k) == Some(Pending) then None else st.At(k))
  {
    AbandonIsValid(st.StripeOf(k), k);
    WithIsValid(st, k, AfterAbandon(st.StripeOf(k), k));
  }

  lemma CloseEffect(st: Store, id: nat)
    requires StoreValid(st)
    ensures var st' := Close(st, id);
            && StoreValid(st') && SameShape(st, st') && (WithinShares(st) ==> WithinShares(st'))
            && (forall x: Key :: st'.At(x) == if x.id == id then None else st.At(x))
  {
    forall i | 0 <= i < |st.stripes|
      ensures var c := AfterClose(st.stripes[i], id);
              && Valid(c) && c.resident <= st.stripes[i].resident
              && forall k :: k in c.entries <==> k in st.stripes[i].entries && k.id != id
    {
      CloseIsValid(st.stripes[i], id);
    }
    var c := Close(st, id);
    forall i | 0 <= i < |c.stripes| ensures Placed(c, c.stripes[i], i) {
      assert Placed(st, st.stripes[i], i);
    }
  }

  // ----- the process-wide budget -------------------------------------------

  function Apply(st: Store, op: Op): Store
    requires st.HasStripes()
  {
    match op
    case DoAcquire(k) => Acquire(st, k).0
    case DoAwait(k) => Await(st, k).0
    case DoPublish(k, bytes) => Publish(st, k, bytes)
    case DoAbandon(k) => Abandon(st, k)
    case DoClose(id) => Close(st, id)
  }

  ghost function After(st: Store, ops: seq<Op>): (r: Store)
    requires StoreValid(st)
    ensures StoreValid(r)
    decreases |ops|
  {
    if ops == [] then st
    else
      ApplyIsValid(st, ops[0]);
      After(Apply(st, ops[0]), ops[1..])
  }

  ghost predicate BlocksAtMost(op: Op, limit: nat) { op.DoPublish? ==> |op.bytes| <= limit }

  lemma ApplyIsValid(st: Store, op: Op)
    requires StoreValid(st)
    ensures var st' := Apply(st, op);
            && StoreValid(st') && SameShape(st, st')
            && (WithinShares(st) && BlocksAtMost(op, st.shardBudget) ==> WithinShares(st'))
  {
    match op
    case DoAcquire(k) => AcquireEffect(st, k);
    case DoAwait(k) => AwaitEffect(st, k);
    case DoPublish(k, bytes) => PublishEffect(st, k, bytes);
    case DoAbandon(k) => AbandonEffect(st, k);
    case DoClose(id) => CloseEffect(st, id);
  }

  lemma {:induction false} SharesBoundTotal(stripes: seq<Stripe>, share: nat)
    requires forall i :: 0 <= i < |stripes| ==> stripes[i].resident <= share
    ensures SumResident(stripes) <= |stripes| * share
  {
    if stripes != [] {
      SharesBoundTotal(stripes[1..], share);
      assert |stripes| * share == share + (|stripes| - 1) * share;
    }
  }

  lemma {:induction false} HistoryKeepsShares(st: Store, ops: seq<Op>)
    requires StoreValid(st) && WithinShares(st)
    requires forall op :: op in ops ==> BlocksAtMost(op, st.shardBudget)
    ensures var r := After(st, ops);
            WithinShares(r) && |r.stripes| == |st.stripes| && r.shardBudget == st.shardBudget
    decreases |ops|
  {
    if ops != [] {
      assert ops[0] in ops && forall op :: op in ops[1..] ==> op in ops;
      ApplyIsValid(st, ops[0]);
      HistoryKeepsShares(Apply(st, ops[0]), ops[1..]);
    }
  }
}
