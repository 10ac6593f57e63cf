/**
 The block store as the object readers share: stripes, the running total, and the table that interns
 identities. Each method is one critical section and is tied to the function of the same step in
 `BlockCaches`, whose histories are where the store's promises are proved.
 */
module BlockCacheObjects {
  import opened Basics
  import opened Arithmetic
  import opened Stripes
  import BlockCaches
  import CacheOptions

  datatype AssetIdentity = AssetIdentity(resolvedIdentifier: string, validator: string, blockSize: nat)

  /** What one `Bind` was asked and what it answered. */
  datatype Bound = Bound(identity: AssetIdentity, shareable: bool, id: nat)

  /** Two bindings share entries exactly when both may share and their identities are equal. */
  ghost predicate SharesById(bound: seq<Bound>) {
    forall i, j :: 0 <= i < j < |bound| ==>
      (bound[i].id == bound[j].id <==>
        bound[i].shareable && bound[j].shareable && bound[i].identity == bound[j].identity)
  }

  datatype AwaitTurn = StillPending | Gone | Ready(bytes: seq<byte>)

  /** The eviction loop, over one locked stripe and the shared total. */
  method EvictLocked(s: Stripe, budget: nat, total: int) returns (r: Stripe, left: int, evicted: nat)
    requires Valid(s)
    ensures r == Evicted(s, budget)
    ensures left == total - (s.resident - r.resident)
    ensures evicted == |s.lru| - |r.lru| == r.evictions - s.evictions
    ensures r.lru <= s.lru && LongestFit(s, |r.lru|, budget) && Shrunk(s, r)
    ensures r.resident <= budget || |r.lru| <= 1
  {
    r, left, evicted := s, total, 0;
    while r.resident > budget && |r.lru| > 1
      invariant Evicted(r, budget) == Evicted(s, budget)
      invariant left == total - (s.resident - r.resident)
      invariant evicted == |s.lru| - |r.lru| == r.evictions - s.evictions
      decreases |r.lru|
    {
      var victim := r.lru[|r.lru| - 1];
      var entries, resident := r.entries, r.resident;
      if victim in r.entries {
        var bytes := SizeOf(r.entries, victim);
        resident := resident - bytes;
        left := left - bytes;
        entries := entries - {victim};
      } else {
        assert entries - {victim} == entries;
      }
      r := Stripe(entries, r.lru[..|r.lru| - 1], resident, r.evictions + 1, r.peak);
      evicted := evicted + 1;
    }
    EvictionKeepsLongestPrefix(s, budget);
  }

  /** The per-stripe loop of a closing private binding: every entry of its identity is erased. */
  method CloseStripe(s: Stripe, id: nat, total: int) returns (r: Stripe, left: int)
    requires Valid(s)
    ensures r == AfterClose(s, id)
    ensures left == total - (s.resident - r.resident)
  {
    r, left := s, total;
    var pending := set k | k in s.entries && k.id == id;
    while pending != {}
      invariant Valid(r) && r.evictions == s.evictions && r.peak == s.peak
      invariant forall k: Key :: k in pending <==> k in r.entries && k.id == id
      invariant forall k: Key :: k.id != id ==> (k in r.entries <==> k in s.entries)
      invariant forall k :: k in r.entries ==> k in s.entries && r.entries[k] == s.entries[k]
      invariant KeepOthers(r.lru, id) == KeepOthers(s.lru, id)
      invariant left == total - (s.resident - r.resident)
      decreases pending
    {
      var k :| k in pending;
      ghost var before := r;
      if r.entries[k].Published? {
        var bytes := |r.entries[k].bytes|;
        left := left - bytes;
        r := r.(lru := Without(r.lru, k), resident := r.resident - bytes);
      }
      r := r.(entries := r.entries - {k});
      ErasedIsValid(before, k, id);
      pending := pending - {k};
    }
    KeepOthersKeepsAll(r.lru, id);
    KeepOthersFilters(s.entries, s.lru, id);
    assert r.entries == AfterClose(s, id).entries;
    BytesDependOnKeysOnly(s.entries, r.entries, r.lru);
  }

  /** The stripe without one entry, on the list or not. */
  ghost function Erased(s: Stripe, k: Key): Stripe
    requires k in s.entries
  {
    if s.entries[k].Published? then
      s.(lru := Without(s.lru, k), resident := s.resident - |s.entries[k].bytes|, entries := s.entries - {k})
    else s.(entries := s.entries - {k})
  }

  lemma ErasedIsValid(s: Stripe, k: Key, id: nat)
    requires Valid(s) && k in s.entries && k.id == id
    ensures Valid(Erased(s, k)) && KeepOthers(Erased(s, k).lru, id) == KeepOthers(s.lru, id)
  {
    var r := Erased(s, k);
    WithoutRemovesOne(s.entries, s.lru, k);
    BytesDependOnKeysOnly(s.entries, r.entries, r.lru);
    WithoutThenKeep(s.lru, k, id);
  }

  lemma {:induction false} WithoutThenKeep(keys: seq<Key>, k: Key, id: nat)
    requires k.id == id
    ensures KeepOthers(Without(keys, k), id) == KeepOthers(keys, id)
  {
    if keys != [] {
      WithoutThenKeep(keys[1..], k, id);
      var rest := Without(keys[1..], k);
      if keys[0] == k {
        assert Without(keys, k) == rest;
      } else {
        assert ([keys[0]] + rest)[1..] == rest;
      }
    }
  }

  lemma {:induction false} KeepOthersKeepsAll(keys: seq<Key>, id: nat)
    requires forall k :: k in keys ==> k.id != id
    ensures KeepOthers(keys, id) == keys
  {
    if keys != [] {
      assert keys[0] in keys && forall k :: k in keys[1..] ==> k in keys;
      KeepOthersKeepsAll(keys[1..], id);
    }
  }

  method CloseStripes(stripes: seq<Stripe>, id: nat, total: int) returns (r: seq<Stripe>, left: int)
    requires forall i :: 0 <= i < |stripes| ==> Valid(stripes[i])
    ensures r == BlockCaches.Closed(stripes, id)
    ensures left == total + BlockCaches.SumResident(r) - BlockCaches.SumResident(stripes)
  {
    r, left := stripes, total;
    for i := 0 to |stripes|
      invariant |r| == |stripes|
      invariant forall j :: 0 <= j < i ==> r[j] == AfterClose(stripes[j], id)
      invariant forall j :: i <= j < |stripes| ==> r[j] == stripes[j]
      invariant left == total + BlockCaches.SumResident(r) - BlockCaches.SumResident(stripes)
    {
      BlockCaches.SumAfterUpdate(r, i, AfterClose(stripes[i], id));
      var s, rest := CloseStripe(r[i], id, left);
      r, left := r[i := s], rest;
    }
  }

  class BlockCache {
    /** The hash of a key, masked to the stripe count. */
    const place: Key -> nat
    const options: CacheOptions.Options
    const shardCount: nat
    const shardBudget: nat
    var stripes: seq<Stripe>
    var residentTotal: int
    var identities: map<AssetIdentity, nat>
    var nextIdentityId: nat
    var liveBindings: int
    /** Every binding ever made, in order. */
    ghost var bound: seq<Bound>

    ghost function Contents(): BlockCaches.Store
      reads this
    {
      BlockCaches.Store(stripes, shardBudget, residentTotal, place)
    }

    ghost predicate Interned()
      reads this
    {
      && (forall b :: b in bound ==> b.id < nextIdentityId)
      && (forall b :: b in bound && b.shareable ==> b.identity in identities && identities[b.identity] == b.id)
      && (forall b :: b in bound && !b.shareable ==> b.id !in identities.Values)
      && (forall i :: i in identities ==> identities[i] < nextIdentityId)
      && (forall i, j :: i in identities && j in identities && identities[i] == identities[j] ==> i == j)
      && SharesById(bound)
    }

    ghost predicate Valid()
      reads this
    {
      && BlockCaches.StoreValid(Contents())
      && |stripes| == shardCount && Geometry()
      && Interned()
    }

    /** Every stripe is within its share; `SharesBoundTotal` makes this a bound on the whole store. */
    ghost predicate WithinShares()
      reads this
    {
      BlockCaches.WithinShares(Contents())
    }

    /** The shares of all stripes fit the budget, and each share holds a block. */
    ghost predicate Geometry() {
      shardCount * shardBudget <= options.budgetBytes && options.blockSize <= shardBudget
    }

    constructor (requested: CacheOptions.Options, hash: Key -> nat)
      ensures Valid() && WithinShares() && options == CacheOptions.Normalized(requested)
      ensures bound == [] && residentTotal == 0 && forall k :: Contents().At(k) == None
    {
      var o := CacheOptions.Normalized(requested);
      var count := BlockCaches.ChooseShardCount(o.budgetBytes, o.blockSize);
      place := BlockCaches.Fresh(requested, hash).place;
      options, shardCount := o, count;
      stripes := seq(count, i => EMPTY);
      shardBudget := Max(o.budgetBytes / count, o.blockSize);
      residentTotal, identities, nextIdentityId, liveBindings, bound := 0, map[], 1, 0, [];
      new;
      CacheOptions.NormalizedIsIdempotent(requested);
      BlockCaches.SharesFitBudget(requested, hash);
      BlockCaches.EmptyStripesSumToZero(stripes);
    }

    /** Interns a shareable identity; a private one gets an id nothing else can look up. */
    method Bind(identity: AssetIdentity, shareable: bool) returns (id: nat)
      requires Valid()
      modifies `identities, `nextIdentityId, `liveBindings, `bound
      ensures Valid()
      ensures bound == old(bound) + [Bound(identity, shareable, id)]
      ensures liveBindings == old(liveBindings) + 1
    {
      liveBindings := liveBindings + 1;
      if shareable && identity in identities {
        id := identities[identity];
      } else {
        id := nextIdentityId;
        nextIdentityId := nextIdentityId + 1;
        if shareable { identities := identities[identity := id]; }
      }
      bound := bound + [Bound(identity, shareable, id)];
    }

    method Acquire(id: nat, block: nat) returns (outcome: Acquisition)
      requires Valid()
      modifies `stripes
      ensures Valid() && (old(WithinShares()) ==> WithinShares())
      ensures (Contents(), outcome) == BlockCaches.Acquire(old(Contents()), Key(id, block))
    {
      var k := Key(id, block);
      BlockCaches.AcquireEffect(Contents(), k);
      var i := place(k);
      var s := stripes[i];
      if k !in s.entries {
        stripes := stripes[i := s.(entries := s.entries[k := Pending])];
        outcome := Owned;
      } else if s.entries[k].Pending? {
        assert stripes == stripes[i := s];
        outcome := Busy;
      } else {
        stripes := stripes[i := Touched(s, k)];
        outcome := Hit(s.entries[k].bytes);
      }
    }

    /** One turn of the wait loop: answered, gone, or back to waiting. */
    method Await(id: nat, block: nat) returns (turn: AwaitTurn)
      requires Valid()
      modifies `stripes
      ensures Valid() && (old(WithinShares()) ==> WithinShares())
      ensures Contents() == BlockCaches.Await(old(Contents()), Key(id, block)).0
      ensures turn == match old(Contents()).At(Key(id, block))
                      case None => Gone
                      case Some(Pending) => StillPending
                      case Some(Published(bytes)) => Ready(bytes)
    {
      var k := Key(id, block);
      BlockCaches.AwaitEffect(Contents(), k);
      var i := place(k);
      var s := stripes[i];
      if k !in s.entries {
        assert stripes == stripes[i := s];
        turn := Gone;
      } else if s.entries[k].Published? {
        stripes := stripes[i := Touched(s, k)];
        turn := Ready(s.entries[k].bytes);
      } else {
        assert stripes == stripes[i := s];
        turn := StillPending;
      }
    }

    /** A block of any size goes in; one that fits a share keeps the store within its shares. */
    method Publish(id: nat, block: nat, bytes: seq<byte>) returns (evicted: nat)
      requires Valid()
      modifies `stripes, `residentTotal
      ensures Valid() && (old(WithinShares()) && |bytes| <= shardBudget ==> WithinShares())
      ensures |stripes| == |old(stripes)| && place(Key(id, block)) < |stripes|
      ensures evicted == stripes[place(Key(id, block))].evictions - old(stripes)[place(Key(id, block))].evictions
      ensures Contents() == BlockCaches.Publish(old(Contents()), Key(id, block), bytes)
    {
      var k := Key(id, block);
      BlockCaches.PublishEffect(Contents(), k, bytes);
      var i := place(k);
      var s := stripes[i];
      if k !in s.entries || !s.entries[k].Pending? {
        assert stripes == stripes[i := s];
        return 0;
      }
      var inserted := Inserted(s, k, bytes);
      InsertedIsValid(s, k, bytes);
      var r, left;
      r, left, evicted := EvictLocked(inserted, shardBudget, residentTotal + |bytes|);
      stripes, residentTotal := stripes[i := r], left;
    }

    method Abandon(id: nat, block: nat)
      requires Valid()
      modifies `stripes
      ensures Valid() && (old(WithinShares()) ==> WithinShares())
      ensures Contents() == BlockCaches.Abandon(old(Contents()), Key(id, block))
    {
      var k := Key(id, block);
      BlockCaches.AbandonEffect(Contents(), k);
      var i := place(k);
      var s := stripes[i];
      if k in s.entries && s.entries[k].Pending? {
        stripes := stripes[i := s.(entries := s.entries - {k})];
      } else {
        assert stripes == stripes[i := s];
      }
    }

    /** A binding closes. Private entries die with it, stripe by stripe; shared ones stay. */
    method Close(id: nat, isPrivate: bool)
      requires Valid()
      modifies `stripes, `residentTotal, `liveBindings
      ensures Valid() && liveBindings == old(liveBindings) - 1 && (old(WithinShares()) ==> WithinShares())
      ensures Contents() == if isPrivate then BlockCaches.Close(old(Contents()), id) else old(Contents())
    {
      if isPrivate {
        BlockCaches.CloseEffect(Contents(), id);
        stripes, residentTotal := CloseStripes(stripes, id, residentTotal);
      }
      liveBindings := liveBindings - 1;
    }
  }
}
