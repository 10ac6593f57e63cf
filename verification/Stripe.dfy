/**
 One stripe of the block store: its entries, its recency list and its byte counters.

 Each function below is one critical section of the store, applied to the stripe its key hashes to.
 */
module Stripes {
  import opened Basics

  /** An interned identity and a block index. */
  datatype Key = Key(id: nat, block: nat)

  datatype Entry = Pending | Published(bytes: seq<byte>)

  /** `lru[0]` is the most recently used key. */
  datatype Stripe = Stripe(entries: map<Key, Entry>, lru: seq<Key>, resident: int, evictions: nat, peak: int)

  const EMPTY := Stripe(map[], [], 0, 0, 0)

  datatype Acquisition = Hit(bytes: seq<byte>) | Owned | Busy

  predicate IsPublished(entries: map<Key, Entry>, k: Key) { k in entries && entries[k].Published? }
  predicate IsPending(entries: map<Key, Entry>, k: Key) { k in entries && entries[k].Pending? }

  function SizeOf(entries: map<Key, Entry>, k: Key): nat {
    if k in entries && entries[k].Published? then |entries[k].bytes| else 0
  }

  function BytesOf(entries: map<Key, Entry>, keys: seq<Key>): nat {
    if keys == [] then 0 else SizeOf(entries, keys[0]) + BytesOf(entries, keys[1..])
  }

  function Without(keys: seq<Key>, k: Key): seq<Key> {
    if keys == [] then [] else (if keys[0] == k then [] else [keys[0]]) + Without(keys[1..], k)
  }

  // ----- the critical sections ---------------------------------------------

  function Touched(s: Stripe, k: Key): Stripe { s.(lru := [k] + Without(s.lru, k)) }

  function AfterAcquire(s: Stripe, k: Key): (Stripe, Acquisition) {
    if k !in s.entries then (s.(entries := s.entries[k := Pending]), Owned)
    else match s.entries[k]
      case Pending => (s, Busy)
      case Published(bytes) => (Touched(s, k), Hit(bytes))
  }

  /** The wait itself is elsewhere: a pending entry leaves the stripe alone and yields no answer yet. */
  function AfterAwait(s: Stripe, k: Key): (Stripe, Option<seq<byte>>) {
    if k in s.entries && s.entries[k].Published? then (Touched(s, k), Some(s.entries[k].bytes)) else (s, None)
  }

  /** One turn of the eviction loop. */
  function DropOldest(s: Stripe): Stripe
    requires s.lru != []
  {
    var victim := s.lru[|s.lru| - 1];
    s.(entries := s.entries - {victim},
       lru := s.lru[..|s.lru| - 1],
       resident := s.resident - SizeOf(s.entries, victim),
       evictions := s.evictions + 1)
  }

  function Evicted(s: Stripe, budget: nat): Stripe
    decreases |s.lru|
  {
    if s.resident > budget && |s.lru| > 1 then Evicted(DropOldest(s), budget) else s
  }

  function Inserted(s: Stripe, k: Key, bytes: seq<byte>): Stripe {
    var resident := s.resident + |bytes|;
    Stripe(s.entries[k := Published(bytes)], [k] + s.lru, resident, s.evictions,
           if s.peak <= resident then resident else s.peak)
  }

  function AfterPublish(s: Stripe, k: Key, bytes: seq<byte>, budget: nat): Stripe {
    if IsPending(s.entries, k) then Evicted(Inserted(s, k, bytes), budget) else s
  }

  function AfterAbandon(s: Stripe, k: Key): Stripe {
    if IsPending(s.entries, k) then s.(entries := s.entries - {k}) else s
  }

  /** A private binding closes: everything stored under its identity goes. */
  function AfterClose(s: Stripe, id: nat): Stripe {
    var kept := KeepOthers(s.lru, id);
    s.(entries := map k | k in s.entries && k.id != id :: s.entries[k],
       lru := kept,
       resident := s.resident - (BytesOf(s.entries, s.lru) - BytesOf(s.entries, kept)))
  }

  function KeepOthers(keys: seq<Key>, id: nat): seq<Key> {
    if keys == [] then [] else (if keys[0].id == id then [] else [keys[0]]) + KeepOthers(keys[1..], id)
  }

  // ----- the invariant -----------------------------------------------------

  ghost predicate NoDuplicates(keys: seq<Key>) {
    keys == [] || (keys[0] !in keys[1..] && NoDuplicates(keys[1..]))
  }

  /** The list holds exactly the published keys, once each, and the counter is the sum of their bytes. */
  ghost predicate Valid(s: Stripe) {
    && NoDuplicates(s.lru)
    && (forall k :: k in s.lru <==> IsPublished(s.entries, k))
    && s.resident == BytesOf(s.entries, s.lru)
    && s.resident <= s.peak
  }

  // ----- sums and lists ----------------------------------------------------

  lemma {:induction false} BytesDependOnKeysOnly(a: map<Key, Entry>, b: map<Key, Entry>, keys: seq<Key>)
    requires forall k :: k in keys ==> SizeOf(a, k) == SizeOf(b, k)
    ensures BytesOf(a, keys) == BytesOf(b, keys)
  {
    if keys != [] { BytesDependOnKeysOnly(a, b, keys[1..]); }
  }

  lemma {:induction false} BytesOfAppend(entries: map<Key, Entry>, keys: seq<Key>, last: Key)
    ensures BytesOf(entries, keys + [last]) == BytesOf(entries, keys) + SizeOf(entries, last)
  {
    if keys == [] {
      assert keys + [last] == [last];
    } else {
      assert (keys + [last])[1..] == keys[1..] + [last];
      BytesOfAppend(entries, keys[1..], last);
    }
  }

  lemma {:induction false} WithoutRemovesOne(entries: map<Key, Entry>, keys: seq<Key>, k: Key)
    requires NoDuplicates(keys)
    ensures NoDuplicates(Without(keys, k))
    ensures forall x :: x in Without(keys, k) <==> x in keys && x != k
    ensures BytesOf(entries, Without(keys, k)) == BytesOf(entries, keys) - (if k in keys then SizeOf(entries, k) else 0)
  {
    if keys != [] {
      WithoutRemovesOne(entries, keys[1..], k);
      var rest := Without(keys[1..], k);
      if keys[0] == k {
        assert Without(keys, k) == rest;
      } else {
        assert Without(keys, k) == [keys[0]] + rest && ([keys[0]] + rest)[1..] == rest;
      }
    }
  }

  lemma {:induction false} KeepOthersFilters(entries: map<Key, Entry>, keys: seq<Key>, id: nat)
    requires NoDuplicates(keys)
    ensures NoDuplicates(KeepOthers(keys, id))
    ensures forall x :: x in KeepOthers(keys, id) <==> x in keys && x.id != id
    ensures BytesOf(entries, KeepOthers(keys, id)) <= BytesOf(entries, keys)
  {
    if keys != [] {
      KeepOthersFilters(entries, keys[1..], id);
      var rest := KeepOthers(keys[1..], id);
      if keys[0].id == id {
        assert KeepOthers(keys, id) == rest;
      } else {
        assert KeepOthers(keys, id) == [keys[0]] + rest && ([keys[0]] + rest)[1..] == rest;
      }
    }
  }

  lemma {:induction false} NoDuplicatesSplits(keys: seq<Key>, last: Key)
    requires NoDuplicates(keys + [last])
    ensures NoDuplicates(keys) && last !in keys
  {
    if keys != [] {
      assert (keys + [last])[1..] == keys[1..] + [last];
      NoDuplicatesSplits(keys[1..], last);
    }
  }

  // ----- every critical section keeps the invariant ------------------------

  lemma TouchedIsValid(s: Stripe, k: Key)
    requires Valid(s) && IsPublished(s.entries, k)
    ensures Valid(Touched(s, k))
  {
    WithoutRemovesOne(s.entries, s.lru, k);
    assert ([k] + Without(s.lru, k))[1..] == Without(s.lru, k);
  }

  lemma AcquireIsValid(s: Stripe, k: Key)
    requires Valid(s)
    ensures Valid(AfterAcquire(s, k).0)
  {
    if k !in s.entries {
      BytesDependOnKeysOnly(s.entries, s.entries[k := Pending], s.lru);
    } else if IsPublished(s.entries, k) {
      TouchedIsValid(s, k);
    }
  }

  lemma DropOldestIsValid(s: Stripe)
    requires Valid(s) && s.lru != []
    ensures Valid(DropOldest(s))
  {
    var rest, victim := s.lru[..|s.lru| - 1], s.lru[|s.lru| - 1];
    assert s.lru == rest + [victim];
    BytesOfAppend(s.entries, rest, victim);
    NoDuplicatesSplits(rest, victim);
    var d := DropOldest(s);
    forall k ensures k in d.lru <==> IsPublished(d.entries, k) {
      assert k in s.lru <==> k in rest || k == victim;
    }
    BytesDependOnKeysOnly(s.entries, s.entries - {victim}, rest);
  }

  lemma InsertedIsValid(s: Stripe, k: Key, bytes: seq<byte>)
    requires Valid(s) && IsPending(s.entries, k)
    ensures Valid(Inserted(s, k, bytes))
  {
    var entries := s.entries[k := Published(bytes)];
    BytesDependOnKeysOnly(s.entries, entries, s.lru);
    assert ([k] + s.lru)[1..] == s.lru;
  }

  /** Only published blocks leave, and what stays is unchanged. */
  ghost predicate Shrunk(s: Stripe, e: Stripe) {
    && (forall k :: k in e.entries ==> k in s.entries && e.entries[k] == s.entries[k])
    && (forall k :: k in s.entries && k !in e.entries ==> IsPublished(s.entries, k))
  }

  /** No longer prefix of the recency list fits in the budget. */
  ghost predicate LongestFit(s: Stripe, kept: nat, budget: nat) {
    forall n :: kept < n <= |s.lru| ==> BytesOf(s.entries, s.lru[..n]) > budget
  }

  /**
   Eviction drops a tail of the recency list, and only that: what stays is the longest prefix inside
   the budget, or the single most recent block when not even that fits. Pending entries stay.
   */
  lemma {:induction false} EvictionKeepsLongestPrefix(s: Stripe, budget: nat)
    requires Valid(s)
    ensures var e := Evicted(s, budget);
            && Valid(e) && e.lru <= s.lru && (s.lru != [] ==> e.lru != [])
            && (e.resident <= budget || |e.lru| <= 1)
            && LongestFit(s, |e.lru|, budget) && Shrunk(s, e)
            && e.evictions - s.evictions == |s.lru| - |e.lru|
            && e.peak == s.peak
    decreases |s.lru|
  {
    if s.resident > budget && |s.lru| > 1 {
      DropOldestIsValid(s);
      EvictionKeepsLongestPrefix(DropOldest(s), budget);
      LongestFitGrows(s, |Evicted(s, budget).lru|, budget);
    } else {
      assert s.lru[..|s.lru|] == s.lru;
    }
  }

  lemma LongestFitGrows(s: Stripe, kept: nat, budget: nat)
    requires Valid(s) && s.lru != [] && s.resident > budget && LongestFit(DropOldest(s), kept, budget)
    ensures LongestFit(s, kept, budget)
  {
    var d := DropOldest(s);
    DropOldestIsValid(s);
    forall n | kept < n <= |s.lru| ensures BytesOf(s.entries, s.lru[..n]) > budget {
      if n < |s.lru| {
        assert d.lru[..n] == s.lru[..n];
        assert forall k :: k in d.lru[..n] ==> k in d.lru;
        BytesDependOnKeysOnly(s.entries, d.entries, s.lru[..n]);
      } else {
        assert s.lru[..n] == s.lru;
      }
    }
  }

  /** A publish stores its block and never evicts it, whatever the budget. */
  lemma PublishIsValid(s: Stripe, k: Key, bytes: seq<byte>, budget: nat)
    requires Valid(s)
    ensures var p := AfterPublish(s, k, bytes, budget);
            && Valid(p)
            && (forall x :: IsPending(p.entries, x) <==> IsPending(s.entries, x) && x != k)
            && (IsPending(s.entries, k) ==>
                  && k in p.entries && p.entries[k] == Published(bytes) && p.lru != [] && p.lru[0] == k
                  && (p.resident <= budget || |p.lru| == 1))
            && (forall x :: x != k && x in p.entries ==> x in s.entries && p.entries[x] == s.entries[x])
            && (!IsPending(s.entries, k) ==> p == s)
  {
    if IsPending(s.entries, k) {
      var i := Inserted(s, k, bytes);
      InsertedIsValid(s, k, bytes);
      EvictionKeepsLongestPrefix(i, budget);
      var p := Evicted(i, budget);
      assert p.lru[0] == i.lru[0] == k;
      assert k in p.lru;
    }
  }

  lemma AbandonIsValid(s: Stripe, k: Key)
    requires Valid(s)
    ensures Valid(AfterAbandon(s, k))
  {
    if IsPending(s.entries, k) {
      BytesDependOnKeysOnly(s.entries, s.entries - {k}, s.lru);
    }
  }

  lemma CloseIsValid(s: Stripe, id: nat)
    requires Valid(s)
    ensures Valid(AfterClose(s, id))
    ensures AfterClose(s, id).resident <= s.resident
    ensures forall k :: k in AfterClose(s, id).entries <==> k in s.entries && k.id != id
  {
    KeepOthersFilters(s.entries, s.lru, id);
    var c := AfterClose(s, id);
    BytesDependOnKeysOnly(s.entries, c.entries, c.lru);
  }

  // ----- whole histories of one stripe -------------------------------------

  datatype Op =
    | DoAcquire(k: Key)
    | DoAwait(k: Key)
    | DoPublish(k: Key, bytes: seq<byte>)
    | DoAbandon(k: Key)
    | DoClose(id: nat)

  function Apply(s: Stripe, op: Op, budget: nat): Stripe {
    match op
    case DoAcquire(k) => AfterAcquire(s, k).0
    case DoAwait(k) => AfterAwait(s, k).0
    case DoPublish(k, bytes) => AfterPublish(s, k, bytes, budget)
    case DoAbandon(k) => AfterAbandon(s, k)
    case DoClose(id) => AfterClose(s, id)
  }

  function After(ops: seq<Op>, budget: nat): Stripe {
    if ops == [] then EMPTY else Apply(After(ops[..|ops| - 1], budget), ops[|ops| - 1], budget)
  }

  /** Operation `op` used key `k`: it was served the block, or it stored it. */
  predicate Uses(before: Stripe, op: Op, k: Key) {
    match op
    case DoAcquire(x) => x == k && IsPublished(before.entries, k)
    case DoAwait(x) => x == k && IsPublished(before.entries, k)
    case DoPublish(x, _) => x == k && IsPending(before.entries, k)
    case _ => false
  }

  /** The position, counted from one, of the last operation that used `k`; zero if none did. */
  function LastUse(ops: seq<Op>, budget: nat, k: Key): nat {
    if ops == [] then 0
    else
      var before := ops[..|ops| - 1];
      if Uses(After(before, budget), ops[|ops| - 1], k) then |ops| else LastUse(before, budget, k)
  }

  ghost predicate ByRecency(ops: seq<Op>, budget: nat, keys: seq<Key>) {
    keys == [] ||
    (&& (forall k :: k in keys[1..] ==> LastUse(ops, budget, keys[0]) > LastUse(ops, budget, k))
     && ByRecency(ops, budget, keys[1..]))
  }

  lemma {:induction false} LastUseIsPast(ops: seq<Op>, budget: nat, k: Key)
    ensures LastUse(ops, budget, k) <= |ops|
  {
    if ops != [] { LastUseIsPast(ops[..|ops| - 1], budget, k); }
  }

  lemma {:induction false} WithoutKeepsOrder(ops: seq<Op>, budget: nat, keys: seq<Key>, k: Key)
    requires ByRecency(ops, budget, keys)
    ensures ByRecency(ops, budget, Without(keys, k))
    ensures forall x :: x in Without(keys, k) ==> x in keys
  {
    if keys != [] {
      WithoutKeepsOrder(ops, budget, keys[1..], k);
      ConsKeepsOrder(ops, budget, keys[0], Without(keys[1..], k), keys[0] != k);
    }
  }

  lemma {:induction false} KeepOthersKeepsOrder(ops: seq<Op>, budget: nat, keys: seq<Key>, id: nat)
    requires ByRecency(ops, budget, keys)
    ensures ByRecency(ops, budget, KeepOthers(keys, id))
    ensures forall x :: x in KeepOthers(keys, id) ==> x in keys
  {
    if keys != [] {
      KeepOthersKeepsOrder(ops, budget, keys[1..], id);
      ConsKeepsOrder(ops, budget, keys[0], KeepOthers(keys[1..], id), keys[0].id != id);
    }
  }

  lemma {:induction false} PrefixKeepsOrder(ops: seq<Op>, budget: nat, keys: seq<Key>, n: nat)
    requires ByRecency(ops, budget, keys) && n <= |keys|
    ensures ByRecency(ops, budget, keys[..n])
  {
    if n != 0 {
      PrefixKeepsOrder(ops, budget, keys[1..], n - 1);
      assert keys[..n][1..] == keys[1..][..n - 1];
    }
  }

  lemma ConsKeepsOrder(ops: seq<Op>, budget: nat, head: Key, rest: seq<Key>, keep: bool)
    requires ByRecency(ops, budget, rest)
    requires forall k :: k in rest ==> LastUse(ops, budget, head) > LastUse(ops, budget, k)
    ensures ByRecency(ops, budget, (if keep then [head] else []) + rest)
  {
    if keep { assert ([head] + rest)[1..] == rest; } else { assert [] + rest == rest; }
  }

  /** A step that uses none of `keys` leaves their order alone. */
  lemma {:induction false} UnusedKeepOrder(ops: seq<Op>, budget: nat, keys: seq<Key>)
    requires ops != [] && ByRecency(ops[..|ops| - 1], budget, keys)
    requires forall k :: k in keys ==> !Uses(After(ops[..|ops| - 1], budget), ops[|ops| - 1], k)
    ensures ByRecency(ops, budget, keys)
  {
    if keys != [] {
      assert forall k :: k in keys[1..] ==> k in keys;
      assert keys[0] in keys;
      UnusedKeepOrder(ops, budget, keys[1..]);
    }
  }

  /** The key a step uses becomes the most recent of all. */
  lemma UseMovesToFront(ops: seq<Op>, budget: nat, k: Key, rest: seq<Key>)
    requires ops != [] && Uses(After(ops[..|ops| - 1], budget), ops[|ops| - 1], k)
    requires ByRecency(ops[..|ops| - 1], budget, rest) && k !in rest
    ensures ByRecency(ops, budget, [k] + rest)
  {
    UnusedKeepOrder(ops, budget, rest);
    forall x | x in rest ensures LastUse(ops, budget, k) > LastUse(ops, budget, x) {
      LastUseIsPast(ops[..|ops| - 1], budget, x);
    }
    ConsKeepsOrder(ops, budget, k, rest, true);
  }

  /** Over every history a stripe is valid and its list is in order of last use. */
  lemma {:induction false} HistoryIsValid(ops: seq<Op>, budget: nat)
    ensures Valid(After(ops, budget))
    ensures ByRecency(ops, budget, After(ops, budget).lru)
  {
    if ops != [] {
      var before, op := ops[..|ops| - 1], ops[|ops| - 1];
      HistoryIsValid(before, budget);
      StepKeepsOrder(ops, budget);
    }
  }

  lemma StepKeepsOrder(ops: seq<Op>, budget: nat)
    requires ops != []
    requires Valid(After(ops[..|ops| - 1], budget))
    requires ByRecency(ops[..|ops| - 1], budget, After(ops[..|ops| - 1], budget).lru)
    ensures Valid(After(ops, budget)) && ByRecency(ops, budget, After(ops, budget).lru)
  {
    var before, op := ops[..|ops| - 1], ops[|ops| - 1];
    var s := After(before, budget);
    match op
    case DoAcquire(k) =>
      AcquireIsValid(s, k);
      TouchKeepsOrder(ops, budget, k);
    case DoAwait(k) =>
      if IsPublished(s.entries, k) { TouchedIsValid(s, k); }
      TouchKeepsOrder(ops, budget, k);
    case DoPublish(k, bytes) =>
      PublishIsValid(s, k, bytes, budget);
      if IsPending(s.entries, k) {
        UseMovesToFront(ops, budget, k, s.lru);
        InsertedIsValid(s, k, bytes);
        EvictionKeepsLongestPrefix(Inserted(s, k, bytes), budget);
        var after := After(ops, budget);
        PrefixKeepsOrder(ops, budget, [k] + s.lru, |after.lru|);
        assert after.lru == ([k] + s.lru)[..|after.lru|];
      } else {
        UnusedKeepOrder(ops, budget, s.lru);
      }
    case DoAbandon(k) =>
      AbandonIsValid(s, k);
      UnusedKeepOrder(ops, budget, s.lru);
    case DoClose(id) =>
      CloseIsValid(s, id);
      KeepOthersKeepsOrder(before, budget, s.lru, id);
      UnusedKeepOrder(ops, budget, KeepOthers(s.lru, id));
  }

  lemma TouchKeepsOrder(ops: seq<Op>, budget: nat, k: Key)
    requires ops != [] && (ops[|ops| - 1] == DoAcquire(k) || ops[|ops| - 1] == DoAwait(k))
    requires Valid(After(ops[..|ops| - 1], budget))
    requires ByRecency(ops[..|ops| - 1], budget, After(ops[..|ops| - 1], budget).lru)
    ensures ByRecency(ops, budget, After(ops, budget).lru)
  {
    var before := ops[..|ops| - 1];
    var s := After(before, budget);
    if IsPublished(s.entries, k) {
      WithoutRemovesOne(s.entries, s.lru, k);
      WithoutKeepsOrder(before, budget, s.lru, k);
      UseMovesToFront(ops, budget, k, Without(s.lru, k));
    } else {
      UnusedKeepOrder(ops, budget, s.lru);
    }
  }
}
