/**
 The promises of the cache over whole runs: any number of reads, any interleaving, any evictions, any
 failed requests, any losses from the persistent tier.
 */
module CachedReadSystem {
  import opened Arithmetic
  import opened Stripes
  import opened BlockPlan
  import opened CachedRead
  import opened ReadGeometry
  import opened ReadInvariant
  import opened ReadSteps
  import opened StoreSteps
  import BlockCaches

  // ----- the invariant of a state ------------------------------------------

  /** Read `r` has acquired `k` and has neither published nor abandoned it. */
  ghost predicate Owns(w: World, s: State, r: nat, k: Key)
    requires |w.params| == |s.readers|
  {
    r < |s.readers| && k.id == w.params[r].id && k.block in s.readers[r].owned
  }

  /** Every pending entry has exactly one owner, and what is owned is pending. */
  ghost predicate SingleOwner(w: World, s: State)
    requires |w.params| == |s.readers| && s.store.HasStripes()
  {
    && (forall r: nat, k :: Owns(w, s, r, k) ==> PendingAt(s.store, k))
    && (forall k :: PendingAt(s.store, k) ==> exists r: nat :: Owns(w, s, r, k))
    && (forall r1: nat, r2: nat, k :: Owns(w, s, r1, k) && Owns(w, s, r2, k) ==> r1 == r2)
  }

  /** No reader uses larger blocks than a stripe's share can hold. */
  ghost predicate BlocksFitShares(w: World, store: BlockCaches.Store) {
    forall r :: 0 <= r < |w.params| ==> w.params[r].policy.blockSize <= store.shardBudget
  }

  ghost predicate Inv(w: World, s: State)
    requires LegalWorld(w)
  {
    && |s.readers| == |w.params|
    && s.store.HasStripes() && BlockCaches.StoreValid(s.store)
    && StoreTrue(w, s.store) && DiskTrue(w, s.disk)
    && (BlocksFitShares(w, s.store) ==> BlockCaches.WithinShares(s.store))
    && (forall r :: 0 <= r < |s.readers| ==> ReadOk(w, w.params[r], s.readers[r]))
    && SingleOwner(w, s)
  }

  lemma FreshIsOk(w: World, p: Params, read: Read)
    requires LegalRead(w, p) && StartsFresh(p, read)
    ensures ReadOk(w, p, read)
  {
    hide CoveringBlocks, Right;
    NoneResolved(p, read.resolved, p.Count());
  }

  lemma InitIsInv(w: World, s: State)
    requires LegalWorld(w) && Init(w, s)
    ensures Inv(w, s)
  {
    assert s.store.HasStripes();
    hide CoveringBlocks, Core, BlockCaches.StoreValid, BlockCaches.WithinShares, BlockCaches.Store.At, TrueBlock;
    forall r | 0 <= r < |s.readers| ensures ReadOk(w, w.params[r], s.readers[r]) && s.readers[r].owned == [] {
      FreshIsOk(w, w.params[r], s.readers[r]);
    }
  }

  // ----- every step keeps it -----------------------------------------------

  /** When pending entries follow one read's ownership, ownership stays single. */
  lemma TurnKeepsSingleOwner(w: World, s: State, s': State, r: nat)
    requires |w.params| == |s.readers| == |s'.readers| && r < |s.readers|
    requires s.store.HasStripes() && s'.store.HasStripes() && SingleOwner(w, s)
    requires s'.readers == s.readers[r := s'.readers[r]]
    requires PendingFollows(s.store, s'.store, w.params[r].id, s.readers[r].owned, s'.readers[r].owned)
    ensures SingleOwner(w, s')
  {
    var id, owned, owned' := w.params[r].id, s.readers[r].owned, s'.readers[r].owned;
    forall x: nat, k | Owns(w, s', x, k) ensures PendingAt(s'.store, k) {
      if x == r {
        assert k.block in owned ==> Owns(w, s, r, k);
        assert k.block in owned || Gained(id, owned, owned', k);
      } else {
        assert Owns(w, s, x, k);
        assert Shed(id, owned, owned', k) ==> Owns(w, s, r, k);
      }
    }
    forall k | PendingAt(s'.store, k) ensures exists x: nat :: Owns(w, s', x, k) {
      if Gained(id, owned, owned', k) {
        assert Owns(w, s', r, k);
      } else {
        var x: nat :| Owns(w, s, x, k);
        assert Owns(w, s', x, k);
      }
    }
    forall x: nat, y: nat, k | Owns(w, s', x, k) && Owns(w, s', y, k) ensures x == y {
      assert x != r ==> Owns(w, s, x, k);
      assert y != r ==> Owns(w, s, y, k);
      assert Owns(w, s', r, k) && !Owns(w, s, r, k) ==> Gained(id, owned, owned', k);
    }
  }

  lemma TurnKeepsInv(w: World, s: State, r: nat, c: Choice)
    requires LegalWorld(w) && Inv(w, s) && Permitted(w, s, Turn(r, c))
    ensures Inv(w, Step(w, s, Turn(r, c)))
  {
    hide CoveringBlocks, BlockCaches.StoreValid, BlockCaches.WithinShares, TrueBlock, Accounts, Holdings, PhaseOk,
      LocalStep;
    var p, l := w.params[r], Local(s.store, s.disk, s.readers[r]);
    forall b | b in l.read.owned ensures PendingAt(s.store, p.KeyOf(b)) {
      assert Owns(w, s, r, p.KeyOf(b));
    }
    LocalStepShares(w, p, l, c);
    TurnKeepsSingleOwner(w, s, Step(w, s, Turn(r, c)), r);
  }

  lemma CloseKeepsInv(w: World, s: State, id: nat)
    requires LegalWorld(w) && Inv(w, s) && Permitted(w, s, CloseBinding(id))
    ensures Inv(w, Step(w, s, CloseBinding(id)))
  {
    hide CoveringBlocks, BlockCaches.StoreValid, BlockCaches.WithinShares, TrueBlock, Accounts, Holdings,
      BlockCaches.Close, BlockCaches.Store.At;
    BlockCaches.CloseEffect(s.store, id);
    var s' := Step(w, s, CloseBinding(id));
    forall r: nat, k | Owns(w, s, r, k) ensures k.id != id {
      assert ReadOk(w, w.params[r], s.readers[r]);
    }
    forall r: nat, k | Owns(w, s', r, k) ensures PendingAt(s'.store, k) {
      assert Owns(w, s, r, k);
    }
    forall k | PendingAt(s'.store, k) ensures exists r: nat :: Owns(w, s', r, k) {
      assert PendingAt(s.store, k);
      var r: nat :| Owns(w, s, r, k);
      assert Owns(w, s', r, k);
    }
    forall x: nat, y: nat, k | Owns(w, s', x, k) && Owns(w, s', y, k) ensures x == y {
      assert Owns(w, s, x, k) && Owns(w, s, y, k);
    }
  }

  lemma StepKeepsInv(w: World, s: State, a: Action)
    requires LegalWorld(w) && Inv(w, s) && Permitted(w, s, a)
    ensures Inv(w, Step(w, s, a))
  {
    hide ReadOk, BlockCaches.StoreValid, TrueBlock, LocalStep;
    match a
    case Turn(r, c) => TurnKeepsInv(w, s, r, c);
    case LosePersisted(k) =>
      var s' := Step(w, s, a);
      assert forall r: nat, x :: Owns(w, s', r, x) <==> Owns(w, s, r, x);
    case CloseBinding(id) => CloseKeepsInv(w, s, id);
  }

  // ----- runs --------------------------------------------------------------

  ghost predicate Next(w: World, s: State, a: Action, s': State)
    requires LegalWorld(w)
  {
    |w.params| == |s.readers| && s.store.HasStripes() && Permitted(w, s, a) && s' == Step(w, s, a)
  }

  /** `states` is a run of the system from an initial state, driven by `actions`. */
  ghost predicate IsRun(w: World, states: seq<State>, actions: seq<Action>)
    requires LegalWorld(w)
  {
    && |states| == |actions| + 1 && Init(w, states[0])
    && forall i :: 0 <= i < |actions| ==> Next(w, states[i], actions[i], states[i + 1])
  }

  lemma {:induction false} RunKeepsInv(w: World, states: seq<State>, actions: seq<Action>, i: nat)
    requires LegalWorld(w) && IsRun(w, states, actions) && i < |states|
    ensures Inv(w, states[i])
  {
    if i == 0 {
      InitIsInv(w, states[0]);
    } else {
      RunKeepsInv(w, states, actions, i - 1);
      assert Next(w, states[i - 1], actions[i - 1], states[i]);
      StepKeepsInv(w, states[i - 1], actions[i - 1]);
    }
  }

  // ----- what an Ok means --------------------------------------------------

  /**
   The cache refines a plain read: whatever else ran, a read that completes has filled its buffer with
   exactly the bytes of its range.
   */
  lemma CompletedReadIsPlainRead(w: World, states: seq<State>, actions: seq<Action>, i: nat, r: nat)
    requires LegalWorld(w) && IsRun(w, states, actions) && i < |states| && r < |w.params|
    ensures |states[i].readers| == |w.params|
    ensures var read, p := states[i].readers[r], w.params[r];
            read.phase == Done(true) ==> read.dst == w.content(p.id)[p.offset..p.offset + p.length]
  {
    RunKeepsInv(w, states, actions, i);
    var p, read := w.params[r], states[i].readers[r];
    assert ReadOk(w, p, read);
    if read.phase == Done(true) { CompleteMeansExact(w, p, read); }
  }

  lemma CompleteMeansExact(w: World, p: Params, read: Read)
    requires LegalRead(w, p) && ReadOk(w, p, read) && read.phase == Done(true)
    ensures read.dst == w.content(p.id)[p.offset..p.offset + p.length]
  {
    hide CoveringBlocks, Right, ServedBytes, CountResolved;
    AllRight(w, p, read.dst, p.Count());
    assert read.dst[..p.length] == read.dst;
  }

  /**
   Conservation: range length plus bytes over-fetched equals bytes from the cache plus bytes asked of
   the reader underneath, and every covered block is counted exactly once as served or missed.
   */
  lemma CompletedReadConserves(w: World, states: seq<State>, actions: seq<Action>, i: nat, r: nat)
    requires LegalWorld(w) && IsRun(w, states, actions) && i < |states| && r < |w.params|
    ensures |states[i].readers| == |w.params|
    ensures var read, p := states[i].readers[r], w.params[r];
            read.phase == Done(true) ==>
              && p.length + read.overFetched == read.fromCache + read.asked
              && read.cacheServed + read.misses == p.Count()
  {
    hide Right;
    RunKeepsInv(w, states, actions, i);
    var p, read := w.params[r], states[i].readers[r];
    assert ReadOk(w, p, read);
    if read.phase == Done(true) { AllResolved(p, read.resolved, p.Count()); }
  }

  /** The clamp on over-fetched bytes never fires: no more is taken out of a transfer than it holds. */
  lemma ClampNeverFires(w: World, states: seq<State>, actions: seq<Action>, i: nat, r: nat)
    requires LegalWorld(w) && IsRun(w, states, actions) && i < |states| && r < |w.params|
    ensures |states[i].readers| == |w.params|
    ensures var phase := states[i].readers[r].phase;
            phase.Taking? ==> OverFetchedBytes(phase.run, phase.taken) == phase.run.length - phase.taken
  {
    hide CoveringBlocks, Core, Serves, StartOf;
    RunKeepsInv(w, states, actions, i);
    var p, read := w.params[r], states[i].readers[r];
    assert ReadOk(w, p, read);
    if read.phase.Taking? {
      var Taking(run, transfer, taken, rest) := read.phase;
      var n: nat :| Takes(p.policy, read.owned, run, n, rest) && TakenBelow(p.policy, read.owned, run, n, taken);
      if n > 0 { assert InRun(p.policy, run, read.owned[0]); }
    }
  }

  /** The final check of a read never fails: once every block is resolved, every byte was served. */
  lemma FinalCheckNeverFails(w: World, states: seq<State>, actions: seq<Action>, i: nat, r: nat)
    requires LegalWorld(w) && IsRun(w, states, actions) && i < |states| && r < |w.params|
    ensures |states[i].readers| == |w.params|
    ensures var read, p := states[i].readers[r], w.params[r];
            read.phase.Fallback? && read.phase.i >= p.Count() ==> read.served == p.length
  {
    hide Right;
    RunKeepsInv(w, states, actions, i);
    var p, read := w.params[r], states[i].readers[r];
    assert ReadOk(w, p, read);
    if read.phase.Fallback? && read.phase.i >= p.Count() { AllResolved(p, read.resolved, p.Count()); }
  }

  // ----- single flight and progress ----------------------------------------

  /** Reads that wait or have returned own nothing; every pending entry has exactly one owner. */
  lemma SingleFlight(w: World, states: seq<State>, actions: seq<Action>, i: nat)
    requires LegalWorld(w) && IsRun(w, states, actions) && i < |states|
    ensures |states[i].readers| == |w.params| && states[i].store.HasStripes()
    ensures SingleOwner(w, states[i])
    ensures forall r :: 0 <= r < |w.params| && (states[i].readers[r].phase.Waiting? || states[i].readers[r].phase.Done?)
              ==> states[i].readers[r].owned == []
  {
    RunKeepsInv(w, states, actions, i);
    forall r | 0 <= r < |w.params| && (states[i].readers[r].phase.Waiting? || states[i].readers[r].phase.Done?)
      ensures states[i].readers[r].owned == []
    {
      assert ReadOk(w, w.params[r], states[i].readers[r]);
    }
  }

  /** Whoever owns the block a blocked read waits for can itself take a step. */
  lemma OwnerOfAwaitedBlockMoves(w: World, s: State, r: nat) returns (owner: nat)
    requires LegalWorld(w) && Inv(w, s) && r < |s.readers| && Blocked(w, s, r)
    ensures owner < |s.readers| && Enabled(w, s, owner)
    ensures Owns(w, s, owner, w.params[r].KeyOf(w.params[r].First() + s.readers[r].phase.todo[0]))
  {
    var k := w.params[r].KeyOf(w.params[r].First() + s.readers[r].phase.todo[0]);
    assert PendingAt(s.store, k);
    owner :| Owns(w, s, owner, k);
    assert ReadOk(w, w.params[owner], s.readers[owner]);
  }

  /** No deadlock: while any read has not returned, some read can take a step. */
  lemma NoDeadlock(w: World, states: seq<State>, actions: seq<Action>, i: nat, r: nat)
    requires LegalWorld(w) && IsRun(w, states, actions) && i < |states| && r < |w.params|
    ensures |states[i].readers| == |w.params| && states[i].store.HasStripes()
    ensures !states[i].readers[r].phase.Done? ==> exists x: nat :: x < |w.params| && Enabled(w, states[i], x)
  {
    RunKeepsInv(w, states, actions, i);
    var s := states[i];
    if !s.readers[r].phase.Done? {
      if Blocked(w, s, r) {
        var owner := OwnerOfAwaitedBlockMoves(w, s, r);
        assert Enabled(w, s, owner);
      } else {
        assert Enabled(w, s, r);
      }
    }
  }

  // ----- the budget --------------------------------------------------------

  /** In every state of every run the resident bytes stay within the shares of all stripes. */
  lemma ResidentWithinBudget(w: World, states: seq<State>, actions: seq<Action>, i: nat)
    requires LegalWorld(w) && IsRun(w, states, actions) && i < |states|
    requires BlocksFitShares(w, states[i].store)
    ensures states[i].store.total <= |states[i].store.stripes| * states[i].store.shardBudget
  {
    RunKeepsInv(w, states, actions, i);
    BlockCaches.SharesBoundTotal(states[i].store.stripes, states[i].store.shardBudget);
  }
}
