/**
 What a step of one read does to what the reads share: the store stays valid and true, the persistent
 tier stays true, and pending entries appear and vanish exactly as this read gains and sheds ownership.
 */
module StoreSteps {
  import opened Basics
  import opened Arithmetic
  import opened Stripes
  import opened BlockPlan
  import opened CachedRead
  import opened ReadGeometry
  import opened ReadInvariant
  import opened ReadSteps
  import BlockCaches

  ghost predicate PendingAt(store: BlockCaches.Store, k: Key)
    requires store.HasStripes()
  {
    store.At(k) == Some(Pending)
  }

  /** The read shed block `k` in this step. */
  ghost predicate Shed(id: nat, owned: seq<nat>, owned': seq<nat>, k: Key) {
    k.id == id && k.block in owned && k.block !in owned'
  }

  ghost predicate Gained(id: nat, owned: seq<nat>, owned': seq<nat>, k: Key) {
    Shed(id, owned', owned, k)
  }

  /** Pending entries change with this read's ownership, and only absent blocks are gained. */
  ghost predicate PendingFollows(store: BlockCaches.Store, store': BlockCaches.Store, id: nat, owned: seq<nat>,
                                 owned': seq<nat>)
    requires store.HasStripes() && store'.HasStripes()
  {
    && (forall k :: PendingAt(store', k) <==>
          (PendingAt(store, k) && !Shed(id, owned, owned', k)) || Gained(id, owned, owned', k))
    && (forall k :: Gained(id, owned, owned', k) ==> store.At(k) == None)
  }

  /** The read's owned blocks are pending. */
  ghost predicate OwnedPending(p: Params, store: BlockCaches.Store, owned: seq<nat>)
    requires store.HasStripes()
  {
    forall b :: b in owned ==> PendingAt(store, p.KeyOf(b))
  }

  ghost predicate SharedOk(w: World, l: Local) {
    l.store.HasStripes() && BlockCaches.StoreValid(l.store) && StoreTrue(w, l.store) && DiskTrue(w, l.disk)
  }

  ghost predicate SharedStep(w: World, p: Params, l: Local, l': Local)
    requires BlockCaches.StoreValid(l.store)
  {
    && SharedOk(w, l')
    && BlockCaches.SameShape(l.store, l'.store)
    && (BlockCaches.WithinShares(l.store) && p.policy.blockSize <= l.store.shardBudget
        ==> BlockCaches.WithinShares(l'.store))
    && PendingFollows(l.store, l'.store, p.id, l.read.owned, l'.read.owned)
  }

  // ----- the store's own steps ---------------------------------------------

  lemma PublishShares(w: World, store: BlockCaches.Store, k: Key, bytes: seq<byte>)
    requires BlockCaches.StoreValid(store) && StoreTrue(w, store)
    requires PendingAt(store, k) && TrueBlock(w, k, bytes)
    ensures var store' := BlockCaches.Publish(store, k, bytes);
            && BlockCaches.StoreValid(store') && StoreTrue(w, store') && BlockCaches.SameShape(store, store')
            && (forall x :: PendingAt(store', x) <==> PendingAt(store, x) && x != k)
            && (BlockCaches.WithinShares(store) && |bytes| <= store.shardBudget ==> BlockCaches.WithinShares(store'))
  {
    hide BlockCaches.Publish, TrueBlock;
    BlockCaches.PublishEffect(store, k, bytes);
    var store' := BlockCaches.Publish(store, k, bytes);
    forall x | x != k ensures store'.At(x) == store.At(x) || (store'.At(x).None? && !PendingAt(store, x)) {
    }
  }

  // ----- step by step ------------------------------------------------------

  lemma AcquiringShares(w: World, p: Params, l: Local, c: Choice)
    requires LegalRead(w, p) && SharedOk(w, l) && l.read.phase.Acquiring?
    requires Before(p, l.read, l.read.phase.i)
    ensures SharedStep(w, p, l, LocalStep(w, p, l, c))
  {
    hide CoveringBlocks, ExtentOf, TrueBlock, Copied, Overlap, Resolve, AfterDisk, BlockCaches.Acquire,
      BlockCaches.StoreValid, BlockCaches.WithinShares, BlockCaches.Store.At;
    var i := l.read.phase.i;
    var k := p.KeyOf(p.First() + i);
    BlockCaches.AcquireEffect(l.store, k);
  }

  lemma ReleasingShares(w: World, p: Params, l: Local, c: Choice)
    requires LegalRead(w, p) && SharedOk(w, l) && l.read.phase.Releasing?
    requires Ascending(l.read.owned) && OwnedPending(p, l.store, l.read.owned)
    ensures SharedStep(w, p, l, LocalStep(w, p, l, c))
  {
    hide CoveringBlocks, TrueBlock, BlockCaches.Abandon,
      BlockCaches.StoreValid, BlockCaches.WithinShares, BlockCaches.Store.At;
    if l.read.owned != [] {
      AscendingTail(l.read.owned);
      assert l.read.owned == [l.read.owned[0]] + l.read.owned[1..];
      BlockCaches.AbandonEffect(l.store, p.KeyOf(l.read.owned[0]));
    }
  }

  lemma DiskShares(w: World, p: Params, l: Local, c: Choice)
    requires LegalRead(w, p) && SharedOk(w, l) && l.read.phase.Disk?
    requires Ascending(l.read.owned) && OwnedPending(p, l.store, l.read.owned)
    requires forall b :: b in l.read.phase.todo ==> b in l.read.owned
    ensures SharedStep(w, p, l, LocalStep(w, p, l, c))
  {
    hide CoveringBlocks, ExtentOf, StartOf, Copied, Overlap, Resolve, AfterDisk, BlockCaches.Publish,
      BlockCaches.StoreValid, BlockCaches.WithinShares, BlockCaches.Store.At;
    var todo := l.read.phase.todo;
    if todo != [] {
      var k := p.KeyOf(todo[0]);
      if c.good && k in l.disk && |l.disk[k]| == p.Extent(todo[0]).length {
        PublishShares(w, l.store, k, l.disk[k]);
        MinusKeepsOrder(l.read.owned, todo[0]);
      }
    }
  }

  lemma TakingShares(w: World, p: Params, l: Local, c: Choice)
    requires LegalRead(w, p) && SharedOk(w, l) && l.read.phase.Taking?
    requires ReadOk(w, p, l.read) && OwnedPending(p, l.store, l.read.owned)
    ensures SharedStep(w, p, l, LocalStep(w, p, l, c))
  {
    hide CoveringBlocks, ExtentOf, StartOf, EndOf, Copied, Overlap, Resolve, BlockCaches.Publish, Slice, Core, Serves,
      BlockCaches.StoreValid, BlockCaches.WithinShares, BlockCaches.Store.At;
    var Taking(run, transfer, taken, rest) := l.read.phase;
    var n: nat :| Takes(p.policy, l.read.owned, run, n, rest) && TakenBelow(p.policy, l.read.owned, run, n, taken);
    if l.read.owned != [] && l.read.owned[0] <= run.LastBlock() {
      var block := l.read.owned[0];
      var at := p.Extent(block).offset - run.offset;
      AscendingTail(l.read.owned);
      assert Unresolved(p, l.read, block);
      TakesOne(p, l.read.owned, run, n, rest, taken);
      TransferHoldsBlock(w, p, run, transfer, block);
      PublishShares(w, l.store, p.KeyOf(block), Slice(transfer, at, at + p.Extent(block).length));
      assert l.read.owned == [block] + l.read.owned[1..];
    }
  }

  lemma WaitingShares(w: World, p: Params, l: Local, c: Choice)
    requires LegalRead(w, p) && SharedOk(w, l) && l.read.phase.Waiting?
    ensures SharedStep(w, p, l, LocalStep(w, p, l, c))
  {
    hide CoveringBlocks, ExtentOf, TrueBlock, Copied, Overlap, Resolve, BlockCaches.Await,
      BlockCaches.StoreValid, BlockCaches.WithinShares, BlockCaches.Store.At;
    if l.read.phase.todo != [] {
      BlockCaches.AwaitEffect(l.store, p.KeyOf(p.First() + l.read.phase.todo[0]));
    }
  }

  /** Any step of any read, in any phase. */
  lemma LocalStepShares(w: World, p: Params, l: Local, c: Choice)
    requires LegalRead(w, p) && SharedOk(w, l) && ReadOk(w, p, l.read) && OwnedPending(p, l.store, l.read.owned)
    ensures SharedStep(w, p, l, LocalStep(w, p, l, c))
    ensures ReadOk(w, p, LocalStep(w, p, l, c).read)
  {
    hide CoveringBlocks, Core, Serves, BlockCaches.StoreValid, TrueBlock, BlockCaches.WithinShares,
      StepAcquiring, StepReleasing, StepDisk, StepTaking, StepWaiting;
    match l.read.phase
    case Acquiring(_) =>
      AcquiringShares(w, p, l, c);
      AcquiringKeeps(w, p, l.store, l.read);
    case Releasing(_) =>
      ReleasingShares(w, p, l, c);
      ReleasingKeeps(w, p, l.store, l.read);
    case Direct(_) => DirectKeeps(w, p, l.read, c.good);
    case Disk(_) =>
      DiskShares(w, p, l, c);
      DiskKeeps(w, p, l.store, l.disk, l.read, c.good);
    case Fetching(_) => FetchingKeeps(w, p, l.read, c.good);
    case Taking(_, _, _, _) =>
      TakingShares(w, p, l, c);
      TakingKeeps(w, p, l.store, l.disk, l.read, c.persisted);
    case Waiting(_) =>
      WaitingShares(w, p, l, c);
      WaitingKeeps(w, p, l.store, l.read);
    case Fallback(_) => FallbackKeeps(w, p, l.read, c.good);
    case Done(_) =>
  }
}
