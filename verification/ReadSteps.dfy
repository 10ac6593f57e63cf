/**
 Every step of a read keeps the read's invariant, provided the store and the persistent tier hold
 true blocks; and every block a step stores is a true one.
 */
module ReadSteps {
  import opened Basics
  import opened Arithmetic
  import opened Stripes
  import opened BlockPlan
  import opened CachedRead
  import opened ReadGeometry
  import opened ReadInvariant
  import BlockCaches

  ghost predicate StoreTrue(w: World, store: BlockCaches.Store)
    requires store.HasStripes()
  {
    forall k :: store.At(k).Some? && store.At(k).value.Published? ==> TrueBlock(w, k, store.At(k).value.bytes)
  }

  ghost predicate DiskTrue(w: World, disk: map<Key, seq<byte>>) {
    forall k :: k in disk ==> TrueBlock(w, k, disk[k])
  }

  // ----- holdings ----------------------------------------------------------

  /** Resolving a block that is neither owned nor queued any more disturbs nothing that still is. */
  lemma HoldingsAfterResolve(p: Params, before: Read, after: Read, block: nat)
    requires p.Legal() && Holdings(p, before) && Unresolved(p, before, block)
    requires after.resolved == before.resolved[block - p.First() := true]
    requires Ascending(after.owned) && Ascending(Queue(after))
    requires forall b :: b in after.owned ==> b in before.owned && b != block
    requires forall i :: i in Queue(after) ==> i in Queue(before) && p.First() + i != block
    ensures Holdings(p, after)
  {
  }

  lemma AscendingTail(blocks: seq<nat>)
    requires Ascending(blocks) && blocks != []
    ensures Ascending(blocks[1..])
    ensures forall b :: b in blocks[1..] ==> b in blocks && blocks[0] < b
  {
  }

  lemma AscendingAppend(blocks: seq<nat>, last: nat)
    requires Ascending(blocks) && forall b :: b in blocks ==> b < last
    ensures Ascending(blocks + [last])
  {
    assert forall i :: 0 <= i < |blocks| ==> blocks[i] in blocks;
  }

  lemma AscendingPrepend(first: nat, blocks: seq<nat>)
    requires Ascending(blocks) && forall b :: b in blocks ==> first < b
    ensures Ascending([first] + blocks)
  {
    assert forall i :: 0 <= i < |blocks| ==> blocks[i] in blocks;
  }

  lemma {:induction false} MinusKeepsOrder(blocks: seq<nat>, b: nat)
    requires Ascending(blocks) && b in blocks
    ensures Ascending(Minus(blocks, b))
    ensures forall x :: x in Minus(blocks, b) <==> x in blocks && x != b
  {
    AscendingTail(blocks);
    assert blocks == [blocks[0]] + blocks[1..];
    if blocks[0] != b {
      MinusKeepsOrder(blocks[1..], b);
      AscendingPrepend(blocks[0], Minus(blocks[1..], b));
    }
  }

  // ----- acquiring ---------------------------------------------------------

  lemma OwnedInsideAsset(p: Params, read: Read)
    requires p.Legal() && Holdings(p, read)
    ensures InsideAsset(p.policy, read.owned)
  {
    forall i | 0 <= i < |read.owned| ensures StartOf(read.owned[i], p.policy.blockSize) < p.policy.assetSize {
      assert read.owned[i] in read.owned;
      BlockTiles(p, read.owned[i] - p.First());
    }
  }

  /** Once the persistent tier has answered, the next phase is entered with its invariant. */
  lemma AfterDiskOk(w: World, p: Params, read: Read)
    requires LegalRead(w, p) && Accounts(w, p, read) && Holdings(p, read) && Queue(read) == read.busy
    requires InFlight(read.phase) == 0 && read.pass < MAX_PASSES
    ensures ReadOk(w, p, read.(phase := AfterDisk(p, read)))
  {
    hide Core, CoveringBlocks, StartOf, ExtentOf, Serves, Plan;
    OwnedInsideAsset(p, read);
    PlanIsOptimal(p.policy, read.owned);
  }

  /** A resident block of the expected length is served at once. */
  lemma HitKeeps(w: World, p: Params, read: Read, i: nat, bytes: seq<byte>)
    requires LegalRead(w, p) && ReadOk(w, p, read) && read.phase == Acquiring(i) && i < p.Count()
    requires Unresolved(p, read, p.First() + i)
    requires TrueBlock(w, p.KeyOf(p.First() + i), bytes) && |bytes| == p.Extent(p.First() + i).length
    ensures ReadOk(w, p, ServeCached(p, read, p.First() + i, bytes).(phase := Acquiring(i + 1)))
  {
    hide Core, CoveringBlocks, StartOf, ExtentOf, TrueBlock, Copied, Overlap;
    var block := p.First() + i;
    CachedServes(w, p, read, block, bytes);
    HoldingsAfterResolve(p, read, ServeCached(p, read, block, bytes).(phase := Acquiring(i + 1)), block);
  }

  /** Ownership of an absent block is added at the end of the ascending list. */
  lemma OwnedKeeps(w: World, p: Params, read: Read, i: nat)
    requires LegalRead(w, p) && ReadOk(w, p, read) && read.phase == Acquiring(i) && i < p.Count()
    requires Unresolved(p, read, p.First() + i)
    ensures ReadOk(w, p, read.(owned := read.owned + [p.First() + i], phase := Acquiring(i + 1)))
  {
    hide Core, CoveringBlocks, Ascending;
    AscendingAppend(read.owned, p.First() + i);
  }

  lemma BusyKeeps(w: World, p: Params, read: Read, i: nat)
    requires LegalRead(w, p) && ReadOk(w, p, read) && read.phase == Acquiring(i) && i < p.Count()
    requires Unresolved(p, read, p.First() + i)
    ensures ReadOk(w, p, read.(busy := read.busy + [i], phase := Acquiring(i + 1)))
  {
    hide Core, CoveringBlocks, Ascending;
    AscendingAppend(read.busy, i);
  }

  lemma AcquiringKeeps(w: World, p: Params, store: BlockCaches.Store, read: Read)
    requires LegalRead(w, p) && ReadOk(w, p, read) && read.phase.Acquiring?
    requires BlockCaches.StoreValid(store) && StoreTrue(w, store)
    ensures ReadOk(w, p, StepAcquiring(p, store, read).1)
  {
    hide CoveringBlocks, ExtentOf, Right, ServedBytes, CountResolved, TrueBlock, ServeCached, AfterDisk,
      BlockCaches.Acquire, Ascending;
    var i := read.phase.i;
    var block := p.First() + i;
    if i >= p.Count() {
      AfterDiskOk(w, p, read);
    } else if !read.resolved[i] {
      BlockCaches.AcquireEffect(store, p.KeyOf(block));
      match BlockCaches.Acquire(store, p.KeyOf(block)).1
      case Hit(bytes) => if |bytes| == p.Extent(block).length { HitKeeps(w, p, read, i, bytes); }
      case Owned => OwnedKeeps(w, p, read, i);
      case Busy => BusyKeeps(w, p, read, i);
    }
  }

  // ----- releasing and direct reads ----------------------------------------

  lemma ReleasingKeeps(w: World, p: Params, store: BlockCaches.Store, read: Read)
    requires LegalRead(w, p) && ReadOk(w, p, read) && read.phase.Releasing? && store.HasStripes()
    ensures ReadOk(w, p, StepReleasing(p, store, read).1)
  {
    hide Core, CoveringBlocks, BlockCaches.Abandon;
    if read.owned != [] { AscendingTail(read.owned); }
  }

  lemma DirectKeeps(w: World, p: Params, read: Read, good: bool)
    requires LegalRead(w, p) && ReadOk(w, p, read) && read.phase.Direct?
    ensures ReadOk(w, p, StepDirect(w, p, read, good))
  {
    hide Core, CoveringBlocks, StartOf, ExtentOf, Overlaid, Slice, Overlap;
    if good {
      var block := p.First() + read.phase.i;
      DirectServes(w, p, read, block);
      HoldingsAfterResolve(p, read, StepDirect(w, p, read, good), block);
    }
  }

  lemma FallbackKeeps(w: World, p: Params, read: Read, good: bool)
    requires LegalRead(w, p) && ReadOk(w, p, read) && read.phase.Fallback?
    ensures ReadOk(w, p, StepFallback(w, p, read, good))
  {
    hide CoveringBlocks, StartOf, ExtentOf, Overlaid, Slice, Overlap, Right, ServedBytes, CountResolved;
    var i := read.phase.i;
    if i < p.Count() && !read.resolved[i] && good {
      DirectServes(w, p, read, p.First() + i);
      HoldingsAfterResolve(p, read, StepFallback(w, p, read, good), p.First() + i);
    }
  }

  // ----- the persistent tier -----------------------------------------------

  lemma DiskKeeps(w: World, p: Params, store: BlockCaches.Store, disk: map<Key, seq<byte>>, read: Read, good: bool)
    requires LegalRead(w, p) && ReadOk(w, p, read) && read.phase.Disk?
    requires store.HasStripes() && DiskTrue(w, disk)
    ensures ReadOk(w, p, StepDisk(p, store, disk, read, good).1)
  {
    hide Core, CoveringBlocks, StartOf, ExtentOf, TrueBlock, Copied, Overlap, BlockCaches.Publish, AfterDisk;
    if read.phase.todo == [] {
      AfterDiskOk(w, p, read);
    } else {
      var block := read.phase.todo[0];
      var k := p.KeyOf(block);
      AscendingTail(read.phase.todo);
      if good && k in disk && |disk[k]| == p.Extent(block).length {
        CachedServes(w, p, read, block, disk[k]);
        MinusKeepsOrder(read.owned, block);
        HoldingsAfterResolve(p, read, StepDisk(p, store, disk, read, good).1, block);
      }
    }
  }

  // ----- fetching and taking -----------------------------------------------

  lemma FetchingKeeps(w: World, p: Params, read: Read, good: bool)
    requires LegalRead(w, p) && ReadOk(w, p, read) && read.phase.Fetching?
    ensures ReadOk(w, p, StepFetching(w, p, read, good))
  {
    hide Core, CoveringBlocks, StartOf, ExtentOf;
    var runs := read.phase.runs;
    if runs != [] && good {
      var n: nat :| ServesPrefix(p.policy, read.owned, runs[0], n) && Serves(p.policy, read.owned[n..], runs[1..]);
      assert InRun(p.policy, runs[0], read.owned[0]);
      assert Takes(p.policy, read.owned, runs[0], n, runs[1..]);
      assert TakenBelow(p.policy, read.owned, runs[0], n, 0);
    }
  }

  /** A block lying inside a true transfer is cut out of it whole. */
  lemma TransferHoldsBlock(w: World, p: Params, run: FetchRun, transfer: seq<byte>, block: nat)
    requires LegalRead(w, p) && p.First() <= block <= p.Last()
    requires run.End() <= p.policy.assetSize && transfer == Slice(w.content(p.id), run.offset, run.End())
    requires InRun(p.policy, run, block)
    ensures var at := p.Extent(block).offset - run.offset;
            var bytes := Slice(transfer, at, at + p.Extent(block).length);
            TrueBlock(w, p.KeyOf(block), bytes) && |bytes| == p.Extent(block).length
  {
    hide CoveringBlocks, StartOf, Cut, Params.Begin, Params.End;
    BlockTiles(p, block - p.First());
    var start, len := p.Extent(block).offset, p.Extent(block).length;
    SliceOfSlice(w.content(p.id), run.offset, run.length, start, start + len);
  }

  /** The covered part of a block is no longer than the block. */
  lemma OverlapWithinBlock(p: Params, block: nat)
    requires p.Legal() && p.First() <= block <= p.Last()
    ensures StartOf(block, p.policy.blockSize) + Overlap(p, block)
         <= EndOf(block, p.policy.blockSize, p.policy.assetSize)
  {
    BlockTiles(p, block - p.First());
  }

  lemma EndBeforeNextStart(p: Policy, a: nat, b: nat)
    requires a < b
    ensures EndOf(a, p.blockSize, p.assetSize) <= StartOf(b, p.blockSize)
  {
    NextBlock(a, p.blockSize);
    ProductMonotone(a + 1, b, p.blockSize);
  }

  /** Taking one block keeps what is left of the transfer and of the plan in step. */
  lemma TakesOne(p: Params, owned: seq<nat>, run: FetchRun, n: nat, rest: seq<FetchRun>, taken: nat)
    requires p.Legal() && Ascending(owned) && owned != [] && owned[0] <= run.LastBlock()
    requires p.First() <= owned[0] <= p.Last()
    requires Takes(p.policy, owned, run, n, rest) && TakenBelow(p.policy, owned, run, n, taken)
    ensures 0 < n && InRun(p.policy, run, owned[0]) && run.End() <= p.policy.assetSize
    ensures Takes(p.policy, owned[1..], run, n - 1, rest)
    ensures TakenBelow(p.policy, owned[1..], run, n - 1, taken + Overlap(p, owned[0]))
    ensures taken + Overlap(p, owned[0]) <= run.length
  {
    hide CoveringBlocks, StartOf, ExtentOf, EndOf, Overlap;
    assert owned[1..][n - 1..] == owned[n..];
    assert InRun(p.policy, run, owned[0]);
    OverlapWithinBlock(p, owned[0]);
    if n > 1 { EndBeforeNextStart(p.policy, owned[0], owned[1]); }
  }

  lemma TakingKeeps(w: World, p: Params, store: BlockCaches.Store, disk: map<Key, seq<byte>>, read: Read,
                    persisted: bool)
    requires LegalRead(w, p) && ReadOk(w, p, read) && read.phase.Taking? && store.HasStripes()
    ensures ReadOk(w, p, StepTaking(p, store, disk, read, persisted).2)
  {
    hide CoveringBlocks, StartOf, ExtentOf, EndOf, Overlap, Right, ServedBytes, CountResolved, Copied, Overlaid,
      Slice, TrueBlock, BlockCaches.Publish, Serves, Cut;
    var Taking(run, transfer, taken, rest) := read.phase;
    var n: nat :| Takes(p.policy, read.owned, run, n, rest) && TakenBelow(p.policy, read.owned, run, n, taken);
    if read.owned != [] && read.owned[0] <= run.LastBlock() {
      TakeKeeps(w, p, store, disk, read, persisted, n);
    } else {
      assert read.owned[0..] == read.owned;
    }
  }

  lemma TakeAccounts(w: World, p: Params, store: BlockCaches.Store, disk: map<Key, seq<byte>>, read: Read,
                     persisted: bool)
    requires LegalRead(w, p) && Accounts(w, p, read) && read.phase.Taking? && store.HasStripes()
    requires read.owned != [] && read.owned[0] <= read.phase.run.LastBlock() && Unresolved(p, read, read.owned[0])
    requires read.phase.run.End() <= p.policy.assetSize && InRun(p.policy, read.phase.run, read.owned[0])
    requires read.phase.transfer == Slice(w.content(p.id), read.phase.run.offset, read.phase.run.End())
    ensures Accounts(w, p, StepTaking(p, store, disk, read, persisted).2)
  {
    hide CoveringBlocks, StartOf, ExtentOf, EndOf, Overlap, Right, ServedBytes, CountResolved, Copied, Overlaid,
      Slice, TrueBlock, BlockCaches.Publish, Serves, Cut, InRun;
    var block, run := read.owned[0], read.phase.run;
    var at := p.Extent(block).offset - run.offset;
    var bytes := Slice(read.phase.transfer, at, at + p.Extent(block).length);
    TransferHoldsBlock(w, p, run, read.phase.transfer, block);
    CopiedIsOverlay(w, p, read.dst, block - p.First(), bytes);
    CoreServes(w, p, read.resolved, read.dst, read.served, read.cacheServed + read.misses, block - p.First());
  }

  lemma TakeKeeps(w: World, p: Params, store: BlockCaches.Store, disk: map<Key, seq<byte>>, read: Read, persisted: bool,
                  n: nat)
    requires LegalRead(w, p) && ReadOk(w, p, read) && read.phase.Taking? && store.HasStripes()
    requires Takes(p.policy, read.owned, read.phase.run, n, read.phase.rest)
    requires TakenBelow(p.policy, read.owned, read.phase.run, n, read.phase.taken)
    requires read.owned != [] && read.owned[0] <= read.phase.run.LastBlock()
    ensures ReadOk(w, p, StepTaking(p, store, disk, read, persisted).2)
  {
    hide CoveringBlocks, StartOf, ExtentOf, EndOf, Overlap, Core, Copied, Overlaid,
      Slice, TrueBlock, BlockCaches.Publish, Serves, Takes, TakenBelow;
    var Taking(run, transfer, taken, rest) := read.phase;
    AscendingTail(read.owned);
    assert Unresolved(p, read, read.owned[0]);
    TakesOne(p, read.owned, run, n, rest, taken);
    TakeAccounts(w, p, store, disk, read, persisted);
    HoldingsAfterResolve(p, read, StepTaking(p, store, disk, read, persisted).2, read.owned[0]);
  }

  // ----- waiting -----------------------------------------------------------

  lemma WaitingKeeps(w: World, p: Params, store: BlockCaches.Store, read: Read)
    requires LegalRead(w, p) && ReadOk(w, p, read) && read.phase.Waiting?
    requires BlockCaches.StoreValid(store) && StoreTrue(w, store)
    ensures ReadOk(w, p, StepWaiting(p, store, read).1)
  {
    hide Core, CoveringBlocks, StartOf, ExtentOf, TrueBlock, Copied, Overlap, BlockCaches.Await;
    var todo := read.phase.todo;
    if todo != [] {
      var block := p.First() + todo[0];
      AscendingTail(todo);
      assert todo[0] in Queue(read);
      assert Unresolved(p, read, block);
      BlockCaches.AwaitEffect(store, p.KeyOf(block));
      var answer := BlockCaches.Await(store, p.KeyOf(block)).1;
      if answer.Some? && |answer.value| == p.Extent(block).length {
        CachedServes(w, p, read, block, answer.value);
        HoldingsAfterResolve(p, read, StepWaiting(p, store, read).1, block);
      }
    }
  }
}
