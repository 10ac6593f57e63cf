/**
 What one read keeps true of itself at every step: its destination, its counters, the blocks it owns
 and the blocks it waits for.
 */
module ReadInvariant {
  import opened Basics
  import opened Arithmetic
  import opened Stripes
  import opened BlockPlan
  import opened CachedRead
  import opened ReadGeometry
  import BlockCaches

  // ----- the invariant -----------------------------------------------------

  /** Resolved blocks are right, and `served` and `settled` count exactly them. */
  ghost predicate Core(w: World, p: Params, resolved: seq<bool>, dst: seq<byte>, served: nat, settled: nat)
    requires LegalRead(w, p)
  {
    && |resolved| == p.Count() && |dst| == p.length
    && (forall i :: 0 <= i < p.Count() && resolved[i] ==> Right(w, p, dst, i))
    && served == ServedBytes(p, resolved, p.Count())
    && settled == CountResolved(resolved, p.Count())
  }

  /** Bytes of the current transfer that were asked for and not yet accounted for. */
  function InFlight(phase: Phase): int {
    if phase.Taking? then phase.run.length - phase.taken else 0
  }

  ghost predicate Accounts(w: World, p: Params, read: Read)
    requires LegalRead(w, p)
  {
    && Core(w, p, read.resolved, read.dst, read.served, read.cacheServed + read.misses)
    && read.fromCache + read.asked == read.served + read.overFetched + InFlight(read.phase)
  }

  /** Indices this read still means to wait for. */
  function Queue(read: Read): seq<nat> {
    match read.phase
    case Waiting(todo) => todo
    case Fallback(_) => []
    case Done(_) => []
    case _ => read.busy
  }

  ghost predicate Unresolved(p: Params, read: Read, block: nat)
    requires p.Legal()
  {
    p.First() <= block <= p.Last() && block - p.First() < |read.resolved| && !read.resolved[block - p.First()]
  }

  ghost predicate Holdings(p: Params, read: Read)
    requires p.Legal()
  {
    && Ascending(read.owned) && Ascending(Queue(read))
    && (forall b :: b in read.owned ==> Unresolved(p, read, b))
    && (forall i :: i in Queue(read) ==> Unresolved(p, read, p.First() + i) && p.First() + i !in read.owned)
  }

  /** The next `n` owned blocks lie in the transfer, the others are served by the runs after it. */
  ghost predicate Takes(p: Policy, owned: seq<nat>, run: FetchRun, n: nat, rest: seq<FetchRun>) {
    && n <= |owned| && run.End() <= p.assetSize
    && (forall i :: 0 <= i < n ==> owned[i] <= run.LastBlock() && InRun(p, run, owned[i]))
    && (forall i :: n <= i < |owned| ==> run.LastBlock() < owned[i])
    && Serves(p, owned[n..], rest)
  }

  /** What was taken came from below the next block to take. */
  ghost predicate TakenBelow(p: Policy, owned: seq<nat>, run: FetchRun, n: nat, taken: nat)
    requires n <= |owned|
  {
    run.offset + taken <= if n > 0 then StartOf(owned[0], p.blockSize) else run.End()
  }

  ghost predicate TakingOk(w: World, p: Params, read: Read)
    requires read.phase.Taking?
  {
    var Taking(run, transfer, taken, rest) := read.phase;
    && transfer == Slice(w.content(p.id), run.offset, run.End())
    && exists n: nat :: Takes(p.policy, read.owned, run, n, rest) && TakenBelow(p.policy, read.owned, run, n, taken)
  }

  ghost predicate Before(p: Params, read: Read, i: nat)
    requires p.Legal()
  {
    && i <= p.Count()
    && (forall b :: b in read.owned ==> b < p.First() + i)
    && (forall j :: j in read.busy ==> j < i)
  }

  ghost predicate PhaseOk(w: World, p: Params, read: Read)
    requires LegalRead(w, p)
  {
    && read.pass < MAX_PASSES
    && match read.phase
       case Acquiring(i) => Before(p, read, i)
       case Releasing(ReadDirectly(i)) => i < p.Count() && Before(p, read, i) && Unresolved(p, read, p.First() + i)
       case Releasing(Fail) => true
       case Direct(i) => i < p.Count() && Before(p, read, i) && Unresolved(p, read, p.First() + i) && read.owned == []
       case Disk(todo) => Ascending(todo) && forall b :: b in todo ==> b in read.owned
       case Fetching(runs) => Serves(p.policy, read.owned, runs)
       case Taking(_, _, _, _) => TakingOk(w, p, read)
       case Waiting(_) => read.owned == []
       case Fallback(i) =>
         && read.owned == [] && i <= p.Count()
         && forall j :: 0 <= j < i && j < |read.resolved| ==> read.resolved[j]
       case Done(ok) => read.owned == [] && (ok ==> forall j :: 0 <= j < |read.resolved| ==> read.resolved[j])
  }

  ghost predicate ReadOk(w: World, p: Params, read: Read)
    requires LegalRead(w, p)
  {
    Accounts(w, p, read) && Holdings(p, read) && PhaseOk(w, p, read)
  }

  // ----- resolving one block -----------------------------------------------

  function Window(w: World, p: Params, i: nat): seq<byte>
    requires p.Legal()
  {
    Slice(w.content(p.id), Cut(p, i), Cut(p, i + 1))
  }

  /** The true bytes of one unresolved block arrive: every count moves by exactly that block. */
  lemma CoreServes(w: World, p: Params, resolved: seq<bool>, dst: seq<byte>, served: nat, settled: nat, i: nat)
    requires LegalRead(w, p) && Core(w, p, resolved, dst, served, settled)
    requires i < p.Count() && !resolved[i]
    ensures Core(w, p, resolved[i := true], Overlaid(dst, Cut(p, i) - p.offset, Window(w, p, i)),
                 served + Overlap(p, p.First() + i), settled + 1)
  {
    hide CoveringBlocks, StartOf, ExtentOf, Cut, Overlaid, Overlap, Right, Slice;
    var dst' := Overlaid(dst, Cut(p, i) - p.offset, Window(w, p, i));
    OverlayTrueBytes(w, p, dst, i, i);
    forall j | 0 <= j < p.Count() && resolved[i := true][j] ensures Right(w, p, dst', j) {
      OverlayTrueBytes(w, p, dst, i, j);
    }
    ResolveOne(p, resolved, i, p.Count());
  }

  /** `ServeCached` on a true block of the expected length. */
  lemma CachedServes(w: World, p: Params, read: Read, block: nat, bytes: seq<byte>)
    requires LegalRead(w, p) && Accounts(w, p, read) && Unresolved(p, read, block)
    requires TrueBlock(w, p.KeyOf(block), bytes) && |bytes| == p.Extent(block).length
    ensures Accounts(w, p, ServeCached(p, read, block, bytes))
  {
    hide CoveringBlocks, StartOf, ExtentOf, Cut, Overlaid, Overlap, Slice, Copied, Right, TrueBlock, ServedBytes,
      CountResolved;
    var i := block - p.First();
    CopiedIsOverlay(w, p, read.dst, i, bytes);
    CoreServes(w, p, read.resolved, read.dst, read.served, read.cacheServed + read.misses, i);
  }

  lemma DirectServes(w: World, p: Params, read: Read, block: nat)
    requires LegalRead(w, p) && Accounts(w, p, read) && Unresolved(p, read, block)
    ensures Accounts(w, p, ServeDirect(w, p, read, block))
  {
    hide CoveringBlocks, StartOf, ExtentOf, Cut, Overlaid, Overlap, Slice, Right, ServedBytes, CountResolved,
      Params.Begin, Params.End;
    var i := block - p.First();
    BlockTiles(p, i);
    CoreServes(w, p, read.resolved, read.dst, read.served, read.cacheServed + read.misses, i);
  }
}
