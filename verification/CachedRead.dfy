/**
 Cached reads as a step system.

 Any number of reads run at once against one block store and one persistent tier. A step is one
 critical section of the store, one consultation of the persistent tier, one request of the reader
 underneath, or one local turn of the read loop; reads take steps in any order.
 */
module CachedRead {
  import opened Basics
  import opened Arithmetic
  import opened Stripes
  import opened BlockPlan
  import BlockCaches

  /** How many times a read goes round the acquire / fetch / wait loop before it serves itself. */
  const MAX_PASSES: nat := 3

  // ----- what is being read ------------------------------------------------

  /** One read: the identity it is bound to, the size its reader was opened against, its range. */
  datatype Params = Params(
    id: nat,
    policy: Policy,
    offset: nat,
    length: nat,
    persists: bool)
  {
    predicate Legal() { 0 < length && offset + length <= policy.assetSize && 0 < policy.blockSize }

    function First(): nat requires Legal() { CoveringBlocks(offset, length, policy.blockSize).first }
    function Last(): nat requires Legal() { CoveringBlocks(offset, length, policy.blockSize).last }
    function Count(): nat requires Legal() { Last() - First() + 1 }
    function KeyOf(block: nat): Key { Key(id, block) }
    function Extent(block: nat): BlockExtent { ExtentOf(block, policy.blockSize, policy.assetSize) }

    /** The part of a block that the range covers. */
    function Begin(block: nat): int { Max(offset, Extent(block).offset) }
    function End(block: nat): int { Min(offset + length, EndOf(block, policy.blockSize, policy.assetSize)) }
  }

  /** The true bytes of each identity, its block size, and the reads under way. */
  datatype World = World(content: nat -> seq<byte>, blockSize: nat -> nat, params: seq<Params>)

  /**
   Readers of one identity may disagree about the size of the asset: each size is only required to
   end inside the identity's bytes. The block size is part of the identity.
   */
  ghost predicate LegalWorld(w: World) {
    forall r :: 0 <= r < |w.params| ==> LegalRead(w, w.params[r])
  }

  ghost predicate LegalRead(w: World, p: Params) {
    p.Legal() && p.policy.assetSize <= |w.content(p.id)| && p.policy.blockSize == w.blockSize(p.id)
  }

  // ----- the state of one read ---------------------------------------------

  datatype Resume = ReadDirectly(i: nat) | Fail

  datatype Phase =
    | Acquiring(i: nat)
    | Releasing(next: Resume)
    | Direct(i: nat)
    | Disk(todo: seq<nat>)
    | Fetching(runs: seq<FetchRun>)
    | Taking(run: FetchRun, transfer: seq<byte>, taken: nat, rest: seq<FetchRun>)
    | Waiting(todo: seq<nat>)
    | Fallback(i: nat)
    | Done(ok: bool)

  /** `owned` lists the blocks acquired and not yet published or abandoned, `busy` the indices to wait for. */
  datatype Read = Read(
    pass: nat,
    phase: Phase,
    resolved: seq<bool>,
    owned: seq<nat>,
    busy: seq<nat>,
    dst: seq<byte>,
    served: nat,
    cacheServed: nat,
    misses: nat,
    fromCache: nat,
    asked: nat,
    overFetched: nat)

  datatype State = State(store: BlockCaches.Store, disk: map<Key, seq<byte>>, readers: seq<Read>)

  /** The outcome of whatever a step asks of the world: the inner reader or the persistent tier. */
  datatype Choice = Choice(good: bool, persisted: bool)

  // ----- one step of one read ----------------------------------------------

  function Minus(blocks: seq<nat>, b: nat): seq<nat> {
    if blocks == [] then [] else if blocks[0] == b then blocks[1..] else [blocks[0]] + Minus(blocks[1..], b)
  }

  /** Copies `src` over `dst` from position `at`. */
  function Overlaid(dst: seq<byte>, at: int, src: seq<byte>): seq<byte> {
    if 0 <= at && at + |src| <= |dst| then dst[..at] + src + dst[at + |src|..] else dst
  }

  function Slice(s: seq<byte>, from: int, to: int): seq<byte> {
    if 0 <= from <= to <= |s| then s[from..to] else []
  }

  /** `CopyOverlap`: the covered part of a block goes to its place in the destination. */
  function Copied(p: Params, dst: seq<byte>, block: nat, bytes: seq<byte>): seq<byte> {
    if p.End(block) <= p.Begin(block) then dst
    else Overlaid(dst, p.Begin(block) - p.offset,
                  Slice(bytes, p.Begin(block) - p.Extent(block).offset, p.End(block) - p.Extent(block).offset))
  }

  function Overlap(p: Params, block: nat): nat {
    if p.End(block) <= p.Begin(block) then 0 else p.End(block) - p.Begin(block)
  }

  function Resolve(p: Params, read: Read, block: nat): seq<bool>
    requires p.Legal()
  {
    var i := block - p.First();
    if 0 <= i < |read.resolved| then read.resolved[i := true] else read.resolved
  }

  /** A block served from memory, disk, or another read's fetch. */
  function ServeCached(p: Params, read: Read, block: nat, bytes: seq<byte>): Read
    requires p.Legal()
  {
    read.(dst := Copied(p, read.dst, block, bytes),
          fromCache := read.fromCache + Overlap(p, block),
          served := read.served + Overlap(p, block),
          cacheServed := read.cacheServed + 1,
          resolved := Resolve(p, read, block))
  }

  /** A block read from the transport for exactly the bytes the caller wants of it. */
  function ServeDirect(w: World, p: Params, read: Read, block: nat): Read
    requires p.Legal()
  {
    read.(dst := Overlaid(read.dst, p.Begin(block) - p.offset, Slice(w.content(p.id), p.Begin(block), p.End(block))),
          asked := read.asked + Overlap(p, block),
          served := read.served + Overlap(p, block),
          misses := read.misses + 1,
          resolved := Resolve(p, read, block))
  }

  /** What follows once the persistent tier has had its turn. */
  ghost function AfterDisk(p: Params, read: Read): Phase {
    if read.owned == [] && read.busy == [] then Fallback(0)
    else if read.owned != [] && Ascending(read.owned) then Fetching(Plan(p.policy, read.owned))
    else Waiting(read.busy)
  }

  ghost function StepAcquiring(p: Params, store: BlockCaches.Store, read: Read): (BlockCaches.Store, Read)
    requires p.Legal() && store.HasStripes() && read.phase.Acquiring?
  {
    var i := read.phase.i;
    if i >= p.Count() then
      (store, read.(phase := if p.persists && read.owned != [] then Disk(read.owned) else AfterDisk(p, read)))
    else if i < |read.resolved| && read.resolved[i] then (store, read.(phase := Acquiring(i + 1)))
    else
      var block := p.First() + i;
      var (store', outcome) := BlockCaches.Acquire(store, p.KeyOf(block));
      match outcome
      case Hit(bytes) =>
        if |bytes| == p.Extent(block).length then
          (store', ServeCached(p, read, block, bytes).(phase := Acquiring(i + 1)))
        else (store', read.(phase := Releasing(ReadDirectly(i))))
      case Owned => (store', read.(owned := read.owned + [block], phase := Acquiring(i + 1)))
      case Busy => (store', read.(busy := read.busy + [i], phase := Acquiring(i + 1)))
  }

  /** `AbandonAll`, one critical section at a time. */
  ghost function StepReleasing(p: Params, store: BlockCaches.Store, read: Read): (BlockCaches.Store, Read)
    requires store.HasStripes() && read.phase.Releasing?
  {
    if read.owned != [] then
      (BlockCaches.Abandon(store, p.KeyOf(read.owned[0])), read.(owned := read.owned[1..]))
    else match read.phase.next
      case ReadDirectly(i) => (store, read.(phase := Direct(i)))
      case Fail => (store, read.(phase := Done(false)))
  }

  ghost function StepDisk(p: Params, store: BlockCaches.Store, disk: map<Key, seq<byte>>, read: Read, good: bool)
    : (BlockCaches.Store, Read)
    requires p.Legal() && store.HasStripes() && read.phase.Disk?
  {
    if read.phase.todo == [] then (store, read.(phase := AfterDisk(p, read)))
    else
      var block, rest := read.phase.todo[0], Disk(read.phase.todo[1..]);
      var k := p.KeyOf(block);
      if good && k in disk && |disk[k]| == p.Extent(block).length then
        (BlockCaches.Publish(store, k, disk[k]),
         ServeCached(p, read, block, disk[k]).(owned := Minus(read.owned, block), phase := rest))
      else (store, read.(phase := rest))
  }

  /** One merged request of the reader underneath; only a complete transfer counts. */
  function StepFetching(w: World, p: Params, read: Read, good: bool): Read
    requires read.phase.Fetching?
  {
    if read.phase.runs == [] then read.(phase := Waiting(read.busy))
    else if !good then read.(phase := Releasing(Fail))
    else
      var run := read.phase.runs[0];
      read.(asked := read.asked + run.length,
            phase := Taking(run, Slice(w.content(p.id), run.offset, run.End()), 0, read.phase.runs[1..]))
  }

  /** Publishes the next owned block of the transfer, or closes the books on it. */
  ghost function StepTaking(p: Params, store: BlockCaches.Store, disk: map<Key, seq<byte>>, read: Read, persisted: bool)
    : (BlockCaches.Store, map<Key, seq<byte>>, Read)
    requires p.Legal() && store.HasStripes() && read.phase.Taking?
  {
    var Taking(run, transfer, taken, rest) := read.phase;
    if read.owned != [] && read.owned[0] <= run.LastBlock() then
      var block := read.owned[0];
      var k := p.KeyOf(block);
      var at := p.Extent(block).offset - run.offset;
      var bytes := Slice(transfer, at, at + p.Extent(block).length);
      var copied := Overlap(p, block);
      (BlockCaches.Publish(store, k, bytes),
       if p.persists && persisted then disk[k := bytes] else disk,
       read.(owned := read.owned[1..],
             dst := Copied(p, read.dst, block, bytes),
             served := read.served + copied,
             misses := read.misses + 1,
             resolved := Resolve(p, read, block),
             phase := Taking(run, transfer, taken + copied, rest)))
    else
      (store, disk, read.(overFetched := read.overFetched + OverFetchedBytes(run, taken), phase := Fetching(rest)))
  }

  ghost function StepWaiting(p: Params, store: BlockCaches.Store, read: Read): (BlockCaches.Store, Read)
    requires p.Legal() && store.HasStripes() && read.phase.Waiting?
  {
    if read.phase.todo == [] then
      (store, if read.pass + 1 < MAX_PASSES then read.(pass := read.pass + 1, busy := [], phase := Acquiring(0))
              else read.(phase := Fallback(0)))
    else
      var i, rest := read.phase.todo[0], Waiting(read.phase.todo[1..]);
      var block := p.First() + i;
      var (store', answer) := BlockCaches.Await(store, p.KeyOf(block));
      if answer.Some? && |answer.value| == p.Extent(block).length then
        (store', ServeCached(p, read, block, answer.value).(phase := rest))
      else (store', read.(phase := rest))
  }

  function StepFallback(w: World, p: Params, read: Read, good: bool): Read
    requires p.Legal() && read.phase.Fallback?
  {
    var i := read.phase.i;
    if i >= p.Count() then read.(phase := Done(read.served == p.length))
    else if i < |read.resolved| && read.resolved[i] then read.(phase := Fallback(i + 1))
    else if good then ServeDirect(w, p, read, p.First() + i).(phase := Fallback(i + 1))
    else read.(phase := Done(false))
  }

  function StepDirect(w: World, p: Params, read: Read, good: bool): Read
    requires p.Legal() && read.phase.Direct?
  {
    if good then ServeDirect(w, p, read, p.First() + read.phase.i).(phase := Acquiring(read.phase.i + 1))
    else read.(phase := Done(false))
  }

  datatype Local = Local(store: BlockCaches.Store, disk: map<Key, seq<byte>>, read: Read)

  ghost function LocalStep(w: World, p: Params, l: Local, c: Choice): Local
    requires p.Legal() && l.store.HasStripes()
  {
    var Local(store, disk, read) := l;
    match read.phase
    case Acquiring(_) => var (s, r) := StepAcquiring(p, store, read); Local(s, disk, r)
    case Releasing(_) => var (s, r) := StepReleasing(p, store, read); Local(s, disk, r)
    case Direct(_) => Local(store, disk, StepDirect(w, p, read, c.good))
    case Disk(_) => var (s, r) := StepDisk(p, store, disk, read, c.good); Local(s, disk, r)
    case Fetching(_) => Local(store, disk, StepFetching(w, p, read, c.good))
    case Taking(_, _, _, _) => var (s, d, r) := StepTaking(p, store, disk, read, c.persisted); Local(s, d, r)
    case Waiting(_) => var (s, r) := StepWaiting(p, store, read); Local(s, disk, r)
    case Fallback(_) => Local(store, disk, StepFallback(w, p, read, c.good))
    case Done(_) => l
  }

  // ----- runs --------------------------------------------------------------

  datatype Action =
    | Turn(r: nat, choice: Choice)
    | LosePersisted(k: Key)
    | CloseBinding(id: nat)

  /** A read cannot move while the block it waits for is still pending. */
  ghost predicate Blocked(w: World, s: State, r: nat)
    requires LegalWorld(w) && r < |w.params| == |s.readers| && s.store.HasStripes()
  {
    var read, p := s.readers[r], w.params[r];
    read.phase.Waiting? && read.phase.todo != [] &&
    s.store.At(p.KeyOf(p.First() + read.phase.todo[0])) == Some(Pending)
  }

  ghost predicate Enabled(w: World, s: State, r: nat)
    requires LegalWorld(w) && r < |w.params| == |s.readers| && s.store.HasStripes()
  {
    !s.readers[r].phase.Done? && !Blocked(w, s, r)
  }

  /** A binding outlives the reads made through it. */
  ghost predicate Permitted(w: World, s: State, a: Action)
    requires LegalWorld(w) && |w.params| == |s.readers| && s.store.HasStripes()
  {
    match a
    case Turn(r, _) => r < |s.readers| && Enabled(w, s, r)
    case LosePersisted(_) => true
    case CloseBinding(id) => forall r :: 0 <= r < |s.readers| && w.params[r].id == id ==> s.readers[r].phase.Done?
  }

  ghost function Step(w: World, s: State, a: Action): State
    requires LegalWorld(w) && |w.params| == |s.readers| && s.store.HasStripes() && Permitted(w, s, a)
  {
    match a
    case Turn(r, c) =>
      var l := LocalStep(w, w.params[r], Local(s.store, s.disk, s.readers[r]), c);
      State(l.store, l.disk, s.readers[r := l.read])
    case LosePersisted(k) => s.(disk := s.disk - {k})
    case CloseBinding(id) => s.(store := BlockCaches.Close(s.store, id))
  }

  function Fresh(p: Params): Read
    requires p.Legal()
  {
    Read(0, Acquiring(0), seq(p.Count(), i => false), [], [], seq(p.length, i => 0), 0, 0, 0, 0, 0, 0)
  }

  /** Every read is about to start, nothing is resident, and the persistent tier holds true blocks. */
  ghost predicate Init(w: World, s: State)
    requires LegalWorld(w)
  {
    && BlockCaches.StoreValid(s.store) && BlockCaches.WithinShares(s.store)
    && (forall k :: s.store.At(k) == None)
    && (forall k :: k in s.disk ==> TrueBlock(w, k, s.disk[k]))
    && |s.readers| == |w.params|
    && (forall r :: 0 <= r < |s.readers| ==> StartsFresh(w.params[r], s.readers[r]))
  }

  /** A read starts with whatever the caller's buffer happens to hold. */
  ghost predicate StartsFresh(p: Params, read: Read)
    requires p.Legal()
  {
    |read.dst| == p.length && read == Fresh(p).(dst := read.dst)
  }

  ghost predicate TrueBlock(w: World, k: Key, bytes: seq<byte>) {
    var at := StartOf(k.block, w.blockSize(k.id));
    && |bytes| <= w.blockSize(k.id) && at + |bytes| <= |w.content(k.id)|
    && bytes == w.content(k.id)[at..at + |bytes|]
  }
}
