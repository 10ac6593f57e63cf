/**
 Where the bytes of a cached read come from. A block that is resident, persisted or being fetched by another read is
 not asked for again: each turn of a read is related to what the shared store holds at that moment, and the turns of a
 run to each other.
 */
module CachedReadService {
  import opened Arithmetic
  import opened Basics
  import opened BlockPlan
  import opened CachedRead
  import opened CachedReadDuties
  import opened CachedReadSystem
  import opened ReadGeometry
  import opened ReadInvariant
  import opened ReadSteps
  import opened StoreSteps
  import opened Stripes
  import BlockCaches

  // ----- one turn ----------------------------------------------------------

  /** The read after one of its blocks came out of the cache: nothing was asked for, nothing counts as missed. */
  ghost predicate ServedByCache(p: Params, read: Read, i: nat, bytes: seq<byte>, read': Read)
    requires p.Legal()
  {
    var block := p.First() + i;
    && i < |read.resolved| && read'.resolved == read.resolved[i := true]
    && read'.asked == read.asked && read'.misses == read.misses && read'.overFetched == read.overFetched
    && read'.cacheServed == read.cacheServed + 1
    && read'.fromCache == read.fromCache + Overlap(p, block) && read'.served == read.served + Overlap(p, block)
    && read'.dst == Copied(p, read.dst, block, bytes)
    && read'.busy == read.busy && read'.pass == read.pass
  }

  /** Nothing but the phase and the lists of the read moves. */
  ghost predicate CountsStay(read: Read, read': Read) {
    && read'.resolved == read.resolved && read'.dst == read.dst && read'.pass == read.pass
    && read'.asked == read.asked && read'.misses == read.misses && read'.overFetched == read.overFetched
    && read'.cacheServed == read.cacheServed && read'.fromCache == read.fromCache && read'.served == read.served
  }

  /** Acquiring a block: what the store holds of it decides. */
  lemma AcquiringTurn(w: World, p: Params, l: Local, c: Choice)
    requires LegalRead(w, p) && BlockCaches.StoreValid(l.store)
    requires l.read.phase.Acquiring? && l.read.phase.i < p.Count() == |l.read.resolved|
    requires !l.read.resolved[l.read.phase.i]
    ensures var i, l' := l.read.phase.i, LocalStep(w, p, l, c);
            var k := p.KeyOf(p.First() + i);
            && l'.store.HasStripes()
            && match l.store.At(k)
               case Some(Published(bytes)) =>
                 && l'.store.At(k) == Some(Published(bytes)) && l'.read.owned == l.read.owned
                 && if |bytes| == p.Extent(p.First() + i).length
                    then ServedByCache(p, l.read, i, bytes, l'.read) && l'.read.phase == Acquiring(i + 1)
                    else CountsStay(l.read, l'.read) && l'.read.busy == l.read.busy
                         && l'.read.phase == Releasing(ReadDirectly(i))
               case Some(Pending) =>
                 && l'.store.At(k) == Some(Pending) && CountsStay(l.read, l'.read) && l'.read.owned == l.read.owned
                 && l'.read.busy == l.read.busy + [i] && l'.read.phase == Acquiring(i + 1)
               case None =>
                 && l'.store.At(k) == Some(Pending) && CountsStay(l.read, l'.read) && l'.read.busy == l.read.busy
                 && l'.read.owned == l.read.owned + [p.First() + i] && l'.read.phase == Acquiring(i + 1)
  {
    hide CoveringBlocks, ExtentOf, Copied, Overlap, BlockCaches.Acquire, BlockCaches.StoreValid, BlockCaches.Store.At,
      BlockCaches.WithinShares;
    BlockCaches.AcquireEffect(l.store, p.KeyOf(p.First() + l.read.phase.i));
  }

  /** An owned block that the persistent tier still has at the right length is published and served from there. */
  lemma DiskTurn(w: World, p: Params, l: Local, c: Choice)
    requires LegalRead(w, p) && BlockCaches.StoreValid(l.store) && l.read.phase.Disk? && l.read.phase.todo != []
    requires p.First() <= l.read.phase.todo[0] <= p.Last() && |l.read.resolved| == p.Count()
    requires PendingAt(l.store, p.KeyOf(l.read.phase.todo[0]))
    ensures var block, l' := l.read.phase.todo[0], LocalStep(w, p, l, c);
            var k := p.KeyOf(block);
            && l'.store.HasStripes() && l'.read.phase == Disk(l.read.phase.todo[1..])
            && if c.good && k in l.disk && |l.disk[k]| == p.Extent(block).length
               then ServedByCache(p, l.read, block - p.First(), l.disk[k], l'.read)
                    && l'.store.At(k) == Some(Published(l.disk[k]))
               else CountsStay(l.read, l'.read) && l'.store == l.store
  {
    assert l.store.HasStripes();
    hide CoveringBlocks, ExtentOf, Copied, Overlap, BlockCaches.Publish, BlockCaches.StoreValid, BlockCaches.Store.At,
      BlockCaches.WithinShares;
    var k := p.KeyOf(l.read.phase.todo[0]);
    if k in l.disk { BlockCaches.PublishEffect(l.store, k, l.disk[k]); }
  }

  /** A block of a transfer is published for everybody, offered to the persistent tier, and counted as a miss. */
  lemma TakingTurn(w: World, p: Params, l: Local, c: Choice)
    requires LegalRead(w, p) && BlockCaches.StoreValid(l.store) && l.read.phase.Taking?
    requires l.read.owned != [] && l.read.owned[0] <= l.read.phase.run.LastBlock()
    requires PendingAt(l.store, p.KeyOf(l.read.owned[0]))
    ensures var block, l' := l.read.owned[0], LocalStep(w, p, l, c);
            var k := p.KeyOf(block);
            && l'.store.HasStripes() && l'.store.At(k).Some? && l'.store.At(k).value.Published?
            && (p.persists && c.persisted ==> k in l'.disk && l'.store.At(k).value.bytes == l'.disk[k])
            && (!p.persists || !c.persisted ==> l'.disk == l.disk)
            && l'.read.misses == l.read.misses + 1 && l'.read.asked == l.read.asked
            && l'.read.served == l.read.served + Overlap(p, block) && l'.read.owned == l.read.owned[1..]
  {
    hide CoveringBlocks, ExtentOf, Copied, Overlap, Slice, BlockCaches.Publish, BlockCaches.StoreValid,
      BlockCaches.Store.At, BlockCaches.WithinShares;
    var Taking(run, transfer, taken, rest) := l.read.phase;
    var block := l.read.owned[0];
    var at := p.Extent(block).offset - run.offset;
    BlockCaches.PublishEffect(l.store, p.KeyOf(block), Slice(transfer, at, at + p.Extent(block).length));
  }

  /** A block somebody else has published meanwhile is served; one nobody has is left for the next pass. */
  lemma WaitingTurn(w: World, p: Params, l: Local, c: Choice)
    requires LegalRead(w, p) && BlockCaches.StoreValid(l.store) && l.read.phase.Waiting? && l.read.phase.todo != []
    requires l.read.phase.todo[0] < p.Count() == |l.read.resolved|
    ensures var i, l' := l.read.phase.todo[0], LocalStep(w, p, l, c);
            var entry := l.store.At(p.KeyOf(p.First() + i));
            && l'.read.phase == Waiting(l.read.phase.todo[1..]) && l'.read.owned == l.read.owned
            && if entry.Some? && entry.value.Published? && |entry.value.bytes| == p.Extent(p.First() + i).length
               then ServedByCache(p, l.read, i, entry.value.bytes, l'.read)
               else CountsStay(l.read, l'.read)
  {
    hide CoveringBlocks, ExtentOf, Copied, Overlap, BlockCaches.Await, BlockCaches.StoreValid, BlockCaches.Store.At,
      BlockCaches.WithinShares;
    BlockCaches.AwaitEffect(l.store, p.KeyOf(p.First() + l.read.phase.todo[0]));
  }

  /**
   Once every block has been looked at: what is owned goes to the persistent tier first, if there is one, and what is
   still owned then is fetched in as few requests as any split that obeys the gap and the ceiling; what others are
   fetching is waited for; and a pass that has neither is the last.
   */
  lemma PassProceeds(w: World, p: Params, l: Local, c: Choice)
    requires LegalRead(w, p) && l.store.HasStripes() && ReadOk(w, p, l.read)
    requires (l.read.phase.Acquiring? && l.read.phase.i >= p.Count()) || l.read.phase == Disk([])
    ensures var l', owned, busy := LocalStep(w, p, l, c), l.read.owned, l.read.busy;
            && l'.store == l.store && l'.disk == l.disk && l'.read == l.read.(phase := l'.read.phase)
            && if l.read.phase.Acquiring? && p.persists && owned != [] then l'.read.phase == Disk(owned)
               else if owned != [] then
                 && l'.read.phase.Fetching? && Serves(p.policy, owned, l'.read.phase.runs)
                 && forall cuts :: IsSplit(p.policy, owned, 0, cuts) ==> |l'.read.phase.runs| <= |cuts|
               else l'.read.phase == if busy != [] then Waiting(busy) else Fallback(0)
  {
    hide CoveringBlocks, Accounts, Plan, Serves, IsSplit, ExtentOf, Copied;
    OwnedInsideAsset(p, l.read);
    PlanIsOptimal(p.policy, l.read.owned);
  }

  /** After the last run the read waits; after the last wait it begins another pass, unless this was the third. */
  lemma PassEnds(w: World, p: Params, l: Local, c: Choice)
    requires LegalRead(w, p) && l.store.HasStripes()
    ensures var l' := LocalStep(w, p, l, c);
            && (l.read.phase == Fetching([]) ==> l' == l.(read := l.read.(phase := Waiting(l.read.busy))))
            && (l.read.phase == Waiting([]) ==>
                  l' == l.(read := if l.read.pass < 2
                                   then l.read.(pass := l.read.pass + 1, busy := [], phase := Acquiring(0))
                                   else l.read.(phase := Fallback(0))))
  {
    hide CoveringBlocks, ExtentOf, BlockCaches.Await, Copied, Overlap, Plan;
  }

  // ----- turns of a run ----------------------------------------------------

  /** State `i` of a run, and a turn of read `r` from it. */
  ghost predicate TurnAt(w: World, states: seq<State>, actions: seq<Action>, i: nat, r: nat)
    requires LegalWorld(w)
  {
    IsRun(w, states, actions) && i < |actions| && r < |w.params| && actions[i].Turn? && actions[i].r == r
  }

  lemma TurnIsLocal(w: World, states: seq<State>, actions: seq<Action>, i: nat, r: nat)
    requires LegalWorld(w) && TurnAt(w, states, actions, i, r)
    ensures |states[i].readers| == |states[i + 1].readers| == |w.params|
    ensures var s, s' := states[i], states[i + 1];
            && BlockCaches.StoreValid(s.store) && s.store.HasStripes() && s'.store.HasStripes()
            && ReadOk(w, w.params[r], s.readers[r])
            && (forall b :: b in s.readers[r].owned ==> PendingAt(s.store, w.params[r].KeyOf(b)))
            && Local(s'.store, s'.disk, s'.readers[r])
               == LocalStep(w, w.params[r], Local(s.store, s.disk, s.readers[r]), actions[i].choice)
  {
    RunKeepsInv(w, states, actions, i);
    RunKeepsInv(w, states, actions, i + 1);
    assert Next(w, states[i], actions[i], states[i + 1]);
    hide IsRun, ReadOk, LocalStep, BlockCaches.StoreValid, BlockCaches.Store.At;
    forall b | b in states[i].readers[r].owned ensures PendingAt(states[i].store, w.params[r].KeyOf(b)) {
      assert Owns(w, states[i], r, w.params[r].KeyOf(b));
    }
  }

  /**
   In every run: a block that is resident, at the length this read expects, when the read comes to it is copied out
   of the store by that turn, without a request.
   */
  lemma ResidentIsServed(w: World, states: seq<State>, actions: seq<Action>, i: nat, r: nat, bytes: seq<byte>)
    requires LegalWorld(w) && TurnAt(w, states, actions, i, r)
    ensures |states[i].readers| == |states[i + 1].readers| == |w.params| && states[i].store.HasStripes()
    ensures var p, read := w.params[r], states[i].readers[r];
            read.phase.Acquiring? && read.phase.i < p.Count() && read.phase.i < |read.resolved|
            && !read.resolved[read.phase.i]
            && states[i].store.At(p.KeyOf(p.First() + read.phase.i)) == Some(Published(bytes))
            && |bytes| == p.Extent(p.First() + read.phase.i).length
            ==> ServedByCache(p, read, read.phase.i, bytes, states[i + 1].readers[r])
  {
    TurnIsLocal(w, states, actions, i, r);
    var p, s, c := w.params[r], states[i], actions[i].choice;
    var read := s.readers[r];
    hide TurnAt, LocalStep, CoveringBlocks, BlockCaches.StoreValid, BlockCaches.Store.At, ExtentOf, ServedByCache;
    if read.phase.Acquiring? && read.phase.i < p.Count() && read.phase.i < |read.resolved| {
      if !read.resolved[read.phase.i] { AcquiringTurn(w, p, Local(s.store, s.disk, read), c); }
    }
  }

  /** In every run: what a read fetches is resident once it has been taken out of the transfer. */
  lemma FetchedIsResident(w: World, states: seq<State>, actions: seq<Action>, i: nat, r: nat)
    requires LegalWorld(w) && TurnAt(w, states, actions, i, r)
    ensures |states[i].readers| == |states[i + 1].readers| == |w.params| && states[i + 1].store.HasStripes()
    ensures var p, read := w.params[r], states[i].readers[r];
            read.phase.Taking? && read.owned != [] && read.owned[0] <= read.phase.run.LastBlock() ==>
              var k := p.KeyOf(read.owned[0]);
              var entry := states[i + 1].store.At(k);
              && entry.Some? && entry.value.Published?
              && (p.persists && actions[i].choice.persisted ==>
                    k in states[i + 1].disk && states[i + 1].disk[k] == entry.value.bytes)
  {
    TurnIsLocal(w, states, actions, i, r);
    var p, s, c := w.params[r], states[i], actions[i].choice;
    var read := s.readers[r];
    hide TurnAt, LocalStep, CoveringBlocks, BlockCaches.StoreValid, BlockCaches.Store.At, ReadOk;
    if read.phase.Taking? && read.owned != [] && read.owned[0] <= read.phase.run.LastBlock() {
      assert read.owned[0] in read.owned;
      TakingTurn(w, p, Local(s.store, s.disk, read), c);
    }
  }

  // ----- a read of resident blocks -----------------------------------------

  /** Every block of the read is resident at the length it expects. */
  ghost predicate AllResident(w: World, s: State, r: nat)
    requires LegalWorld(w)
  {
    && r < |w.params| && s.store.HasStripes()
    && forall i :: 0 <= i < w.params[r].Count() ==> ResidentAt(w.params[r], s.store, i)
  }

  ghost predicate ResidentAt(p: Params, store: BlockCaches.Store, i: nat)
    requires p.Legal() && store.HasStripes()
  {
    var entry := store.At(p.KeyOf(p.First() + i));
    entry.Some? && entry.value.Published? && |entry.value.bytes| == p.Extent(p.First() + i).length
  }

  /** How such a read goes: through its blocks in order, then through the loop that finds nothing left, and home. */
  ghost predicate GoesByCache(p: Params, read: Read)
    requires p.Legal()
  {
    && read.asked == 0 && read.misses == 0 && read.owned == [] && read.busy == [] && |read.resolved| == p.Count()
    && match read.phase
       case Acquiring(i) => i <= p.Count() && read.cacheServed == i
                            && forall j :: 0 <= j < p.Count() ==> (read.resolved[j] <==> j < i)
       case Fallback(_) => read.cacheServed == p.Count() && forall j :: 0 <= j < p.Count() ==> read.resolved[j]
       case Done(ok) => ok && read.cacheServed == p.Count()
       case _ => false
  }

  lemma CacheTurn(w: World, p: Params, l: Local, c: Choice)
    requires LegalRead(w, p) && BlockCaches.StoreValid(l.store) && l.store.HasStripes() && !l.read.phase.Done?
    requires forall i :: 0 <= i < p.Count() ==> ResidentAt(p, l.store, i)
    requires GoesByCache(p, l.read)
    requires l.read.phase.Fallback? && l.read.phase.i >= p.Count() ==> l.read.served == p.length
    ensures GoesByCache(p, LocalStep(w, p, l, c).read)
  {
    hide CoveringBlocks, ExtentOf, BlockCaches.StoreValid, BlockCaches.Store.At, Copied, Overlap, BlockCaches.Acquire;
    if l.read.phase.Acquiring? && l.read.phase.i < p.Count() {
      assert ResidentAt(p, l.store, l.read.phase.i);
      AcquiringTurn(w, p, l, c);
    }
  }

  /** A read that starts when all its blocks are resident, and sees them stay so, asks for nothing at all. */
  lemma {:induction false} WarmReadAsksNothing(w: World, states: seq<State>, actions: seq<Action>, i: nat, m: nat,
                                               r: nat)
    requires LegalWorld(w) && IsRun(w, states, actions) && i <= m < |states| && r < |w.params|
    requires r < |states[i].readers| && StartsFresh(w.params[r], states[i].readers[r])
    requires forall x :: i <= x <= m ==> AllResident(w, states[x], r)
    ensures |states[m].readers| == |w.params|
    ensures var p, read := w.params[r], states[m].readers[r];
            && read.asked == 0 && read.misses == 0 && GoesByCache(p, read)
            && (read.phase.Done? ==> read.phase == Done(true) && read.cacheServed == p.Count())
    decreases m
  {
    hide Next, GoesByCache, CoveringBlocks, AllResident;
    if m == i {
      RunKeepsInv(w, states, actions, m);
      FreshGoesByCache(w.params[r], states[i].readers[r]);
    } else {
      WarmReadAsksNothing(w, states, actions, i, m - 1, r);
      FinalCheckNeverFails(w, states, actions, m - 1, r);
      RunKeepsInv(w, states, actions, m - 1);
      assert Next(w, states[m - 1], actions[m - 1], states[m]);
      WarmStep(w, states[m - 1], actions[m - 1], states[m], r);
    }
    GoesByCacheAsksNothing(w.params[r], states[m].readers[r]);
  }

  lemma WarmStep(w: World, s: State, a: Action, s': State, r: nat)
    requires LegalWorld(w) && Inv(w, s) && Next(w, s, a, s') && r < |w.params| && AllResident(w, s, r)
    requires GoesByCache(w.params[r], s.readers[r])
    requires var p, read := w.params[r], s.readers[r];
             read.phase.Fallback? && read.phase.i >= p.Count() ==> read.served == p.length
    ensures |s'.readers| == |w.params| && GoesByCache(w.params[r], s'.readers[r])
  {
    hide LocalStep, GoesByCache, BlockCaches.StoreValid, BlockCaches.Store.At, CoveringBlocks, ReadOk, SingleOwner,
      BlockCaches.Close, ResidentAt;
    if a.Turn? && a.r == r { CacheTurn(w, w.params[r], Local(s.store, s.disk, s.readers[r]), a.choice); }
  }

  lemma FreshGoesByCache(p: Params, read: Read)
    requires p.Legal() && StartsFresh(p, read)
    ensures GoesByCache(p, read)
  {
    hide CoveringBlocks;
  }

  lemma GoesByCacheAsksNothing(p: Params, read: Read)
    requires p.Legal() && GoesByCache(p, read)
    ensures read.asked == 0 && read.misses == 0
    ensures read.phase.Done? ==> read.phase == Done(true) && read.cacheServed == p.Count()
  {
    hide CoveringBlocks;
  }

  // ----- a block somebody else is fetching ---------------------------------

  /** The read has met block `k` of its range in another's hands, and is still to wait for it in this pass. */
  ghost predicate Expects(read: Read, k: nat) {
    match read.phase
    case Acquiring(i) => k < i && k in read.busy
    case Releasing(ReadDirectly(i)) => k < i && k in read.busy
    case Direct(i) => k < i && k in read.busy
    case Disk(_) => k in read.busy
    case Fetching(_) => k in read.busy
    case Taking(_, _, _, _) => k in read.busy
    case Waiting(todo) => k in todo
    case _ => false
  }

  /** While it is to wait for it, the read neither has the block nor fetches it. */
  lemma ExpectedIsUntouched(w: World, p: Params, read: Read, k: nat)
    requires LegalRead(w, p) && ReadOk(w, p, read) && Expects(read, k)
    ensures k < |read.resolved| && !read.resolved[k] && p.First() + k !in read.owned
  {
    hide Accounts, PhaseOk, CoveringBlocks;
    assert k in Queue(read);
  }

  lemma AcquiringExpects(p: Params, store: BlockCaches.Store, read: Read, k: nat)
    requires p.Legal() && store.HasStripes() && read.phase.Acquiring? && Expects(read, k)
    ensures var read' := StepAcquiring(p, store, read).1; Expects(read', k) && read'.pass == read.pass
  {
    hide CoveringBlocks, ExtentOf, BlockCaches.Acquire, Copied, Overlap, Plan, Resolve;
  }

  lemma SharedPhasesExpect(w: World, p: Params, l: Local, c: Choice, k: nat)
    requires LegalRead(w, p) && l.store.HasStripes() && Expects(l.read, k)
    requires l.read.phase.Releasing? || l.read.phase.Disk? || l.read.phase.Taking?
    ensures var read' := LocalStep(w, p, l, c).read; Expects(read', k) && read'.pass == l.read.pass
  {
    hide CoveringBlocks, ExtentOf, BlockCaches.Abandon, BlockCaches.Publish, Copied, Overlap, Plan, Slice, Resolve;
  }

  lemma WaitingExpects(p: Params, store: BlockCaches.Store, read: Read, k: nat)
    requires p.Legal() && store.HasStripes() && read.phase.Waiting? && Expects(read, k) && !Heads(read, k)
    ensures var read' := StepWaiting(p, store, read).1; Expects(read', k) && read'.pass == read.pass
  {
    hide CoveringBlocks, ExtentOf, BlockCaches.Await, Copied, Overlap, Resolve;
    assert read.phase.todo == [read.phase.todo[0]] + read.phase.todo[1..];
  }

  lemma RequestsExpect(w: World, p: Params, read: Read, good: bool, k: nat)
    requires p.Legal() && Expects(read, k)
    ensures read.phase.Fetching? ==>
              var read' := StepFetching(w, p, read, good);
              (Expects(read', k) && read'.pass == read.pass) || Doomed(read')
    ensures read.phase.Direct? ==>
              var read' := StepDirect(w, p, read, good);
              (Expects(read', k) && read'.pass == read.pass) || Doomed(read')
  {
    hide CoveringBlocks, Slice, Overlap, Resolve;
  }

  lemma ExpectsStep(w: World, p: Params, l: Local, c: Choice, k: nat)
    requires LegalRead(w, p) && l.store.HasStripes() && Expects(l.read, k)
    ensures var read' := LocalStep(w, p, l, c).read;
            (Expects(read', k) && read'.pass == l.read.pass) || Doomed(read') || Heads(l.read, k)
  {
    if l.read.phase.Releasing? || l.read.phase.Disk? || l.read.phase.Taking? { SharedPhasesExpect(w, p, l, c, k); }
    hide StepReleasing, StepDisk, StepTaking, StepAcquiring, StepDirect, StepFetching, StepWaiting, StepFallback, Heads;
    RequestsExpect(w, p, l.read, c.good, k);
    if l.read.phase.Acquiring? { AcquiringExpects(p, l.store, l.read, k); }
    if l.read.phase.Waiting? && !Heads(l.read, k) { WaitingExpects(p, l.store, l.read, k); }
  }

  /** One step of the system, as it bears on an expected block. */
  lemma ExpectsNext(w: World, s: State, a: Action, s': State, r: nat, k: nat)
    requires LegalWorld(w) && Next(w, s, a, s') && r < |w.params| && Expects(s.readers[r], k)
    ensures |s'.readers| == |w.params|
    ensures || (Expects(s'.readers[r], k) && s'.readers[r].pass == s.readers[r].pass)
            || Doomed(s'.readers[r])
            || (&& a.Turn? && a.r == r && Heads(s.readers[r], k)
                && !PendingAt(s.store, w.params[r].KeyOf(w.params[r].First() + k)))
  {
    hide LocalStep, Expects, Doomed, BlockCaches.Close, BlockCaches.Store.At, CoveringBlocks;
    if a.Turn? && a.r == r { ExpectsStep(w, w.params[r], Local(s.store, s.disk, s.readers[r]), a.choice, k); }
  }

  /** The read waits, and for this block next. */
  ghost predicate Heads(read: Read, k: nat) {
    read.phase.Waiting? && read.phase.todo != [] && read.phase.todo[0] == k
  }

  /** The pass in which the read met the block is over: it has begun another, or serves itself, or is done. */
  ghost predicate PassIsOver(before: Read, read: Read) {
    read.pass != before.pass || read.phase.Fallback? || read.phase == Done(true)
  }

  ghost predicate Untouched(p: Params, s: State, r: nat, k: nat)
    requires p.Legal()
  {
    r < |s.readers| && k < |s.readers[r].resolved| && !s.readers[r].resolved[k] && p.First() + k !in s.readers[r].owned
  }

  lemma StaysUntouched(w: World, s: State, r: nat, k: nat)
    requires LegalWorld(w) && Inv(w, s) && r < |w.params| && Expects(s.readers[r], k)
    ensures Untouched(w.params[r], s, r, k)
  {
    hide Expects, ReadOk, CoveringBlocks;
    ExpectedIsUntouched(w, w.params[r], s.readers[r], k);
  }

  lemma NotOverYet(before: Read, read: Read, k: nat)
    requires PassIsOver(before, read)
    ensures !(Expects(read, k) && read.pass == before.pass)
  {
  }

  /** The read is about to acquire block `k` of its range, and another read is fetching it. */
  ghost predicate Meets(w: World, s: State, r: nat, k: nat)
    requires LegalWorld(w)
  {
    && r < |w.params| == |s.readers| && s.store.HasStripes()
    && var p, read := w.params[r], s.readers[r];
       && read.phase == Acquiring(k) && k < p.Count() == |read.resolved| && !read.resolved[k]
       && PendingAt(s.store, p.KeyOf(p.First() + k))
  }

  lemma MeetsBusy(w: World, states: seq<State>, actions: seq<Action>, x: nat, r: nat, k: nat)
    requires LegalWorld(w) && TurnAt(w, states, actions, x, r) && Meets(w, states[x], r, k)
    ensures r < |states[x + 1].readers|
    ensures Expects(states[x + 1].readers[r], k) && states[x + 1].readers[r].pass == states[x].readers[r].pass
  {
    TurnIsLocal(w, states, actions, x, r);
    var p, s, c := w.params[r], states[x], actions[x].choice;
    hide TurnAt, LocalStep, CoveringBlocks, BlockCaches.StoreValid, BlockCaches.Store.At, ReadOk, ServedByCache;
    AcquiringTurn(w, p, Local(s.store, s.disk, s.readers[r]), c);
  }

  /** At state `j` the read takes its turn at the block, which is no longer pending. */
  ghost predicate Awaits(w: World, states: seq<State>, actions: seq<Action>, j: nat, r: nat, k: nat)
    requires LegalWorld(w)
  {
    && TurnAt(w, states, actions, j, r) && r < |states[j].readers| && Heads(states[j].readers[r], k)
    && states[j].store.HasStripes() && !PendingAt(states[j].store, w.params[r].KeyOf(w.params[r].First() + k))
  }

  lemma {:induction false} AwaitedBefore(w: World, states: seq<State>, actions: seq<Action>, i: nat, m: nat, r: nat,
                                         k: nat, before: Read) returns (j: nat)
    requires LegalWorld(w) && IsRun(w, states, actions) && i <= m < |states| && r < |w.params|
    requires r < |states[i].readers| && r < |states[m].readers|
    requires Expects(states[i].readers[r], k) && states[i].readers[r].pass == before.pass
    requires PassIsOver(before, states[m].readers[r]) && !Doomed(states[m].readers[r])
    ensures i <= j < m && Awaits(w, states, actions, j, r, k)
    ensures forall y :: i <= y <= j ==> Untouched(w.params[r], states[y], r, k)
    decreases m - i
  {
    hide Expects, Doomed, Next, CoveringBlocks, BlockCaches.Store.At, Heads, Untouched, PassIsOver, Inv, Init;
    NotOverYet(before, states[m].readers[r], k);
    RunKeepsInv(w, states, actions, i);
    StaysUntouched(w, states[i], r, k);
    assert i < m;
    assert Next(w, states[i], actions[i], states[i + 1]);
    ExpectsNext(w, states[i], actions[i], states[i + 1], r, k);
    if Doomed(states[i + 1].readers[r]) { DoomedStays(w, states, actions, i + 1, m, r); }
    j := i;
    if Expects(states[i + 1].readers[r], k) && states[i + 1].readers[r].pass == before.pass {
      j := AwaitedBefore(w, states, actions, i + 1, m, r, k, before);
    }
  }

  /**
   Single flight as a waiter sees it. A read that meets a block another read is fetching does not fetch it: before
   the pass ends it waits until the block is no longer pending, and up to that moment it neither owns nor has it.
   */
  lemma BusyIsAwaited(w: World, states: seq<State>, actions: seq<Action>, x: nat, m: nat, r: nat, k: nat)
    returns (j: nat)
    requires LegalWorld(w) && TurnAt(w, states, actions, x, r) && x < m < |states| && Meets(w, states[x], r, k)
    requires r < |states[m].readers| && PassIsOver(states[x].readers[r], states[m].readers[r])
    requires !Doomed(states[m].readers[r])
    ensures x < j < m && Awaits(w, states, actions, j, r, k)
    ensures forall y :: x < y <= j ==> Untouched(w.params[r], states[y], r, k)
  {
    MeetsBusy(w, states, actions, x, r, k);
    j := AwaitedBefore(w, states, actions, x + 1, m, r, k, states[x].readers[r]);
  }

  /** A read that is to fail does. */
  lemma DoomedStays(w: World, states: seq<State>, actions: seq<Action>, i: nat, m: nat, r: nat)
    requires LegalWorld(w) && IsRun(w, states, actions) && i <= m < |states| && r < |w.params|
    requires r < |states[i].readers| && r < |states[m].readers| && Doomed(states[i].readers[r])
    ensures Doomed(states[m].readers[r])
  {
    assert |states| == |actions| + 1;
    hide OwnRequestFails, Doomed, IsRun;
    FailsIffOwnRequestFailed(w, states, actions, i, r);
    FailsIffOwnRequestFailed(w, states, actions, m, r);
    var j :| 0 <= j < i && OwnRequestFails(w, states[j], actions[j], r);
    assert j < m;
  }
}
