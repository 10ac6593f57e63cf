/**
 Who is to blame for a read that fails, and what becomes of the blocks a read takes on itself: over whole runs, with
 any number of other reads failing, publishing and abandoning in between.
 */
module CachedReadDuties {
  import opened Basics
  import opened BlockPlan
  import opened CachedRead
  import opened CachedReadSystem
  import opened ReadInvariant
  import opened ReadSteps
  import opened Stripes
  import BlockCaches

  // ----- failing -----------------------------------------------------------

  /** The read's next turn is a request of the reader underneath. */
  ghost predicate Asks(p: Params, read: Read)
    requires p.Legal()
  {
    || (read.phase.Fetching? && read.phase.runs != [])
    || read.phase.Direct?
    || (read.phase.Fallback? && read.phase.i < p.Count()
        && !(read.phase.i < |read.resolved| && read.resolved[read.phase.i]))
  }

  ghost predicate Doomed(read: Read) { read.phase == Releasing(Fail) || read.phase == Done(false) }

  /** A request this read made itself failed. */
  ghost predicate OwnRequestFails(w: World, s: State, a: Action, r: nat)
    requires LegalWorld(w) && |w.params| == |s.readers| && r < |w.params|
  {
    a.Turn? && a.r == r && !a.choice.good && Asks(w.params[r], s.readers[r])
  }

  lemma DoomedByOwnTurn(w: World, p: Params, l: Local, c: Choice)
    requires LegalRead(w, p) && l.store.HasStripes() && !l.read.phase.Done?
    requires l.read.phase.Fallback? && l.read.phase.i >= p.Count() ==> l.read.served == p.length
    ensures Doomed(LocalStep(w, p, l, c).read) <==> Doomed(l.read) || (!c.good && Asks(p, l.read))
  {
    hide CoveringBlocks, BlockCaches.Acquire, BlockCaches.Abandon, BlockCaches.Publish, BlockCaches.Await, Copied,
      Overlap, AfterDisk, Plan;
    AfterDiskIsNotDoomed(p, l.read);
  }

  lemma AfterDiskIsNotDoomed(p: Params, read: Read)
    ensures !AfterDisk(p, read).Releasing? && !AfterDisk(p, read).Done?
  {
    hide Plan;
  }

  lemma StepDooms(w: World, s: State, a: Action, s': State, r: nat)
    requires LegalWorld(w) && Next(w, s, a, s') && r < |w.params|
    requires s.readers[r].phase.Fallback? && s.readers[r].phase.i >= w.params[r].Count() ==>
               s.readers[r].served == w.params[r].length
    ensures |s'.readers| == |w.params|
    ensures Doomed(s'.readers[r]) <==> Doomed(s.readers[r]) || OwnRequestFails(w, s, a, r)
  {
    hide LocalStep, Asks, BlockCaches.Close;
    if a.Turn? && a.r == r {
      DoomedByOwnTurn(w, w.params[r], Local(s.store, s.disk, s.readers[r]), a.choice);
    }
  }

  /** A failed owner is not its waiters' failure: a read fails exactly when a request of its own has. */
  lemma {:induction false} FailsIffOwnRequestFailed(w: World, states: seq<State>, actions: seq<Action>, i: nat, r: nat)
    requires LegalWorld(w) && IsRun(w, states, actions) && i < |states| && r < |w.params|
    ensures forall j :: 0 <= j <= i ==> |states[j].readers| == |w.params|
    ensures Doomed(states[i].readers[r]) <==> exists j :: 0 <= j < i && OwnRequestFails(w, states[j], actions[j], r)
  {
    hide Next, Doomed, OwnRequestFails;
    if i == 0 {
      FreshIsNotDoomed(w.params[r], states[0].readers[r]);
    } else {
      FailsIffOwnRequestFailed(w, states, actions, i - 1, r);
      FinalCheckNeverFails(w, states, actions, i - 1, r);
      assert Next(w, states[i - 1], actions[i - 1], states[i]);
      StepDooms(w, states[i - 1], actions[i - 1], states[i], r);
    }
  }

  lemma FreshIsNotDoomed(p: Params, read: Read)
    requires p.Legal() && StartsFresh(p, read)
    ensures !Doomed(read)
  {
    hide CoveringBlocks;
  }

  // ----- owning ------------------------------------------------------------

  /** This pass has gone by the block: it will not be acquired before the next one. */
  ghost predicate Past(p: Params, read: Read, b: nat)
    requires p.Legal()
  {
    match read.phase
    case Acquiring(i) => b < p.First() + i
    case Releasing(ReadDirectly(i)) => b < p.First() + i
    case Direct(i) => b < p.First() + i
    case _ => true
  }

  lemma AcquiredIsPast(w: World, p: Params, l: Local, c: Choice, b: nat)
    requires LegalRead(w, p) && l.store.HasStripes()
    requires b !in l.read.owned && b in LocalStep(w, p, l, c).read.owned
    ensures !Past(p, l.read, b) && Past(p, LocalStep(w, p, l, c).read, b)
  {
    hide CoveringBlocks, BlockCaches.Acquire, BlockCaches.Abandon, BlockCaches.Publish, BlockCaches.Await, Copied,
      Overlap, AfterDisk, Plan;
    MinusIsPart(l.read.owned, if l.read.phase.Disk? && l.read.phase.todo != [] then l.read.phase.todo[0] else 0, b);
  }

  lemma {:induction false} MinusIsPart(blocks: seq<nat>, b: nat, x: nat)
    ensures x in Minus(blocks, b) ==> x in blocks
    ensures x in blocks && x != b ==> x in Minus(blocks, b)
  {
    if blocks != [] && blocks[0] != b {
      MinusIsPart(blocks[1..], b, x);
      assert blocks == [blocks[0]] + blocks[1..];
    }
  }

  /** Until the read waits again, a block gone by stays so. */
  lemma PastStays(w: World, p: Params, l: Local, c: Choice, b: nat)
    requires LegalRead(w, p) && l.store.HasStripes() && !l.read.phase.Waiting? && Past(p, l.read, b)
    ensures Past(p, LocalStep(w, p, l, c).read, b)
  {
    hide CoveringBlocks, BlockCaches.Acquire, BlockCaches.Abandon, BlockCaches.Publish, BlockCaches.Await, Copied,
      Overlap, AfterDisk, Plan;
    AfterDiskIsNotAcquiring(p, l.read);
  }

  lemma AfterDiskIsNotAcquiring(p: Params, read: Read)
    ensures var next := AfterDisk(p, read); !next.Acquiring? && !next.Releasing? && !next.Direct?
  {
    hide Plan;
  }

  /** The store published or abandoned exactly this block. */
  ghost predicate Ends(store: BlockCaches.Store, store': BlockCaches.Store, k: Key)
    requires store.HasStripes()
  {
    || store' == BlockCaches.Abandon(store, k)
    || exists bytes :: store' == BlockCaches.Publish(store, k, bytes)
  }

  lemma ReleasedIsEnded(p: Params, store: BlockCaches.Store, read: Read, b: nat)
    requires store.HasStripes() && read.phase.Releasing?
    requires b in read.owned && b !in StepReleasing(p, store, read).1.owned
    ensures Ends(store, StepReleasing(p, store, read).0, p.KeyOf(b))
  {
    hide BlockCaches.Abandon;
    assert read.owned == [read.owned[0]] + read.owned[1..];
  }

  lemma LoadedIsEnded(p: Params, store: BlockCaches.Store, disk: map<Key, seq<byte>>, read: Read, good: bool, b: nat)
    requires p.Legal() && store.HasStripes() && read.phase.Disk?
    requires b in read.owned && b !in StepDisk(p, store, disk, read, good).1.owned
    ensures Ends(store, StepDisk(p, store, disk, read, good).0, p.KeyOf(b))
  {
    hide CoveringBlocks, ExtentOf, BlockCaches.Publish, Copied, Overlap, AfterDisk, Resolve;
    MinusIsPart(read.owned, read.phase.todo[0], b);
  }

  lemma TakenIsEnded(p: Params, store: BlockCaches.Store, disk: map<Key, seq<byte>>, read: Read, persisted: bool,
                     b: nat)
    requires p.Legal() && store.HasStripes() && read.phase.Taking?
    requires b in read.owned && b !in StepTaking(p, store, disk, read, persisted).2.owned
    ensures Ends(store, StepTaking(p, store, disk, read, persisted).0, p.KeyOf(b))
  {
    hide CoveringBlocks, ExtentOf, BlockCaches.Publish, Copied, Overlap, Slice, Resolve;
    assert read.owned == [read.owned[0]] + read.owned[1..];
  }

  lemma OthersShedNothing(w: World, p: Params, l: Local, c: Choice, b: nat)
    requires LegalRead(w, p) && l.store.HasStripes() && b in l.read.owned
    requires !l.read.phase.Releasing? && !l.read.phase.Disk? && !l.read.phase.Taking?
    ensures b in LocalStep(w, p, l, c).read.owned
  {
    hide CoveringBlocks, BlockCaches.Acquire, BlockCaches.Await, Copied, Overlap, AfterDisk, Plan;
  }

  lemma ShedIsEnded(w: World, p: Params, l: Local, c: Choice, b: nat)
    requires LegalRead(w, p) && l.store.HasStripes()
    requires b in l.read.owned && b !in LocalStep(w, p, l, c).read.owned
    ensures Ends(l.store, LocalStep(w, p, l, c).store, p.KeyOf(b))
  {
    hide StepReleasing, StepDisk, StepTaking, StepAcquiring, StepDirect, StepFetching, StepWaiting, StepFallback, Ends;
    match l.read.phase
    case Releasing(_) => ReleasedIsEnded(p, l.store, l.read, b);
    case Disk(_) => LoadedIsEnded(p, l.store, l.disk, l.read, c.good, b);
    case Taking(_, _, _, _) => TakenIsEnded(p, l.store, l.disk, l.read, c.persisted, b);
    case _ => OthersShedNothing(w, p, l, c, b);
  }

  ghost predicate Holds(w: World, s: State, r: nat, k: Key) { |w.params| == |s.readers| && Owns(w, s, r, k) }

  ghost predicate GoneBy(w: World, s: State, r: nat, k: Key)
    requires LegalWorld(w)
  {
    r < |w.params| == |s.readers| && Past(w.params[r], s.readers[r], k.block)
  }

  ghost predicate Waits(s: State, r: nat) { r < |s.readers| && s.readers[r].phase.Waiting? }

  ghost predicate Returned(s: State, r: nat) { r < |s.readers| && s.readers[r].phase.Done? }

  /** One step of the system, as it bears on one read and one block. */
  lemma StepBears(w: World, s: State, a: Action, s': State, r: nat, k: Key)
    requires LegalWorld(w) && Next(w, s, a, s') && r < |w.params|
    ensures !Holds(w, s, r, k) && Holds(w, s', r, k) ==> !GoneBy(w, s, r, k) && GoneBy(w, s', r, k)
    ensures Holds(w, s, r, k) && !Holds(w, s', r, k) ==> a.Turn? && a.r == r && Ends(s.store, s'.store, k)
    ensures GoneBy(w, s, r, k) && !Waits(s, r) ==> GoneBy(w, s', r, k)
  {
    hide LocalStep, Ends, Past, BlockCaches.Close;
    if a.Turn? && a.r == r {
      var p, l, b := w.params[r], Local(s.store, s.disk, s.readers[r]), k.block;
      var l' := LocalStep(w, p, l, a.choice);
      if b !in l.read.owned && b in l'.read.owned { AcquiredIsPast(w, p, l, a.choice, b); }
      if b in l.read.owned && b !in l'.read.owned && k.id == p.id {
        ShedIsEnded(w, p, l, a.choice, b);
        assert k == p.KeyOf(b);
      }
      if Past(p, l.read, b) && !l.read.phase.Waiting? { PastStays(w, p, l, a.choice, b); }
    }
  }

  /**
   What a read acquires at step `i` it holds until step `j`, and there publishes or abandons it; it does so before it
   waits or returns at `m`, and never twice.
   */
  lemma OwnedEndsOnce(w: World, states: seq<State>, actions: seq<Action>, i: nat, m: nat, r: nat, k: Key)
    returns (j: nat)
    requires LegalWorld(w) && IsRun(w, states, actions) && i + 1 < |states| && m < |states| && i < m && r < |w.params|
    requires !Holds(w, states[i], r, k) && Holds(w, states[i + 1], r, k)
    requires Waits(states[m], r) || Returned(states[m], r)
    requires forall x :: i < x < m ==> !Waits(states[x], r)
    ensures i < j < m && forall x :: i < x <= j ==> Holds(w, states[x], r, k)
    ensures forall x :: j < x <= m ==> !Holds(w, states[x], r, k)
    ensures states[j].store.HasStripes() && Ends(states[j].store, states[j + 1].store, k)
    ensures actions[j].Turn? && actions[j].r == r
  {
    SingleFlight(w, states, actions, m);
    assert !Holds(w, states[m], r, k);
    hide Holds, GoneBy, Ends, Inv;
    assert Next(w, states[i], actions[i], states[i + 1]);
    StepBears(w, states[i], actions[i], states[i + 1], r, k);
    j := i + 1;
    while Holds(w, states[j + 1], r, k)
      invariant i < j < m && GoneBy(w, states[j], r, k)
      invariant forall x :: i < x <= j ==> Holds(w, states[x], r, k)
      decreases m - j
    {
      assert Next(w, states[j], actions[j], states[j + 1]);
      StepBears(w, states[j], actions[j], states[j + 1], r, k);
      j := j + 1;
    }
    assert Next(w, states[j], actions[j], states[j + 1]);
    StepBears(w, states[j], actions[j], states[j + 1], r, k);
    StaysLost(w, states, actions, j + 1, m, r, k);
  }

  lemma {:induction false} StaysLost(w: World, states: seq<State>, actions: seq<Action>, from: nat, m: nat, r: nat,
                                     k: Key)
    requires LegalWorld(w) && IsRun(w, states, actions) && from <= m < |states| && r < |w.params|
    requires !Holds(w, states[from], r, k) && GoneBy(w, states[from], r, k)
    requires forall x :: from <= x < m ==> !Waits(states[x], r)
    ensures forall x :: from <= x <= m ==> !Holds(w, states[x], r, k)
    decreases m - from
  {
    hide Holds, GoneBy;
    if from < m {
      assert Next(w, states[from], actions[from], states[from + 1]);
      StepBears(w, states[from], actions[from], states[from + 1], r, k);
      StaysLost(w, states, actions, from + 1, m, r, k);
    }
  }
}
