/**
 Every run ends. Each turn of a read lowers a rank of that read alone, so the number of turns any run
 can take is bounded by the ranks the reads start with; and a run that cannot be continued by a turn
 has every read returned.
 */
module CachedReadProgress {
  import opened Basics
  import opened Arithmetic
  import opened Stripes
  import opened BlockPlan
  import opened CachedRead
  import opened ReadInvariant
  import opened ReadSteps
  import opened StoreSteps
  import opened CachedReadSystem
  import BlockCaches

  function PassRank(n: nat, pass: nat): nat {
    if pass == 0 then 22 * n + 60 else if pass == 1 then 11 * n + 30 else 0
  }

  /** An upper bound on the turns a read has left. */
  function Rank(n: nat, read: Read): int {
    var o, b := |read.owned|, |read.busy|;
    match read.phase
    case Acquiring(i) => PassRank(n, read.pass) + 10 * (n - i) + 6 * o + 2 * b + n + 20
    case Releasing(ReadDirectly(i)) => PassRank(n, read.pass) + 10 * (n - i) - 1 + 6 * o + 2 * b + n + 20
    case Direct(i) => PassRank(n, read.pass) + 10 * (n - i) - 2 + 6 * o + 2 * b + n + 20
    case Disk(todo) => PassRank(n, read.pass) + |todo| + 5 * o + 2 * b + n + 19
    case Fetching(runs) => PassRank(n, read.pass) + 2 * |runs| + 2 * o + 2 * b + n + 10
    case Taking(_, _, _, rest) => PassRank(n, read.pass) + 2 * |rest| + 1 + 2 * o + 2 * b + n + 10
    case Waiting(todo) => PassRank(n, read.pass) + |todo| + n + 5
    case Releasing(Fail) => o + 1
    case Fallback(i) => n - i + 2
    case Done(_) => 0
  }

  lemma {:induction false} RunsNoMoreThanBlocks(p: Policy, blocks: seq<nat>, runs: seq<FetchRun>)
    requires Serves(p, blocks, runs)
    ensures |runs| <= |blocks|
    decreases |runs|
  {
    if runs != [] {
      var n: nat :| ServesPrefix(p, blocks, runs[0], n) && Serves(p, blocks[n..], runs[1..]);
      RunsNoMoreThanBlocks(p, blocks[n..], runs[1..]);
    }
  }

  lemma RankIsNatural(w: World, p: Params, read: Read)
    requires LegalRead(w, p) && ReadOk(w, p, read)
    ensures Rank(p.Count(), read) >= 0
  {
    hide CoveringBlocks, Core;
  }

  lemma {:induction false} MinusIsShorter(blocks: seq<nat>, b: nat)
    ensures |Minus(blocks, b)| <= |blocks|
  {
    if blocks != [] { MinusIsShorter(blocks[1..], b); }
  }

  lemma AfterDiskRank(w: World, p: Params, read: Read)
    requires LegalRead(w, p) && Holdings(p, read) && read.pass < MAX_PASSES
    ensures Rank(p.Count(), read.(phase := AfterDisk(p, read)))
         <= PassRank(p.Count(), read.pass) + 4 * |read.owned| + 2 * |read.busy| + p.Count() + 10
  {
    hide CoveringBlocks, StartOf, ExtentOf, Serves, Plan;
    OwnedInsideAsset(p, read);
    if Ascending(read.owned) {
      PlanIsOptimal(p.policy, read.owned);
      RunsNoMoreThanBlocks(p.policy, read.owned, Plan(p.policy, read.owned));
    }
  }

  lemma AcquiringLowersRank(w: World, p: Params, store: BlockCaches.Store, read: Read)
    requires LegalRead(w, p) && ReadOk(w, p, read) && store.HasStripes() && read.phase.Acquiring?
    ensures Rank(p.Count(), StepAcquiring(p, store, read).1) < Rank(p.Count(), read)
  {
    hide CoveringBlocks, ExtentOf, Core, BlockCaches.Acquire, AfterDisk, Copied, Overlap, Resolve, PassRank, Unresolved;
    AfterDiskRank(w, p, read);
  }

  lemma DiskLowersRank(w: World, p: Params, store: BlockCaches.Store, disk: map<Key, seq<byte>>, read: Read, good: bool)
    requires LegalRead(w, p) && ReadOk(w, p, read) && store.HasStripes() && read.phase.Disk?
    ensures Rank(p.Count(), StepDisk(p, store, disk, read, good).1) < Rank(p.Count(), read)
  {
    hide CoveringBlocks, ExtentOf, Core, BlockCaches.Publish, AfterDisk, Copied, Overlap, Resolve, PassRank, Unresolved;
    AfterDiskRank(w, p, read);
    if read.phase.todo != [] { MinusIsShorter(read.owned, read.phase.todo[0]); }
  }

  lemma TakingLowersRank(w: World, p: Params, store: BlockCaches.Store, disk: map<Key, seq<byte>>, read: Read,
                         persisted: bool)
    requires p.Legal() && store.HasStripes() && read.phase.Taking?
    ensures Rank(p.Count(), StepTaking(p, store, disk, read, persisted).2) < Rank(p.Count(), read)
  {
    hide CoveringBlocks, ExtentOf, BlockCaches.Publish, Copied, Overlap, Resolve, PassRank, Slice;
  }

  lemma WaitingLowersRank(w: World, p: Params, store: BlockCaches.Store, read: Read)
    requires LegalRead(w, p) && ReadOk(w, p, read) && store.HasStripes() && read.phase.Waiting?
    ensures Rank(p.Count(), StepWaiting(p, store, read).1) < Rank(p.Count(), read)
  {
    hide CoveringBlocks, ExtentOf, Core, BlockCaches.Await, Copied, Overlap, Resolve, Unresolved;
  }

  lemma TurnLowersRank(w: World, p: Params, l: Local, c: Choice)
    requires LegalRead(w, p) && ReadOk(w, p, l.read) && l.store.HasStripes() && !l.read.phase.Done?
    ensures Rank(p.Count(), LocalStep(w, p, l, c).read) < Rank(p.Count(), l.read)
  {
    hide CoveringBlocks, ExtentOf, Core, BlockCaches.Abandon, Overlap, Slice, Overlaid, Resolve, Serves,
      StepAcquiring, StepDisk, StepTaking, StepWaiting;
    match l.read.phase
    case Acquiring(_) => AcquiringLowersRank(w, p, l.store, l.read);
    case Disk(_) => DiskLowersRank(w, p, l.store, l.disk, l.read, c.good);
    case Taking(_, _, _, _) => TakingLowersRank(w, p, l.store, l.disk, l.read, c.persisted);
    case Waiting(_) => WaitingLowersRank(w, p, l.store, l.read);
    case _ =>
  }

  // ----- all reads together ------------------------------------------------

  ghost function TotalRank(w: World, s: State, n: nat): int
    requires LegalWorld(w) && n <= |w.params| == |s.readers|
  {
    if n == 0 then 0 else TotalRank(w, s, n - 1) + Rank(w.params[n - 1].Count(), s.readers[n - 1])
  }

  ghost function StartRank(w: World, n: nat): int
    requires LegalWorld(w) && n <= |w.params|
  {
    if n == 0 then 0 else StartRank(w, n - 1) + 33 * w.params[n - 1].Count() + 80
  }

  function Turns(actions: seq<Action>): nat {
    if actions == [] then 0 else Turns(actions[..|actions| - 1]) + (if actions[|actions| - 1].Turn? then 1 else 0)
  }

  lemma {:induction false} TotalIsNatural(w: World, s: State, n: nat)
    requires LegalWorld(w) && Inv(w, s) && n <= |w.params|
    ensures TotalRank(w, s, n) >= 0
  {
    hide Rank, Accounts, Holdings, PhaseOk, CoveringBlocks, SingleOwner, StoreTrue, BlockCaches.StoreValid;
    if n > 0 {
      TotalIsNatural(w, s, n - 1);
      assert ReadOk(w, w.params[n - 1], s.readers[n - 1]);
      RankIsNatural(w, w.params[n - 1], s.readers[n - 1]);
    }
  }

  lemma {:induction false} TotalAfterTurn(w: World, s: State, s': State, r: nat, n: nat)
    requires LegalWorld(w) && n <= |w.params| == |s.readers| == |s'.readers| && r < |s.readers|
    requires s'.readers == s.readers[r := s'.readers[r]]
    requires Rank(w.params[r].Count(), s'.readers[r]) < Rank(w.params[r].Count(), s.readers[r])
    ensures TotalRank(w, s', n) <= TotalRank(w, s, n) - (if r < n then 1 else 0)
  {
    hide Rank;
    if n > 0 { TotalAfterTurn(w, s, s', r, n - 1); }
  }

  lemma {:induction false} TotalUnchanged(w: World, s: State, s': State, n: nat)
    requires LegalWorld(w) && n <= |w.params| == |s.readers| && s'.readers == s.readers
    ensures TotalRank(w, s', n) == TotalRank(w, s, n)
  {
    if n > 0 { TotalUnchanged(w, s, s', n - 1); }
  }

  lemma {:induction false} StartingTotal(w: World, s: State, n: nat)
    requires LegalWorld(w) && Init(w, s) && n <= |w.params|
    ensures TotalRank(w, s, n) == StartRank(w, n)
  {
    if n > 0 {
      StartingTotal(w, s, n - 1);
      assert StartsFresh(w.params[n - 1], s.readers[n - 1]);
    }
  }

  lemma {:induction false} TurnsAreBounded(w: World, states: seq<State>, actions: seq<Action>, i: nat)
    requires LegalWorld(w) && IsRun(w, states, actions) && i < |states|
    ensures |states[i].readers| == |w.params|
    ensures Turns(actions[..i]) + TotalRank(w, states[i], |w.params|) <= StartRank(w, |w.params|)
  {
    hide Rank, Inv, Init, LocalStep;
    var n := |w.params|;
    if i == 0 {
      assert |states[0].readers| == n by { RunKeepsInv(w, states, actions, 0); }
      StartingTotal(w, states[0], n);
    } else {
      TurnsAreBounded(w, states, actions, i - 1);
      var s, a, s' := states[i - 1], actions[i - 1], states[i];
      assert Next(w, s, a, s');
      assert actions[..i][..i - 1] == actions[..i - 1];
      match a
      case Turn(r, c) =>
        RunKeepsInv(w, states, actions, i - 1);
        TurnOfRun(w, s, r, c);
        TotalAfterTurn(w, s, s', r, n);
      case LosePersisted(_) => TotalUnchanged(w, s, s', n);
      case CloseBinding(_) => TotalUnchanged(w, s, s', n);
    }
  }

  lemma TurnOfRun(w: World, s: State, r: nat, c: Choice)
    requires LegalWorld(w) && Inv(w, s) && Permitted(w, s, Turn(r, c))
    ensures Rank(w.params[r].Count(), Step(w, s, Turn(r, c)).readers[r]) < Rank(w.params[r].Count(), s.readers[r])
  {
    hide Rank, LocalStep, ReadOk;
    assert ReadOk(w, w.params[r], s.readers[r]);
    TurnLowersRank(w, w.params[r], Local(s.store, s.disk, s.readers[r]), c);
  }

  /**
   Every schedule ends: no run takes more turns than the reads' starting ranks allow, whichever read
   is scheduled when, and where no read can take a turn every read has returned.
   */
  lemma EveryScheduleEnds(w: World, states: seq<State>, actions: seq<Action>)
    requires LegalWorld(w) && IsRun(w, states, actions)
    ensures Turns(actions) <= StartRank(w, |w.params|)
    ensures var last := states[|states| - 1];
            && |last.readers| == |w.params| && last.store.HasStripes()
            && ((forall r: nat :: r < |w.params| ==> !Enabled(w, last, r)) ==>
                 forall r :: 0 <= r < |w.params| ==> last.readers[r].phase.Done?)
  {
    var n := |states| - 1;
    TurnsAreBounded(w, states, actions, n);
    assert actions[..n] == actions;
    RunKeepsInv(w, states, actions, n);
    TotalIsNatural(w, states[n], |w.params|);
    forall r | 0 <= r < |w.params| && (forall x: nat :: x < |w.params| ==> !Enabled(w, states[n], x))
      ensures states[n].readers[r].phase.Done?
    {
      NoDeadlock(w, states, actions, n, r);
    }
  }
}
