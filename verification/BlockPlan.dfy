/**
 Block alignment and request coalescing.

 A read is widened to whole blocks, and the blocks that must be fetched are merged into as few
 requests as the policy allows: two wanted blocks share a request when no more than `gap` unwanted
 blocks lie between neighbours and the whole request stays within `maxRequest` bytes.
 */
module BlockPlan {
  import opened Arithmetic

  datatype BlockSpan = BlockSpan(first: nat, last: nat)

  datatype BlockExtent = BlockExtent(offset: nat, length: nat)

  datatype FetchRun = FetchRun(firstBlock: nat, blockCount: nat, offset: nat, length: nat) {
    function LastBlock(): int { firstBlock + blockCount - 1 }
    function End(): nat { offset + length }
  }

  /** What one reader's planning depends on. */
  datatype Policy = Policy(blockSize: nat, assetSize: nat, gap: nat, maxRequest: nat)

  function CoveringBlocks(offset: nat, length: nat, blockSize: nat): (span: BlockSpan)
    requires 0 < length && 0 < blockSize
    ensures span.first <= span.last
  {
    QuotientMonotone(offset, offset + length - 1, blockSize);
    BlockSpan(offset / blockSize, (offset + length - 1) / blockSize)
  }

  /** The first byte of a block. */
  function StartOf(block: nat, blockSize: nat): nat { block * blockSize }

  function ExtentOf(block: nat, blockSize: nat, assetSize: nat): BlockExtent {
    var offset := StartOf(block, blockSize);
    if offset >= assetSize then BlockExtent(offset, 0)
    else BlockExtent(offset, Min(blockSize, assetSize - offset))
  }

  /** One past the last byte of a block, clamped to the asset. */
  function EndOf(block: nat, blockSize: nat, assetSize: nat): nat {
    var extent := ExtentOf(block, blockSize, assetSize);
    extent.offset + extent.length
  }

  function OverFetchedBytes(run: FetchRun, taken: nat): nat {
    if taken < run.length then run.length - taken else 0
  }

  ghost predicate Ascending(blocks: seq<nat>) {
    forall i, j :: 0 <= i < j < |blocks| ==> blocks[i] < blocks[j]
  }

  // ----- splits of the wanted blocks ---------------------------------------

  /** Whether `blocks[a..b]` may travel in one request: small gaps and small in all. A single block always may. */
  ghost predicate Mergeable(p: Policy, blocks: seq<nat>, a: nat, b: nat)
    requires a < b <= |blocks|
  {
    a + 1 == b ||
    (&& (forall k :: a < k < b ==> blocks[k] <= blocks[k - 1] + p.gap + 1)
     && EndOf(blocks[b-1], p.blockSize, p.assetSize) - StartOf(blocks[a], p.blockSize) <= p.maxRequest)
  }

  /** `cuts` splits `blocks[start..]` into consecutive groups ending at `cuts[0]`, `cuts[1]`, ... */
  ghost predicate IsSplit(p: Policy, blocks: seq<nat>, start: nat, cuts: seq<nat>)
    requires start <= |blocks|
    decreases |cuts|
  {
    if start == |blocks| then cuts == []
    else
      && cuts != []
      && start < cuts[0] <= |blocks|
      && Mergeable(p, blocks, start, cuts[0])
      && IsSplit(p, blocks, cuts[0], cuts[1..])
  }

  function RunFor(p: Policy, blocks: seq<nat>, a: nat, b: nat): FetchRun
    requires a < b <= |blocks| && Ascending(blocks)
  {
    EndAfterStart(p, blocks[a], blocks[b-1]);
    FetchRun(blocks[a], blocks[b-1] - blocks[a] + 1, StartOf(blocks[a], p.blockSize),
             EndOf(blocks[b-1], p.blockSize, p.assetSize) - StartOf(blocks[a], p.blockSize))
  }

  ghost function RunsOf(p: Policy, blocks: seq<nat>, start: nat, cuts: seq<nat>): (runs: seq<FetchRun>)
    requires start <= |blocks| && Ascending(blocks) && IsSplit(p, blocks, start, cuts)
    ensures |runs| == |cuts|
    decreases |cuts|
  {
    if start == |blocks| then []
    else [RunFor(p, blocks, start, cuts[0])] + RunsOf(p, blocks, cuts[0], cuts[1..])
  }

  // ----- the greedy split --------------------------------------------------

  /** At most `gap` unwanted blocks lie between `blocks[k-1]` and `blocks[k]`. */
  predicate SmallGap(p: Policy, blocks: seq<nat>, k: nat)
    requires 0 < k < |blocks|
  {
    blocks[k] - blocks[k-1] - 1 <= p.gap
  }

  /** The merge test of the planning loop: may `blocks[n]` join the run `blocks[a..n]`? */
  predicate Joins(p: Policy, blocks: seq<nat>, a: nat, n: nat)
    requires a < n < |blocks| && Ascending(blocks)
  {
    && SmallGap(p, blocks, n)
    && EndOf(blocks[n], p.blockSize, p.assetSize) - ExtentOf(blocks[a], p.blockSize, p.assetSize).offset <= p.maxRequest
  }

  /** The `close` lambda of the planning loop. */
  function CloseRun(p: Policy, first: nat, last: nat): FetchRun
    requires first <= last
  {
    EndAfterStart(p, first, last);
    var begin, end := ExtentOf(first, p.blockSize, p.assetSize), ExtentOf(last, p.blockSize, p.assetSize);
    FetchRun(first, last - first + 1, begin.offset, end.offset + end.length - begin.offset)
  }

  /** The plan of `blocks[a..]` when a run is open that already holds `blocks[a..n]`. */
  ghost function PlanOpen(p: Policy, blocks: seq<nat>, a: nat, n: nat): seq<FetchRun>
    requires a < n <= |blocks| && Ascending(blocks)
    decreases |blocks| - n
  {
    if n == |blocks| then [CloseRun(p, blocks[a], blocks[n-1])]
    else if Joins(p, blocks, a, n) then PlanOpen(p, blocks, a, n + 1)
    else [CloseRun(p, blocks[a], blocks[n-1])] + PlanOpen(p, blocks, n, n + 1)
  }

  /** Where that plan closes its runs. */
  ghost function CutsOpen(p: Policy, blocks: seq<nat>, a: nat, n: nat): (cuts: seq<nat>)
    requires a < n <= |blocks| && Ascending(blocks)
    ensures cuts != []
    decreases |blocks| - n
  {
    if n == |blocks| then [n]
    else if Joins(p, blocks, a, n) then CutsOpen(p, blocks, a, n + 1)
    else [n] + CutsOpen(p, blocks, n, n + 1)
  }

  /** The plan for `blocks`. */
  ghost function Plan(p: Policy, blocks: seq<nat>): seq<FetchRun>
    requires Ascending(blocks)
  {
    if blocks == [] then [] else PlanOpen(p, blocks, 0, 1)
  }

  ghost function PlanCuts(p: Policy, blocks: seq<nat>): seq<nat>
    requires Ascending(blocks)
  {
    if blocks == [] then [] else CutsOpen(p, blocks, 0, 1)
  }

  // ----- arithmetic of extents ---------------------------------------------

  lemma EndAfterStart(p: Policy, first: nat, last: nat)
    requires first <= last
    ensures StartOf(first, p.blockSize) <= EndOf(last, p.blockSize, p.assetSize)
  {
    ProductMonotone(first, last, p.blockSize);
  }

  lemma EndsAscend(p: Policy, a: nat, b: nat)
    requires a <= b
    ensures EndOf(a, p.blockSize, p.assetSize) <= EndOf(b, p.blockSize, p.assetSize)
  {
    if a < b {
      assert (a + 1) * p.blockSize == a * p.blockSize + p.blockSize;
      ProductMonotone(a + 1, b, p.blockSize);
    }
  }

  // ----- the greedy split is a split ---------------------------------------

  lemma JoinedIsMergeable(p: Policy, blocks: seq<nat>, a: nat, n: nat)
    requires a < n < |blocks| && Ascending(blocks) && Joins(p, blocks, a, n)
    requires forall k :: a < k < n ==> SmallGap(p, blocks, k)
    ensures Mergeable(p, blocks, a, n + 1)
  {
    hide EndOf;
    forall k | a < k < n + 1 ensures blocks[k] <= blocks[k - 1] + p.gap + 1 { assert SmallGap(p, blocks, k); }
  }

  lemma {:induction false} GreedyIsSplit(p: Policy, blocks: seq<nat>, a: nat, n: nat)
    requires a < n <= |blocks| && Ascending(blocks) && Mergeable(p, blocks, a, n)
    requires forall k :: a < k < n ==> SmallGap(p, blocks, k)
    ensures IsSplit(p, blocks, a, CutsOpen(p, blocks, a, n))
    decreases |blocks| - n
  {
    assert n < |blocks| ==> Mergeable(p, blocks, n, n + 1);
    assert n < |blocks| && Joins(p, blocks, a, n) ==> SmallGap(p, blocks, n);
    hide Mergeable, Joins, SmallGap;
    if n == |blocks| {
      assert [n][1..] == [];
    } else if Joins(p, blocks, a, n) {
      JoinedIsMergeable(p, blocks, a, n);
      GreedyIsSplit(p, blocks, a, n + 1);
    } else {
      GreedyIsSplit(p, blocks, n, n + 1);
      assert ([n] + CutsOpen(p, blocks, n, n + 1))[1..] == CutsOpen(p, blocks, n, n + 1);
    }
  }

  lemma {:induction false} PlanIsRunsOfCuts(p: Policy, blocks: seq<nat>, a: nat, n: nat)
    requires a < n <= |blocks| && Ascending(blocks)
    requires IsSplit(p, blocks, a, CutsOpen(p, blocks, a, n))
    ensures PlanOpen(p, blocks, a, n) == RunsOf(p, blocks, a, CutsOpen(p, blocks, a, n))
    decreases |blocks| - n
  {
    hide Mergeable, Joins;
    var cuts := CutsOpen(p, blocks, a, n);
    if n == |blocks| {
      assert RunsOf(p, blocks, n, cuts[1..]) == [];
    } else if Joins(p, blocks, a, n) {
      PlanIsRunsOfCuts(p, blocks, a, n + 1);
    } else {
      assert cuts[1..] == CutsOpen(p, blocks, n, n + 1);
      PlanIsRunsOfCuts(p, blocks, n, n + 1);
    }
  }

  // ----- optimality --------------------------------------------------------

  /** What travels in one request also does when the request starts later and ends sooner. */
  lemma MergeableShrinks(p: Policy, blocks: seq<nat>, t: nat, a: nat, n: nat, b: nat)
    requires t <= a < n < b <= |blocks| && Ascending(blocks) && Mergeable(p, blocks, t, b)
    ensures Joins(p, blocks, a, n)
  {
    assert SmallGap(p, blocks, n);
    if n < b - 1 { EndsAscend(p, blocks[n], blocks[b-1]); }
    if t < a { ProductMonotone(blocks[t], blocks[a], p.blockSize); }
  }

  /**
   No admissible split uses fewer runs than the greedy one, not even one that starts earlier: with a
   run open since `a`, any split of `blocks[t..]` for `t <= a` has at least as many groups.
   */
  lemma {:induction false} GreedyIsOptimal(p: Policy, blocks: seq<nat>, t: nat, a: nat, n: nat, cuts: seq<nat>)
    requires t <= a < n <= |blocks| && Ascending(blocks) && IsSplit(p, blocks, t, cuts)
    ensures |CutsOpen(p, blocks, a, n)| <= |cuts|
    decreases |blocks| - n
  {
    if n < |blocks| {
      if Joins(p, blocks, a, n) {
        GreedyIsOptimal(p, blocks, t, a, n + 1, cuts);
      } else {
        if n < cuts[0] { MergeableShrinks(p, blocks, t, a, n, cuts[0]); }
        GreedyIsOptimal(p, blocks, cuts[0], n, n + 1, cuts[1..]);
      }
    }
  }

  // ----- what a plan is for its caller -------------------------------------

  /**
   `runs` serve `blocks` in order: each run takes a non-empty prefix of what is left, every block of
   that prefix lies inside the run's bytes, and everything after it lies beyond the run.
   */
  ghost predicate Serves(p: Policy, blocks: seq<nat>, runs: seq<FetchRun>)
    decreases |runs|
  {
    if runs == [] then blocks == []
    else
      exists n: nat :: ServesPrefix(p, blocks, runs[0], n) && Serves(p, blocks[n..], runs[1..])
  }

  ghost predicate ServesPrefix(p: Policy, blocks: seq<nat>, run: FetchRun, n: nat) {
    && 0 < n <= |blocks|
    && run.End() <= p.assetSize
    && (forall i :: 0 <= i < n ==> blocks[i] <= run.LastBlock())
    && (forall i :: n <= i < |blocks| ==> run.LastBlock() < blocks[i])
    && (forall i :: 0 <= i < n ==> InRun(p, run, blocks[i]))
  }

  /** The run's bytes contain the whole block. */
  ghost predicate InRun(p: Policy, run: FetchRun, block: nat) {
    && run.offset <= StartOf(block, p.blockSize)
    && EndOf(block, p.blockSize, p.assetSize) <= run.End()
  }

  ghost predicate InsideAsset(p: Policy, blocks: seq<nat>) {
    forall i :: 0 <= i < |blocks| ==> StartOf(blocks[i], p.blockSize) < p.assetSize
  }

  lemma {:induction false} RunsServe(p: Policy, blocks: seq<nat>, start: nat, cuts: seq<nat>)
    requires start <= |blocks| && Ascending(blocks) && InsideAsset(p, blocks) && IsSplit(p, blocks, start, cuts)
    ensures Serves(p, blocks[start..], RunsOf(p, blocks, start, cuts))
    decreases |cuts|
  {
    if start < |blocks| {
      var runs := RunsOf(p, blocks, start, cuts);
      var n := cuts[0] - start;
      RunsServe(p, blocks, cuts[0], cuts[1..]);
      assert blocks[start..][n..] == blocks[cuts[0]..];
      assert runs[1..] == RunsOf(p, blocks, cuts[0], cuts[1..]);
      RunServesItsGroup(p, blocks, start, cuts[0]);
    }
  }

  lemma RunServesItsGroup(p: Policy, blocks: seq<nat>, a: nat, b: nat)
    requires a < b <= |blocks| && Ascending(blocks) && InsideAsset(p, blocks)
    ensures ServesPrefix(p, blocks[a..], RunFor(p, blocks, a, b), b - a)
  {
    var run := RunFor(p, blocks, a, b);
    forall i | 0 <= i < b - a ensures InRun(p, run, blocks[a..][i]) {
      assert blocks[a] <= blocks[a+i] <= blocks[b-1];
      ProductMonotone(blocks[a], blocks[a+i], p.blockSize);
      EndsAscend(p, blocks[a+i], blocks[b-1]);
    }
  }

  /** Under a ceiling of at least one block, no run of any admissible split exceeds the ceiling. */
  lemma {:induction false} RunsWithinCeiling(p: Policy, blocks: seq<nat>, start: nat, cuts: seq<nat>)
    requires start <= |blocks| && Ascending(blocks) && IsSplit(p, blocks, start, cuts)
    requires p.blockSize <= p.maxRequest
    ensures forall r <- RunsOf(p, blocks, start, cuts) :: r.length <= p.maxRequest
    decreases |cuts|
  {
    if start < |blocks| {
      RunsWithinCeiling(p, blocks, cuts[0], cuts[1..]);
      assert RunsOf(p, blocks, start, cuts)
          == [RunFor(p, blocks, start, cuts[0])] + RunsOf(p, blocks, cuts[0], cuts[1..]);
    }
  }

  /**
   What the plan promises: it is an admissible split, no admissible split has fewer runs, and for
   blocks inside the asset its runs serve the blocks in order.
   */
  lemma PlanIsOptimal(p: Policy, blocks: seq<nat>)
    requires Ascending(blocks)
    ensures IsSplit(p, blocks, 0, PlanCuts(p, blocks))
    ensures Plan(p, blocks) == RunsOf(p, blocks, 0, PlanCuts(p, blocks))
    ensures forall cuts :: IsSplit(p, blocks, 0, cuts) ==> |Plan(p, blocks)| <= |cuts|
    ensures InsideAsset(p, blocks) ==> Serves(p, blocks, Plan(p, blocks))
    ensures p.blockSize <= p.maxRequest ==> forall r <- Plan(p, blocks) :: r.length <= p.maxRequest
  {
    var all := PlanCuts(p, blocks);
    if blocks != [] {
      GreedyIsSplit(p, blocks, 0, 1);
      PlanIsRunsOfCuts(p, blocks, 0, 1);
      forall cuts | IsSplit(p, blocks, 0, cuts) ensures |all| <= |cuts| {
        GreedyIsOptimal(p, blocks, 0, 0, 1, cuts);
      }
    }
    if InsideAsset(p, blocks) {
      RunsServe(p, blocks, 0, all);
      assert blocks[0..] == blocks;
    }
    if p.blockSize <= p.maxRequest { RunsWithinCeiling(p, blocks, 0, all); }
  }

  // ----- the planning loop -------------------------------------------------

  /** The planning loop computes the plan. */
  method PlanRuns(p: Policy, blocks: seq<nat>) returns (runs: seq<FetchRun>)
    requires Ascending(blocks)
    ensures runs == Plan(p, blocks)
    ensures forall cuts :: IsSplit(p, blocks, 0, cuts) ==> |runs| <= |cuts|
    ensures InsideAsset(p, blocks) ==> Serves(p, blocks, runs)
  {
    runs := [];
    if blocks != [] {
      var first, last := blocks[0], blocks[0];
      ghost var a := 0;
      var i := 1;
      while i < |blocks|
        invariant a < i <= |blocks| && first == blocks[a] && last == blocks[i-1]
        invariant Plan(p, blocks) == runs + PlanOpen(p, blocks, a, i)
      {
        var next := blocks[i];
        var gap := next - last - 1;
        var begin := ExtentOf(first, p.blockSize, p.assetSize);
        var end := ExtentOf(next, p.blockSize, p.assetSize);
        var merged := end.offset + end.length - begin.offset;
        if gap <= p.gap && merged <= p.maxRequest {
          last := next;
        } else {
          runs := runs + [CloseRun(p, first, last)];
          first, last, a := next, next, i;
        }
        i := i + 1;
      }
      runs := runs + [CloseRun(p, first, last)];
    }
    PlanIsOptimal(p, blocks);
  }
}
