# A verified model of the HTTP asset resolver and its block cache

The repository serves remote assets to a USD stage: a resolver names them, an HTTP reader reads byte ranges of them,
and a cache of fixed-size blocks sits in front of the reader, in memory and on disk. This project models that core in
Dafny and proves what the rest of the system relies on. `dafny verify dfyconfig.toml` checks all of it.

## What is modelled

**The block cache.** A read is expanded to whole blocks, and each block comes from memory, from disk, from a merged
fetch, from another read's fetch in flight, or from a direct read. `CachedRead` is a step system: any number of reads
over one shared store, one critical section per step, with the inner reader, the persistent tier and the scheduler
free to do anything. Over every run it is proved that a completed read is a plain read (`CompletedReadIsPlainRead`),
that bytes and blocks are conserved (`CompletedReadConserves`), that each pending block has one owner (`SingleFlight`)
who publishes or abandons it exactly once (`OwnedEndsOnce`), that a read fails exactly when a request of its own has
(`FailsIffOwnRequestFailed`), that a resident block is served and never asked for (`ResidentIsServed`,
`WarmReadAsksNothing`), that a block in flight is waited for (`BusyIsAwaited`), that nothing deadlocks (`NoDeadlock`)
and that every schedule ends (`EveryScheduleEnds`). Below it, `BlockPlan` proves the greedy merger optimal among all
legal splits, `Stripe` that one stripe is a least-recently-used list with exact byte counts over every history, and
`BlockCacheBudget` exactly when the process-wide budget holds. `BlockCacheObject` and `CachedAssetReader` are the
objects, with their loops.

**The HTTP reader.** The network is an adversary: any function from the requests so far to a response. `HttpExchange`
is the two nested loops of one exchange, `HttpAssetReader` the loop of a read and the open. Both are proved equal to
functions of the network, and prove one retry budget for both levels, what every failure means, that no accepted byte
is overwritten, and that nothing secret or insecure leaves by a redirect. `HttpOutcomes` says in the numbers of the
protocol why each request was sent and what each ending is reported as, and `HttpRequestBound` works out the largest
number of requests an exchange and a read can cost, and networks that cost it. `OkReadIsPlainRead` adds the server's
side: if it honours `If-Range` (section 13.1.5 of RFC 9110) and strong tags mean what they say, a successful read is
of the revision bound at open, however often the asset was republished meanwhile. `HttpUri` and `HttpReferences` are
the URLs: parsing, writing and resolving redirects.

**The disk tier.** `Checksum` and `EntryCodec` are the file format: every single-byte substitution, truncation and
extension is detected, because an FNV-1a step is injective modulo 2^64. `DiskBlockStore` proves the directory a lossy
map over whole histories, under name collisions, losses and detected damage. `DiskSweep` and `DiskBudget` prove the
bound on its size and that a fresh entry is never the one that pays for it. `PersistentTier` turns that into the
assumption the cached reads make of it: whatever the directory still answers with is a true block.

**Names.** `DotSegments` proves the two implementations of `remove_dot_segments` (section 5.2.4 of RFC 3986) equal on
absolute paths, and `RelativeDotSegments` exactly on which others they are; `PercentEncoding`, `Identifier`,
`IdentifierNormalForm` and `IdentifierFixedPoint` prove exactly when normalization is idempotent.
`IdentifierReferences` gives the laws of resolution on the texts themselves, and `PercentMeaning` that normalization
keeps what a text means.

**The rest.** `IdentityLatch` is the resolver's contradiction latch, `Configuration` the canonicalizer of a stage's
context, `LatencyHistogram` the quantile bound.

A value-level specification stands beside every object: the object's methods are proved equal to it, and the theorems
about histories and interleavings are proved of it.

## Where the code does not do what is said of it

- Idempotence of `CreateIdentifier` does not follow from at most one colon outside brackets: `a[:]:80` loses its
  default port, and what is left is then refused because `]` is not a port. `Settled` is the exact condition
  (`IdentifierIsFixedIff`).
- `libs/usd-asset-http/src/Uri.cpp:198-200` says its segment stack agrees with the literal rewriting. It does on
  absolute paths, the only ones it is given, and on relative ones in which no `..` takes back the last segment left;
  on `a/..` one yields nothing and the other `/`. `FormsAgreeIff` is the exact condition.
- `libs/usd-asset-http/src/HttpAssetReader.cpp:482-484` bounds the total work by `maxRedirects + maxAttempts`
  requests. An exchange can take one request, a retry for each attempt past the first and a redirect for each allowed;
  a `maxAttempts` below one counts as one, a `maxRedirects` below zero as zero. So the sum bounds every exchange
  exactly when `0 <= maxRedirects` and `1 <= maxAttempts` (`ExchangeSumIff`). A read may run as many exchanges as it
  has attempts, and each may follow all its redirects again: there the sum is a bound exactly when `maxRedirects` is
  also zero or `maxAttempts` one (`ReadSumIff`). One redirect and two attempts can make four requests, not three.
- A parsed URL does not always parse again once written: `http://:80/` loses its port and then has no authority.
  `ComposedParsesBack` gives the exact condition.
- Quantiles do under-report: the last bucket saturates, and an order statistic of 2^40 microseconds or more is
  reported below its value. `ReportedBoundsOrderStatistic` states both directions.
- The process-wide budget does not bind whatever is published: a block larger than it stays resident
  (`OversizedBlockBreaksBudget`). It holds after every sequence of operations exactly when blocks are no larger than
  one stripe's share of it (`BudgetHoldsIff`).

## Model

| member | source | states |
|---|---|---|
| `RangeMath.ResolvedRangeIsPlainRead` | libs/usd-asset-io/src/RangeMath.cpp:10-39 | A resolved range is never empty, never wraps, ends inside the asset and selects exactly the bytes of a plain read cut off at the end; overflow is reported iff offset plus size does not fit 64 bits |
| `CacheOptions.RoundDownToPowerOfTwo` | libs/usd-asset-cache/src/CacheOptions.cpp:18-30 | The doubling loop yields the largest legal block size at most the request |
| `CacheOptions.RoundedDownIsLargest` | libs/usd-asset-cache/src/CacheOptions.cpp:18-30 | The rounded block size is legal, no legal size at most the request is larger, and it exceeds the request only below the minimum |
| `CacheOptions.NormalizedIsUsable` | libs/usd-asset-cache/src/CacheOptions.cpp:34-68 | Whatever was asked, a normalized budget and request ceiling hold at least one block, the block size is a legal power of two, the bypass threshold is at least a block, and two blocks at the widest gap fit under the ceiling |
| `CacheOptions.NormalizedChangesLeast` | libs/usd-asset-cache/src/CacheOptions.cpp:34-68 | Nothing is changed more than that takes: what is raised is raised to one block, the gap is lowered only to the widest that fits, zero stands for 64 KiB, and blocks lie between 4 KiB and 64 MiB |
| `CacheOptions.NormalizedIsIdempotent` | libs/usd-asset-cache/src/CacheOptions.cpp:34-68 | Normalizing twice is normalizing once |
| `ReadGeometry.BlockTiles` | libs/usd-asset-cache/src/BlockPlan.cpp:11-36 | The covered parts of the spanned blocks lie end to end over the range, none empty, each inside its block and inside the asset |
| `BlockPlan.PlanRuns` | libs/usd-asset-cache/src/BlockPlan.cpp:38-80 | The merging loop returns the greedy plan, which no split obeying the gap and the ceiling undercuts, and which serves every wanted block in order |
| `BlockPlan.GreedyIsOptimal` | libs/usd-asset-cache/src/BlockPlan.cpp:63-76 | Exchange argument: from any point on, greedy closing uses no more runs than any legal split that is no further ahead |
| `BlockPlan.PlanIsRunsOfCuts` | libs/usd-asset-cache/src/BlockPlan.cpp:49-80 | The loop that carries an open run produces the runs of the greedy cuts |
| `BlockPlan.RunsServe` | libs/usd-asset-cache/src/BlockPlan.cpp:49-80 | The runs of any split cover, in order, exactly the wanted blocks of their group and stay inside the asset |
| `BlockPlan.RunsWithinCeiling` | libs/usd-asset-cache/src/BlockPlan.cpp:63-76 | When a block fits the ceiling, every run fits it |
| `BlockPlan.PlanIsOptimal` | libs/usd-asset-cache/src/BlockPlan.cpp:38-80 | The plan is a legal split, is minimal among all legal splits, serves every wanted block, and under normalized options stays within the request ceiling |
| `Stripes.EvictionKeepsLongestPrefix` | libs/usd-asset-cache/src/BlockCache.cpp:151-166 | Eviction keeps the longest prefix of the recency list that fits the budget, never fewer than one entry, and touches nothing pending |
| `Stripes.AcquireIsValid` | libs/usd-asset-cache/src/BlockCache.cpp:339-361 | Acquiring keeps the stripe invariant: no duplicates in the list, exactly the published keys, resident bytes equal to their sum |
| `Stripes.PublishIsValid` | libs/usd-asset-cache/src/BlockCache.cpp:383-419 | Publishing keeps the invariant, ends exactly that pending entry, puts it first and never evicts it; without a pending entry it changes nothing |
| `Stripes.AbandonIsValid` | libs/usd-asset-cache/src/BlockCache.cpp:421-431 | Abandoning keeps the invariant |
| `Stripes.CloseIsValid` | libs/usd-asset-cache/src/BlockCache.cpp:304-331 | Closing a private binding keeps the invariant and removes exactly the entries of its identity |
| `Stripes.HistoryIsValid` | libs/usd-asset-cache/src/BlockCache.cpp:151-174 | Over every sequence of operations the invariant holds and the list is in order of last use |
| `BlockCaches.ChooseShardCount` | libs/usd-asset-cache/src/BlockCache.cpp:73-86 | The doubling loop returns the largest power of two up to 64 that leaves every stripe room for eight blocks |
| `BlockCaches.SharesFitBudget` | libs/usd-asset-cache/src/BlockCache.cpp:109-121 | For every requested configuration the shares of all stripes together fit the normalized budget, and each share holds a block |
| `BlockCaches.AcquireEffect` | libs/usd-asset-cache/src/BlockCache.cpp:339-361 | Seen from outside, acquiring makes an absent block pending, and reports hit, owned or busy truthfully; every other block is as it was |
| `BlockCaches.AwaitEffect` | libs/usd-asset-cache/src/BlockCache.cpp:363-381 | One turn of waiting changes no block and answers what is there |
| `BlockCaches.PublishEffect` | libs/usd-asset-cache/src/BlockCache.cpp:383-419 | Publishing turns pending into published; other blocks stay or, if published, are evicted; the total stays the sum over stripes |
| `BlockCaches.AbandonEffect` | libs/usd-asset-cache/src/BlockCache.cpp:421-431 | Abandoning makes a pending block absent and nothing else |
| `BlockCaches.CloseEffect` | libs/usd-asset-cache/src/BlockCache.cpp:304-331 | Closing forgets exactly the blocks of one identity |
| `BlockCaches.SharesBoundTotal` | libs/usd-asset-cache/src/BlockCache.cpp:109-121 | Stripes within their share bound the process-wide total |
| `BlockCacheBudget.BudgetHoldsIff` | libs/usd-asset-cache/src/BlockCache.cpp:109-166 | Over all sequences of operations with blocks up to a limit, the budget holds iff the limit is at most one stripe's share; the hash is only assumed to reach every stripe |
| `BlockCacheBudget.CountingReachesEveryStripe` | libs/usd-asset-cache/src/BlockCache.cpp:109-121 | Keys are spread over the stripes by their hash: a hash that counts up reaches every one |
| `BlockCacheBudget.BudgetHolds` | libs/usd-asset-cache/src/BlockCache.cpp:109-121 | After any sequence of operations by bindings whose blocks are no larger than the store's, the bytes resident in all stripes are the recorded total and at most the normalized budget |
| `BlockCacheBudget.SharesKeepBudget` | libs/usd-asset-cache/src/BlockCache.cpp:109-166 | If no block is larger than a share, no sequence of operations takes the resident bytes past the normalized budget |
| `BlockCacheBudget.LargerBlocksBreakBudget` | libs/usd-asset-cache/src/BlockCache.cpp:109-166 | If blocks may be larger than a share and keys reach every stripe, some sequence of publications leaves more resident than the budget |
| `BlockCacheBudget.OversizedBlockBreaksBudget` | libs/usd-asset-cache/src/BlockCache.cpp:151-166 | One block larger than the budget stays resident after it is published |
| `BlockCacheObjects.EvictLocked` | libs/usd-asset-cache/src/BlockCache.cpp:151-166 | The loop over a locked stripe computes the specified eviction, the new shared total and the count of evictions |
| `BlockCacheObjects.CloseStripe` | libs/usd-asset-cache/src/BlockCache.cpp:304-331 | The erasing loop over one stripe, with the bytes it gives back |
| `BlockCacheObjects.CloseStripes` | libs/usd-asset-cache/src/BlockCache.cpp:304-331 | The loop over all stripes of a closing private binding |
| `BlockCacheObjects.BlockCache.constructor` | libs/usd-asset-cache/src/BlockCache.cpp:109-121 | A new store is valid, empty and within its shares, under normalized options |
| `BlockCacheObjects.BlockCache.Bind` | libs/usd-asset-cache/src/BlockCache.cpp:268-298 | Two bindings get the same id iff both may share and their identities are equal, over every binding ever made |
| `BlockCacheObjects.BlockCache.Acquire` | libs/usd-asset-cache/src/BlockCache.cpp:339-361 | The object does what the store specification says and stays valid |
| `BlockCacheObjects.BlockCache.Await` | libs/usd-asset-cache/src/BlockCache.cpp:363-381 | One turn of the wait loop: still pending, gone, or the published bytes |
| `BlockCacheObjects.BlockCache.Publish` | libs/usd-asset-cache/src/BlockCache.cpp:383-419 | Publishes as specified, keeps the store within its shares if the block fits one, and returns exactly the evictions it caused |
| `BlockCacheObjects.BlockCache.Abandon` | libs/usd-asset-cache/src/BlockCache.cpp:421-431 | Abandons as specified |
| `BlockCacheObjects.BlockCache.Close` | libs/usd-asset-cache/src/BlockCache.cpp:304-331 | A private binding takes its entries with it; a shared one leaves everything |
| `ReadSteps.AcquiringKeeps` | libs/usd-asset-cache/src/CachedAssetReader.cpp:283-331 | Every outcome of acquiring a block keeps the invariant of the read: resolved blocks hold true bytes, what it owns is pending and unresolved, counters add up |
| `ReadSteps.DirectKeeps` | libs/usd-asset-cache/src/CachedAssetReader.cpp:302-325 | Reading around a resident block of another length, after letting everything go, keeps the invariant |
| `ReadSteps.DiskKeeps` | libs/usd-asset-cache/src/CachedAssetReader.cpp:333-364 | Filling owned blocks from the persistent tier keeps the invariant |
| `ReadSteps.FetchingKeeps` | libs/usd-asset-cache/src/CachedAssetReader.cpp:371-400 | Starting a planned fetch, or letting everything go when it fails, keeps the invariant |
| `ReadSteps.TakingKeeps` | libs/usd-asset-cache/src/CachedAssetReader.cpp:402-446 | Taking one block out of a fetched run, publishing it and copying its overlap keeps the invariant and the byte accounts |
| `ReadSteps.WaitingKeeps` | libs/usd-asset-cache/src/CachedAssetReader.cpp:449-477 | Waiting for blocks others fetch keeps the invariant; the waiter owns nothing |
| `ReadSteps.FallbackKeeps` | libs/usd-asset-cache/src/CachedAssetReader.cpp:480-496 | The direct fallback for blocks still unresolved keeps the invariant |
| `CachedReadSystem.StepKeepsInv` | libs/usd-asset-cache/src/CachedAssetReader.cpp:263-519 | Every step of every read, every closing binding, keeps the system invariant |
| `CachedReadSystem.RunKeepsInv` | libs/usd-asset-cache/src/CachedAssetReader.cpp:263-519 | The invariant holds in every state of every interleaving |
| `CachedReadSystem.CompletedReadIsPlainRead` | libs/usd-asset-cache/src/CachedAssetReader.cpp:263-519 | In every interleaving of readers, evictions, persistent hits and failed owners, a read that completes holds exactly the bytes of the asset over its range, even when readers of one identity disagree about its size |
| `CachedReadSystem.CompletedReadConserves` | libs/usd-asset-cache/src/CachedAssetReader.cpp:269-518 | For every completed read, range length plus bytes over-fetched equals bytes from the cache plus bytes asked of the inner reader, and blocks served by the cache plus blocks missed equals blocks covered |
| `CachedReadSystem.ClampNeverFires` | libs/usd-asset-cache/src/BlockPlan.cpp:82-87 | In every reachable state a run holds at least what was taken from it, so the clamp at zero never changes the over-fetch |
| `CachedReadSystem.FinalCheckNeverFails` | libs/usd-asset-cache/src/CachedAssetReader.cpp:506-519 | A read that reaches its last check has served its whole length |
| `CachedReadSystem.SingleFlight` | libs/usd-asset-cache/src/CachedAssetReader.cpp:74-169 | Every pending block has exactly one owning read, and a read that waits or has returned owns nothing |
| `CachedReadDuties.FailsIffOwnRequestFailed` | libs/usd-asset-cache/src/CachedAssetReader.cpp:448-458 | In every run a read has failed, or is releasing what it owns in order to, iff a request it made itself has failed: another read's failure is never its own |
| `CachedReadDuties.OwnedEndsOnce` | libs/usd-asset-cache/src/CachedAssetReader.cpp:74-169 | What a read acquires it holds up to one step of its own that publishes or abandons exactly that block, before it next waits or returns, and it does not own it again until then |
| `CachedReadService.AcquiringTurn` | libs/usd-asset-cache/src/CachedAssetReader.cpp:285-331 | What the store holds of a block decides the turn: resident at the right length is copied out and counted as served by the cache, at another length is read directly, absent is owned and made pending, pending is queued; nothing else is counted |
| `CachedReadService.ResidentIsServed` | libs/usd-asset-cache/src/CachedAssetReader.cpp:289-303 | In every run, a block resident at the length the read expects when the read comes to it is resolved by that turn: nothing asked, nothing missed, the overlap added to the bytes from the cache |
| `CachedReadService.WarmReadAsksNothing` | libs/usd-asset-cache/src/CachedAssetReader.cpp:279-368 | In every run, a read that starts with all its blocks resident at its length, and sees them stay so, returns successfully with nothing asked, nothing missed and every block served by the cache |
| `CachedReadService.FetchedIsResident` | libs/usd-asset-cache/src/CachedAssetReader.cpp:404-436 | In every run, a block taken out of a transfer is published in the state that follows, and the persistent tier holds the same bytes if it took them |
| `CachedReadService.BusyIsAwaited` | libs/usd-asset-cache/src/CachedAssetReader.cpp:448-477 | In every run, a read that meets a block another is fetching takes a turn at waiting for it, when it is no longer pending, before its pass ends, and up to then neither has the block nor owns it |
| `CachedReadService.DiskTurn` | libs/usd-asset-cache/src/CachedAssetReader.cpp:344-364 | An owned block the persistent tier has at the right length is published, served and not asked for; any other stays owned |
| `CachedReadService.TakingTurn` | libs/usd-asset-cache/src/CachedAssetReader.cpp:404-436 | Publishes the block, offers it to the persistent tier, counts one miss and asks for nothing more |
| `CachedReadService.WaitingTurn` | libs/usd-asset-cache/src/CachedAssetReader.cpp:448-477 | Serves what has been published meanwhile at the right length and leaves the rest for the next pass |
| `CachedReadService.PassProceeds` | libs/usd-asset-cache/src/CachedAssetReader.cpp:344-386 | What is owned goes to the persistent tier first; what is still owned is then fetched in no more requests than any legal split; else the read waits, or its cooperative passes are over |
| `CachedReadService.PassEnds` | libs/usd-asset-cache/src/CachedAssetReader.cpp:279-282 | Waiting over, another pass begins, up to the third |
| `CachedReadSystem.OwnerOfAwaitedBlockMoves` | libs/usd-asset-cache/src/CachedAssetReader.cpp:448-477 | The owner of a block somebody waits for can itself take a step, so no cycle of waiting exists |
| `CachedReadSystem.NoDeadlock` | libs/usd-asset-cache/src/CachedAssetReader.cpp:279-477 | While any read is unfinished, some read can move |
| `CachedReadSystem.ResidentWithinBudget` | libs/usd-asset-cache/src/BlockCache.cpp:109-121 | When the readers' blocks fit a share, no interleaving takes the resident total past the shares |
| `CachedReadProgress.TurnLowersRank` | libs/usd-asset-cache/src/CachedAssetReader.cpp:279-505 | Every turn of a read lowers a natural rank |
| `CachedReadProgress.TurnsAreBounded` | libs/usd-asset-cache/src/CachedAssetReader.cpp:279-505 | The turns taken so far never exceed a bound fixed by the reads alone |
| `CachedReadProgress.EveryScheduleEnds` | libs/usd-asset-cache/src/CachedAssetReader.cpp:263-519 | Every schedule is finite, and when nothing can move every read has finished |
| `CachedAssetReader.OwnedBlocks.constructor` | libs/usd-asset-cache/src/CachedAssetReader.cpp:76 | A new list owns nothing |
| `CachedAssetReader.OwnedBlocks.Add` | libs/usd-asset-cache/src/CachedAssetReader.cpp:82-85 | The block joins the end of what is outstanding |
| `CachedAssetReader.OwnedBlocks.Outstanding` | libs/usd-asset-cache/src/CachedAssetReader.cpp:94-103 | Returns exactly the unsettled blocks, in order |
| `CachedAssetReader.OwnedBlocks.Next` | libs/usd-asset-cache/src/CachedAssetReader.cpp:107-110 | Returns the first outstanding block |
| `CachedAssetReader.OwnedBlocks.MarkPublished` | libs/usd-asset-cache/src/CachedAssetReader.cpp:115-119 | Settles exactly the first outstanding block |
| `CachedAssetReader.OwnedBlocks.Settle` | libs/usd-asset-cache/src/CachedAssetReader.cpp:129-137 | Settles the first outstanding entry of a block, or nothing |
| `CachedAssetReader.OwnedBlocks.AbandonAll` | libs/usd-asset-cache/src/CachedAssetReader.cpp:141-151 | Abandons exactly what is outstanding and leaves the list empty |
| `CachedAssetReader.AbandonedAllReleases` | libs/usd-asset-cache/src/CachedAssetReader.cpp:141-151 | After abandoning, no listed block of the identity is pending and every other block is as it was |
| `CachedAssetReader.CopyOverlap` | libs/usd-asset-cache/src/CachedAssetReader.cpp:42-58 | Every byte of the destination the block covers becomes the block's, every other stays, and the count is the overlap |
| `CachedAssetReader.CopiedIsCopyOverlap` | libs/usd-asset-cache/src/CachedAssetReader.cpp:42-58 | The copy the step system makes is that copy |
| `CachedAssetReader.CachedReaderAnswersLikePlainRead` | libs/usd-asset-cache/src/CachedAssetReader.cpp:547-574 | Through the dispatch, a completed cached read is the plain read of the caller's offset and size, and a read that moves nothing would have moved nothing |
| `CachedAssetReader.RouteByLength` | libs/usd-asset-cache/src/CachedAssetReader.cpp:547-574 | Refused, nothing to move, around the cache exactly from the threshold on, or through it with the clamped range |
| `Framing.Trim` | libs/usd-asset-http/src/Framing.cpp:18-22 | The two loops strip exactly the blanks at both ends |
| `Framing.TrimmedOfPadded` | libs/usd-asset-http/src/Framing.cpp:18-22 | Spaces and tabs around a text are taken off, and nothing else |
| `Framing.ParseUnsigned` | libs/usd-asset-http/src/Framing.cpp:29-42 | Accepts exactly the non-empty digit strings whose value fits 64 bits; a prefix that overflows refuses the whole |
| `Framing.ParseContentRange` | libs/usd-asset-http/src/Framing.cpp:74-117 | Computes the specified reading of the header |
| `Framing.AcceptedRangeIsPossible` | libs/usd-asset-http/src/Framing.cpp:105-116 | No accepted range is reversed, ends past its representation or exceeds 64 bits |
| `Framing.PrintedRangeIsRead` | libs/usd-asset-http/src/Framing.cpp:74-117 | The header printed for a range reads back as that range iff the range is possible |
| `Framing.FindHeader` | libs/usd-asset-http/src/Transport.cpp:30-39 | The last header of a name, in any case, wins |
| `Framing.LookupIsLast` | libs/usd-asset-http/src/Transport.cpp:30-39 | What is found is the value of a header of that name after which there is none; nothing is found iff there is none |
| `Framing.HasConflictingDuplicate` | libs/usd-asset-http/src/Transport.cpp:41-52 | True iff two lines of one name differ |
| `Framing.CaptureValidator` | libs/usd-asset-http/src/Framing.cpp:129-172 | An `If-Range` value is the validator's own; a tag gives one iff it is strong, and only an entity tag is strong |
| `Framing.CapturedByParts` | libs/usd-asset-http/src/Framing.cpp:129-172 | The entity tag if there is one, weak iff it begins with `W/`, else the date, always weak; the `If-Range` value is empty for a weak tag and the validator's otherwise |
| `Framing.CaptureAgreesWithItself` | libs/usd-asset-http/src/Framing.cpp:174-189 | No response contradicts the validator captured from it |
| `Framing.ListContainsToken` | libs/usd-asset-http/src/Framing.cpp:45-70 | The loop finds the token in any case among the trimmed items of the list |
| `Framing.ListedIff` | libs/usd-asset-http/src/Framing.cpp:45-70 | The token is listed iff one of the texts between commas, trimmed, is it in some case |
| `Interception.Admit` | libs/usd-asset-http/src/HttpAssetReader.cpp:412-450 | Admits iff every header is a token the protocol does not own with a safe value, no name repeats in any case, and the bytes on the wire are within the bound |
| `Interception.InterceptableIsHarmless` | libs/usd-asset-http/src/HttpAssetReader.cpp:332-377 | An admitted header has none of the nineteen owned names in any case, and neither its name nor its value can end a line |
| `Interception.AdmittedLines` | libs/usd-asset-http/src/HttpAssetReader.cpp:412-450 | What is admitted is at most 16384 bytes on the wire |
| `HttpUri.ParseAuthority` | libs/usd-asset-http/src/Uri.cpp:36-101 | Computes the specified credential, host and port |
| `HttpUri.ParsedIsWellFormed` | libs/usd-asset-http/src/Uri.cpp:155-195 | Whatever is accepted has an HTTP scheme, a lower-case host free of delimiters, a port within range and an absolute path without dot segments |
| `HttpUri.ComposedParsesBack` | libs/usd-asset-http/src/Uri.cpp:120-138 | A well-formed URL written with a credential or without one parses back to itself, with that credential and without a default port, iff its host or a port is written; else nothing parses back |
| `HttpUri.IdentityParsesBack` | libs/usd-asset-http/src/Uri.cpp:142-153 | The name of an asset does not depend on the credential, and parses back to the URL without it under the same condition |
| `HttpUri.EmptyHostIsLost` | libs/usd-asset-http/src/Uri.cpp:65-81 | The exception occurs: a URL with a default port and no host is accepted, and not accepted once written |
| `HttpUri.ResolvedIsWellFormed` | libs/usd-asset-http/src/Uri.cpp:251-317 | A redirect target that resolves is well formed, and a relative one stays at the origin of its base |
| `HttpReferences.FullUrlIsRead` | libs/usd-asset-http/src/Uri.cpp:155-195 | A URL written with a credential and a port is read as those, the host in lower case, the path canonical, the query as written and no fragment, iff the port is between 1 and 65535 |
| `HttpReferences.PlainUrlIsRead` | libs/usd-asset-http/src/Uri.cpp:155-195 | Without them the credential is empty and the port is the one the scheme implies |
| `HttpReferences.RelativeRedirect` | libs/usd-asset-http/src/Uri.cpp:290-317 | A relative path goes where the last segment of the redirecting URL is, at the same scheme, credential, host and port |
| `HttpReferences.AbsolutePathRedirect` | libs/usd-asset-http/src/Uri.cpp:290-317 | A path from the root replaces the path |
| `HttpReferences.TailRedirect` | libs/usd-asset-http/src/Uri.cpp:258-287 | A query alone replaces the query; an empty location, or a fragment alone, leads nowhere |
| `HttpReferences.OwnAuthorityRedirect` | libs/usd-asset-http/src/Uri.cpp:272-279 | An authority of its own takes only the scheme |
| `HttpReferences.OwnSchemeRedirect` | libs/usd-asset-http/src/Uri.cpp:262-270 | A URL of its own is read whole |
| `HttpExchange.Transport.Perform` | libs/usd-asset-http/src/Transport.h:176-273 | What the network answers to all requests so far, with no more body than there is room for; nothing in the buffer moves but where the body lands |
| `HttpExchange.Intercept` | libs/usd-asset-http/src/HttpAssetReader.cpp:379-454 | Asks, and admits what is answered, as `Admission` specifies |
| `HttpExchange.AdmissionByOrigin` | libs/usd-asset-http/src/HttpAssetReader.cpp:379-454 | Asked only at the opened origin, by scheme, host and port; a declined request is `AccessDenied`, an inadmissible answer `InvalidArgument`, an admissible one is what is added |
| `HttpExchange.SendWithRetries` | libs/usd-asset-http/src/HttpAssetReader.cpp:524-580 | The inner loop: consecutive attempts at one permitted URL, each but the last answered with something worth retrying, one retry spent for each; the interceptor is asked anew before every one |
| `HttpExchange.RetryableIff` | libs/usd-asset-http/src/HttpAssetReader.cpp:254-270 | Worth retrying: 429, 502, 503 and 504, or no status and a connection not made or lost; never past the header bound |
| `HttpExchange.NextHop` | libs/usd-asset-http/src/HttpAssetReader.cpp:614-668 | A redirect is followed iff its status is 301, 302, 307 or 308, it was not cut short, the hop is allowed, and a non-empty `Location` resolves without leaving https; it leads where that resolves to |
| `HttpExchange.PerformExchange` | libs/usd-asset-http/src/HttpAssetReader.cpp:490-670 | For every behaviour of the network: requests, result, retries left and questions put to the interceptor are those of the recursive `Exchanged`; the requests form a chain of retries and redirects, at most one plus retries spent plus redirects followed; redirects are within the allowance; every request goes to a permitted host; the result is the projection of the last response or the refusal of the next request; both loops end |
| `HttpExchange.SecureStaysSecure` | libs/usd-asset-http/src/HttpAssetReader.cpp:651-664 | Every request of a chain that starts at https goes to https |
| `HttpExchange.ChainIsWellFormed` | libs/usd-asset-http/src/HttpAssetReader.cpp:640-669 | Every URL a chain of redirects reaches is well formed |
| `HttpExchange.HopsAreBounded` | libs/usd-asset-http/src/HttpAssetReader.cpp:629-638 | No request is further along than the redirects allow |
| `HttpExchange.AddedHeadersStayHome` | libs/usd-asset-http/src/HttpAssetReader.cpp:535-543 | An added header goes only to a permitted host, at the scheme, host and port of the opened origin, and is never one the protocol owns |
| `HttpOutcomes.EachRequestIsMotivated` | libs/usd-asset-http/src/HttpAssetReader.cpp:524-668 | Of two requests that follow each other in an exchange, the second is a retry iff the first was answered with something worth retrying and a retry was left, counting those spent before; else it is where the first was redirected to |
| `HttpOutcomes.ExchangeEndsProperly` | libs/usd-asset-http/src/HttpAssetReader.cpp:490-670 | An exchange ends on a response that is neither to be retried nor followed, with the code that response has in numbers, or on a refusal of the next request, which is one of two codes |
| `HttpOutcomes.ProjectedIsCode` | libs/usd-asset-http/src/HttpAssetReader.cpp:134-190 | The code of every transport error and of a redirect that is not followed |
| `HttpOutcomes.ReadChangedIff` | libs/usd-asset-http/src/HttpAssetReader.cpp:713-996 | A read reports a changed asset iff its last response came whole and shows one, and then counts nothing it delivered |
| `HttpOutcomes.UsedThen` | libs/usd-asset-http/src/HttpAssetReader.cpp:945-993 | After a response that is used the read goes on iff it brought something, or was cut short by the server or the connection; a deadline, nothing at all and every other error end it with their own codes |
| `HttpOutcomes.ShortThen` | libs/usd-asset-http/src/HttpAssetReader.cpp:756-776 | A resume costs a retry; without one a short read ends as a network error or an invalid response, by what cut it short |
| `HttpReader.JudgeResponse` | libs/usd-asset-http/src/HttpAssetReader.cpp:792-971 | Computes the specified judgement of one response, which is a revision change iff the response shows one |
| `HttpReader.ChangedIff` | libs/usd-asset-http/src/HttpAssetReader.cpp:792-971 | For every bound, response and window: the judgement is a changed asset, with everything forgotten, iff the status is 200, 206 or 416 and the headers carry another validator of the captured kind or state another size where that status states one; nothing else forgets |
| `HttpReader.RefusedByStatus` | libs/usd-asset-http/src/HttpAssetReader.cpp:196-239 | Every other refusal by its status: 404 and 410, 401 and 403, 405 and 501, 429 and the other 5xx, a whole 200, an unframed 206, a 416, and the rest |
| `HttpReader.AcceptedIff` | libs/usd-asset-http/src/HttpAssetReader.cpp:887-971 | A response is used iff it is a 206 that shows no change, frames exactly the window without contradicting itself, and did not run over |
| `HttpReader.ByteRangeAsksForWindow` | libs/usd-asset-http/src/HttpAssetReader.cpp:779-789 | The range header of a request, read as ranges are, is exactly the window |
| `HttpReader.AcceptedIsSound` | libs/usd-asset-http/src/HttpAssetReader.cpp:887-971 | An accepted response is a 206 that contradicts neither the validator nor the size bound at open and frames exactly the window asked for |
| `HttpReader.TiledIsOneRevision` | libs/usd-asset-http/src/HttpAssetReader.cpp:756-993 | If the server honours `If-Range` (section 13.1.5 of RFC 9110) and equal strong tags mean equal bytes, bodies laid end to end are of the revision bound at open, however often the server republished in between |
| `HttpAssetReaders.HttpAssetReader.Attempt` | libs/usd-asset-http/src/HttpAssetReader.cpp:779-789 | One exchange for exactly what is left, as `Exchanged` gives it, guarded by the bound validator, writing nowhere but there |
| `HttpAssetReaders.HttpAssetReader.Round` | libs/usd-asset-http/src/HttpAssetReader.cpp:779-993 | One pass of the loop extends what is delivered, or fails for the reason its exchange shows, or may resume |
| `HttpAssetReaders.HttpAssetReader.Transfer` | libs/usd-asset-http/src/HttpAssetReader.cpp:741-995 | The loop ends with the requests, count and code of the recursive `Fetched`; retries and resumes together stay within one budget; what is delivered is tiled by accepted responses, each starting where the last stopped |
| `HttpAssetReaders.HttpAssetReader.Read` | libs/usd-asset-http/src/HttpAssetReader.cpp:713-996 | The requests, count and code of the recursive `Fetched`; at most the attempts allowed plus the redirects followed; success means the whole range; a failure is explained by the last exchange, and is a changed asset iff the last response shows it; an overflow or an empty range costs no request; nothing outside the range's place in the buffer moves, and no accepted byte is overwritten |
| `HttpAssetReaders.OkReadIsPlainRead` | libs/usd-asset-http/src/HttpAssetReader.cpp:713-996 | On a strong validator, a successful read is the plain read of the revision captured at open, whatever was published between its requests |
| `HttpAssetReaders.Open` | libs/usd-asset-http/src/HttpAssetReader.cpp:1001-1101 | At most the attempts allowed plus the redirects allowed; a reader is returned iff a 200 states one length and advertises byte ranges, bound to that length, that validator and the URL that answered |
| `HttpAssetReaders.OpenCodeByStatus` | libs/usd-asset-http/src/HttpAssetReader.cpp:1032-1090 | An open succeeds iff a 200 states one length and lists byte ranges; every other status is refused as its own code |
| `HttpRequestBound.ExchangeIsBounded` | libs/usd-asset-http/src/HttpAssetReader.cpp:490-670 | No network costs an exchange more than one request, the retries it spends and the redirects it has left |
| `HttpRequestBound.ReadIsBounded` | libs/usd-asset-http/src/HttpAssetReader.cpp:741-995 | No network costs a read more than attempts times one more than the redirects allowed |
| `HttpRequestBound.WorstExchange` | libs/usd-asset-http/src/HttpAssetReader.cpp:490-670 | A network that is busy until the retries are spent and redirects ever after costs an exchange one request, every retry and every redirect allowed |
| `HttpRequestBound.WorstRead` | libs/usd-asset-http/src/HttpAssetReader.cpp:741-995 | A network that redirects as often as it is followed and then cuts the body off costs a read attempts times one more than the redirects allowed |
| `HttpRequestBound.ExchangeSumIff` | libs/usd-asset-http/src/HttpAssetReader.cpp:482-484 | `maxRedirects + maxAttempts` bounds the requests of every exchange iff `0 <= maxRedirects` and `1 <= maxAttempts`; the bound needs no assumption on the options, the failure only that they refuse nothing |
| `HttpRequestBound.ReadSumIff` | libs/usd-asset-http/src/HttpAssetReader.cpp:482-484 | `maxRedirects + maxAttempts` bounds the requests of every read that transfers anything iff `0 <= maxRedirects`, `1 <= maxAttempts` and one of the two is an equality; the bound needs no assumption on the options, the failure only that they refuse nothing |
| `HttpRequestBound.PlainSumFails` | libs/usd-asset-http/src/HttpAssetReader.cpp:482-484 | The sum fails for exchanges at (-1, 1) and (0, 0), and at (1, 2) for reads but not for exchanges |
| `Checksum.Fnv1a` | libs/usd-asset-cache/src/DiskBlockStore.cpp:96-104 | The loop computes the specified hash |
| `Checksum.KnownHashes` | libs/usd-asset-cache/src/DiskBlockStore.cpp:90-106 | The published values for no bytes and for one letter |
| `Checksum.ProductIsInjective` | libs/usd-asset-cache/src/DiskBlockStore.cpp:101-101 | Multiplying by the FNV prime loses nothing modulo 2^64 |
| `Checksum.FnvCatchesSubstitution` | libs/usd-asset-cache/src/DiskBlockStore.cpp:96-104 | Replacing any one byte by another changes the hash |
| `Checksum.AppendLittleEndian` | libs/usd-asset-cache/src/DiskBlockStore.cpp:108-118 | The loops append the specified word |
| `Checksum.ReadLittleEndian` | libs/usd-asset-cache/src/DiskBlockStore.cpp:120-134 | The loops compute the specified number |
| `Checksum.NumberOfWord` | libs/usd-asset-cache/src/DiskBlockStore.cpp:108-134 | Reading a written word gives the number back |
| `Checksum.NumberIsInjective` | libs/usd-asset-cache/src/DiskBlockStore.cpp:120-134 | Different words of one width are different numbers |
| `EntryCodec.EncodeEntry` | libs/usd-asset-cache/src/DiskBlockStore.cpp:219-237 | Assembles the specified entry |
| `EntryCodec.DecodeEntry` | libs/usd-asset-cache/src/DiskBlockStore.cpp:254-315 | Computes the specified outcome |
| `EntryCodec.RoundTrip` | libs/usd-asset-cache/src/DiskBlockStore.cpp:219-315 | An encoded entry answers its own key and length with its own bytes |
| `EntryCodec.OnlyEncodedEntriesDecode` | libs/usd-asset-cache/src/DiskBlockStore.cpp:254-315 | What decodes has the length asked for and is the encoding of what it returns, iff its reserved word is zero |
| `EntryCodec.SubstitutionIsCorrupt` | libs/usd-asset-cache/src/DiskBlockStore.cpp:254-315 | Any intact file with any one byte replaced decodes as corrupt under every key |
| `EntryCodec.ResizingIsCorrupt` | libs/usd-asset-cache/src/DiskBlockStore.cpp:277-286 | Every proper prefix and every proper extension of an intact file decodes as corrupt under every key |
| `EntryCodec.KeyImageIsInjective` | libs/usd-asset-cache/src/DiskBlockStore.cpp:139-149 | Different keys have different images |
| `DiskSweep.CollectEntries` | libs/usd-asset-cache/src/DiskBlockStore.cpp:486-532 | The walk removes stale temporaries and adds up exactly the rest |
| `DiskSweep.TrimToBudget` | libs/usd-asset-cache/src/DiskBlockStore.cpp:535-560 | Oldest first: nothing removed is newer than a removable file kept, the last removal was needed, and the target is reached or only stuck files are left |
| `DiskSweep.TrimmedFits` | libs/usd-asset-cache/src/DiskBlockStore.cpp:535-560 | When removals succeed, what is kept fits the budget |
| `DiskSweep.TrimmedNoFurther` | libs/usd-asset-cache/src/DiskBlockStore.cpp:535-560 | Nothing goes unless the directory is over budget, and with the last file that went it was over seven eighths |
| `DiskSweep.StaleIff` | libs/usd-asset-cache/src/DiskBlockStore.cpp:486-532 | A temporary is stale an hour after it was written; an entry never is |
| `DiskSweep.TrimKeepsNewest` | libs/usd-asset-cache/src/DiskBlockStore.cpp:535-560 | A strictly newest file of at most a quarter of the budget is kept |
| `DiskBlockStores.LoadReturnsLatest` | libs/usd-asset-cache/src/DiskBlockStore.cpp:630-682 | Through any history of stores, loads, sweeps, clears, reopenings, losses and detected damage, under arbitrary name collisions, a load that succeeds returns the bytes most recently stored under exactly that key, of exactly that length |
| `DiskBlockStores.LoadRemovesOnlyLitter` | libs/usd-asset-cache/src/DiskBlockStore.cpp:630-682 | For every key, length and directory: a load keeps every intact file as it is, and removes the file under its own name iff it read it and it is not intact |
| `DiskBlockStores.SweepDueIff` | libs/usd-asset-cache/src/DiskBlockStore.cpp:720-805 | A store sweeps the first time and again once an eighth of the budget, or a mebibyte, was written; the budget is at least a mebibyte and four of the largest entry |
| `PersistentTier.BackedIsTrue` | libs/usd-asset-cache/src/CachedAssetReader.cpp:344-356 | Through any history of a directory that was given true blocks, any map of blocks its loads would answer with holds true blocks only |
| `DiskBlockStores.RunStaysFaithful` | libs/usd-asset-cache/src/DiskBlockStore.cpp:630-805 | In every reachable directory each intact file is the latest entry of a key that names it |
| `DiskBudget.StoreStaysWithinBudget` | libs/usd-asset-cache/src/DiskBlockStore.cpp:770-790 | In every run in which removals succeed, after every published store the directory is smaller than the effective budget plus one sweep interval |
| `DiskBudget.RunSparesNewestOwn` | libs/usd-asset-cache/src/DiskBlockStore.cpp:435-463 | No sweep deletes an entry this store published while it is the strictly newest file |
| `DiskBudget.StoreThenLoad` | libs/usd-asset-cache/src/DiskBlockStore.cpp:684-790 | An entry stored with the clock ahead of the directory loads afterwards, sweep or no sweep |
| `DiskBudget.StoreThenAnyLoads` | libs/usd-asset-cache/src/DiskBlockStore.cpp:630-805 | And it still loads after any number of loads of any keys and lengths, refused stores and reopenings |
| `DiskBlockStoreObjects.DiskBlockStore.constructor` | libs/usd-asset-cache/src/DiskBlockStore.cpp:381-416 | A store opens on whatever the directory holds, believing nothing about it |
| `DiskBlockStoreObjects.DiskBlockStore.Load` | libs/usd-asset-cache/src/DiskBlockStore.cpp:630-682 | Finds what the specification finds; every intact file stays, and what goes is a file it read under its own name that is not intact |
| `DiskBlockStoreObjects.DiskBlockStore.RunSweep` | libs/usd-asset-cache/src/DiskBlockStore.cpp:474-575 | The two walks leave a directory the sweep specification allows, and the count of what they left |
| `DiskBlockStoreObjects.DiskBlockStore.Store` | libs/usd-asset-cache/src/DiskBlockStore.cpp:684-805 | Publishes iff the tier is enabled, the validator persistable, the payload between one byte and 64 MiB and the rename done; then the entry is there and a due sweep has run |
| `DiskBlockStoreObjects.DiskBlockStore.Clear` | libs/usd-asset-cache/src/DiskBlockStore.cpp:792-805 | Leaves an empty directory and nothing believed about it |
| `DotSegments.RemoveDotSegmentsStack` | libs/usd-asset-http/src/Uri.cpp:197-249 | The segment stack computes the canonical path of every absolute path |
| `DotSegments.RemoveDotSegmentsRewriting` | plugins/http-resolver/src/Identifier.cpp:132-162 | The literal rewriting loop computes the canonical path of every absolute path, and leaves the empty path empty |
| `DotSegments.CanonicalIsFixed` | libs/usd-asset-http/src/Uri.cpp:197-249 | The canonical path is absolute, holds no dot segment and is its own canonical path |
| `DotSegments.RewritingIsCanonical` | plugins/http-resolver/src/Identifier.cpp:132-162 | For every absolute path the rewriting form gives the same path as the stack form |
| `RelativeDotSegments.FormsAgreeIff` | libs/usd-asset-http/src/Uri.cpp:198-200 | On every path, absolute or not, the stack and the rewriting agree iff the path is absolute or no `..` takes back the last segment left |
| `RelativeDotSegments.ParentOfFirstDiffers` | libs/usd-asset-http/src/Uri.cpp:198-200 | They differ on every relative path that starts with one ordinary segment and then `..`, whatever follows |
| `RelativeDotSegments.FormsDifferOnRelativePath` | libs/usd-asset-http/src/Uri.cpp:198-200 | They do differ: on `a/..` the stack yields nothing and the rewriting a slash |
| `PercentEncoding.NormalizePercentEncoding` | plugins/http-resolver/src/Identifier.cpp:98-123 | The loop computes the normal form, and leaves text in normal form alone |
| `PercentEncoding.NormalizedIsEncoded` | plugins/http-resolver/src/Identifier.cpp:98-123 | In the normal form of any byte string every escape is needed and upper case, and every other character may stand as it is |
| `PercentEncoding.EncodedIsFixed` | plugins/http-resolver/src/Identifier.cpp:98-123 | Text in normal form is its own normal form |
| `PercentMeaning.NormalizedMeansTheSame` | plugins/http-resolver/src/Identifier.cpp:98-123 | Normalization keeps the bytes every text means |
| `PercentMeaning.KeptCharacters` | plugins/http-resolver/src/Identifier.cpp:60-96 | Which characters stand for themselves in a path and in a host |
| `PercentMeaning.DecodedCharacters` | plugins/http-resolver/src/Identifier.cpp:98-123 | Which escapes are undone |
| `PercentMeaning.HexDigitsAreRead` | plugins/http-resolver/src/Identifier.cpp:98-123 | Digits of both cases are read as their value |
| `PercentEncoding.NormalPathIsFixed` | plugins/http-resolver/src/Identifier.cpp:297-317 | Decoding and dot-segment removal together reach a fixed point in one pass |
| `Identifier.ParsePort` | plugins/http-resolver/src/Identifier.cpp:274-285 | The digit loop accepts exactly the numbers a port may be |
| `IdentifierNormalForm.AuthorityIsFixedIff` | plugins/http-resolver/src/Identifier.cpp:233-289 | A normalized authority normalizes to itself iff it is settled: dropping a default port leaves no tail that would be read as another |
| `IdentifierFixedPoint.IdentifierSplits` | plugins/http-resolver/src/Identifier.cpp:335-389 | A non-empty identifier splits into its own normalized scheme, authority, path and query |
| `IdentifierReferences.RelativePathIsMerged` | plugins/http-resolver/src/Identifier.cpp:320-384 | On the texts: a reference with a relative path, next to an http or https anchor, names what the anchor up to its last slash followed by the reference names alone |
| `IdentifierReferences.RelativePathIsRooted` | plugins/http-resolver/src/Identifier.cpp:320-384 | And goes under the root when the anchor has no path |
| `IdentifierReferences.AbsolutePathKeepsOrigin` | plugins/http-resolver/src/Identifier.cpp:376-384 | A path from the root names what it names at the anchor's origin |
| `IdentifierReferences.TailAloneKeepsPath` | plugins/http-resolver/src/Identifier.cpp:364-375 | A query alone replaces the anchor's, a fragment alone changes nothing |
| `IdentifierReferences.OwnAuthorityKeepsScheme` | plugins/http-resolver/src/Identifier.cpp:352-360 | A reference with its own authority takes only the anchor's scheme |
| `IdentifierReferences.OwnSchemeIgnoresAnchor` | plugins/http-resolver/src/Identifier.cpp:336-341 | A URL with its own scheme names the same next to every anchor |
| `IdentifierReferences.NoAnchorNamesNothing` | plugins/http-resolver/src/Identifier.cpp:343-351 | Without a remote anchor a relative reference names nothing |
| `IdentifierReferences.NameOfUrl` | plugins/http-resolver/src/Identifier.cpp:295-318 | The name of a URL, part by part: scheme and host in lower case, no credential, no implied port, the path normalized, the query as written, no fragment |
| `IdentifierReferences.PlainPathIsKept` | plugins/http-resolver/src/Identifier.cpp:295-318 | A path of unreserved characters without dot segments is kept as it is |
| `IdentifierFixedPoint.IdentifierIsFixedIff` | plugins/http-resolver/src/Identifier.cpp:335-389 | For every reference and anchor, a non-empty result is a fixed point iff the effective authority is settled |
| `IdentifierFixedPoint.OneColonIsSettled` | plugins/http-resolver/src/Identifier.cpp:233-289 | An authority with at most one colon and no brackets is settled |
| `IdentifierFixedPoint.BracketedIsSettled` | plugins/http-resolver/src/Identifier.cpp:233-289 | A bracketed host is settled |
| `IdentifierFixedPoint.InnerBracketsAreNotSettled` | plugins/http-resolver/src/Identifier.cpp:233-289 | `a[:]:80` has one colon outside brackets and is not settled |
| `IdentifierFixedPoint.UnsettledBreaksIdempotence` | plugins/http-resolver/src/Identifier.cpp:335-389 | Every unsettled authority does break idempotence |
| `IdentityLatch.HttpResolver.constructor` | plugins/http-resolver/src/HttpResolver.h:395-419 | A new resolver remembers nothing |
| `IdentityLatch.HttpResolver.RememberIdentity` | plugins/http-resolver/src/HttpResolver.cpp:443-488 | Reports contradiction iff two validators ever remembered for the identifier differ |
| `IdentityLatch.HttpResolver.KnownIdentity` | plugins/http-resolver/src/HttpResolver.cpp:490-514 | Answers iff the table still holds the identifier and the policy covers one it was reached under |
| `IdentityLatch.HttpResolver.IdentityFor` | plugins/http-resolver/src/HttpResolver.cpp:516-567 | Opens and remembers only when nothing is known and the caller may open |
| `IdentityLatch.HttpResolver.AssetVersion` | plugins/http-resolver/src/HttpResolver.cpp:302-352 | Opens the asset only if nothing is known of it and there is a resolved path; the version is not empty iff what is then known is fit to key on, and is the value of that one strong validator |
| `IdentityLatch.DropOldest` | plugins/http-resolver/src/HttpResolver.cpp:481-484 | The loop drops the oldest answers beyond the bound |
| `IdentityLatch.ContradictedIffDiffered` | plugins/http-resolver/src/HttpResolver.cpp:452-464 | Over every history: a fingerprint iff ever opened, holding the last validator, contradicted iff two ever differed, whatever the bounded table dropped |
| `IdentityLatch.AnswersAreCurrent` | plugins/http-resolver/src/HttpResolver.cpp:467-485 | The queue lists exactly the answers held, within the bound, and each answer is the latest metadata |
| `IdentityLatch.KnownIffReached` | plugins/http-resolver/src/HttpResolver.cpp:490-514 | Over every history: an identifier is answered iff some open of it, since its answer has been held, was made under no class of address the asker may not use |
| `IdentityLatch.FewAreKept` | plugins/http-resolver/src/HttpResolver.h:385-393 | Up to 512 assets nothing is forgotten |
| `IdentityLatch.OldestGoesFirst` | plugins/http-resolver/src/HttpResolver.cpp:467-485 | What was just opened is held, and beyond the bound the one remembered longest goes |
| `IdentityLatch.VersionIffOneStrongValidator` | plugins/http-resolver/src/Identity.cpp:10-51 | A published version is not empty iff the names are not, the validator is strong and every validator seen is that one |
| `IdentityLatch.KnownIsLatest` | plugins/http-resolver/src/HttpResolver.cpp:490-514 | What is told of an identifier is the latest metadata of it, contradicted iff two validators ever differed |
| `IdentityLatch.LatestVersionIffKeyable` | plugins/http-resolver/src/Identity.cpp:10-51 | A version is published iff the names are not empty, the latest validator is strong and every validator ever seen is that one, and it is its value |
| `IdentityLatch.PublishedAs` | plugins/http-resolver/src/Identity.cpp:10-51 | The stability published: stable iff reusable, unstable for a weak or contradicted validator, unavailable without one |
| `IdentityLatch.ContradictionIsForever` | plugins/http-resolver/src/Identity.cpp:28-32 | Nothing opened later makes a contradicted identity reusable |
| `Configuration.ParseCount` | plugins/http-resolver/src/Configuration.cpp:36-62 | Accepts exactly the digit strings whose value is in the range |
| `Configuration.ParseDestinations` | plugins/http-resolver/src/Configuration.cpp:157-212 | Computes the set the list names; one unknown or empty name refuses the whole |
| `Configuration.PrintedIsRead` | plugins/http-resolver/src/Configuration.cpp:36-212 | The one spelling of a value read from any text reads as the same value and fits between separators |
| `Configuration.AssignEntries` | plugins/http-resolver/src/Configuration.cpp:452-494 | The loop keeps the last word on each setting, and reports iff an entry names no setting of a context |
| `Configuration.OverridesFrom` | plugins/http-resolver/src/Configuration.cpp:435-543 | Keeps exactly the settings whose last value reads, in canonical spelling, and reports nothing iff nothing was refused |
| `Configuration.CanonicalContextString` | plugins/http-resolver/src/Configuration.cpp:545-554 | Prints the entries in the order of their names |
| `Configuration.CanonicalTextReadsBack` | plugins/http-resolver/src/Configuration.cpp:435-554 | For every text: the canonical print of its overrides parses to the same overrides with nothing refused |
| `Configuration.RespellingChangesNothing` | plugins/http-resolver/src/Configuration.cpp:513-575 | Over every environment, respelling accepted values changes no setting in force |
| `ConfigurationPrecedence.LastWordCounts` | plugins/http-resolver/src/Configuration.cpp:452-575 | Adding an entry to any context text: its setting takes the value if that reads, over whatever the text and the environment say; if not, the environment's word counts again; other settings are untouched |
| `ConfigurationPrecedence.SilenceLeavesEnvironment` | plugins/http-resolver/src/Configuration.cpp:565-575 | An empty context leaves every setting to the environment, and a word that does not read to the default |
| `ConfigurationPrecedence.Numbers` | plugins/http-resolver/src/Configuration.cpp:272-380 | Name, least, greatest and default of every number |
| `ConfigurationPrecedence.ListNamesItsItems` | plugins/http-resolver/src/Configuration.cpp:157-212 | A destination list that reads holds exactly the classes it names |
| `ConfigurationPrecedence.SettingsAreInOrder` | plugins/http-resolver/src/Configuration.cpp:545-554 | Settings are printed in the order of their names |
| `LatencyHistograms.BucketFor` | libs/usd-asset-io/src/Metrics.cpp:22-33 | The doubling loop finds the specified bucket |
| `LatencyHistograms.BucketUpperBound` | libs/usd-asset-io/src/Metrics.cpp:35-44 | The loop computes the bound of a bucket |
| `LatencyHistograms.BucketHolds` | libs/usd-asset-io/src/Metrics.cpp:22-44 | A value is not above its bucket's bound, save in the last bucket, and is more than half of it |
| `LatencyHistograms.BoundHoldsBelowTop` | libs/usd-asset-io/src/Metrics.cpp:22-44 | A bound covers its value iff the value is below 2^40 |
| `LatencyHistograms.ReachingIsItsBucket` | libs/usd-asset-io/src/Metrics.cpp:120-136 | The scan stops at the bucket of the exact order statistic |
| `LatencyHistograms.ReportedBoundsOrderStatistic` | libs/usd-asset-io/src/Metrics.cpp:97-145 | For every list of samples and rank: reported is below twice the exact order statistic, zero with it, at most the maximum, and not below it iff it is below 2^40 |
| `LatencyHistograms.RankIsRank` | libs/usd-asset-io/src/Metrics.cpp:109-111 | The rank is the ceiling of its percentage and lies within the count |
| `LatencyHistograms.LatencyHistogram.constructor` | libs/usd-asset-io/src/Metrics.cpp:84-88 | An empty histogram |
| `LatencyHistograms.LatencyHistogram.Record` | libs/usd-asset-io/src/Metrics.cpp:90-95 | The counters describe the samples so far and the new one |
| `LatencyHistograms.LatencyHistogram.Fold` | libs/usd-asset-io/src/Metrics.cpp:155-163 | The counters describe the samples of both, also when both are one |
| `LatencyHistograms.LatencyHistogram.Snapshot` | libs/usd-asset-io/src/Metrics.cpp:97-145 | Count, sum, maximum and the three quantiles of every sample recorded or folded in |

## Left out

- `ReadCached` is a step system and not one method with loops, because other reads run between its calls into the
  store: each loop is a phase, and a step is one call. Update in place of the destination is a sequence there; only
  `CopyOverlap` writes an array.
- Waiting on a condition variable: one turn of the wait loop is a step that may be taken once the entry is no longer
  pending. Spurious wake-ups and lock order are not modelled; each critical section is atomic.
- The inner reader of the cache: an `Ok` of it is taken to deliver the true bytes; `OkReadIsPlainRead` is the
  corresponding result for the HTTP reader.
- The hash of a key is an arbitrary function into the stripes; SHA-256 is an arbitrary function into 32 bytes, required
  to tell apart only the keys in use.
- DiskBlockStores.LoadReturnsLatest: damage is any change that leaves a file not intact; that one substitution,
  truncation or extension of an intact file is such a change is proved; several changes at once can defeat a checksum.
- Sweeps concurrent with stores, and the epoch that discards their count: runs of the disk tier are sequential.
- Statistics counters of the disk tier, its directory layout, permissions and temporary files of its own writes.
- `ClearForTesting`, reconfiguration of the process-wide stores, allocation failure and memory order.
- The local backend and the libcurl transport: system calls. The transport is its contract.
- Classification of addresses: a policy is a predicate on the host as spelled, or the set of classes it permits.
- A null destination buffer of the HTTP reader, message text, elision of secrets, timeouts' values and user agents.
- HttpAssetReaders.HttpAssetReader.Read: bytes are promised of one revision only on a strong validator, through
  `OkReadIsPlainRead`; with a weak one or none, only that lengths and the validators seen agree.
- Warnings about adjusted configuration values and repeated entries; only refusals are modelled.
- The persistent tier's and cache's own environment variables: they are not a context's to set.
- The table of retained opens, scoped caches and the OpenUSD types around them.
- Counters of the histogram as 64-bit atomics: they are numbers, updated one call at a time.
