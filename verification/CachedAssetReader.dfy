/**
 The pieces of the cached reader that work in place: the list of blocks one read owns, and the copy of
 a block's covered part into the caller's buffer; and the top of a read, where its range is resolved.
 */
module CachedAssetReader {
  import opened Basics
  import opened Arithmetic
  import opened Stripes
  import opened RangeMath
  import opened BlockPlan
  import opened BlockCacheObjects
  import BlockCaches
  import CachedRead
  import CachedReadSystem

  // ----- owned blocks ------------------------------------------------------

  datatype OwnedEntry = OwnedEntry(index: nat, settled: bool)

  /** Indices not yet settled, in the order they were acquired. */
  function Unsettled(entries: seq<OwnedEntry>): seq<nat> {
    if entries == [] then []
    else (if entries[0].settled then [] else [entries[0].index]) + Unsettled(entries[1..])
  }

  lemma {:induction false} UnsettledSplits(a: seq<OwnedEntry>, b: seq<OwnedEntry>)
    ensures Unsettled(a + b) == Unsettled(a) + Unsettled(b)
  {
    if a == [] {
      assert a + b == b;
    } else {
      assert (a + b)[1..] == a[1..] + b;
      UnsettledSplits(a[1..], b);
    }
  }

  lemma {:induction false} AllSettledIsEmpty(a: seq<OwnedEntry>)
    requires forall i :: 0 <= i < |a| ==> a[i].settled
    ensures Unsettled(a) == []
  {
    if a != [] { AllSettledIsEmpty(a[1..]); }
  }

  /** Around an unsettled position, and after settling it. */
  lemma SettleAt(entries: seq<OwnedEntry>, i: nat)
    requires i < |entries| && !entries[i].settled
    ensures Unsettled(entries) == Unsettled(entries[..i]) + [entries[i].index] + Unsettled(entries[i + 1..])
    ensures Unsettled(entries[i := entries[i].(settled := true)])
         == Unsettled(entries[..i]) + Unsettled(entries[i + 1..])
  {
    var after := entries[i := entries[i].(settled := true)];
    assert entries == entries[..i] + entries[i..] && entries[i..][1..] == entries[i + 1..];
    UnsettledSplits(entries[..i], entries[i..]);
    assert after == entries[..i] + after[i..] && after[i..][1..] == entries[i + 1..];
    UnsettledSplits(entries[..i], after[i..]);
  }

  /** `blocks` with the first occurrence of `b` taken out: what settling a block by value leaves. */
  lemma {:induction false} MinusSkips(before: seq<nat>, b: nat, after: seq<nat>)
    requires b !in before
    ensures CachedRead.Minus(before + [b] + after, b) == before + after
  {
    var all := before + [b] + after;
    if before == [] {
      assert all[1..] == after && before + after == after;
    } else {
      assert all[1..] == before[1..] + [b] + after;
      MinusSkips(before[1..], b, after);
    }
  }

  lemma {:induction false} MinusAbsent(blocks: seq<nat>, b: nat)
    requires b !in blocks
    ensures CachedRead.Minus(blocks, b) == blocks
  {
    if blocks != [] { MinusAbsent(blocks[1..], b); }
  }

  /** The store after each listed block was abandoned in turn. */
  ghost function AbandonedAll(st: BlockCaches.Store, id: nat, blocks: seq<nat>): BlockCaches.Store
    requires BlockCaches.StoreValid(st)
    decreases |blocks|
  {
    if blocks == [] then st
    else
      BlockCaches.AbandonEffect(st, Key(id, blocks[0]));
      AbandonedAll(BlockCaches.Abandon(st, Key(id, blocks[0])), id, blocks[1..])
  }

  lemma AbandonFirst(st: BlockCaches.Store, id: nat, blocks: seq<nat>)
    requires BlockCaches.StoreValid(st) && blocks != []
    ensures BlockCaches.StoreValid(BlockCaches.Abandon(st, Key(id, blocks[0])))
    ensures AbandonedAll(st, id, blocks) == AbandonedAll(BlockCaches.Abandon(st, Key(id, blocks[0])), id, blocks[1..])
  {
    BlockCaches.AbandonEffect(st, Key(id, blocks[0]));
  }

  /** Afterwards none of the listed blocks is pending, and nothing else has changed. */
  lemma {:induction false} AbandonedAllReleases(st: BlockCaches.Store, id: nat, blocks: seq<nat>, k: Key)
    requires BlockCaches.StoreValid(st)
    ensures BlockCaches.StoreValid(AbandonedAll(st, id, blocks))
    ensures AbandonedAll(st, id, blocks).At(k) ==
            if k.id == id && k.block in blocks && st.At(k) == Some(Pending) then None else st.At(k)
    decreases |blocks|
  {
    assert st.HasStripes();
    hide BlockCaches.StoreValid, BlockCaches.Abandon, BlockCaches.Store.At;
    if blocks != [] {
      BlockCaches.AbandonEffect(st, Key(id, blocks[0]));
      AbandonedAllReleases(BlockCaches.Abandon(st, Key(id, blocks[0])), id, blocks[1..], k);
      assert blocks == [blocks[0]] + blocks[1..];
    }
  }

  class OwnedBlocks {
    const cache: BlockCache
    const id: nat
    var blocks: seq<OwnedEntry>
    var outstanding: nat
    var cursor: nat

    ghost function Left(): seq<nat>
      reads this
    {
      Unsettled(blocks)
    }

    ghost predicate Valid()
      reads this
    {
      outstanding == |Left()| && cursor <= |blocks| && forall i :: 0 <= i < cursor ==> blocks[i].settled
    }

    constructor (cache: BlockCache, id: nat)
      ensures Valid() && Left() == [] && this.cache == cache && this.id == id
    {
      this.cache, this.id := cache, id;
      blocks, outstanding, cursor := [], 0, 0;
    }

    method Add(block: nat)
      requires Valid()
      modifies this
      ensures Valid() && Left() == old(Left()) + [block]
    {
      UnsettledSplits(blocks, [OwnedEntry(block, false)]);
      assert Unsettled([OwnedEntry(block, false)]) == [block];
      blocks := blocks + [OwnedEntry(block, false)];
      outstanding := outstanding + 1;
    }

    method Outstanding() returns (left: seq<nat>)
      requires Valid()
      ensures left == Left()
    {
      left := [];
      for i := 0 to |blocks|
        invariant left == Unsettled(blocks[..i])
      {
        assert blocks[..i + 1] == blocks[..i] + [blocks[i]];
        UnsettledSplits(blocks[..i], [blocks[i]]);
        if !blocks[i].settled { left := left + [blocks[i].index]; }
      }
      assert blocks[..|blocks|] == blocks;
    }

    /** Moves the cursor to the first unsettled entry. */
    method SkipSettled()
      requires Valid() && Left() != []
      modifies `cursor
      ensures Valid() && cursor < |blocks| && !blocks[cursor].settled && blocks[cursor].index == Left()[0]
      ensures Unsettled(blocks[..cursor]) == []
    {
      assert blocks[..|blocks|] == blocks;
      AllSettledIsEmpty(blocks[..cursor]);
      while cursor < |blocks| && blocks[cursor].settled
        invariant Valid() && Unsettled(blocks[..cursor]) == []
      {
        cursor := cursor + 1;
        AllSettledIsEmpty(blocks[..cursor]);
      }
      SettleAt(blocks, cursor);
    }

    method Next() returns (block: nat)
      requires Valid() && Left() != []
      modifies `cursor
      ensures Valid() && block == Left()[0]
    {
      SkipSettled();
      block := blocks[cursor].index;
    }

    method MarkPublished()
      requires Valid() && Left() != []
      modifies this
      ensures Valid() && Left() == old(Left())[1..]
    {
      SkipSettled();
      SettleAt(blocks, cursor);
      blocks := blocks[cursor := blocks[cursor].(settled := true)];
      outstanding := outstanding - 1;
    }

    /** Settles by value: the first unsettled entry of that index, wherever it sits. */
    method Settle(block: nat)
      requires Valid()
      modifies `blocks, `outstanding
      ensures Valid() && Left() == CachedRead.Minus(old(Left()), block)
    {
      for i := 0 to |blocks|
        invariant Valid() && blocks == old(blocks) && outstanding == old(outstanding)
        invariant block !in Unsettled(blocks[..i])
      {
        assert blocks[..i + 1] == blocks[..i] + [blocks[i]];
        UnsettledSplits(blocks[..i], [blocks[i]]);
        if blocks[i].index == block && !blocks[i].settled {
          SettleAt(blocks, i);
          MinusSkips(Unsettled(blocks[..i]), block, Unsettled(blocks[i + 1..]));
          blocks := blocks[i := blocks[i].(settled := true)];
          outstanding := outstanding - 1;
          return;
        }
      }
      assert blocks[..|blocks|] == blocks;
      MinusAbsent(Left(), block);
    }

    /** Hands every block still owned back to the store, in order, and forgets them all. */
    method AbandonAll()
      requires Valid() && cache.Valid() && cache as object != this
      modifies this, cache`stripes
      ensures Valid() && Left() == [] && cache.Valid()
      ensures cache.Contents() == AbandonedAll(old(cache.Contents()), id, old(Left()))
    {
      hide BlockCache.Interned, BlockCache.Geometry, BlockCaches.WithinShares, BlockCaches.StoreValid,
        BlockCaches.Abandon;
      ghost var all := AbandonedAll(cache.Contents(), id, Left());
      var i := 0;
      while i < |blocks|
        invariant 0 <= i <= |blocks| == |old(blocks)| && blocks[i..] == old(blocks)[i..]
        invariant cache.Valid() && all == AbandonedAll(cache.Contents(), id, Unsettled(blocks[i..]))
      {
        assert blocks[i..][1..] == blocks[i + 1..] == old(blocks)[i + 1..];
        if blocks[i].settled {
          assert Unsettled(blocks[i..]) == Unsettled(blocks[i + 1..]);
        } else {
          assert Unsettled(blocks[i..]) == [blocks[i].index] + Unsettled(blocks[i + 1..]);
          AbandonFirst(cache.Contents(), id, Unsettled(blocks[i..]));
          var index := blocks[i].index;
          blocks := blocks[i := blocks[i].(settled := true)];
          assert blocks[i + 1..] == old(blocks)[i + 1..];
          cache.Abandon(id, index);
        }
        i := i + 1;
      }
      blocks, outstanding, cursor := [], 0, 0;
    }
  }

  // ----- copying -----------------------------------------------------------

  /**
   `CopyOverlap` in place: exactly the bytes of the block that lie in the range are copied, to where
   the range wants them, and the number copied is returned.
   */
  method CopyOverlap(dst: array<byte>, rangeOffset: nat, rangeLength: nat, blockOffset: nat, block: seq<byte>)
    returns (copied: nat)
    requires dst.Length == rangeLength
    modifies dst
    ensures forall i :: 0 <= i < dst.Length ==>
              var at := rangeOffset + i - blockOffset;
              dst[i] == if 0 <= at < |block| then block[at] else old(dst[i])
    ensures copied == Max(0, Min(rangeOffset + rangeLength, blockOffset + |block|) - Max(rangeOffset, blockOffset))
  {
    var begin := Max(rangeOffset, blockOffset);
    var end := Min(rangeOffset + rangeLength, blockOffset + |block|);
    if end <= begin { return 0; }
    for i := begin to end
      invariant forall j :: 0 <= j < dst.Length ==>
                  dst[j] == if begin <= rangeOffset + j < i then block[rangeOffset + j - blockOffset] else old(dst[j])
    {
      dst[i - rangeOffset] := block[i - blockOffset];
    }
    copied := end - begin;
  }

  /** The step system's copy is that copy. */
  lemma CopiedIsCopyOverlap(p: CachedRead.Params, dst: seq<byte>, block: nat, bytes: seq<byte>, i: nat)
    requires p.Legal() && |dst| == p.length && i < p.length
    requires |bytes| == p.Extent(block).length
    ensures |CachedRead.Copied(p, dst, block, bytes)| == |dst|
    ensures var at := p.offset + i - p.Extent(block).offset;
            CachedRead.Copied(p, dst, block, bytes)[i] == if 0 <= at < |bytes| then bytes[at] else dst[i]
  {
    hide ExtentOf;
  }

  // ----- the top of a read -------------------------------------------------

  datatype Route = Refused | Nothing | Bypass | ThroughCache(range: Range)

  function RouteOf(offset: u64, size: u64, nullBuffer: bool, assetSize: u64, bypassThreshold: nat): Route {
    var range := ResolveReadRange(offset, size, assetSize);
    if range.Overflow? then Refused
    else if size > 0 && nullBuffer then Refused
    else if range.Empty? then Nothing
    else if range.length >= bypassThreshold then Bypass
    else ThroughCache(range)
  }

  /** Which way a read goes: refused, nothing to do, around the cache from the threshold on, or through it. */
  lemma RouteByLength(offset: u64, size: u64, nullBuffer: bool, assetSize: u64, threshold: nat)
    ensures var route := RouteOf(offset, size, nullBuffer, assetSize, threshold);
            if offset + size > 0xFFFF_FFFF_FFFF_FFFF || (size > 0 && nullBuffer) then route == Refused
            else if size == 0 || offset >= assetSize then route == Nothing
            else
              var length := Min(size, assetSize - offset);
              route == if length >= threshold then Bypass else ThroughCache(Transfer(offset, length))
  {
  }

  /**
   What a caller of the cached reader sees: an in-range read that goes through the cache and completes
   holds the bytes a plain read of the asset returns, and a read that moves nothing would have moved
   nothing either way.
   */
  lemma CachedReaderAnswersLikePlainRead(w: CachedRead.World, states: seq<CachedRead.State>,
                                         actions: seq<CachedRead.Action>,
                                         i: nat, r: nat, offset: u64, size: u64, threshold: nat)
    requires CachedRead.LegalWorld(w) && CachedReadSystem.IsRun(w, states, actions) && i < |states| && r < |w.params|
    requires w.params[r].policy.assetSize <= MAX_U64
    ensures |states[i].readers| == |w.params|
    ensures var p := w.params[r];
            var asset := w.content(p.id)[..p.policy.assetSize];
            var route := RouteOf(offset, size, false, p.policy.assetSize, threshold);
            && (route == Nothing ==> PlainRead(asset, offset, size) == [])
            && (route.ThroughCache? && route.range == Transfer(p.offset, p.length)
                && states[i].readers[r].phase == CachedRead.Done(true)
                ==> states[i].readers[r].dst == PlainRead(asset, offset, size))
  {
    var p := w.params[r];
    var asset := w.content(p.id)[..p.policy.assetSize];
    ResolvedRangeIsPlainRead(asset, offset, size);
    CachedReadSystem.CompletedReadIsPlainRead(w, states, actions, i, r);
    assert p.offset + p.length <= |asset|;
    assert asset[p.offset..p.offset + p.length] == w.content(p.id)[p.offset..p.offset + p.length];
  }
}
