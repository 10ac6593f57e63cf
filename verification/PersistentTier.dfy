/**
 The persistent tier under the cached reads. Reads see it as a map that may lose entries; the directory keeps it in
 files that may be lost, damaged or swept. What the files still answer for is a map of true blocks.
 */
module PersistentTier {
  import opened Basics
  import opened CachedRead
  import opened EntryCodec
  import opened ReadSteps
  import opened Stripes
  import DiskBlockStores

  /** Each payload stored is a block of the identity its key was interned as. */
  ghost predicate StoresTrue(w: World, intern: DiskKey -> Key, events: seq<DiskBlockStores.Event>) {
    forall i :: 0 <= i < |events| && events[i].Store? ==> TrueBlock(w, intern(events[i].key), events[i].payload)
  }

  lemma {:induction false} LatestIsTrue(w: World, c: DiskBlockStores.Config, intern: DiskKey -> Key,
                                        events: seq<DiskBlockStores.Event>, key: DiskKey)
    requires StoresTrue(w, intern, events) && DiskBlockStores.Latest(c, events, key).Some?
    ensures TrueBlock(w, intern(key), DiskBlockStores.Latest(c, events, key).value)
    decreases |events|
  {
    hide TrueBlock;
    var n := |events| - 1;
    if !DiskBlockStores.StoresKey(c, events[n], key) { LatestIsTrue(w, c, intern, events[..n], key); }
  }

  /** A load of the key, asking for some length, would return these bytes. */
  ghost predicate Answers(c: DiskBlockStores.Config, d: DiskBlockStores.Disk, key: DiskKey, bytes: seq<byte>) {
    DiskBlockStores.Found(c, d, key, |bytes|, true) == EntryCodec.Ok(bytes)
  }

  /** Each entry of the map is what a load of a key interned as its own returns. */
  ghost predicate Backed(c: DiskBlockStores.Config, d: DiskBlockStores.Disk, keys: set<DiskKey>, intern: DiskKey -> Key,
                         disk: map<Key, seq<byte>>)
  {
    forall k :: k in disk ==> exists key :: key in keys && intern(key) == k && Answers(c, d, key, disk[k])
  }

  /** After any history of a directory that was given true blocks, whatever it answers with is a true block. */
  lemma BackedIsTrue(w: World, c: DiskBlockStores.Config, states: seq<DiskBlockStores.Disk>,
                     events: seq<DiskBlockStores.Event>, keys: set<DiskKey>, intern: DiskKey -> Key,
                     disk: map<Key, seq<byte>>)
    requires DiskBlockStores.IsRun(c, states, events) && states[0].files == map[]
    requires DiskBlockStores.Uses(events, keys) && DiskBlockStores.CollisionFree(c, keys)
    requires StoresTrue(w, intern, events) && Backed(c, states[|events|], keys, intern, disk)
    ensures DiskTrue(w, disk)
  {
    assert |states| == |events| + 1;
    hide TrueBlock, DiskBlockStores.IsRun, DiskBlockStores.Uses, DiskBlockStores.CollisionFree, DiskBlockStores.Latest,
      DiskBlockStores.Found;
    forall k | k in disk ensures TrueBlock(w, k, disk[k]) {
      var key :| key in keys && intern(key) == k && Answers(c, states[|events|], key, disk[k]);
      DiskBlockStores.LoadReturnsLatest(c, states, events, keys, key, |disk[k]|, true);
      LatestIsTrue(w, c, intern, events, key);
    }
  }
}
