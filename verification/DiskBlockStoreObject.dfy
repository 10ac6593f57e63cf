/** The store as the object its callers hold. */
module DiskBlockStoreObjects {
  import opened Basics
  import opened Arithmetic
  import opened EntryCodec
  import opened DiskSweep
  import opened DiskBlockStores

  class DiskBlockStore {
    const config: Config
    var files: Directory
    var swept: bool
    var knownBytes: nat
    var bytesSinceSweep: nat
    var largestEntryBytes: nat

    function State(): Disk
      reads this
    {
      Disk(files, swept, knownBytes, bytesSinceSweep, largestEntryBytes)
    }

    constructor (config: Config, directory: Directory)
      ensures this.config == config && State() == Opened(directory)
    {
      this.config, files := config, directory;
      swept, knownBytes, bytesSinceSweep, largestEntryBytes := false, 0, 0, 0;
    }

    /** A file that was read and is not an entry is this store's litter, and goes; another key's entry stays. */
    method Load(key: DiskKey, expectedLength: nat, readable: bool) returns (outcome: Outcome)
      modifies `files
      ensures outcome == Found(config, old(State()), key, expectedLength, readable)
      ensures State() == AfterLoad(config, old(State()), key, expectedLength, readable)
      ensures forall name :: name in old(files) && Intact(old(files)[name].bytes) ==>
                name in files && files[name] == old(files)[name]
      ensures forall name :: name in old(files) && name !in files ==>
                && name == config.Name(key) && !Intact(old(files)[name].bytes)
                && ReadByLoad(config, old(State()), key, expectedLength, readable)
    {
      LoadRemovesOnlyLitter(config, State(), key, expectedLength, readable);
      hide Intact, Decoded;
      if !Storable(expectedLength) || !config.enabled { return Corrupt; }
      var name := config.Name(key);
      if !readable || name !in files || |files[name].bytes| > HEADER + MAX_PAYLOAD { return Corrupt; }
      outcome := DecodeEntry(files[name].bytes, config.Wanted(key, expectedLength));
      if outcome == Corrupt { files := files - {name}; }
    }

    method RunSweep(stuck: set<Name>, now: int)
      modifies this
      ensures Swept(config, old(State()), State(), stuck, now)
    {
      var budget := EffectiveBudget(config, State());
      swept, bytesSinceSweep := true, 0;
      var walked, entries, total := CollectEntries(files, stuck, now);
      var kept, left := TrimToBudget(entries, total, stuck, budget);
      var gone := entries.Keys - kept.Keys;
      files, knownBytes := walked - gone, left;
      assert Live(files, now) == kept;
    }

    method Store(key: DiskKey, persistable: bool, payload: seq<byte>, renamed: bool, now: int, stuck: set<Name>)
      returns (published: bool)
      modifies this
      ensures published == Accepts(config, persistable, payload, renamed)
      ensures published <==> config.enabled && persistable && renamed && 0 < |payload| <= 0x400_0000
      ensures published ==> Stored(config, old(State()), State(), key, payload, now, stuck)
      ensures !published ==> State() == old(State())
    {
      if !Storable(|payload|) || !config.enabled || !persistable || !renamed { return false; }
      var encoded := EncodeEntry(key.blockSize, key.index, config.Digest(key), payload);
      files := files[config.Name(key) := File(encoded, now)];
      bytesSinceSweep := bytesSinceSweep + |encoded|;
      largestEntryBytes := Max(largestEntryBytes, |encoded|);
      assert State() == AfterWrite(config, old(State()), key, payload, now);
      if !swept || bytesSinceSweep >= SweepInterval(config, State()) { RunSweep(stuck, now); }
      return true;
    }

    method Clear()
      modifies this
      ensures State() == if config.enabled then Opened(map[]) else old(State())
    {
      if config.enabled {
        files, swept, knownBytes, bytesSinceSweep, largestEntryBytes := map[], false, 0, 0, 0;
      }
    }
  }
}
