/**
 The persistent tier: entries in a directory, named by part of a digest and proved by the whole of it.

 The digest, the naming and the clock are the world's; names may collide. Between calls the world may lose a file,
 damage it in a way the format detects, or reopen the store on the directory it left.
 */
module DiskBlockStores {
  import opened Basics
  import opened Arithmetic
  import opened EntryCodec
  import opened DiskSweep

  const MIN_BUDGET: nat := 0x10_0000
  const MIN_BUDGET_ENTRIES: nat := 4

  const ENTRY_SUFFIX := ".blk"

  datatype Config = Config(digestOf: seq<byte> -> Digest, stemOf: Digest -> string, budget: nat, enabled: bool) {
    function Digest(key: DiskKey): Digest { digestOf(KeyImage(key)) }

    function Name(key: DiskKey): (name: Name)
      ensures !IsTemporary(name)
    {
      var name := stemOf(Digest(key)) + ENTRY_SUFFIX;
      assert name[|name| - 4..] == ENTRY_SUFFIX && ENTRY_SUFFIX[1] != TEMP_SUFFIX[1];
      name
    }

    function Wanted(key: DiskKey, length: nat): Wanted {
      EntryCodec.Wanted(Digest(key), key.blockSize, key.index, length)
    }

    function Entry(key: DiskKey, payload: seq<byte>): seq<byte> {
      Encoded(key.blockSize, key.index, Digest(key), payload)
    }
  }

  /** The directory, and what the store believes about it. */
  datatype Disk = Disk(files: Directory, swept: bool, known: nat, since: nat, largest: nat)

  function Opened(files: Directory): Disk { Disk(files, false, 0, 0, 0) }

  /** The host's budget, unless that cannot hold a few of the largest entry written. */
  function EffectiveBudget(c: Config, d: Disk): nat {
    Max(Max(c.budget, MIN_BUDGET), d.largest * MIN_BUDGET_ENTRIES)
  }

  function SweepInterval(c: Config, d: Disk): nat { Max(EffectiveBudget(c, d) / 8, MIN_BUDGET) }

  // ----- one call ----------------------------------------------------------

  predicate Storable(length: nat) { 0 < length <= MAX_PAYLOAD }

  /** The file a load gets to see: present, no larger than an entry can be, and readable. */
  predicate Seen(c: Config, d: Disk, key: DiskKey, readable: bool) {
    readable && c.Name(key) in d.files && |d.files[c.Name(key)].bytes| <= HEADER + MAX_PAYLOAD
  }

  function Found(c: Config, d: Disk, key: DiskKey, length: nat, readable: bool): Outcome {
    if Storable(length) && c.enabled && Seen(c, d, key, readable)
    then Decoded(d.files[c.Name(key)].bytes, c.Wanted(key, length)) else Corrupt
  }

  function AfterLoad(c: Config, d: Disk, key: DiskKey, length: nat, readable: bool): Disk {
    if Storable(length) && c.enabled && Seen(c, d, key, readable) && Found(c, d, key, length, readable) == Corrupt
    then d.(files := d.files - {c.Name(key)}) else d
  }

  /** A load reads the file under its key's name, if it may and the file is no larger than an entry can be. */
  predicate ReadByLoad(c: Config, d: Disk, key: DiskKey, length: nat, readable: bool) {
    && c.enabled && readable && 0 < length <= 0x400_0000
    && c.Name(key) in d.files && |d.files[c.Name(key)].bytes| <= 88 + 0x400_0000
  }

  /**
   What a load may delete: nothing but the file under its own name, and that exactly if it was read and is not intact.
   Another key's entry and an entry of another length stay where they are.
   */
  lemma LoadRemovesOnlyLitter(c: Config, d: Disk, key: DiskKey, length: nat, readable: bool)
    ensures var d', name := AfterLoad(c, d, key, length, readable), c.Name(key);
            && d' == d.(files := d'.files) && PartOf(d'.files, d.files)
            && (forall other :: other in d.files && other != name ==> other in d'.files)
            && (name in d.files && name !in d'.files <==>
                  ReadByLoad(c, d, key, length, readable) && !Intact(d.files[name].bytes))
            && (forall other :: other in d.files && Intact(d.files[other].bytes) ==> other in d'.files)
  {
    hide Intact;
  }

  predicate Accepts(c: Config, persistable: bool, payload: seq<byte>, renamed: bool) {
    Storable(|payload|) && c.enabled && persistable && renamed
  }

  function AfterWrite(c: Config, d: Disk, key: DiskKey, payload: seq<byte>, now: int): Disk {
    d.(files := d.files[c.Name(key) := File(c.Entry(key, payload), now)],
       since := d.since + HEADER + |payload|,
       largest := Max(d.largest, HEADER + |payload|))
  }

  predicate SweepDue(c: Config, d: Disk) { !d.swept || d.since >= SweepInterval(c, d) }

  /** A store sweeps the first time, and again once an eighth of the budget, or a megabyte, has been written. */
  lemma SweepDueIff(c: Config, d: Disk)
    ensures var budget := Max(Max(c.budget, 0x10_0000), 4 * d.largest);
            EffectiveBudget(c, d) == budget && (SweepDue(c, d) <==> !d.swept || d.since >= Max(budget / 8, 0x10_0000))
  {
  }

  /** A sweep that could not remove the files in `stuck`. */
  ghost predicate Swept(c: Config, d: Disk, d': Disk, stuck: set<Name>, now: int) {
    && PartOf(d'.files, d.files)
    && (forall name :: name in d.files && IsStale(name, d.files[name], now) ==> (name in d'.files <==> name in stuck))
    && TrimmedTo(Live(d.files, now), Live(d'.files, now), stuck, EffectiveBudget(c, d))
    && d' == Disk(d'.files, true, Total(Live(d'.files, now)), 0, d.largest)
  }

  ghost predicate Stored(c: Config, d: Disk, d': Disk, key: DiskKey, payload: seq<byte>, now: int, stuck: set<Name>) {
    var w := AfterWrite(c, d, key, payload, now);
    if SweepDue(c, w) then Swept(c, w, d', stuck, now) else d' == w
  }

  // ----- histories ---------------------------------------------------------

  datatype Event =
    | Store(key: DiskKey, persistable: bool, payload: seq<byte>, renamed: bool, now: int, stuck: set<Name>)
    | Load(key: DiskKey, length: nat, readable: bool)
    | Clear
    | Reopen
    | Lose(name: Name)
    | Damage(name: Name, file: File)

  ghost predicate Next(c: Config, d: Disk, e: Event, d': Disk) {
    match e
    case Store(key, persistable, payload, renamed, now, stuck) =>
      && key.Legal()
      && if Accepts(c, persistable, payload, renamed) then Stored(c, d, d', key, payload, now, stuck) else d' == d
    case Load(key, length, readable) => key.Legal() && d' == AfterLoad(c, d, key, length, readable)
    case Clear => d' == if c.enabled then Opened(map[]) else d
    case Reopen => d' == Opened(d.files)
    case Lose(name) => d' == d.(files := d.files - {name})
    case Damage(name, file) =>
      && d' == (if name in d.files then d.(files := d.files[name := file]) else d)
      && !Intact(file.bytes)
  }

  ghost predicate IsRun(c: Config, states: seq<Disk>, events: seq<Event>) {
    && |states| == |events| + 1
    && forall i :: 0 <= i < |events| ==> Next(c, states[i], events[i], states[i + 1])
  }

  predicate StoresKey(c: Config, e: Event, key: DiskKey) {
    e.Store? && e.key == key && Accepts(c, e.persistable, e.payload, e.renamed)
  }

  /** The reference: what was most recently stored under exactly this key. */
  function Latest(c: Config, events: seq<Event>, key: DiskKey): Option<seq<byte>> {
    if events == [] then None
    else if StoresKey(c, events[|events| - 1], key) then Some(events[|events| - 1].payload)
    else Latest(c, events[..|events| - 1], key)
  }

  ghost predicate Uses(events: seq<Event>, keys: set<DiskKey>) {
    forall i :: 0 <= i < |events| && events[i].Store? ==> events[i].key in keys
  }

  /** No two of the keys in use share a digest. */
  ghost predicate CollisionFree(c: Config, keys: set<DiskKey>) {
    && (forall key :: key in keys ==> key.Legal())
    && forall k, l :: k in keys && l in keys && c.Digest(k) == c.Digest(l) ==> KeyImage(k) == KeyImage(l)
  }

  // ----- the tier refines a lossy map --------------------------------------

  /** `bytes` is the entry most recently stored under `key`. */
  ghost predicate HoldsLatest(c: Config, events: seq<Event>, bytes: seq<byte>, key: DiskKey) {
    && Latest(c, events, key).Some?
    && Storable(|Latest(c, events, key).value|)
    && bytes == c.Entry(key, Latest(c, events, key).value)
  }

  /** Every intact file is the latest entry of a key that names it. */
  ghost predicate Faithful(c: Config, events: seq<Event>, files: Directory, keys: set<DiskKey>) {
    forall name :: name in files && Intact(files[name].bytes) ==>
      exists key :: key in keys && c.Name(key) == name && HoldsLatest(c, events, files[name].bytes, key)
  }

  lemma FewerFilesStayFaithful(c: Config, events: seq<Event>, e: Event, files: Directory, fewer: Directory,
                               keys: set<DiskKey>)
    requires Faithful(c, events, files, keys) && PartOf(fewer, files)
    requires forall key :: !StoresKey(c, e, key)
    ensures Faithful(c, events + [e], fewer, keys)
  {
    hide Intact, EntryCodec.Encoded;
    assert (events + [e])[..|events|] == events;
    forall name | name in fewer && Intact(fewer[name].bytes)
      ensures exists key :: key in keys && c.Name(key) == name && HoldsLatest(c, events + [e], fewer[name].bytes, key)
    {
      var key :| key in keys && c.Name(key) == name && HoldsLatest(c, events, files[name].bytes, key);
      assert !StoresKey(c, e, key);
      assert HoldsLatest(c, events + [e], fewer[name].bytes, key);
    }
  }

  lemma WriteStaysFaithful(c: Config, events: seq<Event>, e: Event, d: Disk, keys: set<DiskKey>)
    requires Faithful(c, events, d.files, keys)
    requires e.Store? && StoresKey(c, e, e.key) && e.key in keys
    ensures Faithful(c, events + [e], AfterWrite(c, d, e.key, e.payload, e.now).files, keys)
  {
    hide Intact, EntryCodec.Encoded;
    assert (events + [e])[..|events|] == events;
    var files := AfterWrite(c, d, e.key, e.payload, e.now).files;
    forall name | name in files && Intact(files[name].bytes)
      ensures exists key :: key in keys && c.Name(key) == name && HoldsLatest(c, events + [e], files[name].bytes, key)
    {
      if name == c.Name(e.key) {
        assert HoldsLatest(c, events + [e], files[name].bytes, e.key);
      } else {
        var key :| key in keys && c.Name(key) == name && HoldsLatest(c, events, d.files[name].bytes, key);
        assert HoldsLatest(c, events + [e], files[name].bytes, key);
      }
    }
  }

  lemma ShrinkStaysFaithful(c: Config, events: seq<Event>, files: Directory, fewer: Directory, keys: set<DiskKey>)
    requires Faithful(c, events, files, keys) && PartOf(fewer, files)
    ensures Faithful(c, events, fewer, keys)
  {
    hide Intact, HoldsLatest;
    forall name | name in fewer && Intact(fewer[name].bytes)
      ensures exists key :: key in keys && c.Name(key) == name && HoldsLatest(c, events, fewer[name].bytes, key)
    {
      assert name in files && Intact(files[name].bytes);
    }
  }

  lemma NextStaysFaithful(c: Config, events: seq<Event>, d: Disk, e: Event, d': Disk, keys: set<DiskKey>)
    requires Faithful(c, events, d.files, keys) && Next(c, d, e, d')
    requires e.Store? ==> e.key in keys
    ensures Faithful(c, events + [e], d'.files, keys)
  {
    hide Intact, Faithful, TrimmedTo, HoldsLatest, Live;
    match e
    case Store(key, persistable, payload, renamed, now, stuck) =>
      if Accepts(c, persistable, payload, renamed) {
        WriteStaysFaithful(c, events, e, d, keys);
        ShrinkStaysFaithful(c, events + [e], AfterWrite(c, d, key, payload, now).files, d'.files, keys);
      } else {
        FewerFilesStayFaithful(c, events, e, d.files, d'.files, keys);
      }
    case Damage(name, file) =>
      DamageStaysFaithful(c, events, d, e, d', keys);
    case _ =>
      FewerFilesStayFaithful(c, events, e, d.files, d'.files, keys);
  }

  lemma DamageStaysFaithful(c: Config, events: seq<Event>, d: Disk, e: Event, d': Disk, keys: set<DiskKey>)
    requires Faithful(c, events, d.files, keys) && e.Damage? && Next(c, d, e, d')
    ensures Faithful(c, events + [e], d'.files, keys)
  {
    hide Intact, EntryCodec.Encoded;
    FewerFilesStayFaithful(c, events, e, d.files, d.files, keys);
    forall name | name in d'.files && Intact(d'.files[name].bytes)
      ensures exists key ::
                key in keys && c.Name(key) == name && HoldsLatest(c, events + [e], d'.files[name].bytes, key)
    {
      assert name in d.files && d.files[name] == d'.files[name];
    }
  }

  lemma {:induction false} RunStaysFaithful(c: Config, states: seq<Disk>, events: seq<Event>, keys: set<DiskKey>)
    requires IsRun(c, states, events) && states[0].files == map[] && Uses(events, keys)
    ensures Faithful(c, events, states[|events|].files, keys)
    decreases |events|
  {
    hide Next, Faithful;
    if events == [] {
      assert Faithful(c, events, map[], keys) by { EmptyIsFaithful(c, keys); }
    } else {
      var n := |events| - 1;
      RunStaysFaithful(c, states[..n + 1], events[..n], keys);
      NextStaysFaithful(c, events[..n], states[n], events[n], states[n + 1], keys);
      assert events[..n] + [events[n]] == events;
    }
  }

  lemma EmptyIsFaithful(c: Config, keys: set<DiskKey>)
    ensures Faithful(c, [], map[], keys)
  {
  }

  /**
   Whatever the directory has been through since it was empty, a load that succeeds returns the bytes most
   recently stored under exactly that key, and exactly the length asked for.
   */
  lemma LoadReturnsLatest(c: Config, states: seq<Disk>, events: seq<Event>, keys: set<DiskKey>,
                          key: DiskKey, length: nat, readable: bool)
    requires IsRun(c, states, events) && states[0].files == map[]
    requires Uses(events, keys) && key in keys && CollisionFree(c, keys)
    requires Found(c, states[|events|], key, length, readable).Ok?
    ensures Latest(c, events, key) == Some(Found(c, states[|events|], key, length, readable).bytes)
    ensures |Found(c, states[|events|], key, length, readable).bytes| == length
  {
    RunStaysFaithful(c, states, events, keys);
    var name := c.Name(key);
    var raw := states[|events|].files[name].bytes;
    IntactWhenOk(raw, c.Wanted(key, length));
    hide Intact, IsRun, Uses, Decoded, EntryCodec.Encoded, Latest;
    var stored :| stored in keys && c.Name(stored) == name && HoldsLatest(c, events, raw, stored);
    var payload := Latest(c, events, stored).value;
    EncodedLayout(stored.blockSize, stored.index, c.Digest(stored), payload);
    KeyImageIsInjective(stored, key);
  }

  lemma IntactWhenOk(raw: seq<byte>, wanted: Wanted)
    requires Decoded(raw, wanted).Ok?
    ensures Intact(raw) && raw[40..72] == wanted.digest
    ensures Decoded(raw, wanted).bytes == raw[88..] && |raw[88..]| == wanted.length
  {
  }
}
