/**
 What sweeping guarantees over whole runs in which removals succeed: the directory stays within one interval's
 writes of the budget, and a fresh entry is never the one that pays for it.
 */
module DiskBudget {
  import opened Basics
  import opened Arithmetic
  import opened EntryCodec
  import opened DiskSweep
  import opened DiskBlockStores

  /** Removals succeed, and whatever else happens to a file does not make it grow. */
  ghost predicate Orderly(d: Disk, e: Event) {
    match e
    case Store(_, _, _, _, _, stuck) => stuck == {}
    case Damage(name, file) => name in d.files ==> |file.bytes| <= |d.files[name].bytes|
    case _ => true
  }

  ghost predicate OrderlyRun(c: Config, states: seq<Disk>, events: seq<Event>) {
    && IsRun(c, states, events)
    && forall i :: 0 <= i < |events| ==> Orderly(states[i], events[i])
  }

  /** Once swept, the directory holds no more than the last sweep left plus what was published since. */
  ghost predicate Accounted(c: Config, d: Disk) {
    d.swept ==>
      && Total(d.files) <= d.known + d.since
      && d.known <= EffectiveBudget(c, d)
      && d.since < SweepInterval(c, d)
  }

  // ----- the directory's size ----------------------------------------------

  lemma {:induction false} PartIsNoLarger(fewer: Directory, files: Directory)
    requires PartOf(fewer, files)
    ensures Total(fewer) <= Total(files)
    decreases |files|
  {
    if files != map[] {
      var name :| name in files;
      TotalWithout(files, name);
      PartIsNoLarger(fewer - {name}, files - {name});
      if name in fewer { TotalWithout(fewer, name); } else { assert fewer - {name} == fewer; }
    } else {
      assert fewer == map[];
    }
  }

  lemma WriteAddsAtMost(files: Directory, name: Name, file: File)
    ensures Total(files[name := file]) <= Total(files) + |file.bytes|
  {
    TotalWithout(files[name := file], name);
    assert files[name := file] - {name} == files - {name};
    PartIsNoLarger(files - {name}, files);
  }

  lemma ReplacementIsNoLarger(files: Directory, name: Name, file: File)
    requires name in files && |file.bytes| <= |files[name].bytes|
    ensures Total(files[name := file]) <= Total(files)
  {
    TotalWithout(files, name);
    TotalWithout(files[name := file], name);
    assert files[name := file] - {name} == files - {name};
  }

  lemma SweptIsAccounted(c: Config, d: Disk, d': Disk, now: int)
    requires Swept(c, d, d', {}, now)
    ensures Accounted(c, d') && Total(d'.files) <= EffectiveBudget(c, d')
  {
    assert Live(d'.files, now) == d'.files;
    TrimmedFits(Live(d.files, now), Live(d'.files, now), EffectiveBudget(c, d));
  }

  lemma StoredIsAccounted(c: Config, d: Disk, d': Disk, key: DiskKey, payload: seq<byte>, now: int)
    requires Accounted(c, d) && Stored(c, d, d', key, payload, now, {})
    ensures d'.swept && Accounted(c, d')
  {
    hide EntryCodec.Encoded, TrimmedTo;
    var w := AfterWrite(c, d, key, payload, now);
    if SweepDue(c, w) {
      SweptIsAccounted(c, w, d', now);
    } else {
      WriteAddsAtMost(d.files, c.Name(key), File(c.Entry(key, payload), now));
    }
  }

  lemma NextIsAccounted(c: Config, d: Disk, e: Event, d': Disk)
    requires Accounted(c, d) && Next(c, d, e, d') && Orderly(d, e)
    ensures Accounted(c, d')
  {
    hide EntryCodec.Encoded, Stored, Intact, AfterWrite;
    match e
    case Store(key, persistable, payload, renamed, now, _) =>
      if Accepts(c, persistable, payload, renamed) { StoredIsAccounted(c, d, d', key, payload, now); }
    case Damage(name, file) =>
      if name in d.files { ReplacementIsNoLarger(d.files, name, file); }
    case Load(key, length, readable) => PartIsNoLarger(d'.files, d.files);
    case Lose(name) => PartIsNoLarger(d'.files, d.files);
    case _ =>
  }

  lemma {:induction false} RunIsAccounted(c: Config, states: seq<Disk>, events: seq<Event>, i: nat)
    requires OrderlyRun(c, states, events) && !states[0].swept && i <= |events|
    ensures Accounted(c, states[i])
  {
    hide Next, Orderly;
    if i > 0 {
      RunIsAccounted(c, states, events, i - 1);
      NextIsAccounted(c, states[i - 1], events[i - 1], states[i]);
    }
  }

  /**
   Whatever the directory held when the store opened on it, after every store that publishes an entry its size is
   below the effective budget plus one interval.
   */
  lemma StoreStaysWithinBudget(c: Config, states: seq<Disk>, events: seq<Event>, i: nat)
    requires OrderlyRun(c, states, events) && !states[0].swept && i < |events|
    requires events[i].Store? && Accepts(c, events[i].persistable, events[i].payload, events[i].renamed)
    ensures Total(states[i + 1].files) < EffectiveBudget(c, states[i + 1]) + SweepInterval(c, states[i + 1])
    ensures var budget := Max(Max(c.budget, 0x10_0000), 4 * states[i + 1].largest);
            Total(states[i + 1].files) < budget + Max(budget / 8, 0x10_0000)
  {
    RunIsAccounted(c, states, events, i);
    var e := events[i];
    assert Next(c, states[i], e, states[i + 1]) && Orderly(states[i], e);
    hide Stored;
    StoredIsAccounted(c, states[i], states[i + 1], e.key, e.payload, e.now);
  }

  // ----- the newest entry --------------------------------------------------

  /** `name` is younger than every other file. */
  ghost predicate StrictlyNewest(files: Directory, name: Name) {
    && name in files
    && forall other :: other in files && other != name ==> files[other].written < files[name].written
  }

  lemma SweepSparesNewest(c: Config, d: Disk, d': Disk, now: int, name: Name)
    requires Swept(c, d, d', {}, now) && StrictlyNewest(d.files, name)
    requires !IsStale(name, d.files[name], now) && |d.files[name].bytes| <= d.largest
    ensures name in d'.files && d'.files[name] == d.files[name]
  {
    TrimKeepsNewest(Live(d.files, now), Live(d'.files, now), EffectiveBudget(c, d), name);
    assert name in Live(d'.files, now);
  }

  /** An entry written with the clock ahead of the directory is there to be loaded afterwards, sweep or no sweep. */
  lemma StoreThenLoad(c: Config, d: Disk, d': Disk, key: DiskKey, payload: seq<byte>, now: int)
    requires Storable(|payload|) && c.enabled && key.Legal()
    requires Stored(c, d, d', key, payload, now, {})
    requires forall other :: other in d.files ==> d.files[other].written < now
    ensures Found(c, d', key, |payload|, true) == Ok(payload)
  {
    var w, name := AfterWrite(c, d, key, payload, now), c.Name(key);
    if SweepDue(c, w) { SweepSparesNewest(c, w, d', now, name); }
    assert d'.files[name].bytes == c.Entry(key, payload);
    hide Decoded, Stored, Swept;
    RoundTrip(key.blockSize, key.index, c.Digest(key), payload);
  }

  /** What happens to a directory without touching the file under one name, unless that is not intact. */
  ghost predicate Leaves(c: Config, e: Event, name: Name) {
    match e
    case Load(_, _, _) => true
    case Reopen => true
    case Store(_, persistable, payload, renamed, _, _) => !Accepts(c, persistable, payload, renamed)
    case Lose(other) => other != name
    case Damage(other, _) => other != name
    case Clear => false
  }

  lemma LeftInPlace(c: Config, d: Disk, e: Event, d': Disk, name: Name)
    requires Next(c, d, e, d') && Leaves(c, e, name) && name in d.files && Intact(d.files[name].bytes)
    ensures name in d'.files && d'.files[name] == d.files[name]
  {
    hide Intact, AfterLoad;
    if e.Load? { LoadRemovesOnlyLitter(c, d, e.key, e.length, e.readable); }
  }

  lemma {:induction false} RunLeavesInPlace(c: Config, states: seq<Disk>, events: seq<Event>, name: Name, i: nat)
    requires IsRun(c, states, events) && i <= |events|
    requires forall k :: 0 <= k < |events| ==> Leaves(c, events[k], name)
    requires name in states[0].files && Intact(states[0].files[name].bytes)
    ensures name in states[i].files && states[i].files[name] == states[0].files[name]
  {
    hide Intact, Leaves, Next;
    if i > 0 {
      RunLeavesInPlace(c, states, events, name, i - 1);
      LeftInPlace(c, states[i - 1], events[i - 1], states[i], name);
    }
  }

  /**
   And it is still there after any number of loads, of this key or others, of this length or others, and after the
   store was reopened, as long as nobody else takes the file away.
   */
  lemma StoreThenAnyLoads(c: Config, d: Disk, states: seq<Disk>, events: seq<Event>, key: DiskKey, payload: seq<byte>,
                          now: int)
    requires Storable(|payload|) && c.enabled && key.Legal()
    requires IsRun(c, states, events) && forall k :: 0 <= k < |events| ==> Leaves(c, events[k], c.Name(key))
    requires Stored(c, d, states[0], key, payload, now, {})
    requires forall other :: other in d.files ==> d.files[other].written < now
    ensures Found(c, states[|events|], key, |payload|, true) == Ok(payload)
  {
    StoreThenLoad(c, d, states[0], key, payload, now);
    assert Intact(states[0].files[c.Name(key)].bytes);
    hide Intact, Decoded, IsRun, Leaves, Stored;
    RunLeavesInPlace(c, states, events, c.Name(key), |events|);
  }

  /** Nothing published since the store was opened or cleared is larger than the largest it remembers. */
  lemma {:induction false} LargestCoversOwn(c: Config, states: seq<Disk>, events: seq<Event>, i: nat, j: nat)
    requires IsRun(c, states, events) && i < j <= |events|
    requires events[i].Store? && Accepts(c, events[i].persistable, events[i].payload, events[i].renamed)
    requires forall k :: i <= k < j ==> !events[k].Clear? && !events[k].Reopen?
    ensures HEADER + |events[i].payload| <= states[j].largest
    decreases j
  {
    hide TrimmedTo, Intact, EntryCodec.Encoded;
    assert Next(c, states[j - 1], events[j - 1], states[j]);
    if j > i + 1 { LargestCoversOwn(c, states, events, i, j - 1); }
  }

  /**
   No sweep of a run deletes an entry this store published, while that entry is the strictly newest file in the
   directory the sweep walks.
   */
  lemma RunSparesNewestOwn(c: Config, states: seq<Disk>, events: seq<Event>, i: nat, j: nat)
    requires OrderlyRun(c, states, events) && i <= j < |events|
    requires events[i].Store? && Accepts(c, events[i].persistable, events[i].payload, events[i].renamed)
    requires forall k :: i <= k <= j ==> !events[k].Clear? && !events[k].Reopen?
    requires events[j].Store? && Accepts(c, events[j].persistable, events[j].payload, events[j].renamed)
    requires var walked := AfterWrite(c, states[j], events[j].key, events[j].payload, events[j].now).files;
             var name := c.Name(events[i].key);
             && StrictlyNewest(walked, name)
             && walked[name].bytes == c.Entry(events[i].key, events[i].payload)
    ensures var name := c.Name(events[i].key);
            && name in states[j + 1].files
            && states[j + 1].files[name].bytes == c.Entry(events[i].key, events[i].payload)
  {
    var e, d := events[j], states[j];
    assert Next(c, d, e, states[j + 1]) && Orderly(d, e);
    LargestCoversOwn(c, states, events, i, j + 1);
    var w := AfterWrite(c, d, e.key, e.payload, e.now);
    assert states[j + 1].largest == w.largest;
    if SweepDue(c, w) { SweepSparesNewest(c, w, states[j + 1], e.now, c.Name(events[i].key)); }
  }
}
