/**
 Trimming a cache directory: stale temporaries go, and when what is left exceeds the budget the oldest files go
 until it is an eighth under. The directory is a map from file name to file.
 */
module DiskSweep {
  import opened Basics

  type Name = string

  datatype File = File(bytes: seq<byte>, written: int)

  type Directory = map<Name, File>

  /** Seconds after which a temporary belongs to nobody. */
  const STALE_AFTER: int := 3600

  const TEMP_SUFFIX := ".tmp"

  predicate IsTemporary(name: Name) { |name| > 4 && name[|name| - 4..] == TEMP_SUFFIX }

  predicate IsStale(name: Name, file: File, now: int) { IsTemporary(name) && now - file.written > STALE_AFTER }

  function Target(budget: nat): (t: nat) { budget - budget / 8 }

  // ----- the size of a directory -------------------------------------------

  ghost function Total(files: Directory): nat
    decreases |files|
  {
    if files == map[] then 0
    else var name :| name in files; |files[name].bytes| + Total(files - {name})
  }

  lemma {:induction false} TotalWithout(files: Directory, name: Name)
    requires name in files
    ensures Total(files) == |files[name].bytes| + Total(files - {name})
    decreases |files|
  {
    var first :| first in files && Total(files) == |files[first].bytes| + Total(files - {first});
    if first != name {
      TotalWithout(files - {first}, name);
      TotalWithout(files - {name}, first);
      assert files - {first} - {name} == files - {name} - {first};
    }
  }

  lemma TotalWith(files: Directory, name: Name, file: File)
    requires name !in files
    ensures Total(files[name := file]) == Total(files) + |file.bytes|
  {
    TotalWithout(files[name := file], name);
    assert files[name := file] - {name} == files;
  }

  // ----- what a sweep may leave behind -------------------------------------

  /** The files a sweep counts: everything but stale temporaries. */
  ghost function Live(files: Directory, now: int): Directory {
    map name | name in files && !IsStale(name, files[name], now) :: files[name]
  }

  /** `kept` is part of `live`. */
  ghost predicate PartOf(kept: Directory, live: Directory) {
    forall name :: name in kept ==> name in live && kept[name] == live[name]
  }

  /** Nothing that went is newer than anything that could have gone and stayed. */
  ghost predicate OldestFirst(live: Directory, kept: Directory, stuck: set<Name>) {
    forall gone, stayed :: gone in live && gone !in kept && stayed in kept && stayed !in stuck
                           ==> live[gone].written <= kept[stayed].written
  }

  /** The last file to go was needed: with it the directory was still over the target. */
  ghost predicate NoMoreThanNeeded(live: Directory, kept: Directory, target: nat) {
    kept != live ==>
      exists last :: && last in live && last !in kept
                     && Total(kept) + |live[last].bytes| > target
                     && forall gone :: gone in live && gone !in kept ==> live[gone].written <= live[last].written
  }

  /** What trimming `live` down to `budget` may keep, when the files in `stuck` cannot be removed. */
  ghost predicate TrimmedTo(live: Directory, kept: Directory, stuck: set<Name>, budget: nat) {
    && PartOf(kept, live)
    && (forall name :: name in live && name in stuck ==> name in kept)
    && (Total(live) <= budget ==> kept == live)
    && (Total(live) > budget ==>
          && (Total(kept) <= Target(budget) || forall name :: name in kept ==> name in stuck)
          && OldestFirst(live, kept, stuck)
          && NoMoreThanNeeded(live, kept, Target(budget)))
  }

  /** When nothing is stuck a sweep always gets under the budget. */
  lemma TrimmedFits(live: Directory, kept: Directory, budget: nat)
    requires TrimmedTo(live, kept, {}, budget)
    ensures Total(kept) <= budget
    ensures Total(live) > budget ==> Total(kept) <= budget - budget / 8
  {
    assert (forall name :: name in kept ==> name in {}) ==> kept == map[];
  }

  /** And it takes no more than needed: with the last file that went, the directory was over seven eighths. */
  lemma TrimmedNoFurther(live: Directory, kept: Directory, stuck: set<Name>, budget: nat)
    requires TrimmedTo(live, kept, stuck, budget) && kept != live
    ensures Total(live) > budget
    ensures exists last :: && last in live && last !in kept
                           && Total(kept) + |live[last].bytes| > budget - budget / 8
                           && forall gone :: gone in live && gone !in kept ==> live[gone].written <= live[last].written
  {
  }

  /** A temporary is given up an hour after it was last written. */
  lemma StaleIff(stem: string, file: File, now: int)
    requires stem != ""
    ensures IsStale(stem + ".tmp", file, now) <==> now - file.written > 3600
    ensures !IsStale(stem + ".blk", file, now)
  {
    assert (stem + ".tmp")[|stem|..] == ".tmp" && (stem + ".blk")[|stem|..] == ".blk";
    assert ".tmp"[1] != ".blk"[1];
  }

  /** A file strictly newer than all others, and no more than a quarter of the budget, survives every sweep. */
  lemma TrimKeepsNewest(live: Directory, kept: Directory, budget: nat, newest: Name)
    requires TrimmedTo(live, kept, {}, budget)
    requires newest in live && 4 * |live[newest].bytes| <= budget
    requires forall name :: name in live && name != newest ==> live[name].written < live[newest].written
    ensures newest in kept
  {
    assert newest in kept || Total(live) <= budget || kept == map[];
    if kept != live {
      var last :| && last in live && last !in kept
                  && Total(kept) + |live[last].bytes| > Target(budget)
                  && forall gone :: gone in live && gone !in kept ==> live[gone].written <= live[last].written;
      assert newest !in kept ==> last == newest;
      assert kept == map[] ==> Total(kept) == 0;
    }
  }

  // ----- the sweep ---------------------------------------------------------

  /** First walk: remove stale temporaries, where that succeeds, and add up the rest. */
  method CollectEntries(files: Directory, stuck: set<Name>, now: int)
    returns (after: Directory, entries: Directory, total: nat)
    ensures entries == Live(files, now)
    ensures total == Total(entries)
    ensures forall name :: name in after <==>
              name in files && (name in entries || name in stuck)
    ensures PartOf(after, files)
  {
    after, entries, total := files, map[], 0;
    var todo := files.Keys;
    while todo != {}
      invariant todo <= files.Keys
      invariant entries
             == map name | name in files && name !in todo && !IsStale(name, files[name], now) :: files[name]
      invariant total == Total(entries)
      invariant forall name :: name in after <==> name in files && (name in todo || name in entries || name in stuck)
      invariant PartOf(after, files)
      decreases |todo|
    {
      var name :| name in todo;
      todo := todo - {name};
      if IsStale(name, files[name], now) {
        if name !in stuck { after := after - {name}; }
      } else {
        TotalWith(entries, name, files[name]);
        total := total + |files[name].bytes|;
        entries := entries[name := files[name]];
      }
    }
  }

  lemma OldestExists(files: Directory, todo: set<Name>)
    requires todo != {} && todo <= files.Keys
    ensures exists name :: name in todo && forall other :: other in todo ==> files[name].written <= files[other].written
    decreases |todo|
  {
    var first :| first in todo;
    if todo != {first} {
      OldestExists(files, todo - {first});
      var name :| name in todo - {first}
                  && forall other :: other in todo - {first} ==> files[name].written <= files[other].written;
      var oldest := if files[first].written <= files[name].written then first else name;
      assert forall other :: other in todo ==> files[oldest].written <= files[other].written by {
        forall other | other in todo ensures files[oldest].written <= files[other].written {
          if other != first { assert other in todo - {first}; }
        }
      }
    }
  }

  /** The state of the second walk: `todo` is what it has not come to yet. */
  ghost predicate Trimming(entries: Directory, kept: Directory, todo: set<Name>, stuck: set<Name>, target: nat) {
    && PartOf(kept, entries)
    && todo <= kept.Keys
    && (forall name :: name in kept && name !in todo ==> name in stuck)
    && (forall name :: name in entries && name in stuck ==> name in kept)
    && (forall gone, later :: gone in entries && gone !in todo && later in todo
                              ==> entries[gone].written <= entries[later].written)
    && NoMoreThanNeeded(entries, kept, target)
  }

  /** Second walk: oldest first, until the total is at the target or there is nothing left to try. */
  method TrimToBudget(entries: Directory, total: nat, stuck: set<Name>, budget: nat)
    returns (kept: Directory, left: nat)
    requires total == Total(entries)
    ensures TrimmedTo(entries, kept, stuck, budget)
    ensures left == Total(kept)
  {
    kept, left := entries, total;
    if total <= budget { return; }
    var target := Target(budget);
    var todo := entries.Keys;
    while left > target && todo != {}
      invariant Trimming(entries, kept, todo, stuck, target)
      invariant left == Total(kept)
      decreases |todo|
    {
      OldestExists(entries, todo);
      var name :| name in todo && forall other :: other in todo ==> entries[name].written <= entries[other].written;
      if name !in stuck {
        TotalWithout(kept, name);
        RemovalTrims(entries, kept, todo, stuck, target, name);
        kept, left := kept - {name}, left - |entries[name].bytes|;
      }
      todo := todo - {name};
    }
  }

  lemma RemovalTrims(entries: Directory, kept: Directory, todo: set<Name>, stuck: set<Name>, target: nat, name: Name)
    requires Trimming(entries, kept, todo, stuck, target) && Total(kept) > target
    requires name in todo && name !in stuck
    requires forall other :: other in todo ==> entries[name].written <= entries[other].written
    ensures Trimming(entries, kept - {name}, todo - {name}, stuck, target)
  {
    TotalWithout(kept, name);
    var fewer := kept - {name};
    assert name in entries && name !in fewer;
    assert Total(fewer) + |entries[name].bytes| > target;
    assert forall gone :: gone in entries && gone !in fewer ==> entries[gone].written <= entries[name].written;
    assert NoMoreThanNeeded(entries, fewer, target);
  }
}
