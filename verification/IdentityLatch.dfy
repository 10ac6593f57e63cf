/**
 What a resolver remembers about the assets it opened. Answers are bounded: the oldest goes when the table is full.
 Evidence is not: an identifier whose validator ever changed stays contradicted for the life of the process, and a
 contradicted identity is never published as one to key anything on.
 */
module IdentityLatch {
  import opened Basics
  import opened Configuration
  import opened Framing

  const MAX_REMEMBERED: nat := 512

  datatype Stability = Stable | Unstable | Unavailable

  function ClassifyStability(v: Validator): Stability {
    if !v.Usable() then Unavailable
    else match v.strength case Strong => Stable case Weak => Unstable case NoStrength => Unavailable
  }

  datatype Metadata = Metadata(resolvedIdentifier: string, size: nat, validator: Validator, stability: Stability)

  /** The classes of address a policy permits. */
  type Policy = set<Place>

  predicate Covers(policy: Policy, other: Policy) { other <= policy }

  datatype Fingerprint = Fingerprint(validator: Validator, contradicted: bool)
  datatype Identity = Identity(metadata: Metadata, reachedUnder: seq<Policy>)
  datatype Tables = Tables(fingerprints: map<string, Fingerprint>, identities: map<string, Identity>,
                           order: seq<string>)

  const EMPTY_TABLES := Tables(map[], map[], [])

  datatype Opened = Opened(identifier: string, metadata: Metadata, policy: Policy)

  // ----- one open, remembered ----------------------------------------------

  function Marked(prints: map<string, Fingerprint>, id: string, v: Validator): map<string, Fingerprint> {
    if id !in prints then prints[id := Fingerprint(v, false)]
    else if prints[id].validator != v then prints[id := Fingerprint(v, true)]
    else prints
  }

  /** The oldest answers go until the table is within its bound. */
  function Bounded(identities: map<string, Identity>, order: seq<string>): (map<string, Identity>, seq<string>)
    decreases |order|
  {
    if |order| > MAX_REMEMBERED then Bounded(identities - {order[0]}, order[1..]) else (identities, order)
  }

  function WithPolicy(policies: seq<Policy>, policy: Policy): seq<Policy> {
    if policy in policies then policies else policies + [policy]
  }

  function Remembered(t: Tables, o: Opened): Tables {
    var prints := Marked(t.fingerprints, o.identifier, o.metadata.validator);
    if o.identifier in t.identities then
      var policies := WithPolicy(t.identities[o.identifier].reachedUnder, o.policy);
      Tables(prints, t.identities[o.identifier := Identity(o.metadata, policies)], t.order)
    else
      var kept := Bounded(t.identities[o.identifier := Identity(o.metadata, [o.policy])], t.order + [o.identifier]);
      Tables(prints, kept.0, kept.1)
  }

  function After(history: seq<Opened>): Tables {
    if history == [] then EMPTY_TABLES
    else Remembered(After(history[..|history| - 1]), history[|history| - 1])
  }

  /** An answer for a caller who could have reached the asset itself, and whether it is contradicted. */
  function Known(t: Tables, id: string, policy: Policy): Option<(Metadata, bool)> {
    if id in t.identities && exists p :: p in t.identities[id].reachedUnder && Covers(policy, p) then
      Some((t.identities[id].metadata, id in t.fingerprints && t.fingerprints[id].contradicted))
    else None
  }

  // ----- the latch ---------------------------------------------------------

  /** Every validator ever remembered for an identifier, in order. */
  function Validators(history: seq<Opened>, id: string): seq<Validator> {
    if history == [] then []
    else
      var o := history[|history| - 1];
      Validators(history[..|history| - 1], id) + if o.identifier == id then [o.metadata.validator] else []
  }

  ghost predicate Differ(seen: seq<Validator>) { exists i, j :: 0 <= i < j < |seen| && seen[i] != seen[j] }

  lemma DifferGrows(seen: seq<Validator>, v: Validator)
    ensures Differ(seen + [v]) <==> Differ(seen) || (seen != [] && seen[|seen| - 1] != v)
  {
    var more := seen + [v];
    if Differ(seen) {
      var i, j :| 0 <= i < j < |seen| && seen[i] != seen[j];
      assert more[i] != more[j];
    } else if seen != [] {
      var n := |seen| - 1;
      assert forall i :: 0 <= i <= n ==> seen[i] == seen[n];
      assert more[n] == seen[n] && more[n + 1] == v;
    }
  }

  /** The fingerprint of an identifier after these validators were seen for it. */
  ghost predicate Latched(prints: map<string, Fingerprint>, id: string, seen: seq<Validator>) {
    && (id in prints <==> seen != [])
    && (seen != [] ==>
          prints[id].validator == seen[|seen| - 1] && (prints[id].contradicted <==> Differ(seen)))
  }

  lemma MarkedIsLatched(prints: map<string, Fingerprint>, id: string, seen: seq<Validator>, other: string, v: Validator)
    requires Latched(prints, id, seen)
    ensures Latched(Marked(prints, other, v), id, if other == id then seen + [v] else seen)
  {
    hide Differ;
    if other == id {
      DifferGrows(seen, v);
      if seen == [] { OneNeverDiffers(v); assert seen + [v] == [v]; }
    }
  }

  lemma OneNeverDiffers(v: Validator)
    ensures !Differ([v])
  {
  }

  /**
   Whatever the bounded table has dropped, an identifier has a fingerprint exactly when it was ever opened, the
   fingerprint holds the validator seen last, and it is contradicted exactly when two validators ever differed.
   */
  lemma {:induction false} ContradictedIffDiffered(history: seq<Opened>, id: string)
    ensures Latched(After(history).fingerprints, id, Validators(history, id))
  {
    hide Bounded, WithPolicy, Differ, Marked, Latched;
    if history == [] {
      NothingLatched(id);
    } else {
      var n := |history| - 1;
      var before, o := history[..n], history[n];
      ContradictedIffDiffered(before, id);
      MarkedIsLatched(After(before).fingerprints, id, Validators(before, id), o.identifier, o.metadata.validator);
      assert Validators(before, id) + [] == Validators(before, id);
    }
  }

  lemma NothingLatched(id: string)
    ensures Latched(map[], id, [])
  {
  }

  // ----- the bounded table -------------------------------------------------

  ghost predicate NoDuplicates(order: seq<string>) {
    forall i, j :: 0 <= i < j < |order| ==> order[i] != order[j]
  }

  /** The queue lists exactly the answers held, each once. */
  ghost predicate Lists(identities: map<string, Identity>, order: seq<string>) {
    NoDuplicates(order) && forall id :: id in identities <==> id in order
  }

  ghost predicate Tidy(t: Tables) { Lists(t.identities, t.order) && |t.order| <= MAX_REMEMBERED }

  lemma {:induction false} BoundedIsTidy(identities: map<string, Identity>, order: seq<string>)
    requires Lists(identities, order)
    ensures var kept := Bounded(identities, order);
            && Lists(kept.0, kept.1) && |kept.1| <= MAX_REMEMBERED
            && forall id :: id in kept.0 ==> id in identities && kept.0[id] == identities[id]
    decreases |order|
  {
    if |order| > MAX_REMEMBERED {
      var oldest, rest := order[0], order[1..];
      assert order == [oldest] + rest;
      assert forall i :: 0 <= i < |rest| ==> rest[i] == order[i + 1] && order[0] != order[i + 1];
      BoundedIsTidy(identities - {oldest}, rest);
    }
  }

  /** The metadata remembered last for an identifier. */
  function Latest(history: seq<Opened>, id: string): Option<Metadata> {
    if history == [] then None
    else if history[|history| - 1].identifier == id then Some(history[|history| - 1].metadata)
    else Latest(history[..|history| - 1], id)
  }

  /** An answer, while it lasts, is the latest metadata of its identifier. */
  ghost predicate Current(t: Tables, history: seq<Opened>) {
    forall id :: id in t.identities ==> Latest(history, id) == Some(t.identities[id].metadata)
  }

  lemma {:induction false} AnswersAreCurrent(history: seq<Opened>)
    ensures Tidy(After(history)) && Current(After(history), history)
  {
    hide Marked, WithPolicy, Bounded;
    if history != [] {
      var n := |history| - 1;
      AnswersAreCurrent(history[..n]);
      var t, o := After(history[..n]), history[n];
      if o.identifier !in t.identities {
        var identities := t.identities[o.identifier := Identity(o.metadata, [o.policy])];
        var order := t.order + [o.identifier];
        assert Lists(identities, order);
        BoundedIsTidy(identities, order);
      }
    }
  }

  // ----- who is answered, and for how long ---------------------------------

  /** Where in the history the answer now held for an identifier was first remembered; its length if none is. */
  ghost function HeldSince(history: seq<Opened>, id: string): (i: nat)
    ensures i <= |history| && (i < |history| <==> id in After(history).identities)
  {
    var n := |history| - 1;
    if history == [] || id !in After(history).identities then |history|
    else if id in After(history[..n]).identities then HeldSince(history[..n], id)
    else n
  }

  /** An open of the identifier, while its answer was held, under these classes of address. */
  ghost predicate Reached(history: seq<Opened>, id: string, p: Policy) {
    exists j :: HeldSince(history, id) <= j < |history| && history[j].identifier == id && history[j].policy == p
  }

  lemma RememberedKeepsOthers(t: Tables, o: Opened, id: string)
    requires Tidy(t) && id in Remembered(t, o).identities
    ensures var held := Remembered(t, o).identities[id];
            if id != o.identifier then id in t.identities && held == t.identities[id]
            else if id in t.identities then held.reachedUnder == WithPolicy(t.identities[id].reachedUnder, o.policy)
            else held.reachedUnder == [o.policy]
  {
    hide Bounded, Marked, WithPolicy;
    if o.identifier !in t.identities {
      var identities := t.identities[o.identifier := Identity(o.metadata, [o.policy])];
      assert Lists(identities, t.order + [o.identifier]);
      BoundedIsTidy(identities, t.order + [o.identifier]);
    }
  }

  lemma {:induction false} ReachedUnder(history: seq<Opened>, id: string, p: Policy)
    requires id in After(history).identities
    ensures p in After(history).identities[id].reachedUnder <==> Reached(history, id, p)
  {
    var n := |history| - 1;
    var before, o := history[..n], history[n];
    AnswersAreCurrent(before);
    RememberedKeepsOthers(After(before), o, id);
    hide Remembered, Current, Tidy;
    if id in After(before).identities {
      ReachedUnder(before, id, p);
      assert forall j :: 0 <= j < n ==> before[j] == history[j];
      assert Reached(before, id, p) ==> Reached(history, id, p);
      if id == o.identifier && o.policy == p { assert history[n].policy == p; }
    }
  }

  /**
   An answer is given exactly to those who could have opened the asset themselves: some open of it, since the answer
   has been held, was made under no class of address the asker may not use.
   */
  lemma KnownIffReached(history: seq<Opened>, id: string, policy: Policy)
    ensures Known(After(history), id, policy).Some? <==>
              exists j :: && HeldSince(history, id) <= j < |history|
                          && history[j].identifier == id && history[j].policy <= policy
  {
    var t := After(history);
    hide After, HeldSince;
    if id in t.identities {
      var policies := t.identities[id].reachedUnder;
      if p :| p in policies && p <= policy {
        ReachedUnder(history, id, p);
        assert Reached(history, id, p);
      }
      if j :| HeldSince(history, id) <= j < |history| && history[j].identifier == id && history[j].policy <= policy {
        assert Reached(history, id, history[j].policy);
        ReachedUnder(history, id, history[j].policy);
      }
    }
  }

  lemma {:induction false} ListIsNoLonger(order: seq<string>, ids: set<string>)
    requires NoDuplicates(order) && forall id :: id in order ==> id in ids
    ensures |order| <= |ids|
  {
    if order != [] {
      var last, rest := order[|order| - 1], order[..|order| - 1];
      assert last in order;
      forall id | id in rest ensures id in ids - {last} { assert id in order; }
      ListIsNoLonger(rest, ids - {last});
    }
  }

  lemma {:induction false} BoundedIsNewest(identities: map<string, Identity>, order: seq<string>)
    ensures Bounded(identities, order).1 == order[if |order| > 512 then |order| - 512 else 0..]
    decreases |order|
  {
    if |order| > MAX_REMEMBERED { BoundedIsNewest(identities - {order[0]}, order[1..]); }
  }

  /** And beyond that the one remembered longest goes: what was just opened is held, and the queue moves up. */
  lemma OldestGoesFirst(history: seq<Opened>)
    requires history != []
    ensures var n := |history| - 1;
            var before, id := After(history[..n]), history[n].identifier;
            var queue := if id in before.identities then before.order else before.order + [id];
            && id in After(history).identities
            && After(history).order == queue[if |queue| > 512 then |queue| - 512 else 0..]
  {
    var n := |history| - 1;
    AnswersAreCurrent(history);
    AnswersAreCurrent(history[..n]);
    var t, o := After(history[..n]), history[n];
    BoundedIsNewest(t.identities[o.identifier := Identity(o.metadata, [o.policy])], t.order + [o.identifier]);
    hide Bounded, Marked, WithPolicy;
    if o.identifier !in t.identities {
      var order := After(history).order;
      assert order[|order| - 1] == o.identifier;
    }
  }

  /** Up to 512 assets, nothing is forgotten. */
  lemma {:induction false} FewAreKept(history: seq<Opened>, ids: set<string>)
    requires |ids| <= 512 && forall i :: 0 <= i < |history| ==> history[i].identifier in ids
    ensures forall id :: id in After(history).identities ==> id in ids
    ensures forall i :: 0 <= i < |history| ==> history[i].identifier in After(history).identities
  {
    if history != [] {
      var n := |history| - 1;
      var before, o := history[..n], history[n];
      FewAreKept(before, ids);
      AnswersAreCurrent(before);
      var t := After(before);
      if o.identifier !in t.identities {
        var order := t.order + [o.identifier];
        assert NoDuplicates(order);
        ListIsNoLonger(order, ids);
      }
      forall i | 0 <= i < |history| ensures history[i].identifier in After(history).identities {
        assert i < n ==> before[i] == history[i];
      }
    }
  }

  // ----- what is published -------------------------------------------------

  datatype Published = Published(identifier: string, size: nat, token: string, stability: Stability, reusable: bool)

  function PublishIdentity(m: Metadata, contradicted: bool, elide: string -> string): Published {
    var identifier := elide(m.resolvedIdentifier);
    var token := if m.validator.Usable() then m.validator.value else "";
    var stability := if contradicted && m.stability == Stable then Unstable else m.stability;
    var reusable := stability == Stable && token != "" && identifier != "";
    Published(identifier, m.size, token, if !reusable && stability == Stable then Unavailable else stability, reusable)
  }

  /** What is called stable may be keyed on; a change ever seen makes it unstable, and no validator says nothing. */
  lemma PublishedAs(m: Metadata, contradicted: bool, elide: string -> string)
    requires m.stability == ClassifyStability(m.validator)
    ensures var p := PublishIdentity(m, contradicted, elide);
            && (p.reusable <==> p.stability == Stable) && (contradicted ==> !p.reusable)
            && (m.validator.strength == Weak && m.validator.Usable() ==> p.stability == Unstable)
            && (m.validator.strength == Strong && m.validator.Usable() && contradicted ==> p.stability == Unstable)
            && (!m.validator.Usable() ==> p.stability == Unavailable && p.token == "")
            && (m.validator.Usable() ==> p.token == m.validator.value) && p.size == m.size
  {
  }

  /** The version a consumer may key on: the token, if it is fit for that. */
  function Version(p: Published): string { if p.reusable then p.token else "" }

  /** Metadata as an open makes it: stability is read off the validator. */
  ghost predicate Classified(history: seq<Opened>) {
    forall i :: 0 <= i < |history| ==> history[i].metadata.stability == ClassifyStability(history[i].metadata.validator)
  }

  lemma {:induction false} LatestIsSeen(history: seq<Opened>, id: string)
    requires Latest(history, id).Some?
    ensures var seen := Validators(history, id);
            && seen != [] && seen[|seen| - 1] == Latest(history, id).value.validator
    ensures Classified(history) ==>
              Latest(history, id).value.stability == ClassifyStability(Latest(history, id).value.validator)
  {
    hide ClassifyStability;
    var n := |history| - 1;
    if history[n].identifier != id { LatestIsSeen(history[..n], id); }
  }

  /** The asset and its token have names, the token is strong, and no other validator was ever seen for it. */
  ghost predicate Keyable(history: seq<Opened>, id: string, m: Metadata, elide: string -> string) {
    && elide(m.resolvedIdentifier) != "" && m.validator.value != ""
    && m.validator.Usable() && m.validator.strength == Strong
    && forall v :: v in Validators(history, id) ==> v == m.validator
  }

  /** A version is published exactly when it is fit to key on. */
  lemma LatestVersionIffKeyable(history: seq<Opened>, id: string, m: Metadata, contradicted: bool,
                                elide: string -> string)
    requires Classified(history) && Latest(history, id) == Some(m)
    requires contradicted <==> Differ(Validators(history, id))
    ensures var version := Version(PublishIdentity(m, contradicted, elide));
            && (version != "" <==> Keyable(history, id, m, elide)) && (version != "" ==> version == m.validator.value)
  {
    hide Differ, Validators, Latest;
    LatestIsSeen(history, id);
    DifferIffNotAll(Validators(history, id));
  }

  /** What is told of an identifier is the latest of it, and contradicted if its validators ever differed. */
  lemma KnownIsLatest(history: seq<Opened>, id: string, policy: Policy)
    requires Known(After(history), id, policy).Some?
    ensures var known := Known(After(history), id, policy).value;
            Latest(history, id) == Some(known.0) && (known.1 <==> Differ(Validators(history, id)))
  {
    hide Marked, Bounded, After, Differ, Validators, Latest;
    AnswersAreCurrent(history);
    LatestIsSeen(history, id);
    ContradictedIffDiffered(history, id);
  }

  lemma VersionIffOneStrongValidator(history: seq<Opened>, id: string, policy: Policy, elide: string -> string)
    requires Classified(history) && Known(After(history), id, policy).Some?
    ensures var known := Known(After(history), id, policy).value;
            Version(PublishIdentity(known.0, known.1, elide)) != "" <==> Keyable(history, id, known.0, elide)
  {
    hide After, Differ, Validators, Latest, Keyable;
    KnownIsLatest(history, id, policy);
    var known := Known(After(history), id, policy).value;
    LatestVersionIffKeyable(history, id, known.0, known.1, elide);
  }

  lemma DifferIffNotAll(seen: seq<Validator>)
    requires seen != []
    ensures Differ(seen) <==> !forall v :: v in seen ==> v == seen[|seen| - 1]
  {
    if Differ(seen) {
      var i, j :| 0 <= i < j < |seen| && seen[i] != seen[j];
      assert seen[i] in seen && seen[j] in seen;
    } else {
      assert forall i :: 0 <= i < |seen| ==> seen[i] == seen[|seen| - 1];
    }
    if v :| v in seen && v != seen[|seen| - 1] {
      var i :| 0 <= i < |seen| && seen[i] == v;
      assert i < |seen| - 1;
    }
  }

  /** Once contradicted, always: nothing opened later makes an identity reusable again. */
  lemma ContradictionIsForever(history: seq<Opened>, later: seq<Opened>, id: string, policy: Policy,
                               elide: string -> string)
    requires Differ(Validators(history, id)) && Known(After(history + later), id, policy).Some?
    ensures var known := Known(After(history + later), id, policy).value;
            known.1 && Version(PublishIdentity(known.0, known.1, elide)) == ""
  {
    hide Marked, Bounded, After, Differ, Validators, Latest;
    ValidatorsGrow(history, later, id);
    StillDiffer(Validators(history, id), Validators(history + later, id));
    ContradictedIffDiffered(history + later, id);
  }

  lemma StillDiffer(seen: seq<Validator>, more: seq<Validator>)
    requires Differ(seen) && seen <= more
    ensures Differ(more) && more != []
  {
    var i, j :| 0 <= i < j < |seen| && seen[i] != seen[j];
    assert more[i] != more[j];
  }

  lemma {:induction false} ValidatorsGrow(history: seq<Opened>, later: seq<Opened>, id: string)
    ensures Validators(history, id) <= Validators(history + later, id)
    decreases |later|
  {
    if later == [] {
      assert history + later == history;
    } else {
      var n := |later| - 1;
      ValidatorsGrow(history, later[..n], id);
      var all := history + later;
      assert all[..|all| - 1] == history + later[..n];
    }
  }

  // ----- the resolver ------------------------------------------------------

  class HttpResolver {
    const elide: string -> string
    var fingerprints: map<string, Fingerprint>
    var identities: map<string, Identity>
    var identityOrder: seq<string>
    ghost var history: seq<Opened>

    ghost function State(): Tables
      reads this
    {
      Tables(fingerprints, identities, identityOrder)
    }

    ghost predicate Valid()
      reads this
    {
      State() == After(history)
    }

    constructor (elide: string -> string)
      ensures this.elide == elide && history == [] && Valid()
    {
      this.elide := elide;
      fingerprints, identities, identityOrder, history := map[], map[], [], [];
    }

    /** The fingerprint first: it decides what an answer is worth, and is never dropped. */
    method RememberIdentity(identifier: string, metadata: Metadata, reachedUnder: Policy) returns (contradicted: bool)
      requires Valid()
      modifies this
      ensures Valid() && history == old(history) + [Opened(identifier, metadata, reachedUnder)]
      ensures contradicted <==> Differ(Validators(history, identifier))
    {
      hide Differ, Validators, Latched, Bounded;
      ghost var was := State();
      if identifier !in fingerprints {
        fingerprints := fingerprints[identifier := Fingerprint(metadata.validator, false)];
      } else if fingerprints[identifier].validator != metadata.validator {
        fingerprints := fingerprints[identifier := Fingerprint(metadata.validator, true)];
      }
      contradicted := fingerprints[identifier].contradicted;
      if identifier in identities {
        var policies := WithPolicy(identities[identifier].reachedUnder, reachedUnder);
        identities := identities[identifier := Identity(metadata, policies)];
      } else {
        var more := identities[identifier := Identity(metadata, [reachedUnder])];
        var kept, order := DropOldest(more, identityOrder + [identifier]);
        identities, identityOrder := kept, order;
      }
      history := history + [Opened(identifier, metadata, reachedUnder)];
      assert history[..|history| - 1] == old(history);
      AfterOne(history);
      ContradictedIffDiffered(history, identifier);
      LatchedTells(fingerprints, identifier, Validators(history, identifier));
    }

    method KnownIdentity(identifier: string, policy: Policy) returns (known: Option<(Metadata, bool)>)
      ensures known == Known(State(), identifier, policy)
    {
      if identifier !in identities { return None; }
      var policies := identities[identifier].reachedUnder;
      var reachable := false;
      for i := 0 to |policies|
        invariant reachable <==> exists k :: 0 <= k < i && Covers(policy, policies[k])
      {
        if Covers(policy, policies[i]) { reachable := true; }
      }
      if !reachable { return None; }
      var contradicted := identifier in fingerprints && fingerprints[identifier].contradicted;
      return Some((identities[identifier].metadata, contradicted));
    }

    /** `reopened` is what opening now would yield, consulted only if the caller may open and nothing is known. */
    method IdentityFor(identifier: string, mayOpen: bool, policy: Policy, reopened: Option<Metadata>)
      returns (known: Option<(Metadata, bool)>)
      requires Valid()
      modifies this
      ensures Valid()
      ensures
        var told := Known(old(State()), identifier, policy);
        if told.Some? || !mayOpen || reopened.None? then known == told && history == old(history)
        else
          && history == old(history) + [Opened(identifier, reopened.value, policy)]
          && known == Some((reopened.value, Differ(Validators(history, identifier))))
    {
      known := KnownIdentity(identifier, policy);
      if known.Some? || !mayOpen || reopened.None? { return; }
      var contradicted := RememberIdentity(identifier, reopened.value, policy);
      known := Some((reopened.value, contradicted));
    }

    /**
     The version in an asset's info. An asset that is not known is opened for it only where there is a resolved path;
     whatever is then published is fit to key on, and nothing that is fit to is withheld.
     */
    method AssetVersion(identifier: string, resolved: bool, policy: Policy, reopened: Option<Metadata>)
      returns (version: string)
      requires Valid()
      modifies this
      ensures Valid()
      ensures
        var told := Known(old(State()), identifier, policy);
        if identifier == "" || (told.None? && (!resolved || reopened.None?)) then
          version == "" && history == old(history)
        else
          && history == old(history) + (if told.Some? then [] else [Opened(identifier, reopened.value, policy)])
          && Latest(history, identifier).Some?
          && var m := Latest(history, identifier).value;
             Classified(history) ==>
               && (version != "" <==> Keyable(history, identifier, m, elide))
               && (version != "" ==> version == m.validator.value)
    {
      hide Validators, Differ, After, Known, Keyable, PublishIdentity;
      if identifier == "" { return ""; }
      var known := IdentityFor(identifier, resolved, policy, reopened);
      if known.None? { return ""; }
      var m := known.value.0;
      assert Latest(history, identifier) == Some(m) && (known.value.1 <==> Differ(Validators(history, identifier))) by {
        if history == old(history) { KnownIsLatest(history, identifier, policy); }
      }
      version := Version(PublishIdentity(m, known.value.1, elide));
      if Classified(history) { LatestVersionIffKeyable(history, identifier, m, known.value.1, elide); }
    }
  }

  method DropOldest(identities: map<string, Identity>, order: seq<string>)
    returns (kept: map<string, Identity>, left: seq<string>)
    ensures (kept, left) == Bounded(identities, order)
  {
    kept, left := identities, order;
    while |left| > MAX_REMEMBERED
      invariant Bounded(kept, left) == Bounded(identities, order)
      decreases |left|
    {
      kept, left := kept - {left[0]}, left[1..];
    }
  }

  lemma LatchedTells(prints: map<string, Fingerprint>, id: string, seen: seq<Validator>)
    requires Latched(prints, id, seen) && id in prints
    ensures prints[id].contradicted <==> Differ(seen)
  {
  }

  lemma AfterOne(history: seq<Opened>)
    requires history != []
    ensures After(history) == Remembered(After(history[..|history| - 1]), history[|history| - 1])
  {
  }
}
