/**
 A stage's context: `NAME=value` entries that override the environment for one stage. What a context carries is what
 the parser read, in one spelling, so that two contexts that mean the same compare the same.
 */
module Configuration {
  import opened Basics
  import opened SeparatedText
  import opened Text

  /** The variables a context may set, in the order of their names. */
  datatype Setting =
    | CoalesceGap | ConnectTimeout | Destinations | MaxRedirects
    | MaxRequestBytes | MaxRetries | ReadTimeout | TotalTimeout

  const SETTINGS := [
    CoalesceGap, ConnectTimeout, Destinations, MaxRedirects,
    MaxRequestBytes, MaxRetries, ReadTimeout, TotalTimeout]

  const PREFIX := "USD_HTTP_RESOLVER_"

  function Suffix(s: Setting): string {
    match s
    case CoalesceGap => "COALESCE_GAP"
    case ConnectTimeout => "CONNECT_TIMEOUT_MS"
    case Destinations => "DESTINATIONS"
    case MaxRedirects => "MAX_REDIRECTS"
    case MaxRequestBytes => "MAX_REQUEST_BYTES"
    case MaxRetries => "MAX_RETRIES"
    case ReadTimeout => "READ_TIMEOUT_MS"
    case TotalTimeout => "TOTAL_TIMEOUT_MS"
  }

  function Name(s: Setting): string { PREFIX + Suffix(s) }

  /** Variables every stage shares, which a context may not set. */
  const PROCESS_WIDE: set<string> := {
    PREFIX + "BLOCK_SIZE", PREFIX + "CACHE_BUDGET",
    PREFIX + "PERSISTENT_CACHE_DIR", PREFIX + "PERSISTENT_CACHE_BUDGET"}

  function SettingNamed(name: string): Option<Setting> { NamedAmong(SETTINGS, name) }

  function NamedAmong(settings: seq<Setting>, name: string): (s: Option<Setting>)
    ensures s.Some? ==> Name(s.value) == name
  {
    if settings == [] then None
    else if Name(settings[0]) == name then Some(settings[0])
    else NamedAmong(settings[1..], name)
  }

  // ----- values ------------------------------------------------------------

  datatype Place = Public | Private | Loopback | LinkLocal | Metadata

  const PLACES := [Public, Private, Loopback, LinkLocal, Metadata]

  function PlaceName(p: Place): string {
    match p
    case Public => "public"
    case Private => "private"
    case Loopback => "loopback"
    case LinkLocal => "link-local"
    case Metadata => "metadata"
  }

  datatype Value = Count(n: nat) | Reach(places: set<Place>)

  function Limits(s: Setting): (nat, nat) {
    match s
    case CoalesceGap => (0, 1024)
    case MaxRequestBytes => (4096, 0x1_0000_0000)
    case MaxRetries => (0, 100)
    case MaxRedirects => (0, 100)
    case _ => (1, 3600000)
  }

  function CountIn(text: string, min: nat, max: nat): Option<nat> {
    if text != "" && AllDigits(text) && min <= Text.Value(text) <= max then Some(Text.Value(text)) else None
  }

  /** Digits only: no sign, no blank, no unit. Too large is refused as soon as it is. */
  method ParseCount(text: string, min: nat, max: nat) returns (r: Option<nat>)
    ensures r == CountIn(text, min, max)
  {
    if text == "" { return None; }
    var value: nat := 0;
    for i := 0 to |text|
      invariant AllDigits(text[..i]) && value == Text.Value(text[..i]) <= max
    {
      var c := text[i];
      assert text[..i + 1][i] == c;
      if !IsDigit(c) { return None; }
      assert text[..i + 1][..i] == text[..i];
      assert AllDigits(text[..i + 1]);
      value := value * 10 + DigitValue(c);
      assert value == Text.Value(text[..i + 1]);
      if value > max {
        if AllDigits(text) { ValueGrows(text, i + 1); }
        return None;
      }
    }
    assert text[..|text|] == text;
    return if value < min then None else Some(value);
  }

  function PlaceAmong(places: seq<Place>, name: string): (p: Option<Place>)
    ensures p.Some? ==> PlaceName(p.value) == name
  {
    if places == [] then None
    else if PlaceName(places[0]) == name then Some(places[0])
    else PlaceAmong(places[1..], name)
  }

  function PlaceNamed(name: string): Option<Place> { PlaceAmong(PLACES, name) }

  /** The set a list of names spells; one unknown name refuses the whole list. */
  function NamedPlaces(names: seq<string>): Option<set<Place>> {
    if names == [] then Some({})
    else
      match (NamedPlaces(names[..|names| - 1]), PlaceNamed(Stripped(names[|names| - 1])))
      case (Some(places), Some(p)) => Some(places + {p})
      case _ => None
  }

  function PlacesIn(text: string): Option<set<Place>> {
    if text == "" then None else NamedPlaces(Pieces(text, ','))
  }

  lemma {:induction false} UnknownNameRefuses(names: seq<string>, i: nat)
    requires i < |names| && PlaceNamed(Stripped(names[i])).None?
    ensures NamedPlaces(names).None?
    decreases |names|
  {
    if i < |names| - 1 { UnknownNameRefuses(names[..|names| - 1], i); }
  }

  lemma NamedPlacesStep(names: seq<string>, name: string)
    ensures NamedPlaces(names + [name])
            == match (NamedPlaces(names), PlaceNamed(Stripped(name)))
               case (Some(places), Some(p)) => Some(places + {p})
               case _ => None
  {
    hide PlaceNamed, Stripped;
    var more := names + [name];
    assert more[..|more| - 1] == names;
  }

  method ParseDestinations(text: string) returns (r: Option<set<Place>>)
    ensures r == PlacesIn(text)
  {
    hide PlaceNamed, Stripped, Find, Pieces, NamedPlaces;
    if text == "" { return None; }
    var places: set<Place> := {};
    var rest := text;
    ghost var read: seq<string> := [];
    NothingNamed();
    assert [] + Pieces(text, ',') == Pieces(text, ',');
    while true
      invariant Pieces(text, ',') == read + Pieces(rest, ',')
      invariant NamedPlaces(read) == Some(places)
      decreases |rest|
    {
      var comma := Find(rest, ',');
      PiecesStep(read, rest, ',');
      NamedPlacesStep(read, rest[..comma]);
      var place := PlaceNamed(Stripped(rest[..comma]));
      if place.None? {
        assert Pieces(text, ',')[|read|] == rest[..comma];
        UnknownNameRefuses(Pieces(text, ','), |read|);
        return None;
      }
      places := places + {place.value};
      read := read + [rest[..comma]];
      if comma == |rest| {
        assert read + [] == read;
        return Some(places);
      }
      rest := rest[comma + 1..];
    }
  }

  lemma NothingNamed()
    ensures NamedPlaces([]) == Some({})
  {
  }

  function NamesOf(places: set<Place>, order: seq<Place>): seq<string> {
    if order == [] then []
    else (if order[0] in places then [PlaceName(order[0])] else []) + NamesOf(places, order[1..])
  }

  /** The one spelling of a value. */
  function Printed(v: Value): string {
    match v
    case Count(n) => Digits(n)
    case Reach(places) => Joined(NamesOf(places, PLACES), ',')
  }

  function Read(s: Setting, text: string): Option<Value> {
    if s == Destinations then
      match PlacesIn(text) case None => None case Some(places) => Some(Reach(places))
    else
      match CountIn(text, Limits(s).0, Limits(s).1) case None => None case Some(n) => Some(Count(n))
  }

  // ----- a printed value reads back ----------------------------------------

  lemma PlaceNameIsPlain(p: Place)
    ensures Solid(PlaceName(p)) && Lacks(PlaceName(p), ',') && Lacks(PlaceName(p), ';')
    ensures PlaceNamed(PlaceName(p)) == Some(p)
  {
    assert PlaceName(Private)[1] == 'r' && PlaceName(Public)[1] == 'u';
    assert PlaceName(Loopback)[1] == 'o' && PlaceName(LinkLocal)[1] == 'i' && PlaceName(Metadata)[1] == 'e';
    assert PLACES[1..] == [Private, Loopback, LinkLocal, Metadata];
    assert PLACES[1..][1..] == [Loopback, LinkLocal, Metadata];
    assert PLACES[1..][1..][1..] == [LinkLocal, Metadata];
    assert PLACES[1..][1..][1..][1..] == [Metadata];
  }

  lemma {:induction false} NamesArePlain(places: set<Place>, order: seq<Place>, i: nat)
    requires i < |NamesOf(places, order)|
    ensures var n := NamesOf(places, order)[i]; Solid(n) && Lacks(n, ',') && Lacks(n, ';')
    decreases |order|
  {
    hide PlaceName, Solid, Lacks;
    var shift := if order[0] in places then 1 else 0;
    if i < shift {
      PlaceNameIsPlain(order[0]);
    } else {
      NamesArePlain(places, order[1..], i - shift);
      assert NamesOf(places, order)[i] == NamesOf(places, order[1..])[i - shift];
    }
  }

  /** What a list of names adds to the names before it. */
  lemma {:induction false} NamedPlacesOfNames(places: set<Place>, before: seq<string>, order: seq<Place>)
    requires NamedPlaces(before).Some?
    ensures NamedPlaces(before + NamesOf(places, order)) == Some(NamedPlaces(before).value + Among(places, order))
    decreases |order|
  {
    hide PlaceName, Stripped, PlaceNamed, NamedPlaces;
    if order == [] {
      assert before + NamesOf(places, order) == before;
      assert Among(places, order) == {};
      assert NamedPlaces(before).value + {} == NamedPlaces(before).value;
    } else {
      var p, rest := order[0], order[1..];
      AmongSplits(places, order);
      if p in places {
        var more := before + [PlaceName(p)];
        OneMoreName(before, p);
        NamedPlacesOfNames(places, more, rest);
        assert more + NamesOf(places, rest) == before + ([PlaceName(p)] + NamesOf(places, rest));
        var b := NamedPlaces(before).value;
        assert b + {p} + Among(places, rest) == b + ({p} + Among(places, rest));
      } else {
        NamedPlacesOfNames(places, before, rest);
        assert NamesOf(places, order) == NamesOf(places, rest);
        assert {} + Among(places, rest) == Among(places, rest);
      }
    }
  }

  ghost function Among(places: set<Place>, order: seq<Place>): set<Place> { set p | p in places && p in order }

  lemma AmongSplits(places: set<Place>, order: seq<Place>)
    requires order != []
    ensures Among(places, order) == (if order[0] in places then {order[0]} else {}) + Among(places, order[1..])
  {
    assert order == [order[0]] + order[1..];
  }

  lemma OneMoreName(before: seq<string>, p: Place)
    requires NamedPlaces(before).Some?
    ensures NamedPlaces(before + [PlaceName(p)]) == Some(NamedPlaces(before).value + {p})
  {
    hide PlaceName, Stripped, PlaceNamed;
    PlaceNameIsPlain(p);
    StrippedIsFixed(PlaceName(p));
    var more := before + [PlaceName(p)];
    assert more[..|more| - 1] == before;
  }

  lemma PlacesAreAll(places: set<Place>)
    ensures Among(places, PLACES) == places
  {
    forall p | p in places ensures p in PLACES {
      match p
      case Public => assert PLACES[0] == p;
      case Private => assert PLACES[1] == p;
      case Loopback => assert PLACES[2] == p;
      case LinkLocal => assert PLACES[3] == p;
      case Metadata => assert PLACES[4] == p;
    }
  }

  lemma PrintedPlacesAreRead(places: set<Place>)
    requires places != {}
    ensures PlacesIn(Joined(NamesOf(places, PLACES), ',')) == Some(places)
    ensures Solid(Joined(NamesOf(places, PLACES), ',')) && Lacks(Joined(NamesOf(places, PLACES), ','), ';')
  {
    hide NamesOf, NamedPlaces, Joined, Pieces, Solid, Lacks;
    var names := NamesOf(places, PLACES);
    PlacesAreNamed(places);
    forall i | 0 <= i < |names| ensures Solid(names[i]) && Lacks(names[i], ',') && Lacks(names[i], ';') {
      NamesArePlain(places, PLACES, i);
    }
    PiecesOfJoined(names, ',');
    JoinedIsSolid(names, ',');
    JoinedLacks(names, ',', ';');
    SolidIsNotEmpty(Joined(names, ','));
  }

  lemma SolidIsNotEmpty(text: string)
    ensures Solid(text) ==> text != ""
  {
  }

  lemma PlacesAreNamed(places: set<Place>)
    requires places != {}
    ensures NamesOf(places, PLACES) != [] && NamedPlaces(NamesOf(places, PLACES)) == Some(places)
  {
    hide NamesOf, PlaceNamed, Stripped;
    var names := NamesOf(places, PLACES);
    NamedPlacesOfNames(places, [], PLACES);
    assert [] + names == names;
    PlacesAreAll(places);
    assert {} + places == places;
  }

  lemma {:induction false} ReadPlacesAreSome(names: seq<string>)
    requires names != [] && NamedPlaces(names).Some?
    ensures NamedPlaces(names).value != {}
  {
    hide PlaceNamed, Stripped;
    match (NamedPlaces(names[..|names| - 1]), PlaceNamed(Stripped(names[|names| - 1])))
    case (Some(places), Some(p)) => assert p in NamedPlaces(names).value;
  }

  /** Whatever text a value was read from, its own spelling reads as the same value, and fits between separators. */
  lemma PrintedIsRead(s: Setting, text: string)
    requires Read(s, text).Some?
    ensures Read(s, Printed(Read(s, text).value)) == Read(s, text)
    ensures Solid(Printed(Read(s, text).value)) && Lacks(Printed(Read(s, text).value), ';')
  {
    hide NamesOf, NamedPlaces, Joined, Pieces, Digits, Limits;
    var v := Read(s, text).value;
    match v
    case Count(n) =>
      ValueOfDigits(n);
      var d := Digits(n);
      assert IsDigit(d[0]) && IsDigit(d[|d| - 1]);
      assert forall i :: 0 <= i < |d| ==> IsDigit(d[i]) && d[i] != ';';
    case Reach(places) =>
      ReadPlacesAreSome(Pieces(text, ','));
      PrintedPlacesAreRead(places);
  }

  // ----- a context ---------------------------------------------------------

  datatype Judgement =
    | Blank
    | Malformed
    | Foreign(name: string, processWide: bool)
    | Sets(setting: Setting, value: string)

  /** What one entry between semicolons says. */
  function Judged(piece: string): Judgement {
    var entry := Stripped(piece);
    if entry == "" then Blank
    else
      var equals := Find(entry, '=');
      if equals == |entry| then Malformed
      else
        var name := Stripped(entry[..equals]);
        match SettingNamed(name)
        case None => Foreign(name, name in PROCESS_WIDE)
        case Some(s) => Sets(s, Stripped(entry[equals + 1..]))
  }

  /** What a list of entries assigns; the last word on a setting is the only one considered. */
  function Assigned(pieces: seq<string>): map<Setting, string> {
    if pieces == [] then map[]
    else
      var before := Assigned(pieces[..|pieces| - 1]);
      match Judged(pieces[|pieces| - 1]) case Sets(s, value) => before[s := value] case _ => before
  }

  predicate Admits(values: map<Setting, string>, s: Setting) { s in values && Read(s, values[s]).Some? }

  /** Values that read, each in its own spelling. */
  function Canonical(values: map<Setting, string>): map<Setting, string> {
    map s | s in values && Admits(values, s) :: Printed(Read(s, values[s]).value)
  }

  function Overrides(text: string): map<Setting, string> { Canonical(Assigned(Pieces(text, ';'))) }

  ghost predicate AllNameSettings(pieces: seq<string>) {
    forall piece :: piece in pieces ==> Judged(piece).Blank? || Judged(piece).Sets?
  }

  /** Every entry names a setting of a context, and every value considered is one the setting takes. */
  ghost predicate NothingRefused(text: string) {
    && AllNameSettings(Pieces(text, ';'))
    && forall s :: s in Assigned(Pieces(text, ';')) ==> Admits(Assigned(Pieces(text, ';')), s)
  }

  function Entry(s: Setting, value: string): string { Name(s) + "=" + value }

  function EntriesOf(values: map<Setting, string>, order: seq<Setting>): seq<string> {
    if order == [] then []
    else (if order[0] in values then [Entry(order[0], values[order[0]])] else []) + EntriesOf(values, order[1..])
  }

  /** The one spelling of a context. */
  function CanonicalText(values: map<Setting, string>): string { Joined(EntriesOf(values, SETTINGS), ';') }

  // ----- the effect of a context -------------------------------------------

  function Default(s: Setting): Value {
    match s
    case CoalesceGap => Count(1)
    case MaxRequestBytes => Count(0x80_0000)
    case ConnectTimeout => Count(10000)
    case ReadTimeout => Count(30000)
    case TotalTimeout => Count(300000)
    case MaxRetries => Count(2)
    case MaxRedirects => Count(5)
    case Destinations => Reach({Public, Private, Loopback})
  }

  /** The value in force: the context's word if it has one, else the environment's, else the default. */
  function Effective(values: map<Setting, string>, base: Setting -> Option<string>, s: Setting): Value {
    match (if s in values then Some(values[s]) else base(s))
    case None => Default(s)
    case Some(text) => match Read(s, text) case None => Default(s) case Some(v) => v
  }

  /** Dropping what does not read. */
  function Accepted(values: map<Setting, string>): map<Setting, string> {
    map s | s in values && Admits(values, s) :: values[s]
  }

  /** Respelling the accepted values of a context changes no setting it puts in force, over any environment. */
  lemma RespellingChangesNothing(text: string, base: Setting -> Option<string>, s: Setting)
    ensures var written := Assigned(Pieces(text, ';'));
            Effective(Overrides(text), base, s) == Effective(Accepted(written), base, s)
  {
    hide Read, Printed, Pieces, Assigned;
    var written := Assigned(Pieces(text, ';'));
    if Admits(written, s) { PrintedIsRead(s, written[s]); }
  }

  // ----- the canonical text reads back -------------------------------------

  predicate IsNameChar(c: char) { 'A' <= c <= 'Z' || c == '_' }

  predicate IsName(text: string) { text != "" && forall i :: 0 <= i < |text| ==> IsNameChar(text[i]) }

  lemma PrefixIsName()
    ensures IsName(PREFIX)
  {
  }

  lemma SuffixIsName(s: Setting)
    ensures IsName(Suffix(s))
  {
    match s
    case CoalesceGap => assert IsName("COALESCE_GAP");
    case ConnectTimeout => assert IsName("CONNECT_TIMEOUT_MS");
    case Destinations => assert IsName("DESTINATIONS");
    case MaxRedirects => assert IsName("MAX_REDIRECTS");
    case MaxRequestBytes => assert IsName("MAX_REQUEST_BYTES");
    case MaxRetries => assert IsName("MAX_RETRIES");
    case ReadTimeout => assert IsName("READ_TIMEOUT_MS");
    case TotalTimeout => assert IsName("TOTAL_TIMEOUT_MS");
  }

  lemma NameIsPlain(s: Setting)
    ensures Solid(Name(s)) && Lacks(Name(s), '=') && Lacks(Name(s), ';')
  {
    hide Suffix;
    PrefixIsName();
    SuffixIsName(s);
    JoinedName(PREFIX, Suffix(s));
  }

  lemma JoinedName(a: string, b: string)
    requires IsName(a) && IsName(b)
    ensures Solid(a + b) && Lacks(a + b, '=') && Lacks(a + b, ';')
  {
    var name := a + b;
    assert IsNameChar(name[0]) && IsNameChar(name[|name| - 1]);
    assert forall i :: 0 <= i < |name| ==> IsNameChar(name[i]);
  }

  /** A character that tells two suffixes apart. */
  lemma SuffixIsInjective(s: Setting, t: Setting)
    requires Suffix(s) == Suffix(t)
    ensures s == t
  {
    var a, b := Suffix(s), Suffix(t);
    assert |a| == |b| && a[0] == b[0] && a[|a| - 1] == b[|b| - 1];
  }

  lemma NameIsInjective(s: Setting, t: Setting)
    requires Name(s) == Name(t)
    ensures s == t
  {
    hide Suffix;
    assert Suffix(s) == Name(s)[|PREFIX|..] && Suffix(t) == Name(t)[|PREFIX|..];
    SuffixIsInjective(s, t);
  }

  lemma {:induction false} NamedAmongFinds(settings: seq<Setting>, s: Setting)
    requires s in settings
    ensures NamedAmong(settings, Name(s)) == Some(s)
  {
    hide Name;
    if Name(settings[0]) == Name(s) {
      NameIsInjective(settings[0], s);
    } else {
      NamedAmongFinds(settings[1..], s);
    }
  }

  lemma SettingsAreAll(s: Setting)
    ensures s in SETTINGS
  {
    match s
    case CoalesceGap => assert SETTINGS[0] == s;
    case ConnectTimeout => assert SETTINGS[1] == s;
    case Destinations => assert SETTINGS[2] == s;
    case MaxRedirects => assert SETTINGS[3] == s;
    case MaxRequestBytes => assert SETTINGS[4] == s;
    case MaxRetries => assert SETTINGS[5] == s;
    case ReadTimeout => assert SETTINGS[6] == s;
    case TotalTimeout => assert SETTINGS[7] == s;
  }

  lemma EntrySplits(name: string, value: string)
    requires Solid(name) && Lacks(name, '=') && Lacks(name, ';') && Solid(value) && Lacks(value, ';')
    ensures var entry := name + "=" + value;
            && Stripped(entry) == entry && Solid(entry) && Lacks(entry, ';')
            && Find(entry, '=') == |name| && entry[..|name|] == name && entry[|name| + 1..] == value
  {
    hide Stripped, Find;
    var entry := name + "=" + value;
    assert entry == name + ("=" + value);
    assert entry[0] == name[0] && entry[|entry| - 1] == value[|value| - 1];
    StrippedIsFixed(entry);
    FindOf(name, "=" + value, '=');
  }

  lemma EntryIsRead(s: Setting, value: string)
    requires Solid(value) && Lacks(value, ';')
    ensures Judged(Entry(s, value)) == Sets(s, value) && Solid(Entry(s, value)) && Lacks(Entry(s, value), ';')
  {
    hide Name, NamedAmong, Stripped, Find, Lacks;
    NameIsPlain(s);
    SettingsAreAll(s);
    NamedAmongFinds(SETTINGS, s);
    EntrySplits(Name(s), value);
    StrippedIsFixed(Name(s));
    StrippedIsFixed(value);
  }

  /** Values as a canonical context holds them. */
  ghost predicate Wellspelled(values: map<Setting, string>) {
    forall s :: s in values ==>
      && Read(s, values[s]).Some? && Printed(Read(s, values[s]).value) == values[s]
      && Solid(values[s]) && Lacks(values[s], ';')
  }

  lemma CanonicalIsWellspelled(values: map<Setting, string>)
    ensures Wellspelled(Canonical(values))
  {
    hide Read, Printed;
    var c := Canonical(values);
    forall s | s in c
      ensures Read(s, c[s]).Some? && Printed(Read(s, c[s]).value) == c[s] && Solid(c[s]) && Lacks(c[s], ';')
    {
      PrintedIsRead(s, values[s]);
    }
  }

  lemma {:induction false} EntriesAreRead(values: map<Setting, string>, order: seq<Setting>, i: nat)
    requires Wellspelled(values) && i < |EntriesOf(values, order)|
    ensures var e := EntriesOf(values, order)[i]; Judged(e).Sets? && Solid(e) && Lacks(e, ';')
    decreases |order|
  {
    hide Judged, Solid, Lacks, Read, Printed, Entry;
    var shift := if order[0] in values then 1 else 0;
    if i < shift {
      EntryIsRead(order[0], values[order[0]]);
    } else {
      EntriesAreRead(values, order[1..], i - shift);
      assert EntriesOf(values, order)[i] == EntriesOf(values, order[1..])[i - shift];
    }
  }

  ghost function Restricted(values: map<Setting, string>, order: seq<Setting>): map<Setting, string> {
    map s | s in values && s in order :: values[s]
  }

  /** What the entries of a context add to whatever was assigned before them. */
  lemma {:induction false} EntriesAreAssigned(values: map<Setting, string>, before: seq<string>, order: seq<Setting>)
    requires Wellspelled(values)
    ensures Assigned(before + EntriesOf(values, order)) == Assigned(before) + Restricted(values, order)
    decreases |order|
  {
    hide Judged, Read, Printed, Entry, Assigned, Wellspelled, Restricted;
    if order == [] {
      assert before + EntriesOf(values, order) == before;
      RestrictedToNone(Assigned(before), values);
    } else {
      var s, rest := order[0], order[1..];
      if s in values {
        var more := before + [Entry(s, values[s])];
        OneMoreEntry(values, before, s);
        EntriesAreAssigned(values, more, rest);
        assert more + EntriesOf(values, rest) == before + ([Entry(s, values[s])] + EntriesOf(values, rest));
        RestrictedSplits(Assigned(before), values, order);
      } else {
        EntriesAreAssigned(values, before, rest);
        assert EntriesOf(values, order) == EntriesOf(values, rest);
        RestrictedSplits(Assigned(before), values, order);
      }
    }
  }

  lemma RestrictedToNone(before: map<Setting, string>, values: map<Setting, string>)
    ensures before + Restricted(values, []) == before
  {
  }

  lemma RestrictedSplits(before: map<Setting, string>, values: map<Setting, string>, order: seq<Setting>)
    requires order != []
    ensures var s, rest := order[0], order[1..];
            before + Restricted(values, order)
            == (if s in values then before[s := values[s]] else before) + Restricted(values, rest)
  {
    assert order == [order[0]] + order[1..];
  }

  lemma OneMoreEntry(values: map<Setting, string>, before: seq<string>, s: Setting)
    requires Wellspelled(values) && s in values
    ensures Assigned(before + [Entry(s, values[s])]) == Assigned(before)[s := values[s]]
  {
    hide Judged, Read, Printed, Entry;
    EntryIsRead(s, values[s]);
    var more := before + [Entry(s, values[s])];
    assert more[..|more| - 1] == before;
  }

  lemma RestrictedToAll(values: map<Setting, string>)
    ensures Restricted(values, SETTINGS) == values
  {
    forall s | s in values ensures s in SETTINGS { SettingsAreAll(s); }
  }

  lemma CanonicalPieces(values: map<Setting, string>)
    requires Wellspelled(values)
    ensures var pieces := Pieces(CanonicalText(values), ';');
            && Assigned(pieces) == values
            && AllNameSettings(pieces)
  {
    hide Judged, Assigned, EntriesOf, Pieces, Joined, Wellspelled, Lacks, Solid;
    var entries := EntriesOf(values, SETTINGS);
    EntriesAreAssigned(values, [], SETTINGS);
    assert [] + entries == entries;
    RestrictedToAll(values);
    NothingAssigned();
    assert map[] + values == values;
    forall i | 0 <= i < |entries| ensures Judged(entries[i]).Sets? && Lacks(entries[i], ';') {
      EntriesAreRead(values, SETTINGS, i);
    }
    if entries != [] { PiecesOfJoined(entries, ';'); } else { EmptyText(); }
  }

  lemma AssignedStep(pieces: seq<string>, piece: string)
    ensures Assigned(pieces + [piece])
            == match Judged(piece) case Sets(s, value) => Assigned(pieces)[s := value] case _ => Assigned(pieces)
    ensures AllNameSettings(pieces + [piece])
            <==> AllNameSettings(pieces) && (Judged(piece).Blank? || Judged(piece).Sets?)
  {
    hide Judged;
    var more := pieces + [piece];
    assert more[..|more| - 1] == pieces;
    assert piece in more && forall p :: p in pieces ==> p in more;
  }

  lemma NothingAssigned()
    ensures Assigned([]) == map[] && AllNameSettings([])
  {
  }

  lemma EmptyText()
    ensures Joined([], ';') == "" && Pieces("", ';') == [""]
    ensures Judged("").Blank? && Assigned([""]) == map[]
  {
    assert Stripped("") == "";
    assert [""][..0] == [];
  }

  /**
   For every context text: the canonical print of what it admits parses to the same overrides, with nothing
   refused.
   */
  lemma CanonicalTextReadsBack(text: string)
    ensures Overrides(CanonicalText(Overrides(text))) == Overrides(text)
    ensures NothingRefused(CanonicalText(Overrides(text)))
  {
    hide Read, Printed, Assigned, Pieces, Judged, CanonicalText;
    var values := Overrides(text);
    CanonicalIsWellspelled(Assigned(Pieces(text, ';')));
    CanonicalPieces(values);
    assert Canonical(values) == values;
  }

  // ----- the parser and the printer ----------------------------------------

  datatype Problem = NotAnEntry | NotRead(variable: string) | ProcessWide(variable: string) | BadValue(setting: Setting)

  method ReadValue(s: Setting, text: string) returns (v: Option<Value>)
    ensures v == Read(s, text)
  {
    if s == Destinations {
      var places := ParseDestinations(text);
      return if places.None? then None else Some(Reach(places.value));
    }
    var n := ParseCount(text, Limits(s).0, Limits(s).1);
    return if n.None? then None else Some(Count(n.value));
  }

  /** First pass: entries between semicolons, the last word on each setting. */
  method AssignEntries(text: string) returns (entries: map<Setting, string>, problems: seq<Problem>)
    ensures entries == Assigned(Pieces(text, ';'))
    ensures problems == [] <==> AllNameSettings(Pieces(text, ';'))
  {
    hide Find, Judged, Pieces, Assigned, AllNameSettings;
    entries, problems := map[], [];
    NothingAssigned();
    assert [] + Pieces(text, ';') == Pieces(text, ';');
    var rest := text;
    ghost var read: seq<string> := [];
    while true
      invariant Pieces(text, ';') == read + Pieces(rest, ';')
      invariant entries == Assigned(read)
      invariant problems == [] <==> AllNameSettings(read)
      decreases |rest|
    {
      var semicolon := Find(rest, ';');
      var piece := rest[..semicolon];
      var judged := Judged(piece);
      match judged {
        case Blank =>
        case Malformed => problems := problems + [NotAnEntry];
        case Foreign(name, wide) => problems := problems + [if wide then ProcessWide(name) else NotRead(name)];
        case Sets(s, value) => entries := entries[s := value];
      }
      PiecesStep(read, rest, ';');
      AssignedStep(read, piece);
      read := read + [piece];
      if semicolon == |rest| {
        assert read + [] == read;
        return;
      }
      rest := rest[semicolon + 1..];
    }
  }

  /** Then the values: what does not read leaves the context, what does is kept as it was read. */
  method OverridesFrom(text: string) returns (entries: map<Setting, string>, problems: seq<Problem>)
    ensures entries == Overrides(text)
    ensures problems == [] <==> NothingRefused(text)
  {
    hide Read, Printed, Pieces, Assigned, Judged;
    var written;
    written, problems := AssignEntries(text);
    entries := map[];
    ghost var before := problems;
    var todo := written.Keys;
    while todo != {}
      invariant todo <= written.Keys
      invariant entries
             == map s | s in written && s !in todo && Admits(written, s) :: Printed(Read(s, written[s]).value)
      invariant problems == [] <==> before == [] && forall s :: s in written && s !in todo ==> Admits(written, s)
      decreases |todo|
    {
      var s :| s in todo;
      todo := todo - {s};
      var v := ReadValue(s, written[s]);
      if v.None? { problems := problems + [BadValue(s)]; } else { entries := entries[s := Printed(v.value)]; }
    }
  }

  method CanonicalContextString(values: map<Setting, string>) returns (text: string)
    ensures text == CanonicalText(values)
  {
    text := PrintEntries(values, SETTINGS);
  }

  /** `text` is the entries for the first `i` settings of the order, and no entry is empty. */
  ghost predicate PrintedUpTo(values: map<Setting, string>, order: seq<Setting>, i: nat, printed: seq<string>,
                              text: string)
    requires i <= |order|
  {
    && EntriesOf(values, order) == printed + EntriesOf(values, order[i..])
    && text == Joined(printed, ';') && forall e :: e in printed ==> e != ""
  }

  lemma PrintedNext(values: map<Setting, string>, order: seq<Setting>, i: nat, printed: seq<string>, text: string)
    requires i < |order| && PrintedUpTo(values, order, i, printed, text)
    ensures if order[i] !in values then PrintedUpTo(values, order, i + 1, printed, text)
            else
              var entry := Entry(order[i], values[order[i]]);
              PrintedUpTo(values, order, i + 1, printed + [entry], (if text != "" then text + ";" else text) + entry)
  {
    hide Entry, EntriesOf, Joined;
    EntriesOfNext(values, order, i);
    if order[i] in values {
      var entry := Entry(order[i], values[order[i]]);
      JoinedMore(printed, entry);
      var rest := EntriesOf(values, order[i + 1..]);
      assert printed + ([entry] + rest) == printed + [entry] + rest;
    } else {
      assert [] + EntriesOf(values, order[i + 1..]) == EntriesOf(values, order[i + 1..]);
    }
  }

  lemma PrintedEnds(values: map<Setting, string>, order: seq<Setting>, printed: seq<string>, text: string)
    requires PrintedUpTo(values, order, |order|, printed, text)
    ensures text == Joined(EntriesOf(values, order), ';')
  {
    hide Joined;
    assert order[|order|..] == [];
    assert printed + [] == printed;
  }

  lemma NothingPrinted(values: map<Setting, string>, order: seq<Setting>)
    ensures PrintedUpTo(values, order, 0, [], "")
  {
    hide EntriesOf;
    assert order[0..] == order;
    assert [] + EntriesOf(values, order) == EntriesOf(values, order);
  }

  method PrintEntries(values: map<Setting, string>, order: seq<Setting>) returns (text: string)
    ensures text == Joined(EntriesOf(values, order), ';')
  {
    hide PrintedUpTo, Entry, EntriesOf, Joined;
    text := "";
    ghost var printed: seq<string> := [];
    NothingPrinted(values, order);
    for i := 0 to |order|
      invariant PrintedUpTo(values, order, i, printed, text)
    {
      var s := order[i];
      PrintedNext(values, order, i, printed, text);
      if s in values {
        if text != "" { text := text + ";"; }
        text := text + Entry(s, values[s]);
        printed := printed + [Entry(s, values[s])];
      }
    }
    PrintedEnds(values, order, printed, text);
  }

  lemma EntriesOfNext(values: map<Setting, string>, order: seq<Setting>, i: nat)
    requires i < |order|
    ensures EntriesOf(values, order[i..])
            == (if order[i] in values then [Entry(order[i], values[order[i]])] else [])
               + EntriesOf(values, order[i + 1..])
    ensures order[i] in values ==> Entry(order[i], values[order[i]]) != ""
  {
    assert order[i..][1..] == order[i + 1..];
  }

  lemma {:induction false} JoinedMore(parts: seq<string>, last: string)
    requires forall e :: e in parts ==> e != ""
    ensures parts == [] ==> Joined(parts, ';') == "" && Joined(parts + [last], ';') == last
    ensures parts != [] ==> Joined(parts, ';') != "" && Joined(parts + [last], ';') == Joined(parts, ';') + ";" + last
    decreases |parts|
  {
    if parts == [] {
      assert parts + [last] == [last];
    } else {
      assert parts[0] in parts;
      var rest, more := parts[1..], parts + [last];
      assert forall e :: e in rest ==> e in parts;
      assert more[1..] == rest + [last] && more[0] == parts[0];
      JoinedMore(rest, last);
      if |parts| > 1 {
        assert parts[0] + (";" + (Joined(rest, ';') + ";" + last)) == parts[0] + (";" + Joined(rest, ';')) + ";" + last;
      } else {
        assert rest == [] && parts[0] + (";" + last) == parts[0] + ";" + last;
      }
    }
  }
}
