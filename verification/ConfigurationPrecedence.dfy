/** Which word on a setting counts: the last of the context, then the environment's, then the default. */
module ConfigurationPrecedence {
  import opened Basics
  import opened Configuration
  import opened SeparatedText
  import opened Text

  lemma {:induction false} PiecesOfTwo(a: string, b: string, c: char)
    requires Lacks(b, c)
    ensures Pieces(a + [c] + b, c) == Pieces(a, c) + [b]
    decreases |a|
  {
    hide Find;
    var text, k := a + [c] + b, Find(a, c);
    if k == |a| {
      assert text == a + ([c] + b);
      FindOf(a, [c] + b, c);
      assert text[..|a|] == a && text[|a| + 1..] == b;
      FindOf(b, "", c);
      assert b + "" == b;
    } else {
      var rest := a[k..] + [c] + b;
      assert text == a[..k] + rest;
      FindOf(a[..k], rest, c);
      assert text[..k] == a[..k] && text[k + 1..] == a[k + 1..] + [c] + b;
      PiecesOfTwo(a[k + 1..], b, c);
    }
  }

  /** What the environment says of a setting, if it says something the setting takes. */
  function FromEnvironment(base: Setting -> Option<string>, s: Setting): Value {
    if base(s).Some? && Read(s, base(s).value).Some? then Read(s, base(s).value).value else Default(s)
  }

  lemma NewWordCounts(said: map<Setting, string>, s: Setting, value: string, base: Setting -> Option<string>,
                      t: Setting)
    ensures Effective(Canonical(said[s := value]), base, t)
         == if t != s then Effective(Canonical(said), base, t)
            else if Read(s, value).Some? then Read(s, value).value
            else FromEnvironment(base, s)
  {
    hide Read, Printed, Default;
    var now := said[s := value];
    assert t != s ==> (t in Canonical(now) <==> t in Canonical(said));
    if Read(s, value).Some? { PrintedIsRead(s, value); }
  }

  /**
   Adding an entry to any context: its setting takes the value, whatever was said before and whatever the environment
   says, if the value reads. If it does not, the setting is the environment's again. Other settings are as they were.
   */
  lemma LastWordCounts(before: string, s: Setting, value: string, base: Setting -> Option<string>, t: Setting)
    requires Solid(value) && Lacks(value, ';')
    ensures var text := before + ";" + (Name(s) + "=" + value);
            Effective(Overrides(text), base, t)
            == if t != s then Effective(Overrides(before), base, t)
               else if Read(s, value).Some? then Read(s, value).value
               else FromEnvironment(base, s)
  {
    hide Read, Pieces, Assigned, Judged, Name, Effective, Canonical, FromEnvironment;
    var entry := Name(s) + "=" + value;
    EntryIsRead(s, value);
    PiecesOfTwo(before, entry, ';');
    AssignedStep(Pieces(before, ';'), entry);
    assert before + ";" + entry == before + [';'] + entry;
    NewWordCounts(Assigned(Pieces(before, ';')), s, value, base, t);
  }

  /** A context that says nothing leaves every setting to the environment. */
  lemma SilenceLeavesEnvironment(base: Setting -> Option<string>, s: Setting)
    ensures Effective(Overrides(""), base, s) == FromEnvironment(base, s)
  {
    hide Read, Printed, Default;
    assert Pieces("", ';') == [""];
    assert Stripped("") == "";
    assert [""][..0] == [];
    assert Assigned([""]) == map[];
  }

  /** Name, least, greatest and default of every setting that is a number. */
  lemma Numbers(s: Setting, text: string)
    requires AllDigits(text) && text != ""
    ensures var n := Text.Value(text);
            match s
            case CoalesceGap => Takes(s, text, "COALESCE_GAP", 0 <= n <= 1024, 1)
            case ConnectTimeout => Takes(s, text, "CONNECT_TIMEOUT_MS", 1 <= n <= 3600000, 10000)
            case ReadTimeout => Takes(s, text, "READ_TIMEOUT_MS", 1 <= n <= 3600000, 30000)
            case TotalTimeout => Takes(s, text, "TOTAL_TIMEOUT_MS", 1 <= n <= 3600000, 300000)
            case MaxRedirects => Takes(s, text, "MAX_REDIRECTS", 0 <= n <= 100, 5)
            case MaxRetries => Takes(s, text, "MAX_RETRIES", 0 <= n <= 100, 2)
            case MaxRequestBytes => Takes(s, text, "MAX_REQUEST_BYTES", 4096 <= n <= 4294967296, 8388608)
            case Destinations =>
              Name(s) == "USD_HTTP_RESOLVER_DESTINATIONS" && Default(s) == Reach({Public, Private, Loopback})
  {
    hide Text.Value;
  }

  predicate Takes(s: Setting, text: string, suffix: string, fits: bool, usual: nat)
    requires AllDigits(text)
  {
    && Name(s) == "USD_HTTP_RESOLVER_" + suffix && Default(s) == Count(usual)
    && Read(s, text) == if fits then Some(Count(Text.Value(text))) else None
  }

  /** Anything but digits is no number. */
  lemma OnlyDigitsAreNumbers(s: Setting, text: string)
    requires s != Destinations && Read(s, text).Some?
    ensures text != "" && AllDigits(text)
  {
  }

  /** The classes of address go by these names, and a list names exactly the classes between its commas. */
  lemma {:induction false} ListNamesItsItems(names: seq<string>, place: Place)
    requires NamedPlaces(names).Some?
    ensures place in NamedPlaces(names).value <==>
              exists i :: 0 <= i < |names| && Stripped(names[i]) == PlaceName(place)
  {
    hide Stripped, PlaceName;
    if names != [] {
      var n := |names| - 1;
      var before := names[..n];
      ListNamesItsItems(before, place);
      assert forall i :: 0 <= i < n ==> before[i] == names[i];
      var last := PlaceNamed(Stripped(names[n])).value;
      NameIsOnePlace(last, place);
      if last == place { assert Stripped(names[n]) == PlaceName(place); }
    }
  }

  lemma NameIsOnePlace(a: Place, b: Place)
    ensures PlaceName(a) == PlaceName(b) <==> a == b
  {
    assert PlaceName(a)[0] == PlaceName(b)[0] && |PlaceName(a)| == |PlaceName(b)| ==> a == b;
  }

  lemma PlaceNames()
    ensures PlaceName(Public) == "public" && PlaceName(Private) == "private" && PlaceName(Loopback) == "loopback"
    ensures PlaceName(LinkLocal) == "link-local" && PlaceName(Metadata) == "metadata"
  {
  }

  /** Before in the order of a dictionary. */
  ghost predicate Precedes(a: string, b: string) {
    exists k :: 0 <= k < |a| && k < |b| && a[..k] == b[..k] && a[k] < b[k]
  }

  /** Settings are printed in the order of their names. */
  lemma SettingsAreInOrder(i: nat)
    requires i + 1 < |SETTINGS|
    ensures Precedes(Name(SETTINGS[i]), Name(SETTINGS[i + 1]))
  {
    var a, b := Suffix(SETTINGS[i]), Suffix(SETTINGS[i + 1]);
    var k := match i case 0 => 2 case 1 => 0 case 2 => 0 case 3 => 6 case 4 => 6 case _ => 0;
    assert a[..k] == b[..k] && a[k] < b[k];
    var x, y, n := Name(SETTINGS[i]), Name(SETTINGS[i + 1]), |PREFIX| + k;
    assert x == PREFIX + a && y == PREFIX + b;
    assert x[..n] == PREFIX + a[..k] && y[..n] == PREFIX + b[..k];
    assert x[n] == a[k] && y[n] == b[k];
  }
}
