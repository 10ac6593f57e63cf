/**
 The URLs a request is sent to: parsing one, writing it back, and resolving what a redirect names against the URL
 that redirected. Fragments never leave the client; the host is lower case; the path holds no dot segments.
 */
module HttpUri {
  import opened Basics
  import opened DotSegments
  import opened Text
  import Identifier

  /** `port` is zero when none was written. A host in brackets keeps them. */
  datatype Uri =
    Uri(scheme: string, userinfo: string, host: string, port: nat, path: string, query: string, hasQuery: bool)
  {
    predicate Secure() { scheme == "https" }

    function DefaultPort(): nat { if Secure() then 443 else 80 }

    function EffectivePort(): nat { if port != 0 then port else DefaultPort() }

    function PortText(): string { if port != 0 && port != DefaultPort() then ":" + Digits(port) else "" }

    function Authority(): string { host + PortText() }

    function Tail(): string { path + if hasQuery then "?" + query else "" }
  }

  /** Written with its credential for the wire, without it for a name. */
  function Composed(u: Uri, userinfo: string): string {
    u.scheme + ":" + ("//" + (Credential(userinfo) + u.Authority() + u.Tail()))
  }

  function Credential(userinfo: string): string { if userinfo == "" then "" else userinfo + "@" }

  function ToString(u: Uri): string { Composed(u, u.userinfo) }

  function ToIdentity(u: Uri): string { Composed(u, "") }

  predicate SameOrigin(a: Uri, b: Uri) {
    a.scheme == b.scheme && a.host == b.host && a.EffectivePort() == b.EffectivePort()
  }

  predicate IsDowngrade(base: Uri, target: Uri) { base.Secure() && !target.Secure() }

  // ----- parsing -----------------------------------------------------------

  datatype Site = Site(userinfo: string, host: string, port: nat)

  function PortIn(text: string): Option<nat> {
    if text == "" then Some(0)
    else if AllDigits(text) && 0 < Value(text) <= 65535 then Some(Value(text))
    else None
  }

  /** Where the port separator is, if the host is well bracketed; the length when there is none. */
  function Separator(hostPort: string): (k: Option<nat>)
    ensures k.Some? ==> k.value <= |hostPort|
  {
    if hostPort != "" && hostPort[0] == '[' then
      var close := Find(hostPort, ']');
      if close == |hostPort| then None
      else if close + 1 < |hostPort| && hostPort[close + 1] != ':' then None
      else Some(close + 1)
    else Some(Find(hostPort, ':'))
  }

  function SiteOf(userinfo: string, hostPort: string): Option<Site> {
    if hostPort == "" then None
    else
      match Separator(hostPort)
      case None => None
      case Some(k) =>
        match PortIn(if k < |hostPort| then hostPort[k + 1..] else "")
        case None => None
        case Some(port) => Some(Site(userinfo, Lower(hostPort[..k]), port))
  }

  /** The last `@` ends the credential: it may hold others. */
  function UserinfoOf(authority: string): string {
    var at := LastBefore(authority, '@', |authority|);
    if at >= 0 then authority[..at] else ""
  }

  function HostPortOf(authority: string): string { authority[LastBefore(authority, '@', |authority|) + 1..] }

  function SiteIn(authority: string): Option<Site> { SiteOf(UserinfoOf(authority), HostPortOf(authority)) }

  method ParseAuthority(authority: string) returns (site: Option<Site>)
    ensures site == SiteIn(authority)
  {
    hide SiteIn, SiteOf, UserinfoOf, HostPortOf;
    site := ParseSite(UserinfoOf(authority), HostPortOf(authority));
    SiteInIs(authority);
  }

  lemma SiteInIs(authority: string)
    ensures SiteIn(authority) == SiteOf(UserinfoOf(authority), HostPortOf(authority))
  {
  }

  method ParseSite(userinfo: string, hostPort: string) returns (site: Option<Site>)
    ensures site == SiteOf(userinfo, hostPort)
  {
    hide Find, Lower, Separator, PortIn;
    if hostPort == "" { return None; }
    var separator := Separator(hostPort);
    if separator.None? { return None; }
    var k := separator.value;
    var port := ParsePortText(if k < |hostPort| then hostPort[k + 1..] else "");
    if port.None? { return None; }
    return Some(Site(userinfo, Lower(hostPort[..k]), port.value));
  }

  method ParsePortText(text: string) returns (port: Option<nat>)
    ensures port == PortIn(text)
  {
    hide Value;
    if text == "" { return Some(0); }
    port := Identifier.ParsePort(text);
    if port == Some(0) { port := None; }
  }

  /** The authority runs to the first slash or question mark. */
  function AuthorityEnd(s: string): (k: nat)
    ensures k <= |s| && (k < |s| ==> s[k] == '/' || s[k] == '?')
    ensures forall i :: 0 <= i < k ==> s[i] != '/' && s[i] != '?'
  {
    if Find(s, '/') <= Find(s, '?') then Find(s, '/') else Find(s, '?')
  }

  function BeforeEnd(body: string): string { body[..AuthorityEnd(body)] }

  function FromEnd(body: string): (tail: string)
    ensures tail == "" || tail[0] == '/' || tail[0] == '?'
  {
    body[AuthorityEnd(body)..]
  }

  function PathOf(tail: string): (path: string)
    requires tail == "" || tail[0] == '/' || tail[0] == '?'
    ensures path != "" && path[0] == '/'
  {
    var q := Find(tail, '?');
    if q == 0 then "/" else tail[..q]
  }

  function QueryOf(tail: string): string {
    var q := Find(tail, '?');
    if q < |tail| then tail[q + 1..] else ""
  }

  function HasQuery(tail: string): bool { Find(tail, '?') < |tail| }

  function AfterAuthority(scheme: string, site: Site, tail: string): Uri
    requires tail == "" || tail[0] == '/' || tail[0] == '?'
  {
    Uri(scheme, site.userinfo, site.host, site.port, Canonical(PathOf(tail)), QueryOf(tail), HasQuery(tail))
  }

  function ParseHierarchy(scheme: string, rest: string): Option<Uri> {
    if !Identifier.IsClaimed(scheme) || |rest| < 2 || rest[0] != '/' || rest[1] != '/' then None
    else
      match SiteIn(BeforeEnd(rest[2..]))
      case None => None
      case Some(site) => Some(AfterAuthority(scheme, site, FromEnd(rest[2..])))
  }

  function WithoutFragment(text: string): string { text[..Find(text, '#')] }

  function ParseUri(text: string): Option<Uri> {
    var t := WithoutFragment(text);
    var colon := Find(t, ':');
    if colon == |t| then None else ParseHierarchy(Lower(t[..colon]), t[colon + 1..])
  }

  // ----- resolving a redirect ----------------------------------------------

  /** Everything up to the last slash of the base path, then the reference. */
  function Merged(base: string, reference: string): string { base[..LastBefore(base, '/', |base|) + 1] + reference }

  function Rooted(path: string): (r: string)
    ensures r != "" && r[0] == '/'
  {
    if path == "" || path[0] != '/' then "/" + path else path
  }

  /** The path of a reference that has one of its own, relative or not. */
  function ResolvedPath(base: string, reference: string): string {
    Rooted(Removed(if reference != "" && reference[0] == '/' then reference else Merged(base, reference)))
  }

  function ResolveReference(base: Uri, location: string): Option<Uri> {
    var r := WithoutFragment(location);
    if r == "" then None
    else if Find(r, ':') < |r| && Find(r, ':') < AuthorityEnd(r) then ParseUri(r)
    else if |r| >= 2 && r[0] == '/' && r[1] == '/' then ParseUri(base.scheme + ":" + r)
    else if r[0] == '?' then Some(base.(query := r[1..], hasQuery := true))
    else
      Some(base.(path := ResolvedPath(base.path, r[..Find(r, '?')]), query := QueryOf(r), hasQuery := HasQuery(r)))
  }

  // ----- well-formed URLs --------------------------------------------------

  predicate Free(text: string) { Lacks(text, '/') && Lacks(text, '?') && Lacks(text, '#') }

  predicate PlainHost(host: string) {
    && Free(host) && Lacks(host, '@') && Lower(host) == host
    && (if host != "" && host[0] == '[' then Find(host, ']') == |host| - 1 else Lacks(host, ':'))
  }

  predicate PlainPath(path: string) {
    path != "" && path[0] == '/' && Canonical(path) == path && Lacks(path, '?') && Lacks(path, '#')
  }

  predicate WellFormed(u: Uri) {
    && Identifier.IsClaimed(u.scheme)
    && Free(u.userinfo) && PlainHost(u.host) && u.port <= 65535
    && PlainPath(u.path) && Lacks(u.query, '#') && (!u.hasQuery ==> u.query == "")
  }

  lemma {:induction false} SegmentsLack(s: string, c: char)
    requires Lacks(s, c)
    ensures forall part :: part in Split(s) ==> Lacks(part, c)
    decreases |s|
  {
    var k := FirstSlash(s);
    if k < |s| { SegmentsLack(s[k + 1..], c); }
  }

  lemma {:induction false} FoldLacks(stack: seq<string>, segments: seq<string>, c: char)
    requires segments != [] && forall part :: part in stack || part in segments ==> Lacks(part, c)
    ensures forall part :: part in Fold(stack, segments) ==> Lacks(part, c)
    decreases |segments|
  {
    var head := segments[0];
    var next := if head == "." then stack else if head == ".." then Popped(stack) else stack + [head];
    assert forall part :: part in next ==> part in stack || part == head;
    if |segments| > 1 {
      assert forall part :: part in segments[1..] ==> part in segments;
      FoldLacks(next, segments[1..], c);
    }
  }

  lemma {:induction false} JoinLacks(segments: seq<string>, c: char)
    requires c != '/' && forall part :: part in segments ==> Lacks(part, c)
    ensures Lacks(Join(segments), c)
    decreases |segments|
  {
    if segments != [] {
      assert segments[0] in segments && forall part :: part in segments[1..] ==> part in segments;
      JoinLacks(segments[1..], c);
    }
  }

  lemma CanonicalLacks(path: string, c: char)
    requires path != "" && path[0] == '/' && Lacks(path, c) && c != '/'
    ensures Lacks(Canonical(path), c)
  {
    hide Fold, Split, Join;
    SegmentsLack(path[1..], c);
    FoldLacks([], Split(path[1..]), c);
    JoinLacks(Fold([], Split(path[1..])), c);
  }

  lemma CanonicalIsPlain(path: string)
    requires path != "" && path[0] == '/' && Lacks(path, '?') && Lacks(path, '#')
    ensures PlainPath(Canonical(path))
  {
    hide Canonical, Split;
    CanonicalIsFixed(path);
    CanonicalLacks(path, '?');
    CanonicalLacks(path, '#');
  }

  lemma LowerKeeps(text: string, c: char)
    requires !('a' <= c <= 'z') && !('A' <= c <= 'Z')
    ensures Lower(Lower(text)) == Lower(text)
    ensures Lacks(text, c) <==> Lacks(Lower(text), c)
    ensures text != "" ==> (text[0] == c <==> Lower(text)[0] == c)
  {
    forall i | 0 <= i < |text| ensures text[i] == c <==> Lower(text)[i] == c {}
  }

  lemma FindUnique(text: string, c: char, k: nat)
    requires k < |text| && text[k] == c && forall i :: 0 <= i < k ==> text[i] != c
    ensures Find(text, c) == k
  {
    assert Find(text, c) <= k;
  }

  lemma SiteIsPlain(authority: string)
    requires Free(authority)
    ensures SiteIn(authority).Some? ==>
              var site := SiteIn(authority).value; Free(site.userinfo) && PlainHost(site.host) && site.port <= 65535
  {
    hide UserinfoOf, HostPortOf, Free, Lower, Separator, PlainHost, PortIn;
    AfterCredential(authority);
    var hostPort := HostPortOf(authority);
    if SiteIn(authority).Some? {
      HostIsPlain(hostPort);
      var k := Separator(hostPort).value;
      PortIsSmall(if k < |hostPort| then hostPort[k + 1..] else "");
    }
  }

  lemma PortIsSmall(text: string)
    ensures PortIn(text).Some? ==> PortIn(text).value <= 65535
  {
    hide Value;
  }

  lemma SliceIsFree(text: string, from: nat, to: nat)
    requires Free(text) && from <= to <= |text|
    ensures Free(text[from..to])
  {
  }

  lemma NoneAfterLast(text: string, c: char, k: int)
    requires -1 <= k < |text| && forall i :: k < i < |text| ==> text[i] != c
    ensures Lacks(text[k + 1..], c)
  {
  }

  lemma AfterCredential(authority: string)
    requires Free(authority)
    ensures Free(HostPortOf(authority)) && Lacks(HostPortOf(authority), '@') && Free(UserinfoOf(authority))
  {
    hide LastBefore, Free, Lacks;
    LastBeforeIsLast(authority, '@', |authority|);
    var at := LastBefore(authority, '@', |authority|);
    NoneAfterLast(authority, '@', at);
    SliceIsFree(authority, at + 1, |authority|);
    assert authority[at + 1..|authority|] == authority[at + 1..];
    SliceIsFree(authority, 0, if at >= 0 then at else 0);
    assert authority[0..0] == "" && (at >= 0 ==> authority[0..at] == authority[..at]);
  }

  lemma HostIsPlain(hostPort: string)
    requires Free(hostPort) && Lacks(hostPort, '@') && hostPort != "" && Separator(hostPort).Some?
    ensures PlainHost(Lower(hostPort[..Separator(hostPort).value]))
  {
    hide Find, Lower;
    var k := Separator(hostPort).value;
    var raw := hostPort[..k];
    LowerKeeps(raw, '/');
    LowerKeeps(raw, '?');
    LowerKeeps(raw, '#');
    LowerKeeps(raw, '@');
    LowerKeeps(raw, ':');
    if raw != "" { LowerKeeps(raw, '['); }
    if hostPort[0] == '[' {
      assert raw[|raw| - 1] == ']' && forall i :: 0 <= i < |raw| - 1 ==> raw[i] != ']';
      BracketStays(raw);
    } else {
      assert Lacks(raw, ':');
    }
  }

  lemma BracketStays(raw: string)
    requires raw != "" && raw[|raw| - 1] == ']' && forall i :: 0 <= i < |raw| - 1 ==> raw[i] != ']'
    ensures Find(Lower(raw), ']') == |raw| - 1
  {
    hide Find;
    var low := Lower(raw);
    assert forall i :: 0 <= i < |raw| ==> low[i] == LowerChar(raw[i]);
    FindUnique(low, ']', |raw| - 1);
  }

  /** Whatever text is accepted, what it parses to is well formed. */
  lemma ParsedIsWellFormed(text: string)
    ensures ParseUri(text).Some? ==> WellFormed(ParseUri(text).value)
  {
    hide Find, Lower, ParseHierarchy, WellFormed;
    var t := WithoutFragment(text);
    assert Lacks(t, '#');
    var colon := Find(t, ':');
    if colon < |t| { HierarchyIsWellFormed(Lower(t[..colon]), t[colon + 1..]); }
  }

  lemma HierarchyIsWellFormed(scheme: string, rest: string)
    requires Lacks(rest, '#')
    ensures ParseHierarchy(scheme, rest).Some? ==> WellFormed(ParseHierarchy(scheme, rest).value)
  {
    hide Find, SiteIn, PlainHost, PlainPath, BeforeEnd, FromEnd, Canonical, PathOf, QueryOf, HasQuery;
    if |rest| >= 2 {
      var body := rest[2..];
      assert Lacks(body, '#');
      BodyParts(body);
      SiteIsPlain(BeforeEnd(body));
      TailParts(FromEnd(body));
    }
  }

  lemma BodyParts(body: string)
    requires Lacks(body, '#')
    ensures Free(BeforeEnd(body)) && Lacks(FromEnd(body), '#')
  {
    hide AuthorityEnd;
  }

  lemma TailParts(tail: string)
    requires Lacks(tail, '#') && (tail == "" || tail[0] == '/' || tail[0] == '?')
    ensures PlainPath(Canonical(PathOf(tail))) && Lacks(QueryOf(tail), '#') && (!HasQuery(tail) ==> QueryOf(tail) == "")
  {
    hide Find, Canonical, PlainPath;
    CanonicalIsPlain(PathOf(tail));
  }

  // ----- a URL reads back as it was written --------------------------------

  /** The default port is the one that is not written. */
  function WrittenPort(u: Uri): nat { if u.port == u.DefaultPort() then 0 else u.port }

  lemma {:induction false} PrintedPort(u: Uri)
    requires u.port <= 65535
    ensures u.PortText() != "" <==> WrittenPort(u) != 0
    ensures u.PortText() != "" ==> u.PortText()[0] == ':' && PortIn(u.PortText()[1..]) == Some(u.port)
    ensures Free(u.PortText()) && Lacks(u.PortText(), '@')
  {
    hide Value, Digits;
    var d := Digits(u.port);
    ValueOfDigits(u.port);
    assert forall i :: 0 <= i < |d| ==> IsDigit(d[i]);
    if u.PortText() != "" { assert u.PortText()[1..] == d; }
  }

  lemma SeparatorOfAuthority(host: string, portText: string)
    requires PlainHost(host) && (portText == "" || portText[0] == ':') && host + portText != ""
    ensures Separator(host + portText) == Some(|host|)
  {
    hide Find, Lower;
    var a := host + portText;
    if host != "" && host[0] == '[' {
      assert a[0] == '[' && a[|host| - 1] == ']';
      assert forall i :: 0 <= i < |host| - 1 ==> a[i] == host[i] != ']';
      FindUnique(a, ']', |host| - 1);
    } else {
      assert host == "" ==> a[0] == ':';
      FindOf(host, portText, ':');
    }
  }

  lemma AuthorityReadsBack(u: Uri, userinfo: string)
    requires WellFormed(u)
    ensures SiteOf(userinfo, u.Authority())
            == if u.Authority() == "" then None else Some(Site(userinfo, u.host, WrittenPort(u)))
  {
    hide Find, Lower, Separator, PortIn, PlainPath, Free;
    var a := u.Authority();
    if a != "" {
      PrintedPort(u);
      SeparatorOfAuthority(u.host, u.PortText());
      assert a[..|u.host|] == u.host;
      if u.PortText() != "" { assert a[|u.host| + 1..] == u.PortText()[1..]; } else { NoPortText(); }
    }
  }

  lemma NoPortText()
    ensures PortIn("") == Some(0)
  {
  }

  lemma CredentialReadsBack(u: Uri, userinfo: string)
    requires WellFormed(u) && Free(userinfo)
    ensures var a := Credential(userinfo) + u.Authority();
            && Free(a) && UserinfoOf(a) == userinfo && HostPortOf(a) == u.Authority()
  {
    hide LastBefore, Find, Lower, PlainPath;
    PrintedPort(u);
    var authority := u.Authority();
    assert Free(authority) && Lacks(authority, '@');
    var a := Credential(userinfo) + authority;
    assert LastBefore(a, '@', |a|) == FindLast(a, '@');
    if userinfo == "" {
      assert a == authority;
      FindLastNone(authority, '@');
    } else {
      assert a == userinfo + ['@'] + authority;
      FindLastOf(userinfo, '@', authority);
    }
  }

  lemma TailReadsBack(u: Uri)
    requires WellFormed(u)
    ensures var tail := u.Tail();
            && tail != "" && tail[0] == '/' && Lacks(tail, '#')
            && PathOf(tail) == u.path && QueryOf(tail) == u.query && HasQuery(tail) == u.hasQuery
  {
    hide Find, Lower, PlainHost, Canonical;
    var tail, more := u.Tail(), if u.hasQuery then "?" + u.query else "";
    assert tail == u.path + more;
    FindOf(u.path, more, '?');
    assert tail[..|u.path|] == u.path;
    if u.hasQuery { assert tail[|u.path| + 1..] == u.query; }
  }

  lemma BodySplits(a: string, tail: string)
    requires Free(a) && tail != "" && tail[0] == '/'
    ensures BeforeEnd(a + tail) == a && FromEnd(a + tail) == tail
  {
    hide AuthorityEnd;
    var body := a + tail;
    assert body[|a|] == '/';
    assert forall i :: 0 <= i < |a| ==> body[i] == a[i];
    assert AuthorityEnd(body) == |a|;
  }

  lemma SchemeReadsBack(scheme: string, rest: string)
    requires Identifier.IsClaimed(scheme) && Lacks(rest, '#')
    ensures var text := scheme + ":" + rest;
            && WithoutFragment(text) == text && Find(text, ':') == |scheme|
            && Lower(text[..|scheme|]) == scheme && text[|scheme| + 1..] == rest
  {
    hide Find, Lower;
    var text := scheme + ":" + rest;
    ClaimedIsPlain(scheme);
    assert Lacks(text, '#') && text == scheme + (":" + rest);
    FindOf(text, "", '#');
    assert text + "" == text && WithoutFragment(text) == text;
    FindOf(scheme, ":" + rest, ':');
    assert text[..|scheme|] == scheme;
  }

  lemma ClaimedIsPlain(scheme: string)
    requires Identifier.IsClaimed(scheme)
    ensures Lacks(scheme, '#') && Lacks(scheme, ':') && Lower(scheme) == scheme
  {
    if scheme == "http" { assert Lower("http") == "http"; } else { assert Lower("https") == "https"; }
  }

  /**
   A well-formed URL, written with a credential or without, parses back to itself with that credential and with a
   default port left out; unless neither its host nor a port is written, when nothing parses back at all.
   */
  lemma ComposedParsesBack(u: Uri, userinfo: string)
    requires WellFormed(u) && Free(userinfo)
    ensures ParseUri(Composed(u, userinfo))
            == if u.Authority() == "" then None else Some(u.(userinfo := userinfo, port := WrittenPort(u)))
  {
    hide Find, FindLast, Lower, Free, PlainHost, SiteOf, PathOf, QueryOf, HasQuery, UserinfoOf, HostPortOf,
         BeforeEnd, FromEnd, Credential, WithoutFragment;
    var a, tail := Credential(userinfo) + u.Authority(), u.Tail();
    CredentialReadsBack(u, userinfo);
    TailReadsBack(u);
    BodySplits(a, tail);
    AuthorityReadsBack(u, userinfo);
    FreeLacks(a);
    var body := a + tail;
    var rest := "//" + body;
    assert Composed(u, userinfo) == u.scheme + ":" + rest;
    hide Composed;
    assert Lacks(rest, '#') && rest[0] == '/' && rest[1] == '/' && rest[2..] == body;
    SchemeReadsBack(u.scheme, rest);
  }

  lemma FreeLacks(text: string)
    ensures Free(text) ==> Lacks(text, '#')
  {
  }

  /** The name of a URL parses back to it without its credential, and does not depend on the credential. */
  lemma IdentityParsesBack(u: Uri, userinfo: string)
    requires WellFormed(u)
    ensures ParseUri(ToIdentity(u))
            == if u.Authority() == "" then None else Some(u.(userinfo := "", port := WrittenPort(u)))
    ensures ToIdentity(u.(userinfo := userinfo)) == ToIdentity(u)
  {
    hide ParseUri, WellFormed;
    assert Free("");
    ComposedParsesBack(u, "");
  }

  /**
   The exception is real: `http://:80/` and its kin, a default port and no host, are accepted, and are not accepted
   again once written.
   */
  lemma EmptyHostIsLost(u: Uri)
    requires WellFormed(u) && u.userinfo == "" && u.host == "" && u.port == u.DefaultPort()
    ensures ParseUri(u.scheme + ":" + ("//" + (":" + Digits(u.port) + u.Tail()))) == Some(u)
    ensures ParseUri(ToString(u)) == None
  {
    hide Find, FindLast, Lower, Digits, Separator, SiteIn, PathOf, QueryOf, HasQuery, BeforeEnd, FromEnd, PlainHost;
    var a := ":" + Digits(u.port);
    PortAloneIsRead(u);
    TailReadsBack(u);
    hide WithoutFragment;
    BodySplits(a, u.Tail());
    FreeLacks(a);
    var rest := "//" + (a + u.Tail());
    assert rest[2..] == a + u.Tail() && Lacks(rest, '#');
    SchemeReadsBack(u.scheme, rest);
    ComposedParsesBack(u, "");
  }

  lemma NoCredential(authority: string)
    requires Lacks(authority, '@')
    ensures UserinfoOf(authority) == "" && HostPortOf(authority) == authority
  {
    hide LastBefore;
    LastBeforeIsLast(authority, '@', |authority|);
  }

  lemma PortAloneIsRead(u: Uri)
    requires PlainHost("") && u.port == u.DefaultPort()
    ensures Free(":" + Digits(u.port)) && SiteIn(":" + Digits(u.port)) == Some(Site("", "", u.port))
  {
    hide Find, Lower, Digits, Value, Separator, UserinfoOf, HostPortOf;
    var d := Digits(u.port);
    var a := ":" + d;
    ValueOfDigits(u.port);
    assert forall i :: 0 <= i < |d| ==> IsDigit(d[i]);
    assert Lacks(a, '@') && a[0] == ':' && a[1..] == d && a[..0] == "";
    NoCredential(a);
    assert "" + a == a;
    SeparatorOfAuthority("", a);
  }

  // ----- where a redirect may lead -----------------------------------------

  lemma RemovedIsPlain(path: string)
    requires path != "" && path[0] == '/' && Lacks(path, '?') && Lacks(path, '#')
    ensures PlainPath(Rooted(Removed(path)))
  {
    hide Fold, Split, PlainPath;
    CanonicalIsPlain(path);
    CanonicalIsFixed(path);
    assert Removed(path) == Canonical(path);
  }

  lemma MergedIsPlain(base: string, reference: string)
    requires PlainPath(base) && Lacks(reference, '?') && Lacks(reference, '#')
    ensures var m := Merged(base, reference); m != "" && m[0] == '/' && Lacks(m, '?') && Lacks(m, '#')
  {
    hide LastBefore, Canonical;
    LastBeforeIsLast(base, '/', |base|);
    assert base[0] == '/';
  }

  /** A reference with neither scheme nor authority stays at its base. */
  predicate StaysHome(location: string) {
    var r := WithoutFragment(location);
    && r != "" && !(Find(r, ':') < |r| && Find(r, ':') < AuthorityEnd(r)) && !(|r| >= 2 && r[0] == '/' && r[1] == '/')
  }

  /** Whatever a server puts in `Location`: if it resolves, then to a well-formed URL; and if relative, at home. */
  lemma ResolvedIsWellFormed(base: Uri, location: string)
    requires WellFormed(base)
    ensures var target := ResolveReference(base, location);
            && (target.Some? ==> WellFormed(target.value))
            && (StaysHome(location) ==> target.Some? && SameOrigin(target.value, base))
  {
    hide Find, AuthorityEnd, ParseUri, PlainHost, PlainPath, Free, ResolvedPath, QueryOf, HasQuery;
    var r := WithoutFragment(location);
    FragmentIsGone(location);
    if r != "" {
      ParsedIsWellFormed(r);
      ParsedIsWellFormed(base.scheme + ":" + r);
      if r[0] != '?' { RelativeIsPlain(base.path, r); }
    }
  }

  lemma FragmentIsGone(location: string)
    ensures Lacks(WithoutFragment(location), '#')
  {
  }

  lemma RelativeIsPlain(base: string, r: string)
    requires PlainPath(base) && Lacks(r, '#')
    ensures PlainPath(ResolvedPath(base, r[..Find(r, '?')]))
    ensures Lacks(QueryOf(r), '#') && (!HasQuery(r) ==> QueryOf(r) == "")
  {
    hide Find, Removed, Rooted, PlainPath, Merged;
    var path := r[..Find(r, '?')];
    assert Lacks(path, '?') && Lacks(path, '#');
    MergedIsPlain(base, path);
    RemovedIsPlain(if path != "" && path[0] == '/' then path else Merged(base, path));
  }
}
