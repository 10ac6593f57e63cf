/**
 Resolving a reference next to an anchor, on the texts themselves: what a reference names there is what a plain URL
 names without any anchor, and which URL that is is written out for each kind of reference (section 5.2 of RFC 3986).
 */
module IdentifierReferences {
  import opened Basics
  import opened Text
  import opened DotSegments
  import opened PercentEncoding
  import opened Identifier

  // ----- texts -------------------------------------------------------------

  /** A letter, then letters, digits, `+`, `-` and `.`. */
  predicate IsScheme(text: string) { text != "" && IsAlpha(text[0]) && forall c :: c in text ==> SchemeChar(c) }

  predicate IsHttp(scheme: string) { Lower(scheme) == "http" || Lower(scheme) == "https" }

  /** The text begins with a scheme and a colon. */
  ghost predicate StartsScheme(text: string) { exists n :: 0 < n < |text| && text[n] == ':' && IsScheme(text[..n]) }

  /** Neither a query nor a fragment begins in the text. */
  predicate NoTail(text: string) { Lacks(text, '?') && Lacks(text, '#') }

  predicate IsAuthority(text: string) { Lacks(text, '/') && NoTail(text) }

  predicate IsPath(text: string) { (text == "" || text[0] == '/') && NoTail(text) }

  /** A path that ends at a slash. */
  predicate IsDirectory(text: string) { IsPath(text) && text != "" && text[|text| - 1] == '/' }

  /** A query, a fragment, both or neither. */
  predicate IsTail(text: string) { text == "" || text[0] == '?' || text[0] == '#' }

  /** What stands between the question mark and the fragment. */
  function QueryIn(tail: string): string {
    var t := tail[..Find(tail, '#')];
    if t == "" then "" else t[1..]
  }

  predicate HasQueryIn(tail: string) { tail != "" && tail[0] == '?' }

  function SiteText(scheme: Octets, authority: Octets): (s: Octets) { scheme + "://" + authority }

  // ----- splitting them ----------------------------------------------------

  lemma TailSplits(base: string, tail: string)
    requires NoTail(base) && IsTail(tail) && base + tail != ""
    ensures SplitUriReference(base + tail) == Some(SplitScheme(base, QueryIn(tail), HasQueryIn(tail)))
  {
    hide Find, SplitScheme;
    var text, cut := base + tail, tail[..Find(tail, '#')];
    assert text == (base + cut) + tail[|cut|..];
    FindOf(base + cut, tail[|cut|..], '#');
    assert text[..|base + cut|] == base + cut;
    assert cut != "" ==> cut[0] == '?';
    FindOf(base, cut, '?');
    assert (base + cut)[..|base|] == base;
    if cut != "" { assert (base + cut)[|base| + 1..] == cut[1..]; }
  }

  lemma SchemeIsFound(scheme: string, rest: string)
    requires IsScheme(scheme)
    ensures SchemeLength(scheme + ":" + rest) == |scheme|
  {
    hide SchemeRun;
    var t := scheme + ":" + rest;
    var n := SchemeRun(t[1..]);
    assert t[1..][|scheme| - 1] == ':';
    assert forall i :: 0 <= i < |scheme| - 1 ==> t[1..][i] == scheme[i + 1] && scheme[i + 1] in scheme;
    assert n == |scheme| - 1;
  }

  lemma FoundIsScheme(text: string)
    ensures SchemeLength(text) > 0 ==> StartsScheme(text)
  {
    hide SchemeRun;
    var n := SchemeLength(text);
    if n > 0 {
      forall c | c in text[..n] ensures SchemeChar(c) {
        var i :| 0 <= i < n && text[i] == c;
        if i > 0 { assert text[1..][i - 1] == c; }
      }
      assert IsScheme(text[..n]);
    }
  }

  lemma HierarchyIsSplit(scheme: string, authority: string, path: string, query: string, hasQuery: bool)
    requires IsAuthority(authority) && IsPath(path)
    ensures SplitHierarchy(scheme, "//" + authority + path, query, hasQuery)
         == Parts(scheme, true, authority, path, query, hasQuery)
  {
    hide Find;
    var t := "//" + authority + path;
    assert t[..2] == "//" && t[2..] == authority + path;
    FindOf(authority, path, '/');
  }

  /** The parts of a URL with an authority. */
  lemma UrlSplits(scheme: Octets, authority: Octets, path: Octets, tail: Octets)
    requires IsScheme(scheme) && IsAuthority(authority) && IsPath(path) && IsTail(tail)
    ensures SplitUriReference(SiteText(scheme, authority) + path + tail)
         == Some(Parts(Lower(scheme), true, authority, path, QueryIn(tail), HasQueryIn(tail)))
  {
    hide Find, SchemeLength, SplitHierarchy, Lower, SplitUriReference, QueryIn, SchemeChar;
    var rest := "//" + authority + path;
    var base := scheme + ":" + rest;
    assert base == SiteText(scheme, authority) + path;
    SchemeHasNoTail(scheme);
    assert NoTail(base);
    TailSplits(base, tail);
    SchemeIsFound(scheme, rest);
    assert base[..|scheme|] == scheme && base[|scheme| + 1..] == rest;
    HierarchyIsSplit(Lower(scheme), authority, path, QueryIn(tail), HasQueryIn(tail));
  }

  lemma SchemeHasNoTail(scheme: string)
    requires IsScheme(scheme)
    ensures NoTail(scheme)
  {
    forall i | 0 <= i < |scheme| ensures scheme[i] != '?' && scheme[i] != '#' { assert scheme[i] in scheme; }
  }

  /** The parts of a reference without a scheme. */
  lemma ReferenceSplits(path: string, tail: string)
    requires NoTail(path) && IsTail(tail) && path + tail != "" && !StartsScheme(path)
    ensures SplitUriReference(path + tail) == Some(SplitHierarchy("", path, QueryIn(tail), HasQueryIn(tail)))
  {
    hide Find, SchemeLength, SplitHierarchy, SplitUriReference, QueryIn, StartsScheme;
    TailSplits(path, tail);
    FoundIsScheme(path);
    assert Lower(path[..0]) == "";
  }

  // ----- what a reference names --------------------------------------------

  /** A path that does not start at the root goes where the anchor's last segment is. */
  lemma RelativePathIsMerged(scheme: Octets, authority: Octets, directory: Octets, last: Octets, anchorTail: Octets,
                             path: Octets, tail: Octets)
    requires IsScheme(scheme) && IsHttp(scheme) && IsAuthority(authority) && IsDirectory(directory)
    requires Lacks(last, '/') && NoTail(last) && IsTail(anchorTail)
    requires path != "" && path[0] != '/' && NoTail(path) && IsTail(tail) && !StartsScheme(path)
    ensures CreateIdentifier(path + tail, SiteText(scheme, authority) + (directory + last) + anchorTail)
         == CreateIdentifier(SiteText(scheme, authority) + (directory + path) + tail, "")
  {
    hide SplitUriReference, NormalizeAbsolute, StartsScheme, QueryIn, FindLast, SiteText, Lower, SchemeChar;
    UrlSplits(scheme, authority, directory + last, anchorTail);
    UrlSplits(scheme, authority, directory + path, tail);
    ReferenceSplits(path, tail);
    assert !StartsWith(path, "//");
    var front := directory[..|directory| - 1];
    assert directory + last == front + ['/'] + last;
    FindLastOf(front, '/', last);
    assert (directory + last)[..|directory|] == directory;
    LowerIsClaimed(scheme);
  }

  lemma LowerIsClaimed(scheme: string)
    requires IsHttp(scheme)
    ensures IsClaimed(Lower(scheme)) && Lower(scheme) != ""
  {
  }

  /** And under the root when the anchor has no path at all. */
  lemma RelativePathIsRooted(scheme: Octets, authority: Octets, anchorTail: Octets, path: Octets, tail: Octets)
    requires IsScheme(scheme) && IsHttp(scheme) && IsAuthority(authority) && IsTail(anchorTail)
    requires path != "" && path[0] != '/' && NoTail(path) && IsTail(tail) && !StartsScheme(path)
    ensures CreateIdentifier(path + tail, SiteText(scheme, authority) + "" + anchorTail)
         == CreateIdentifier(SiteText(scheme, authority) + ("/" + path) + tail, "")
  {
    hide SplitUriReference, NormalizeAbsolute, StartsScheme, QueryIn, FindLast, SiteText, Lower, SchemeChar;
    UrlSplits(scheme, authority, "", anchorTail);
    UrlSplits(scheme, authority, "/" + path, tail);
    ReferenceSplits(path, tail);
    FindLastNone("", '/');
    LowerIsClaimed(scheme);
  }

  /** A path from the root goes at the anchor's origin. */
  lemma AbsolutePathKeepsOrigin(scheme: Octets, authority: Octets, anchorPath: Octets, anchorTail: Octets, path: Octets,
                                tail: Octets)
    requires IsScheme(scheme) && IsHttp(scheme) && IsAuthority(authority) && IsPath(anchorPath) && IsTail(anchorTail)
    requires IsPath(path) && path != "" && !StartsWith(path, "//") && IsTail(tail)
    ensures CreateIdentifier(path + tail, SiteText(scheme, authority) + anchorPath + anchorTail)
         == CreateIdentifier(SiteText(scheme, authority) + path + tail, "")
  {
    hide SplitUriReference, NormalizeAbsolute, StartsScheme, QueryIn, SiteText, Lower, SchemeChar, MergePath;
    UrlSplits(scheme, authority, anchorPath, anchorTail);
    UrlSplits(scheme, authority, path, tail);
    SlashIsNoScheme(path);
    ReferenceSplits(path, tail);
    LowerIsClaimed(scheme);
  }

  lemma SlashIsNoScheme(text: string)
    requires text == "" || !IsAlpha(text[0])
    ensures !StartsScheme(text)
  {
  }

  /** A query alone replaces the anchor's; a fragment alone changes nothing. */
  lemma TailAloneKeepsPath(scheme: Octets, authority: Octets, path: Octets, anchorTail: Octets, tail: Octets)
    requires IsScheme(scheme) && IsHttp(scheme) && IsAuthority(authority) && IsPath(path) && IsTail(anchorTail)
    requires IsTail(tail) && tail != ""
    ensures CreateIdentifier("" + tail, SiteText(scheme, authority) + path + anchorTail)
         == CreateIdentifier(SiteText(scheme, authority) + path + (if tail[0] == '?' then tail else anchorTail), "")
  {
    hide SplitUriReference, NormalizeAbsolute, StartsScheme, SiteText, Lower, SchemeChar, MergePath, Find;
    UrlSplits(scheme, authority, path, anchorTail);
    UrlSplits(scheme, authority, path, if tail[0] == '?' then tail else anchorTail);
    SlashIsNoScheme("");
    ReferenceSplits("", tail);
    LowerIsClaimed(scheme);
  }

  /** An authority of its own takes only the anchor's scheme. */
  lemma OwnAuthorityKeepsScheme(scheme: Octets, anchorAuthority: Octets, anchorPath: Octets, anchorTail: Octets,
                                authority: Octets, path: Octets, tail: Octets)
    requires IsScheme(scheme) && IsHttp(scheme) && IsAuthority(anchorAuthority) && IsPath(anchorPath)
    requires IsTail(anchorTail) && IsAuthority(authority) && IsPath(path) && IsTail(tail)
    ensures var anchor := SiteText(scheme, anchorAuthority) + anchorPath + anchorTail;
            CreateIdentifier("//" + authority + path + tail, anchor)
            == CreateIdentifier(SiteText(scheme, authority) + path + tail, "")
  {
    hide SplitUriReference, NormalizeAbsolute, StartsScheme, QueryIn, SiteText, Lower, SchemeChar, MergePath;
    UrlSplits(scheme, anchorAuthority, anchorPath, anchorTail);
    UrlSplits(scheme, authority, path, tail);
    SlashIsNoScheme("//" + authority + path);
    ReferenceSplits("//" + authority + path, tail);
    HierarchyIsSplit("", authority, path, QueryIn(tail), HasQueryIn(tail));
    LowerIsClaimed(scheme);
  }

  /** A URL with a scheme of its own means the same next to every anchor. */
  lemma OwnSchemeIgnoresAnchor(scheme: Octets, rest: Octets, tail: Octets, anchor: Octets, other: Octets)
    requires IsScheme(scheme) && NoTail(rest) && IsTail(tail)
    ensures CreateIdentifier(scheme + ":" + rest + tail, anchor) == CreateIdentifier(scheme + ":" + rest + tail, other)
  {
    hide NormalizeAbsolute, QueryIn, SchemeLength, SplitUriReference, SchemeChar;
    SchemeHasNoTail(scheme);
    TailSplits(scheme + ":" + rest, tail);
    SchemeIsFound(scheme, rest);
  }

  /** Without a scheme, nothing is named unless the anchor is an http or https URL with an authority. */
  lemma NoAnchorNamesNothing(path: Octets, tail: Octets, anchor: Octets)
    requires NoTail(path) && IsTail(tail) && !StartsScheme(path)
    requires match SplitUriReference(anchor)
             case None => true
             case Some(base) => (base.scheme != "http" && base.scheme != "https") || !base.hasAuthority
    ensures CreateIdentifier(path + tail, anchor) == ""
  {
    hide NormalizeAbsolute, QueryIn, StartsScheme;
    if path + tail != "" { ReferenceSplits(path, tail); }
  }

  // ----- what a URL is named -----------------------------------------------

  predicate IsHostChar(c: char) { 'a' <= c <= 'z' || 'A' <= c <= 'Z' || '0' <= c <= '9' || c == '-' || c == '.' }

  predicate IsHostName(host: string) { host != "" && forall i :: 0 <= i < |host| ==> IsHostChar(host[i]) }

  predicate IsPortText(port: string) { port != "" && AllDigits(port) && Value(port) <= 65535 }

  lemma {:induction false} HostNameIsEncoded(host: string)
    requires forall i :: 0 <= i < |host| ==> IsHostChar(host[i])
    ensures Encoded(host, true)
    decreases |host|
  {
    hide IsPathSafe;
    if host != "" {
      HostNameIsEncoded(host[1..]);
      assert IsPathSafe(host[0]) by { HostCharIsSafe(host[0]); }
    }
  }

  lemma HostCharIsSafe(c: char)
    requires IsHostChar(c)
    ensures IsPathSafe(c)
  {
  }

  /** What is kept of a port: its number, unless it is the one the scheme implies. */
  function PortKept(scheme: string, port: string): string
    requires IsPortText(port)
  {
    if Value(port) == (if Lower(scheme) == "https" then 443 else 80) then "" else ":" + Digits(Value(port))
  }

  lemma PortIsKept(scheme: string, port: string)
    requires IsHttp(scheme) && IsPortText(port)
    ensures NormalPort(port, Lower(scheme) == "https") == Some(PortKept(scheme, port))
  {
    hide Value, Digits;
  }

  lemma HostAndPortAreKept(scheme: string, userinfo: string, host: string, port: string)
    requires IsHttp(scheme) && IsHostName(host) && IsPortText(port)
    ensures NormalizeAuthority(userinfo + "@" + host + ":" + port, Lower(scheme) == "https")
         == Some(Lower(host) + PortKept(scheme, port))
  {
    hide FindLast, Value, Digits, PortKept, NormalPort, Normalized, Lower, IsHttp;
    var site := host + ":" + port;
    forall i | 0 <= i < |site| ensures site[i] != '@' {
      if i < |host| { assert site[i] == host[i]; } else if i > |host| { assert site[i] == port[i - |host| - 1]; }
    }
    assert userinfo + "@" + host + ":" + port == userinfo + ['@'] + site;
    FindLastOf(userinfo, '@', site);
    assert (userinfo + ['@'] + site)[|userinfo| + 1..] == site;
    assert site == host + [':'] + port;
    FindLastOf(host, ':', port);
    assert site[..|host|] == host && site[|host| + 1..] == port && site[0] == host[0];
    HostNameIsEncoded(host);
    EncodedIsFixed(host, true);
    PortIsKept(scheme, port);
  }

  /**
   The name of a URL: the scheme and the host in lower case, no credential, no port the scheme implies, the path
   normalized, the query as it is written and no fragment.
   */
  lemma NameOfUrl(scheme: Octets, userinfo: Octets, host: Octets, port: Octets, path: Octets, tail: Octets,
                  anchor: Octets)
    requires IsScheme(scheme) && IsHttp(scheme) && IsAuthority(userinfo) && IsHostName(host) && IsPortText(port)
    requires IsPath(path) && IsTail(tail)
    ensures CreateIdentifier(SiteText(scheme, userinfo + "@" + host + ":" + port) + path + tail, anchor)
         == Lower(scheme) + "://" + (Lower(host) + PortKept(scheme, port)) + NormalPath(path)
            + if HasQueryIn(tail) then "?" + QueryIn(tail) else ""
  {
    hide SplitUriReference, QueryIn, SiteText, SchemeChar, NormalPath, NormalizeAuthority, PortKept, Value, IsHostName,
      Lower;
    var authority := userinfo + "@" + host + ":" + port;
    SiteIsAuthority(userinfo, host, port);
    UrlSplits(scheme, authority, path, tail);
    HostAndPortAreKept(scheme, userinfo, host, port);
    NormalPathIsFixed(path);
    assert IsClaimed(Lower(scheme)) && Lower(scheme) != "";
  }

  lemma SiteIsAuthority(userinfo: string, host: string, port: string)
    requires IsAuthority(userinfo) && IsHostName(host) && IsPortText(port)
    ensures IsAuthority(userinfo + "@" + host + ":" + port)
  {
    hide Value;
  }

  /** A path of unreserved characters without dot segments is kept as it is. */
  lemma PlainPathIsKept(path: string)
    requires path != "" && path[0] == '/' && forall i :: 0 <= i < |path| ==> path[i] == '/' || IsUnreserved(path[i])
    requires NoDots(Split(path[1..]))
    ensures NormalPath(path) == path
  {
    hide Normalized, Rewritten, Split, NoDots, Canonical;
    PlainIsEncoded(path);
    EncodedIsFixed(path, false);
    RewritingIsCanonical(path);
    CleanIsCanonical(path);
  }

  lemma {:induction false} PlainIsEncoded(path: string)
    requires forall i :: 0 <= i < |path| ==> path[i] == '/' || IsUnreserved(path[i])
    ensures Encoded(path, false)
    decreases |path|
  {
    hide IsUnreserved;
    if path != "" { PlainIsEncoded(path[1..]); }
  }

  lemma CleanIsCanonical(path: string)
    requires path != "" && path[0] == '/' && NoDots(Split(path[1..]))
    ensures Canonical(path) == path
  {
    var segments := Split(path[1..]);
    FoldFixesClean([], segments);
    assert [] + segments == segments;
    JoinOfSplit(path[1..]);
  }

  lemma {:induction false} JoinOfSplit(s: string)
    ensures Join(Split(s)) == "/" + s
    decreases |s|
  {
    hide Split, Join;
    var k := FirstSlash(s);
    var head, tail := s[..k], s[k..];
    assert s == head + tail;
    SplitHead(head, tail);
    if tail == "" {
      JoinHead(head, []);
      JoinNothing();
      assert [head] + [] == [head];
    } else {
      JoinOfSplit(tail[1..]);
      JoinHead(head, Split(tail[1..]));
      assert tail == "/" + tail[1..];
    }
  }
}
