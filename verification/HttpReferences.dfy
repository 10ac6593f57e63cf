/** Which URL a text and a redirect name, part by part, for each kind of reference (section 5.2 of RFC 3986). */
module HttpReferences {
  import opened Basics
  import opened DotSegments
  import opened HttpUri
  import opened IdentifierReferences
  import opened Text

  // ----- texts -------------------------------------------------------------

  lemma FragmentIsCut(base: string, tail: string)
    requires NoTail(base) && IsTail(tail)
    ensures WithoutFragment(base + tail) == base + tail[..Find(tail, '#')]
  {
    hide Find;
    var cut := tail[..Find(tail, '#')];
    assert base + tail == (base + cut) + tail[|cut|..];
    FindOf(base + cut, tail[|cut|..], '#');
    assert (base + tail)[..|base + cut|] == base + cut;
  }

  /** The query of what is left once the fragment is gone. */
  lemma QueryIsFound(path: string, tail: string)
    requires NoTail(path) && IsTail(tail)
    ensures var text := path + tail[..Find(tail, '#')];
            && Find(text, '?') == |path| && text[..Find(text, '?')] == path
            && QueryOf(text) == QueryIn(tail) && HasQuery(text) == HasQueryIn(tail)
  {
    hide Find;
    var cut := tail[..Find(tail, '#')];
    FindOf(path, cut, '?');
    if cut != "" { assert (path + cut)[|path| + 1..] == cut[1..]; }
  }

  lemma AuthorityEnds(authority: string, path: string, cut: string)
    requires IsAuthority(authority) && IsPath(path) && (cut == "" || cut[0] == '?')
    ensures AuthorityEnd(authority + path + cut) == |authority|
    ensures BeforeEnd(authority + path + cut) == authority && FromEnd(authority + path + cut) == path + cut
  {
    hide Find;
    var body := authority + path + cut;
    assert body == authority + (path + cut);
    assert forall i :: 0 <= i < |authority| ==> body[i] == authority[i];
    assert |body| > |authority| ==> body[|authority|] == (path + cut)[0];
  }

  // ----- a URL, part by part -----------------------------------------------

  lemma SiteHasNoAt(host: string, port: string)
    requires IsHostName(host) && AllDigits(port)
    ensures Lacks(host + ":" + port, '@')
  {
    var site := host + ":" + port;
    forall i | 0 <= i < |site| ensures site[i] != '@' {
      if i < |host| { assert site[i] == host[i]; } else if i > |host| { assert site[i] == port[i - |host| - 1]; }
    }
  }

  lemma HostHasNoColon(host: string)
    requires IsHostName(host)
    ensures Lacks(host, ':') && host != "" && host[0] != '['
  {
  }

  lemma AuthorityParts(userinfo: string, site: string)
    requires Lacks(site, '@')
    ensures SiteIn(userinfo + "@" + site) == SiteOf(userinfo, site)
  {
    hide SiteOf, LastBefore;
    var authority := userinfo + "@" + site;
    assert authority == userinfo + ['@'] + site;
    FindLastOf(userinfo, '@', site);
    assert authority[..|userinfo|] == userinfo && authority[|userinfo| + 1..] == site;
  }

  lemma SiteParts(userinfo: string, host: string, port: string)
    requires Lacks(host, ':') && host != "" && host[0] != '[' && port != "" && AllDigits(port)
    ensures SiteOf(userinfo, host + ":" + port)
         == if 0 < Value(port) <= 65535 then Some(Site(userinfo, Lower(host), Value(port))) else None
  {
    hide Value, Lower, Find;
    var site := host + ":" + port;
    assert site == host + (":" + port) && site[0] == host[0];
    FindOf(host, ":" + port, ':');
    assert site[..|host|] == host && site[|host| + 1..] == port;
  }

  lemma SiteIsRead(userinfo: string, host: string, port: string)
    requires IsHostName(host) && port != "" && AllDigits(port)
    ensures SiteIn(userinfo + "@" + host + ":" + port)
         == if 0 < Value(port) <= 65535 then Some(Site(userinfo, Lower(host), Value(port))) else None
  {
    hide Value, Lower, SiteIn, SiteOf, IsHostName, AllDigits;
    SiteHasNoAt(host, port);
    HostHasNoColon(host);
    AuthorityParts(userinfo, host + ":" + port);
    SiteParts(userinfo, host, port);
    assert userinfo + "@" + host + ":" + port == userinfo + "@" + (host + ":" + port);
  }

  lemma HostIsRead(host: string)
    requires IsHostName(host)
    ensures SiteIn(host) == Some(Site("", Lower(host), 0))
  {
    hide Lower, Find, LastBefore;
    FindLastNone(host, '@');
    assert host[0..] == host;
    FindOf(host, "", ':');
    assert host + "" == host && host[..|host|] == host;
  }

  function PathOrRoot(path: string): (p: string)
    requires IsPath(path)
    ensures p != "" && p[0] == '/'
  {
    if path == "" then "/" else path
  }

  lemma TextIsCutUp(scheme: string, authority: string, path: string, tail: string)
    requires IsHttp(scheme) && IsAuthority(authority) && IsPath(path) && IsTail(tail)
    ensures ParseUri(scheme + "://" + authority + path + tail)
         == ParseHierarchy(Lower(scheme), "//" + (authority + path + tail[..Find(tail, '#')]))
  {
    hide Find, Lower, ParseHierarchy, IsHttp, Lacks, IsPath, IsAuthority, NoTail, IsTail;
    var cut := tail[..Find(tail, '#')];
    var base := scheme + "://" + authority + path;
    SchemeIsPlain(scheme);
    UrlHasNoTail(scheme, authority, path);
    FragmentIsCut(base, tail);
    var rest := "//" + (authority + path + cut);
    assert base + cut == scheme + (":" + rest);
    SchemeIsCutOff(scheme, rest);
  }

  lemma UrlHasNoTail(scheme: string, authority: string, path: string)
    requires NoTail(scheme) && IsAuthority(authority) && IsPath(path)
    ensures NoTail(scheme + "://" + authority + path)
  {
  }

  lemma SchemeIsCutOff(scheme: string, rest: string)
    requires Lacks(scheme, ':')
    ensures var t := scheme + (":" + rest);
            Find(t, ':') == |scheme| < |t| && t[..Find(t, ':')] == scheme && t[Find(t, ':') + 1..] == rest
  {
    hide Find;
    FindOf(scheme, ":" + rest, ':');
  }

  /** What follows from the authority once that is read. */
  lemma UrlIsRead(scheme: string, authority: string, path: string, tail: string)
    requires IsHttp(scheme) && IsAuthority(authority) && IsPath(path) && IsTail(tail)
    ensures ParseUri(scheme + "://" + authority + path + tail)
         == match SiteIn(authority)
            case None => None
            case Some(site) => Some(Uri(Lower(scheme), site.userinfo, site.host, site.port, Canonical(PathOrRoot(path)),
                                        QueryIn(tail), HasQueryIn(tail)))
  {
    hide ParseUri, Find, Lower, SiteIn, Canonical, QueryIn, AuthorityEnd, IsHttp;
    var cut := tail[..Find(tail, '#')];
    TextIsCutUp(scheme, authority, path, tail);
    SchemeIsPlain(scheme);
    var rest := "//" + (authority + path + cut);
    assert rest[0] == '/' && rest[1] == '/' && rest[2..] == authority + path + cut;
    AuthorityEnds(authority, path, cut);
    QueryIsFound(path, tail);
  }

  lemma SchemeIsPlain(scheme: string)
    requires IsHttp(scheme)
    ensures Lacks(scheme, ':') && Lacks(scheme, '/') && NoTail(scheme) && Identifier.IsClaimed(Lower(scheme))
  {
    forall i | 0 <= i < |scheme| ensures scheme[i] !in ":/?#" { assert Lower(scheme)[i] == LowerChar(scheme[i]); }
  }

  /** A URL with a credential and a port: the parts it is written with, the host lower case, the path canonical. */
  lemma FullUrlIsRead(scheme: string, userinfo: string, host: string, port: string, path: string, tail: string)
    requires IsHttp(scheme) && IsAuthority(userinfo) && IsHostName(host) && port != "" && AllDigits(port)
    requires IsPath(path) && IsTail(tail)
    ensures ParseUri(scheme + "://" + (userinfo + "@" + host + ":" + port) + path + tail)
         == if 0 < Value(port) <= 65535
            then Some(Uri(Lower(scheme), userinfo, Lower(host), Value(port), Canonical(PathOrRoot(path)),
                          QueryIn(tail), HasQueryIn(tail)))
            else None
  {
    hide ParseUri, Value, Lower, SiteIn, QueryIn, Canonical, IsHttp;
    var authority := userinfo + "@" + host + ":" + port;
    assert IsAuthority(authority);
    UrlIsRead(scheme, authority, path, tail);
    SiteIsRead(userinfo, host, port);
  }

  /** Without them, the credential is empty and the port is the one the scheme implies. */
  lemma PlainUrlIsRead(scheme: string, host: string, path: string, tail: string)
    requires IsHttp(scheme) && IsHostName(host) && IsPath(path) && IsTail(tail)
    ensures var u := ParseUri(scheme + "://" + host + path + tail);
            && u == Some(Uri(Lower(scheme), "", Lower(host), 0, Canonical(PathOrRoot(path)), QueryIn(tail),
                             HasQueryIn(tail)))
            && u.value.EffectivePort() == if Lower(scheme) == "https" then 443 else 80
  {
    hide ParseUri, Lower, SiteIn, QueryIn, Canonical, IsHttp;
    UrlIsRead(scheme, host, path, tail);
    HostIsRead(host);
  }

  // ----- what a redirect names ---------------------------------------------

  /** No colon stands before the first slash. */
  predicate NoColonFirst(path: string) { Find(path, ':') == |path| || Find(path, '/') < Find(path, ':') }

  lemma ReferenceHasNoScheme(path: string, cut: string)
    requires NoTail(path) && (cut == "" || cut[0] == '?') && NoColonFirst(path)
    ensures var r := path + cut; !(Find(r, ':') < |r| && Find(r, ':') < AuthorityEnd(r))
  {
    hide Find;
    var r := path + cut;
    var colon, slash := Find(path, ':'), Find(path, '/');
    if slash < colon {
      assert r[slash] == '/' && forall i :: 0 <= i < colon ==> r[i] == path[i];
    } else {
      assert forall i :: 0 <= i < |path| ==> r[i] == path[i];
      assert cut != "" ==> r[|path|] == '?';
    }
  }

  /** A path that does not start at the root goes where the last segment of the redirecting URL is. */
  lemma RelativeRedirect(base: Uri, directory: string, last: string, path: string, tail: string)
    requires IsDirectory(directory) && Lacks(last, '/') && base.path == directory + last
    requires path != "" && path[0] != '/' && NoTail(path) && IsTail(tail) && NoColonFirst(path)
    ensures ResolveReference(base, path + tail)
         == Some(Uri(base.scheme, base.userinfo, base.host, base.port, Canonical(directory + path),
                     QueryIn(tail), HasQueryIn(tail)))
  {
    hide Find, ParseUri, Canonical, QueryIn, Removed, NoColonFirst;
    var cut := tail[..Find(tail, '#')];
    FragmentIsCut(path, tail);
    ReferenceHasNoScheme(path, cut);
    QueryIsFound(path, tail);
    assert (path + cut)[0] == path[0];
    var front := directory[..|directory| - 1];
    assert directory + last == front + ['/'] + last;
    FindLastOf(front, '/', last);
    assert (directory + last)[..|directory|] == directory;
    RemovedIsCanonical(directory + path);
  }

  lemma RemovedIsCanonical(path: string)
    requires path != "" && path[0] == '/'
    ensures Removed(path) == Canonical(path) && Canonical(path) != "" && Canonical(path)[0] == '/'
  {
    CanonicalIsFixed(path);
  }

  /** A path from the root goes at the origin of the redirecting URL. */
  lemma AbsolutePathRedirect(base: Uri, path: string, tail: string)
    requires IsPath(path) && path != "" && !StartsWith(path, "//") && IsTail(tail)
    ensures ResolveReference(base, path + tail)
         == Some(Uri(base.scheme, base.userinfo, base.host, base.port, Canonical(path), QueryIn(tail),
                     HasQueryIn(tail)))
  {
    hide Find, ParseUri, Canonical, QueryIn, Removed;
    var cut := tail[..Find(tail, '#')];
    FragmentIsCut(path, tail);
    assert Find(path, '/') == 0;
    ReferenceHasNoScheme(path, cut);
    QueryIsFound(path, tail);
    assert (path + cut)[0] == path[0];
    assert |path| >= 2 ==> path[..2] == [path[0], path[1]];
    RemovedIsCanonical(path);
  }

  /** A query alone replaces the query; a fragment alone names nothing to go to. */
  lemma TailRedirect(base: Uri, tail: string)
    requires IsTail(tail)
    ensures ResolveReference(base, tail)
         == if HasQueryIn(tail) then Some(base.(query := QueryIn(tail), hasQuery := true)) else None
  {
    FragmentIsCut("", tail);
    var cut := tail[..Find(tail, '#')];
    assert "" + tail == tail && "" + cut == cut;
    hide Find, ParseUri, ResolvedPath, WithoutFragment;
    if cut != "" { assert AuthorityEnd(cut) == 0; }
  }

  lemma NetworkReference(base: Uri, location: string, r: string)
    requires WithoutFragment(location) == r && |r| >= 2 && r[0] == '/' && r[1] == '/'
    ensures ResolveReference(base, location) == ParseUri(base.scheme + ":" + r)
  {
    hide ParseUri, ResolvedPath, WithoutFragment, Find;
    assert AuthorityEnd(r) == 0;
  }

  /** An authority of its own takes only the scheme, and a URL of its own takes nothing. */
  lemma OwnAuthorityRedirect(base: Uri, authority: string, path: string, tail: string)
    requires IsHttp(base.scheme) && IsAuthority(authority) && IsPath(path) && IsTail(tail)
    ensures ResolveReference(base, "//" + authority + path + tail)
         == ParseUri(base.scheme + "://" + authority + path + tail)
  {
    hide ParseUri, ResolveReference, WithoutFragment, Find, IsHttp;
    var cut := tail[..Find(tail, '#')];
    var network := "//" + authority + path;
    FragmentIsCut(network, tail);
    NetworkReference(base, network + tail, network + cut);
    SchemeIsPlain(base.scheme);
    FragmentIsIgnored(base.scheme + "://" + authority + path, tail);
    assert base.scheme + "://" + authority + path + cut == base.scheme + ":" + (network + cut);
  }

  lemma FragmentIsIgnored(base: string, tail: string)
    requires NoTail(base) && IsTail(tail)
    ensures ParseUri(base + tail[..Find(tail, '#')]) == ParseUri(base + tail)
  {
    hide Find, ParseHierarchy, Lower;
    var cut := tail[..Find(tail, '#')];
    FragmentIsCut(base, tail);
    FindOf(base + cut, "", '#');
    assert (base + cut) + "" == base + cut && (base + cut)[..|base + cut|] == base + cut;
  }

  lemma OwnSchemeRedirect(base: Uri, scheme: string, authority: string, path: string, tail: string)
    requires IsHttp(scheme) && IsAuthority(authority) && IsPath(path) && IsTail(tail)
    ensures ResolveReference(base, scheme + "://" + authority + path + tail)
         == ParseUri(scheme + "://" + authority + path + tail)
  {
    hide ParseUri, ResolvedPath, Find, IsHttp;
    var cut := tail[..Find(tail, '#')];
    var url := scheme + "://" + authority + path;
    SchemeIsPlain(scheme);
    assert NoTail(url);
    FragmentIsCut(url, tail);
    FragmentIsIgnored(url, tail);
    var r := url + cut;
    var rest := "//" + authority + path + cut;
    assert r == scheme + (":" + rest);
    FindOf(scheme, ":" + rest, ':');
    assert forall i :: 0 <= i <= |scheme| ==> r[i] != '/' && r[i] != '?';
  }
}
