/**
 Identifiers: a reference, resolved against an anchor and normalized, is the name under which the rest
 of the system knows an asset. Fragments and credentials are dropped, hosts are lower case, default
 ports vanish, paths are decoded and free of dot segments, queries are kept as written.
 */
module Identifier {
  import opened Basics
  import opened Text
  import opened DotSegments
  import opened PercentEncoding

  datatype Parts = Parts(
    scheme: string,
    hasAuthority: bool,
    authority: string,
    path: string,
    query: string,
    hasQuery: bool)

  // ----- splitting a reference ---------------------------------------------

  predicate SchemeChar(c: char) { IsAlpha(c) || IsDigit(c) || c == '+' || c == '-' || c == '.' }

  function SchemeRun(s: string): (n: nat)
    ensures n <= |s| && (n < |s| ==> !SchemeChar(s[n]))
    ensures forall i :: 0 <= i < n ==> SchemeChar(s[i])
  {
    if s == "" || !SchemeChar(s[0]) then 0 else 1 + SchemeRun(s[1..])
  }

  /** The length of the scheme, or zero when the text does not begin with one. */
  function SchemeLength(t: string): (n: nat)
    ensures n < |t| || n == 0
  {
    if t == "" || !IsAlpha(t[0]) then 0
    else
      var i := 1 + SchemeRun(t[1..]);
      if i < |t| && t[i] == ':' then i else 0
  }

  function SplitHierarchy(scheme: string, t: string, query: string, hasQuery: bool): Parts {
    if StartsWith(t, "//") then
      var u := t[2..];
      var k := Find(u, '/');
      Parts(scheme, true, u[..k], u[k..], query, hasQuery)
    else Parts(scheme, false, "", t, query, hasQuery)
  }

  function SplitScheme(t: string, query: string, hasQuery: bool): Parts {
    var n := SchemeLength(t);
    SplitHierarchy(Lower(t[..n]), if n > 0 then t[n + 1..] else t, query, hasQuery)
  }

  function SplitUriReference(text: string): Option<Parts> {
    if text == "" then None
    else
      var t := text[..Find(text, '#')];
      var q := Find(t, '?');
      Some(SplitScheme(t[..q], if q < |t| then t[q + 1..] else "", q < |t|))
  }

  // ----- authority ---------------------------------------------------------

  datatype HostPort = HostPort(host: string, port: string)

  function WithoutUserinfo(authority: string): string { authority[FindLast(authority, '@') + 1..] }

  /** Host and port of an authority without userinfo; a bracketed literal keeps its own colons. */
  function SplitHostPort(a: string): Option<HostPort> {
    if a != "" && a[0] == '[' then
      var close := Find(a, ']');
      if close == |a| then None
      else if close + 1 == |a| then Some(HostPort(a, ""))
      else if a[close + 1] != ':' then None
      else Some(HostPort(a[..close + 1], a[close + 2..]))
    else
      var colon := FindLast(a, ':');
      if colon < 0 then Some(HostPort(a, "")) else Some(HostPort(a[..colon], a[colon + 1..]))
  }

  function DefaultPort(secure: bool): nat { if secure then 443 else 80 }

  predicate IsPort(port: string) { port != "" && AllDigits(port) && Value(port) <= 65535 }

  /** What remains of the port: nothing when absent or the default, its canonical spelling otherwise. */
  function NormalPort(port: string, secure: bool): Option<string> {
    if port == "" then Some("")
    else if !IsPort(port) then None
    else if Value(port) == DefaultPort(secure) then Some("")
    else Some(":" + Digits(Value(port)))
  }

  function NormalHost(host: string): string { Lower(Normalized(host, true)) }

  function NormalizeHostPort(a: string, secure: bool): Option<string> {
    match SplitHostPort(a)
    case None => None
    case Some(HostPort(host, port)) =>
      if host == "" then None
      else match NormalPort(port, secure)
        case None => None
        case Some(p) => Some(NormalHost(host) + p)
  }

  function NormalizeAuthority(authority: string, secure: bool): Option<string> {
    NormalizeHostPort(WithoutUserinfo(authority), secure)
  }

  /** The digit loop of the port, which gives up at the first bad digit or the first value out of range. */
  method ParsePort(port: string) returns (value: Option<nat>)
    ensures value.Some? <==> AllDigits(port) && Value(port) <= 65535
    ensures value.Some? ==> value.value == Value(port)
  {
    var v: nat := 0;
    for i := 0 to |port|
      invariant AllDigits(port[..i]) && v == Value(port[..i]) && v <= 65535
    {
      if !IsDigit(port[i]) { return None; }
      assert port[..i + 1][..i] == port[..i];
      v := v * 10 + DigitValue(port[i]);
      if v > 65535 {
        assert AllDigits(port[..i + 1]) && Value(port[..i + 1]) == v;
        if AllDigits(port) { ValueGrows(port, i + 1); }
        return None;
      }
    }
    assert port[..|port|] == port;
    value := Some(v);
  }

  // ----- the identifier ----------------------------------------------------

  predicate IsClaimed(scheme: string) { scheme == "http" || scheme == "https" }

  function Compose(scheme: string, authority: string, path: string, query: string, hasQuery: bool): string {
    scheme + "://" + authority + path + (if hasQuery then "?" + query else "")
  }

  function NormalizeAbsolute(p: Parts): string {
    if !IsClaimed(p.scheme) || !p.hasAuthority then ""
    else match NormalizeAuthority(p.authority, p.scheme == "https")
      case None => ""
      case Some(authority) =>
        var path := NormalPath(p.path);
        if path[..1] != "/" then "" else Compose(p.scheme, authority, path, p.query, p.hasQuery)
  }

  function MergePath(basePath: string, reference: string): string {
    var slash := FindLast(basePath, '/');
    if slash < 0 then "/" + reference else basePath[..slash + 1] + reference
  }

  /** The absolute parts a reference stands for next to an anchor. */
  function Target(reference: Parts, base: Parts): Parts {
    if reference.hasAuthority then reference.(scheme := base.scheme)
    else if reference.path == "" then
      base.(query := if reference.hasQuery then reference.query else base.query,
            hasQuery := reference.hasQuery || base.hasQuery)
    else
      base.(path := if reference.path[0] == '/' then reference.path else MergePath(base.path, reference.path),
            query := reference.query, hasQuery := reference.hasQuery)
  }

  function Effective(assetPath: string, anchor: string): Option<Parts> {
    match SplitUriReference(assetPath)
    case None => None
    case Some(reference) =>
      if reference.scheme != "" then Some(reference)
      else match SplitUriReference(anchor)
        case None => None
        case Some(base) => if IsClaimed(base.scheme) && base.hasAuthority then Some(Target(reference, base)) else None
  }

  function CreateIdentifier(assetPath: Octets, anchor: Octets): string {
    match Effective(assetPath, anchor)
    case None => ""
    case Some(parts) => NormalizeAbsolute(parts)
  }
}
