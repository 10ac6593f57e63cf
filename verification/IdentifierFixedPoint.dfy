/** Normalizing an identifier again: what comes back, and when it is the identifier itself. */
module IdentifierFixedPoint {
  import opened Basics
  import opened Text
  import opened DotSegments
  import opened PercentEncoding
  import opened Identifier
  import opened IdentifierNormalForm

  // ----- what a split leaves in its parts ----------------------------------

  ghost predicate WellFormed(p: Parts) {
    && AllBytes(p.authority) && AllBytes(p.path) && AllBytes(p.query)
    && Lacks(p.authority, '/') && Lacks(p.authority, '?') && Lacks(p.authority, '#')
    && Lacks(p.path, '?') && Lacks(p.path, '#') && Lacks(p.query, '#')
    && (!p.hasQuery ==> p.query == "")
    && (p.hasAuthority ==> p.path == "" || p.path[0] == '/')
  }

  lemma HierarchyIsWellFormed(scheme: string, t: string, query: string, hasQuery: bool)
    requires AllBytes(t) && Lacks(t, '?') && Lacks(t, '#') && AllBytes(query) && Lacks(query, '#')
    requires !hasQuery ==> query == ""
    ensures WellFormed(SplitHierarchy(scheme, t, query, hasQuery))
  {
    hide Find;
  }

  lemma SplitIsWellFormed(text: string)
    requires AllBytes(text) && SplitUriReference(text).Some?
    ensures WellFormed(SplitUriReference(text).value)
  {
    hide Find, SplitHierarchy, SchemeLength;
    var t := text[..Find(text, '#')];
    var q := Find(t, '?');
    var u := t[..q];
    var n := SchemeLength(u);
    HierarchyIsWellFormed(Lower(u[..n]), if n > 0 then u[n + 1..] else u, if q < |t| then t[q + 1..] else "", q < |t|);
  }

  lemma TargetIsWellFormed(reference: Parts, base: Parts)
    requires WellFormed(reference) && WellFormed(base) && base.hasAuthority
    ensures WellFormed(Target(reference, base))
  {
    hide FindLast;
  }

  lemma EffectiveIsWellFormed(assetPath: Octets, anchor: Octets)
    requires Effective(assetPath, anchor).Some?
    ensures WellFormed(Effective(assetPath, anchor).value)
  {
    hide SplitUriReference, Target, WellFormed;
    SplitIsWellFormed(assetPath);
    if SplitUriReference(anchor).Some? {
      SplitIsWellFormed(anchor);
      if SplitUriReference(anchor).value.hasAuthority {
        TargetIsWellFormed(SplitUriReference(assetPath).value, SplitUriReference(anchor).value);
      }
    }
  }

  // ----- composing and splitting again -------------------------------------

  lemma SchemeOf(scheme: string, rest: string)
    requires IsClaimed(scheme)
    ensures SchemeLength(scheme + ":" + rest) == |scheme| && Lower(scheme) == scheme
  {
    hide SchemeRun;
    var t := scheme + ":" + rest;
    var n := SchemeRun(t[1..]);
    assert t[1..][|scheme| - 1] == ':';
    assert forall i :: 0 <= i < |scheme| - 1 ==> t[1..][i] == scheme[i + 1];
    assert n == |scheme| - 1;
  }

  lemma HierarchySplits(scheme: string, authority: string, path: string, query: string, hasQuery: bool)
    requires Lacks(authority, '/') && path != "" && path[0] == '/'
    ensures SplitHierarchy(scheme, "//" + authority + path, query, hasQuery)
         == Parts(scheme, true, authority, path, query, hasQuery)
  {
    hide Find;
    var t := "//" + authority + path;
    assert t[..2] == "//" && t[2..] == authority + path;
    FindOf(authority, path, '/');
  }

  /** The query is what follows the first question mark. */
  lemma QuerySplits(base: string, query: string, hasQuery: bool)
    requires base != "" && Lacks(base, '#') && Lacks(base, '?') && Lacks(query, '#') && (!hasQuery ==> query == "")
    ensures SplitUriReference(base + (if hasQuery then "?" + query else "")) == Some(SplitScheme(base, query, hasQuery))
  {
    hide Find, SplitScheme;
    var tail := if hasQuery then "?" + query else "";
    var id := base + tail;
    FindOf(id, "", '#');
    assert id + "" == id && id[..|id|] == id;
    FindOf(base, tail, '?');
    assert id[..|base|] == base;
    if hasQuery { assert id[|base| + 1..] == query; }
  }

  lemma ComposeSplits(scheme: string, authority: string, path: string, query: string, hasQuery: bool)
    requires IsClaimed(scheme)
    requires Lacks(authority, '/') && Lacks(authority, '?') && Lacks(authority, '#')
    requires path != "" && path[0] == '/' && Lacks(path, '?') && Lacks(path, '#')
    requires Lacks(query, '#') && (!hasQuery ==> query == "")
    ensures SplitUriReference(Compose(scheme, authority, path, query, hasQuery))
         == Some(Parts(scheme, true, authority, path, query, hasQuery))
  {
    hide Find, SchemeLength, SplitHierarchy, Lower, SplitUriReference;
    var rest := "//" + authority + path;
    var base := scheme + ":" + rest;
    assert Compose(scheme, authority, path, query, hasQuery) == base + (if hasQuery then "?" + query else "");
    BaseLacks(scheme, authority, path, '#');
    BaseLacks(scheme, authority, path, '?');
    QuerySplits(base, query, hasQuery);
    SchemeOf(scheme, rest);
    assert base[..|scheme|] == scheme && base[|scheme| + 1..] == rest;
    HierarchySplits(scheme, authority, path, query, hasQuery);
  }

  lemma BaseLacks(scheme: string, authority: string, path: string, c: char)
    requires IsClaimed(scheme) && (c == '#' || c == '?') && Lacks(authority, c) && Lacks(path, c)
    ensures Lacks(scheme + ":" + ("//" + authority + path), c)
  {
  }

  // ----- the parts of an identifier ----------------------------------------

  lemma AuthorityChars(a: string, secure: bool, c: char)
    requires NormalizeHostPort(a, secure).Some? && Lacks(a, c) && Delimiter(c) && c != ':'
    ensures Lacks(NormalizeHostPort(a, secure).value, c)
  {
    hide NormalHost, Digits, Find, FindLast;
    var host := SplitHostPort(a).value.host;
    HostLacks(host, c);
  }

  lemma {:induction false} NormalizedBytes(s: string, host: bool)
    requires AllBytes(s)
    ensures AllBytes(Normalized(s, host))
  {
    NormalizedIsEncoded(s, host);
    var n := Normalized(s, host);
    forall i | 0 <= i < |n| ensures n[i] as int < 256 { EncodedChars(n, host, i); }
  }

  lemma AuthorityBytes(a: string, secure: bool)
    requires AllBytes(a) && NormalizeHostPort(a, secure).Some?
    ensures AllBytes(NormalizeHostPort(a, secure).value)
  {
    hide Normalized, Digits, Find, FindLast;
    var host := SplitHostPort(a).value.host;
    NormalizedBytes(host, true);
  }

  lemma PathChars(path: string)
    requires Encoded(path, false)
    ensures AllBytes(path) && Lacks(path, '?') && Lacks(path, '#')
  {
    forall i | 0 <= i < |path| ensures path[i] as int < 256 && path[i] != '?' && path[i] != '#' {
      EncodedChars(path, false, i);
    }
  }

  lemma UserinfoIsGone(authority: string)
    ensures Lacks(WithoutUserinfo(authority), '@')
    ensures Lacks(authority, '@') ==> WithoutUserinfo(authority) == authority
  {
    hide FindLast;
    if Lacks(authority, '@') { FindLastNone(authority, '@'); }
  }

  /** An identifier is composed of normal parts and splits back into them. */
  lemma IdentifierSplits(p: Parts)
    requires WellFormed(p) && NormalizeAbsolute(p) != ""
    ensures var n := NormalizeAuthority(p.authority, p.scheme == "https");
            && n.Some? && AllBytes(NormalizeAbsolute(p)) && Lacks(n.value, '@')
            && NormalizeAbsolute(p) == Compose(p.scheme, n.value, NormalPath(p.path), p.query, p.hasQuery)
            && SplitUriReference(NormalizeAbsolute(p))
               == Some(Parts(p.scheme, true, n.value, NormalPath(p.path), p.query, p.hasQuery))
  {
    hide NormalizeHostPort, NormalPath, SplitUriReference, Encoded, NoDots;
    var secure := p.scheme == "https";
    var a := WithoutUserinfo(p.authority);
    UserinfoIsGone(p.authority);
    AuthorityChars(a, secure, '/');
    AuthorityChars(a, secure, '?');
    AuthorityChars(a, secure, '#');
    AuthorityChars(a, secure, '@');
    AuthorityBytes(a, secure);
    NormalPathIsFixed(p.path);
    PathChars(NormalPath(p.path));
    ComposeSplits(p.scheme, NormalizeHostPort(a, secure).value, NormalPath(p.path), p.query, p.hasQuery);
  }

  lemma ComposeAuthority(scheme: string, a: string, b: string, path: string, query: string, hasQuery: bool)
    ensures Compose(scheme, a, path, query, hasQuery) == Compose(scheme, b, path, query, hasQuery) <==> a == b
  {
    var tail := path + (if hasQuery then "?" + query else "");
    var x, y := Compose(scheme, a, path, query, hasQuery), Compose(scheme, b, path, query, hasQuery);
    assert x == scheme + "://" + a + tail && y == scheme + "://" + b + tail;
    if x == y {
      assert |a| == |b|;
      assert a == x[|scheme| + 3..|scheme| + 3 + |a|] && b == y[|scheme| + 3..|scheme| + 3 + |b|];
    }
  }

  /**
   The exact condition for idempotence: an identifier is a fixed point of its own construction if and
   only if the authority it was made from is settled.
   */
  lemma IdentifierIsFixedIff(assetPath: Octets, anchor: Octets)
    requires CreateIdentifier(assetPath, anchor) != ""
    ensures var id := CreateIdentifier(assetPath, anchor);
            var parts := Effective(assetPath, anchor).value;
            AllBytes(id) &&
            (CreateIdentifier(id, "") == id <==> Settled(WithoutUserinfo(parts.authority), parts.scheme == "https"))
  {
    hide NormalizeHostPort, NormalPath, SplitUriReference, Compose, Encoded, NoDots, WithoutUserinfo;
    EffectiveIsWellFormed(assetPath, anchor);
    var p := Effective(assetPath, anchor).value;
    var secure := p.scheme == "https";
    var a := WithoutUserinfo(p.authority);
    IdentifierSplits(p);
    var n := NormalizeHostPort(a, secure).value;
    var path := NormalPath(p.path);
    NormalPathIsFixed(p.path);
    UserinfoIsGone(n);
    assert AllBytes(a) by { UserinfoBytes(p.authority); }
    AuthorityIsFixedIff(a, secure);
    var again := NormalizeHostPort(n, secure);
    var id := CreateIdentifier(assetPath, anchor);
    assert CreateIdentifier(id, "")
        == if again.None? then "" else Compose(p.scheme, again.value, path, p.query, p.hasQuery);
    if again.Some? { ComposeAuthority(p.scheme, again.value, n, path, p.query, p.hasQuery); }
  }

  lemma UserinfoBytes(authority: string)
    requires AllBytes(authority)
    ensures AllBytes(WithoutUserinfo(authority))
  {
  }

  // ----- who meets the condition -------------------------------------------

  /** An authority without brackets and with at most one colon is always settled. */
  lemma OneColonIsSettled(a: string, secure: bool)
    requires !Bracketed(a) && Lacks(a[..if FindLast(a, ':') < 0 then |a| else FindLast(a, ':')], ':')
    ensures Settled(a, secure)
  {
    hide FindLast;
  }

  /** So is a bracketed literal, with or without a port. */
  lemma BracketedIsSettled(a: string, secure: bool)
    requires Bracketed(a)
    ensures Settled(a, secure)
  {
  }

  /**
   Brackets elsewhere in the host do not help: a colon between them is still taken for a port. Such an
   identifier is not a fixed point, although the colon stands inside brackets.
   */
  lemma InnerBracketsAreNotSettled()
    ensures !Settled("a[:]:80", false)
    ensures NormalizeHostPort("a[:]:80", false) == Some("a[:]")
  {
    hide NormalHost;
    var a, host := "a[:]:80", "a[:]";
    assert a == host + [':'] + "80" && host == "a[" + [':'] + "]";
    FindLastOf(host, ':', "80");
    assert a[..4] == host && a[5..] == "80";
    EightyIsDefault();
    HostOfInnerBrackets();
    FindLastOf("a[", ':', "]");
    assert host[2 + 1..] == "]" && !IsDigit("]"[0]);
    assert host + "" == host;
    assert host[2] == ':';
  }

  lemma EightyIsDefault()
    ensures NormalPort("80", false) == Some("")
  {
    assert "80"[..1] == "8" && "8"[..0] == "";
    assert Value("8") == 8 && Value("80") == 80;
  }

  lemma SafeThenEncoded(s: string, rest: string)
    requires s != "" && Safe(s[0], true) && s[1..] == rest && Encoded(rest, true)
    ensures Encoded(s, true)
  {
  }

  lemma HostOfInnerBrackets()
    ensures NormalHost("a[:]") == "a[:]"
  {
    hide Encoded, Normalized, Safe;
    assert Safe('a', true) && Safe('[', true) && Safe(':', true) && Safe(']', true) by { SafeChars(); }
    assert Encoded("", true) by { NormalizedNothing(true); NormalizedIsEncoded("", true); }
    SafeThenEncoded("]", "");
    SafeThenEncoded(":]", "]");
    SafeThenEncoded("[:]", ":]");
    SafeThenEncoded("a[:]", "[:]");
    EncodedIsFixed("a[:]", true);
    LowerOfLower("a[:]");
  }

  lemma SafeChars()
    ensures Safe('a', true) && Safe('[', true) && Safe(':', true) && Safe(']', true)
  {
  }

  lemma LowerOfLower(s: string)
    requires forall i :: 0 <= i < |s| ==> !('A' <= s[i] <= 'Z')
    ensures Lower(s) == s
  {
  }

  /** Every unsettled authority does break idempotence: the URL made of it and a path is a witness. */
  lemma UnsettledBreaksIdempotence(scheme: string, authority: string, path: string, anchor: Octets)
    requires IsClaimed(scheme) && AllBytes(authority) && AllBytes(path) && path != "" && path[0] == '/'
    requires Lacks(authority, '/') && Lacks(authority, '?') && Lacks(authority, '#')
    requires Lacks(path, '?') && Lacks(path, '#')
    requires NormalizeAuthority(authority, scheme == "https").Some?
    requires !Settled(WithoutUserinfo(authority), scheme == "https")
    ensures var text := Compose(scheme, authority, path, "", false);
            AllBytes(text) &&
            var id := CreateIdentifier(text, anchor);
            id != "" && AllBytes(id) && CreateIdentifier(id, "") != id
  {
    hide NormalizeHostPort, NormalPath, SplitUriReference, Settled, Encoded, NoDots, WithoutUserinfo;
    var text := Compose(scheme, authority, path, "", false);
    ComposeSplits(scheme, authority, path, "", false);
    NormalPathIsFixed(path);
    assert AllBytes(text);
    assert Effective(text, anchor) == Some(Parts(scheme, true, authority, path, "", false));
    IdentifierIsFixedIff(text, anchor);
  }
}
