/** When a normalized identifier is its own normal form, exactly. */
module IdentifierNormalForm {
  import opened Basics
  import opened Text
  import opened DotSegments
  import opened PercentEncoding
  import opened Identifier

  // ----- what normalization does to characters -----------------------------

  /** A delimiter: neither part of an escape nor produced by decoding one. */
  predicate Delimiter(c: char) { c in {'/', '?', '#', '@', ':', '[', ']'} }

  lemma {:induction false} NormalizedLacks(s: string, host: bool, c: char)
    requires Lacks(s, c) && Delimiter(c)
    ensures Lacks(Normalized(s, host), c)
    decreases |s|
  {
    if s != "" {
      NormalizedLacks(s[Unit(s)..], host, c);
      assert Lacks(Written(s, host), c);
    }
  }

  lemma LowerLacks(s: string, c: char)
    requires Lacks(s, c) && Delimiter(c)
    ensures Lacks(Lower(s), c)
  {
  }

  lemma HostLacks(host: string, c: char)
    requires Lacks(host, c) && Delimiter(c)
    ensures Lacks(NormalHost(host), c)
  {
    hide Normalized, Lower;
    NormalizedLacks(host, true, c);
    LowerLacks(Normalized(host, true), c);
  }

  /** What follows a delimiter does not change the first unit before it. */
  lemma SameUnit(a: string, b: string, host: bool)
    requires a != "" && (b == "" || !IsHex(b[0]))
    ensures 0 < Unit(a) && Unit(a + b) == Unit(a) <= |a| && Written(a + b, host) == Written(a, host)
    ensures (a + b)[Unit(a)..] == a[Unit(a)..] + b
  {
    hide IsUnreserved, HexValue, Safe, Escape, IsHex;
    var s := a + b;
    assert IsEscape(s) <==> IsEscape(a);
  }

  /** Normalization works on both sides of a delimiter separately. */
  lemma {:induction false} NormalizedCut(a: string, b: string, host: bool)
    requires b == "" || !IsHex(b[0])
    ensures Normalized(a + b, host) == Normalized(a, host) + Normalized(b, host)
    decreases |a|
  {
    hide Written, Unit, IsHex;
    if a == "" {
      assert a + b == b;
      NormalizedNothing(host);
    } else {
      SameUnit(a, b, host);
      NormalizedCut(a[Unit(a)..], b, host);
    }
  }

  lemma LowerAppend(a: string, b: string)
    ensures Lower(a + b) == Lower(a) + Lower(b)
  {
  }

  /** A host is normalized on both sides of a colon or before a closing bracket separately. */
  lemma HostCut(a: string, c: char, b: string)
    requires c == ':' || c == ']'
    ensures NormalHost(a + [c] + b) == NormalHost(a) + [c] + NormalHost(b)
  {
    hide Normalized;
    assert a + [c] + b == a + ([c] + b);
    NormalizedCut(a, [c] + b, true);
    NormalizedDelimiter(c, b);
    LowerAppend(Normalized(a, true), [c] + Normalized(b, true));
    LowerAppend([c], Normalized(b, true));
    assert Lower([c]) == [c];
  }

  lemma NormalizedDelimiter(c: char, b: string)
    requires c == ':' || c == ']'
    ensures Normalized([c] + b, true) == [c] + Normalized(b, true)
  {
    assert ([c] + b)[1..] == b;
  }

  lemma NormalHostHead(host: string)
    requires host != ""
    ensures NormalHost(host) != "" && (NormalHost(host)[0] == '[' <==> host[0] == '[')
  {
  }

  // ----- a normalized host is fixed ----------------------------------------

  lemma LowerEscape(e: string)
    requires CanonicalEscape(e)
    ensures IsEscape(Lower(e)) && EscapedChar(Lower(e)) == EscapedChar(e)
  {
  }

  lemma LowerSafe(c: char)
    requires Safe(c, true)
    ensures Safe(LowerChar(c), true) && LowerChar(LowerChar(c)) == LowerChar(c)
  {
  }

  lemma LowerParts(e: string, n: nat)
    requires n <= |e|
    ensures Lower(e) == Lower(e[..n]) + Lower(e[n..])
    ensures Lower(e)[..n] == Lower(e[..n]) && Lower(e)[n..] == Lower(e[n..])
  {
    assert e == e[..n] + e[n..];
    LowerAppend(e[..n], e[n..]);
  }

  lemma HostEscapeStep(e: string)
    requires CanonicalEscape(e)
    ensures NormalHost(Lower(e)) == Lower(e[..3]) + NormalHost(Lower(e[3..]))
  {
    hide IsUnreserved, HexValue, Escape, Lower, IsUpperHex, IsHex, Safe;
    LowerParts(e, 3);
    LowerEscape(e);
    EscapeIsFixed(e, true);
    assert Written(Lower(e), true) == e[..3];
    LowerAppend(e[..3], Normalized(Lower(e[3..]), true));
  }

  lemma HostSafeStep(e: string)
    requires e != "" && Safe(e[0], true)
    ensures NormalHost(Lower(e)) == Lower(e[..1]) + NormalHost(Lower(e[1..]))
  {
    hide Written, Unit, Safe;
    LowerParts(e, 1);
    LowerSafe(e[0]);
    var l := Lower(e);
    assert l[0] == LowerChar(e[0]);
    SafeIsFixed(l, true);
    LowerAppend([l[0]], Normalized(l[1..], true));
    assert Lower([l[0]]) == [l[0]] == Lower(e[..1]);
  }

  lemma {:induction false} EncodedHostIsFixed(e: string)
    requires Encoded(e, true)
    ensures NormalHost(Lower(e)) == Lower(e)
    decreases |e|
  {
    hide IsUnreserved, HexValue, Safe, Lower, IsUpperHex, NormalHost;
    if e == "" {
      EmptyHost();
    } else if CanonicalEscape(e) && Encoded(e[3..], true) {
      HostEscapeStep(e);
      EncodedHostIsFixed(e[3..]);
      LowerParts(e, 3);
    } else {
      HostSafeStep(e);
      EncodedHostIsFixed(e[1..]);
      LowerParts(e, 1);
    }
  }

  lemma EmptyHost()
    ensures Lower("") == "" && NormalHost("") == ""
  {
  }

  lemma HostIsFixed(host: string)
    requires AllBytes(host)
    ensures NormalHost(NormalHost(host)) == NormalHost(host)
  {
    hide Normalized, Encoded, Lower;
    NormalizedIsEncoded(host, true);
    EncodedHostIsFixed(Normalized(host, true));
  }

  // ----- authorities -------------------------------------------------------

  predicate Bracketed(a: string) { a != "" && a[0] == '[' }

  predicate DropsPort(port: string, secure: bool) { NormalPort(port, secure) == Some("") }

  /** A port that normalization leaves exactly as it is. */
  predicate SurvivingPort(port: string, secure: bool) { NormalPort(port, secure) == Some(":" + port) }

  /**
   The condition under which a normalized authority stays put: a bracketed literal; a port that is
   kept; no colon in the host; or, when a dropped port leaves a colon behind, text after that colon that
   is itself a port in canonical spelling.
   */
  predicate Settled(a: string, secure: bool) {
    match SplitHostPort(a)
    case None => true
    case Some(HostPort(host, port)) =>
      || Bracketed(a)
      || !DropsPort(port, secure)
      || Lacks(host, ':')
      || var n := NormalHost(host); var c := FindLast(n, ':'); c > 0 && SurvivingPort(n[c + 1..], secure)
  }

  lemma PrintedPortSurvives(port: string, secure: bool)
    requires NormalPort(port, secure).Some? && !DropsPort(port, secure)
    ensures IsPort(port)
    ensures var d := Digits(Value(port)); NormalPort(port, secure) == Some(":" + d) && SurvivingPort(d, secure)
    ensures Lacks(Digits(Value(port)), ':')
  {
    ValueOfDigits(Value(port));
  }

  lemma BracketedIsFixed(a: string, secure: bool)
    requires AllBytes(a) && Bracketed(a) && NormalizeHostPort(a, secure).Some?
    ensures var n := NormalizeHostPort(a, secure).value; NormalizeHostPort(n, secure) == Some(n)
  {
    hide NormalHost, NormalPort, Digits;
    var close := Find(a, ']');
    var host, port := SplitHostPort(a).value.host, SplitHostPort(a).value.port;
    var inner := a[..close];
    assert host == inner + [']'] + "" by { assert a[close] == ']'; }
    HostCut(inner, ']', "");
    EmptyHost();
    HostLacks(inner, ']');
    HostIsFixed(host);
    NormalHostHead(host);
    var h, p := NormalHost(host), NormalPort(port, secure).value;
    if !DropsPort(port, secure) { PrintedPortSurvives(port, secure); }
    assert h == NormalHost(inner) + "]";
    assert h + p == NormalHost(inner) + ("]" + p);
    FindOf(NormalHost(inner), "]" + p, ']');
    BracketedSplit(h, p);
    NoPort(secure);
    assert p != "" ==> p == ":" + p[1..];
  }

  lemma NoPort(secure: bool)
    ensures NormalPort("", secure) == Some("")
  {
  }

  /** Splitting a bracketed host followed by a printed port gives both back. */
  lemma BracketedSplit(h: string, p: string)
    requires h != "" && h[0] == '[' && h[|h| - 1] == ']' && Find(h + p, ']') == |h| - 1
    requires p == "" || p[0] == ':'
    ensures SplitHostPort(h + p) == Some(HostPort(h, if p == "" then "" else p[1..]))
  {
    var a := h + p;
    if p == "" {
      assert a == h;
    } else {
      assert a[..|h|] == h && a[|h| + 1..] == p[1..];
    }
  }

  lemma KeptPortIsFixed(a: string, secure: bool)
    requires AllBytes(a) && !Bracketed(a) && NormalizeHostPort(a, secure).Some?
    requires !DropsPort(SplitHostPort(a).value.port, secure)
    ensures var n := NormalizeHostPort(a, secure).value; NormalizeHostPort(n, secure) == Some(n)
  {
    hide NormalHost, NormalPort, Digits;
    var host, port := SplitHostPort(a).value.host, SplitHostPort(a).value.port;
    PlainHost(a);
    HostIsFixed(host);
    NormalHostHead(host);
    PrintedPortSurvives(port, secure);
    PlainSplit(NormalHost(host), Digits(Value(port)));
  }

  /** Outside brackets the host is a prefix of the authority, so it does not begin with one either. */
  lemma PlainHost(a: string)
    requires !Bracketed(a) && SplitHostPort(a).Some?
    ensures var host := SplitHostPort(a).value.host; (AllBytes(a) ==> AllBytes(host)) && (host != "" ==> host[0] != '[')
  {
  }

  lemma PlainSplit(host: string, port: string)
    requires host != "" && host[0] != '[' && Lacks(port, ':')
    ensures SplitHostPort(host + (":" + port)) == Some(HostPort(host, port))
  {
    var a := host + (":" + port);
    assert a == host + [':'] + port;
    FindLastOf(host, ':', port);
    assert a[..|host|] == host && a[|host| + 1..] == port;
  }

  lemma NoColonIsFixed(a: string, secure: bool)
    requires AllBytes(a) && !Bracketed(a) && NormalizeHostPort(a, secure).Some?
    requires DropsPort(SplitHostPort(a).value.port, secure) && Lacks(SplitHostPort(a).value.host, ':')
    ensures var n := NormalizeHostPort(a, secure).value; NormalizeHostPort(n, secure) == Some(n)
  {
    hide NormalHost;
    var host := SplitHostPort(a).value.host;
    PlainHost(a);
    HostIsFixed(host);
    NormalHostHead(host);
    HostLacks(host, ':');
    FindLastNone(NormalHost(host), ':');
    assert NormalHost(host) + "" == NormalHost(host);
  }

  /** A dropped port leaves a colon behind, and what follows it is now read as a port. */
  lemma LeftoverColon(a: string, secure: bool)
    requires AllBytes(a) && !Bracketed(a) && NormalizeHostPort(a, secure).Some?
    requires DropsPort(SplitHostPort(a).value.port, secure) && !Lacks(SplitHostPort(a).value.host, ':')
    ensures var n := NormalizeHostPort(a, secure).value; NormalizeHostPort(n, secure) == Some(n) <==> Settled(a, secure)
  {
    hide NormalHost, NormalPort;
    var host, port := SplitHostPort(a).value.host, SplitHostPort(a).value.port;
    PlainHost(a);
    NormalHostHead(host);
    var k := FindLast(host, ':');
    var x, y := host[..k], host[k + 1..];
    assert host == x + [':'] + y;
    HostCut(x, ':', y);
    HostLacks(y, ':');
    HostIsFixed(x);
    var n, hx, hy := NormalHost(host), NormalHost(x), NormalHost(y);
    assert n + "" == n;
    FindLastOf(hx, ':', hy);
    assert n[..|hx|] == hx && n[|hx| + 1..] == hy;
    assert NormalizeHostPort(n, secure) ==
      if hx == "" || NormalPort(hy, secure).None? then None else Some(hx + NormalPort(hy, secure).value);
    assert n == hx + (":" + hy);
    if NormalPort(hy, secure).Some? {
      SameTail(hx, NormalPort(hy, secure).value, ":" + hy);
    }
  }

  lemma SameTail(a: string, b: string, c: string)
    ensures a + b == a + c <==> b == c
  {
    if a + b == a + c {
      assert b == (a + b)[|a|..] && c == (a + c)[|a|..];
    }
  }

  /** The exact condition, over every authority. */
  lemma AuthorityIsFixedIff(a: string, secure: bool)
    requires AllBytes(a) && NormalizeHostPort(a, secure).Some?
    ensures var n := NormalizeHostPort(a, secure).value; NormalizeHostPort(n, secure) == Some(n) <==> Settled(a, secure)
  {
    hide NormalHost, NormalPort;
    if Bracketed(a) {
      BracketedIsFixed(a, secure);
    } else if !DropsPort(SplitHostPort(a).value.port, secure) {
      KeptPortIsFixed(a, secure);
    } else if Lacks(SplitHostPort(a).value.host, ':') {
      NoColonIsFixed(a, secure);
    } else {
      LeftoverColon(a, secure);
    }
  }
}
