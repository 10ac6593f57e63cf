/**
 Percent-encoding normalization, section 6.2.2 of RFC 3986: escapes are upper case, unreserved
 characters are never escaped, and whatever may not stand literally always is.
 */
module PercentEncoding {
  import opened Text
  import opened DotSegments

  /** The source's strings are sequences of bytes. */
  predicate AllBytes(s: string) { forall i :: 0 <= i < |s| ==> s[i] as int < 256 }

  type Octets = s: string | AllBytes(s)

  predicate IsHex(c: char) { IsDigit(c) || 'a' <= c <= 'f' || 'A' <= c <= 'F' }

  predicate IsUpperHex(c: char) { IsDigit(c) || 'A' <= c <= 'F' }

  function HexValue(c: char): (v: nat)
    requires IsHex(c)
    ensures v < 16
  {
    if IsDigit(c) then c as int - '0' as int
    else if 'a' <= c <= 'f' then c as int - 'a' as int + 10
    else c as int - 'A' as int + 10
  }

  function HexChar(v: nat): (c: char)
    requires v < 16
    ensures IsUpperHex(c) && HexValue(c) == v
  {
    if v < 10 then ('0' as int + v) as char else ('A' as int + v - 10) as char
  }

  predicate IsUnreserved(c: char) { IsAlpha(c) || IsDigit(c) || c == '-' || c == '.' || c == '_' || c == '~' }

  predicate IsPathSafe(c: char) {
    IsUnreserved(c) || c in {'!', '$', '&', '\'', '(', ')', '*', '+', ',', ';', '=', ':', '@', '/'}
  }

  predicate IsHostSafe(c: char) { c == '[' || c == ']' || c == ':' }

  predicate Safe(c: char, host: bool) { IsPathSafe(c) || (host && IsHostSafe(c)) }

  /** The escape of one byte. */
  function Escape(c: char): string { ['%', HexChar((c as int / 16) % 16), HexChar(c as int % 16)] }

  predicate IsEscape(s: string) { |s| >= 3 && s[0] == '%' && IsHex(s[1]) && IsHex(s[2]) }

  function EscapedChar(s: string): (c: char)
    requires IsEscape(s)
    ensures c as int < 256
  {
    (16 * HexValue(s[1]) + HexValue(s[2])) as char
  }

  /** What one turn of the loop consumes and what it writes. */
  function Unit(s: string): nat { if IsEscape(s) then 3 else 1 }

  function Written(s: string, host: bool): string
    requires s != ""
  {
    if IsEscape(s) then (if IsUnreserved(EscapedChar(s)) then [EscapedChar(s)] else Escape(EscapedChar(s)))
    else if Safe(s[0], host) then [s[0]] else Escape(s[0])
  }

  function Normalized(s: string, host: bool): string
    decreases |s|
  {
    if s == "" then "" else Written(s, host) + Normalized(s[Unit(s)..], host)
  }

  /** The loop at position `i`: an escape of three characters, or one character. */
  lemma NormalizedFrom(text: string, i: nat, host: bool)
    requires i < |text|
    ensures var c := text[i];
            var escape := c == '%' && i + 2 < |text| && IsHex(text[i + 1]) && IsHex(text[i + 2]);
            Normalized(text[i..], host) ==
              if escape then
                var value := (16 * HexValue(text[i + 1]) + HexValue(text[i + 2])) as char;
                (if IsUnreserved(value) then [value] else Escape(value)) + Normalized(text[i + 3..], host)
              else (if Safe(c, host) then [c] else Escape(c)) + Normalized(text[i + 1..], host)
  {
    hide IsPathSafe, IsHostSafe, IsUnreserved, Escape, HexValue, IsHex, Safe;
    var s := text[i..];
    assert |s| >= 3 ==> s[1] == text[i + 1] && s[2] == text[i + 2] && s[3..] == text[i + 3..];
    assert s[1..] == text[i + 1..];
  }

  method NormalizePercentEncoding(text: Octets, host: bool) returns (out: string)
    ensures out == Normalized(text, host)
    ensures Encoded(out, host)
    ensures Encoded(text, host) ==> out == text
  {
    hide IsPathSafe, IsHostSafe, IsUnreserved, Escape, HexValue, IsHex, Encoded, Normalized;
    out := "";
    var i := 0;
    assert text[0..] == text;
    while i < |text|
      invariant 0 <= i <= |text|
      invariant Normalized(text, host) == out + Normalized(text[i..], host)
    {
      var c := text[i];
      NormalizedFrom(text, i, host);
      if c == '%' && i + 2 < |text| && IsHex(text[i + 1]) && IsHex(text[i + 2]) {
        var value := (16 * HexValue(text[i + 1]) + HexValue(text[i + 2])) as char;
        out := out + (if IsUnreserved(value) then [value] else Escape(value));
        i := i + 3;
      } else {
        out := out + (if IsPathSafe(c) || (host && IsHostSafe(c)) then [c] else Escape(c));
        i := i + 1;
      }
    }
    assert text[i..] == "";
    NormalizedNothing(host);
    NormalizedIsEncoded(text, host);
    if Encoded(text, host) { EncodedIsFixed(text, host); }
  }

  lemma NormalizedNothing(host: bool)
    ensures Normalized("", host) == ""
  {
  }

  // ----- the normal form ---------------------------------------------------

  /** A canonical escape at the head: upper case, and of a character that needs one. */
  predicate CanonicalEscape(s: string) {
    |s| >= 3 && s[0] == '%' && IsUpperHex(s[1]) && IsUpperHex(s[2]) && !IsUnreserved(EscapedChar(s))
  }

  ghost predicate Encoded(s: string, host: bool)
    decreases |s|
  {
    s == "" || (CanonicalEscape(s) && Encoded(s[3..], host)) || (Safe(s[0], host) && Encoded(s[1..], host))
  }

  lemma EscapeIsCanonical(c: char, rest: string)
    requires c as int < 256 && !IsUnreserved(c)
    ensures CanonicalEscape(Escape(c) + rest) && EscapedChar(Escape(c) + rest) == c
    ensures (Escape(c) + rest)[3..] == rest
  {
  }

  lemma {:induction false} NormalizedIsEncoded(s: string, host: bool)
    requires AllBytes(s)
    ensures Encoded(Normalized(s, host), host)
    decreases |s|
  {
    if s != "" {
      var rest := Normalized(s[Unit(s)..], host);
      NormalizedIsEncoded(s[Unit(s)..], host);
      if IsEscape(s) && !IsUnreserved(EscapedChar(s)) {
        EscapeIsCanonical(EscapedChar(s), rest);
      } else if !IsEscape(s) && !Safe(s[0], host) {
        EscapeIsCanonical(s[0], rest);
      } else {
        assert (Written(s, host) + rest)[1..] == rest;
      }
    }
  }

  /** Upper-case hexadecimal digits have one spelling. */
  lemma UpperHexIsUnique(c: char)
    requires IsUpperHex(c)
    ensures IsHex(c) && HexChar(HexValue(c)) == c
  {
  }

  lemma EscapeIsFixed(s: string, host: bool)
    requires CanonicalEscape(s)
    ensures Unit(s) == 3 && Written(s, host) == s[..3]
  {
    hide HexChar, IsUnreserved;
    UpperHexIsUnique(s[1]);
    UpperHexIsUnique(s[2]);
    var v := 16 * HexValue(s[1]) + HexValue(s[2]);
    assert (v / 16) % 16 == HexValue(s[1]) && v % 16 == HexValue(s[2]);
    assert Escape(EscapedChar(s)) == s[..3];
  }

  lemma SafeIsFixed(s: string, host: bool)
    requires s != "" && Safe(s[0], host)
    ensures Unit(s) == 1 && Written(s, host) == [s[0]]
  {
  }

  lemma {:induction false} EncodedIsFixed(s: string, host: bool)
    requires Encoded(s, host)
    ensures Normalized(s, host) == s
    decreases |s|
  {
    hide Written, Unit, Safe, IsUnreserved, HexValue, IsUpperHex;
    if s != "" {
      if |s| >= 3 && CanonicalEscape(s) && Encoded(s[3..], host) {
        EscapeIsFixed(s, host);
        EncodedIsFixed(s[3..], host);
        assert s == s[..3] + s[3..];
      } else {
        SafeIsFixed(s, host);
        EncodedIsFixed(s[1..], host);
        assert s == [s[0]] + s[1..];
      }
    }
  }

  // ----- cutting and joining normal forms ----------------------------------

  lemma {:induction false} EncodedAppend(a: string, b: string, host: bool)
    requires Encoded(a, host) && Encoded(b, host)
    ensures Encoded(a + b, host)
    decreases |a|
  {
    hide IsPathSafe, IsHostSafe, IsUnreserved, HexValue;
    if a == "" {
      assert a + b == b;
    } else if CanonicalEscape(a) && Encoded(a[3..], host) {
      EncodedAppend(a[3..], b, host);
      assert (a + b)[3..] == a[3..] + b;
      assert CanonicalEscape(a + b);
    } else {
      EncodedAppend(a[1..], b, host);
      assert (a + b)[1..] == a[1..] + b;
    }
  }

  /** A normal form may be cut before any character that no escape contains. */
  lemma {:induction false} EncodedCut(a: string, b: string, host: bool)
    requires Encoded(a + b, host) && (b == "" || (!IsUpperHex(b[0])))
    ensures Encoded(a, host) && Encoded(b, host)
    decreases |a|
  {
    var s := a + b;
    if a == "" {
      assert s == b;
    } else if CanonicalEscape(s) && Encoded(s[3..], host) {
      assert |a| >= 3;
      assert s[3..] == a[3..] + b;
      EncodedCut(a[3..], b, host);
      assert CanonicalEscape(a);
    } else {
      assert s[1..] == a[1..] + b;
      EncodedCut(a[1..], b, host);
    }
  }

  /** A normal form holds only safe characters, percent signs and hexadecimal digits. */
  lemma {:induction false} EncodedChars(s: string, host: bool, i: nat)
    requires Encoded(s, host) && i < |s|
    ensures Safe(s[i], host) || s[i] == '%'
    decreases |s|
  {
    if CanonicalEscape(s) && Encoded(s[3..], host) {
      if i >= 3 { EncodedChars(s[3..], host, i - 3); }
    } else if i >= 1 {
      EncodedChars(s[1..], host, i - 1);
    }
  }

  /** Removing dot segments keeps a path in normal form. */
  ghost predicate AllEncoded(segments: seq<string>) { forall s :: s in segments ==> Encoded(s, false) }

  lemma {:induction false} SegmentsEncoded(s: string)
    requires Encoded(s, false)
    ensures AllEncoded(Split(s))
    decreases |s|
  {
    var k := FirstSlash(s);
    assert s == s[..k] + s[k..];
    EncodedCut(s[..k], s[k..], false);
    if k < |s| {
      assert s[k..][1..] == s[k + 1..];
      SegmentsEncoded(s[k + 1..]);
    }
  }

  lemma {:induction false} FoldEncoded(stack: seq<string>, segments: seq<string>)
    requires segments != [] && AllEncoded(stack) && AllEncoded(segments)
    ensures AllEncoded(Fold(stack, segments))
    decreases |segments|
  {
    hide Encoded;
    var head := segments[0];
    assert head in segments && forall s :: s in segments[1..] ==> s in segments;
    assert forall s :: s in Popped(stack) ==> s in stack;
    var next := if head == "." then stack else if head == ".." then Popped(stack) else stack + [head];
    assert Encoded("", false) by { EmptyEncoded(); }
    if |segments| > 1 { FoldEncoded(next, segments[1..]); }
  }

  lemma EmptyEncoded()
    ensures Encoded("", false)
  {
  }

  lemma {:induction false} JoinEncoded(segments: seq<string>)
    requires AllEncoded(segments)
    ensures Encoded(Join(segments), false)
  {
    hide Encoded;
    if segments == [] {
      EmptyEncoded();
    } else {
      assert segments[0] in segments && forall s :: s in segments[1..] ==> s in segments;
      JoinEncoded(segments[1..]);
      EncodedAppend(segments[0], Join(segments[1..]), false);
      JoinHead(segments[0], segments[1..]);
      assert segments == [segments[0]] + segments[1..];
      assert Join(segments) == "/" + (segments[0] + Join(segments[1..]));
      SlashEncoded(segments[0] + Join(segments[1..]));
    }
  }

  lemma SlashEncoded(rest: string)
    requires Encoded(rest, false)
    ensures Encoded("/" + rest, false)
  {
    assert ("/" + rest)[1..] == rest;
  }

  /** The path half of an identifier: decoded, then without dot segments. */
  function NormalPath(path: string): string {
    var p := Rewritten(Normalized(path, false), "");
    if p == "" then "/" else p
  }

  /** It is a fixed point of both passes together, and holds no query or fragment mark. */
  lemma NormalPathIsFixed(path: string)
    requires AllBytes(path) && (path == "" || path[0] == '/')
    ensures var p := NormalPath(path);
            && p != "" && p[0] == '/' && Encoded(p, false) && NormalPath(p) == p
            && NoDots(Split(p[1..]))
  {
    hide Normalized, Encoded, Rewritten, Split, NoDots, Canonical;
    var n := Normalized(path, false);
    NormalizedIsEncoded(path, false);
    NormalStart(path);
    var p := NormalPath(path);
    if path == "" {
      RootIsFixed();
    } else {
      RewritingIsCanonical(n);
      CanonicalIsFixed(n);
      CanonicalEncoded(n);
      EncodedIsFixed(p, false);
      RewritingIsCanonical(p);
    }
  }

  lemma NormalStart(path: string)
    requires path == "" || path[0] == '/'
    ensures path == "" ==> Normalized(path, false) == "" && Rewritten("", "") == ""
    ensures path != "" ==> Normalized(path, false) != "" && Normalized(path, false)[0] == '/'
  {
  }

  lemma CanonicalEncoded(n: string)
    requires n != "" && n[0] == '/' && Encoded(n, false)
    ensures Encoded(Canonical(n), false)
  {
    assert Encoded(n[1..], false);
    SegmentsEncoded(n[1..]);
    FoldEncoded([], Split(n[1..]));
    JoinEncoded(Fold([], Split(n[1..])));
  }

  lemma RootIsFixed()
    ensures Encoded("/", false) && NormalPath("/") == "/" && NoDots(Split("/"[1..]))
  {
    assert Normalized("/", false) == "/" by { assert Encoded("/", false); EncodedIsFixed("/", false); }
    RewritingIsCanonical("/");
    EmptyTail([]);
    assert [] + [""] == [""];
    JoinHead("", []);
    assert [""] + [] == [""];
    assert "/"[1..] == "";
  }
}
