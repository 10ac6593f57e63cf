/** What percent-encoded text means, as bytes; normalization changes the spelling and not the meaning. */
module PercentMeaning {
  import opened PercentEncoding
  import opened Text

  /** The bytes a text names: escapes are read, everything else stands for itself. */
  function Meant(s: string): string
    decreases |s|
  {
    if s == "" then ""
    else if IsEscape(s) then [EscapedChar(s)] + Meant(s[3..])
    else [s[0]] + Meant(s[1..])
  }

  lemma EscapeMeans(c: char, rest: string)
    requires c as int < 256 && !IsUnreserved(c)
    ensures Meant(Escape(c) + rest) == [c] + Meant(rest)
  {
    hide IsUnreserved, HexValue, IsUpperHex;
    EscapeIsCanonical(c, rest);
    var s := Escape(c) + rest;
    UpperHexIsUnique(s[1]);
    UpperHexIsUnique(s[2]);
  }

  lemma PlainMeans(c: char, rest: string)
    requires c != '%'
    ensures Meant([c] + rest) == [c] + Meant(rest)
  {
    assert ([c] + rest)[1..] == rest;
  }

  lemma SafeIsNoPercent(c: char, host: bool)
    ensures Safe(c, host) || IsUnreserved(c) ==> c != '%'
    ensures !Safe(c, host) ==> !IsUnreserved(c)
  {
  }

  /** The meaning is kept, whatever the text: also of a percent sign that begins no escape. */
  lemma {:induction false} NormalizedMeansTheSame(s: string, host: bool)
    requires AllBytes(s)
    ensures Meant(Normalized(s, host)) == Meant(s)
    decreases |s|
  {
    hide IsUnreserved, Safe, Escape, HexValue, IsHex;
    if s != "" {
      var rest := Normalized(s[Unit(s)..], host);
      NormalizedMeansTheSame(s[Unit(s)..], host);
      var c := if IsEscape(s) then EscapedChar(s) else s[0];
      SafeIsNoPercent(c, host);
      if if IsEscape(s) then IsUnreserved(c) else Safe(c, host) { PlainMeans(c, rest); } else { EscapeMeans(c, rest); }
    }
  }

  /** Both cases of a hexadecimal digit are read. */
  lemma HexDigitsAreRead(v: nat)
    requires v < 16
    ensures IsHex("0123456789ABCDEF"[v]) && HexValue("0123456789ABCDEF"[v]) == v
    ensures IsHex("0123456789abcdef"[v]) && HexValue("0123456789abcdef"[v]) == v
  {
  }

  /** Which characters may stand as they are in a path: letters, digits and these, and in a host three more. */
  lemma KeptCharacters(c: char, host: bool)
    requires c as int < 256
    ensures Normalized([c], host) == [c] <==>
              || 'a' <= c <= 'z' || 'A' <= c <= 'Z' || '0' <= c <= '9' || c in "-._~!$&'()*+,;=:@/"
              || (host && c in "[]:")
  {
    NormalizedNothing(host);
    assert [c][1..] == "";
    assert Normalized([c], host) == Written([c], host);
  }

  /** And which are written without an escape even where one was used. */
  lemma DecodedCharacters(c: char, host: bool)
    requires c as int < 256
    ensures Normalized(Escape(c), host) == [c] <==>
              'a' <= c <= 'z' || 'A' <= c <= 'Z' || '0' <= c <= '9' || c in "-._~"
  {
    var s := Escape(c);
    assert s[3..] == "";
    NormalizedNothing(host);
    UpperHexIsUnique(s[1]);
    UpperHexIsUnique(s[2]);
    assert IsEscape(s) && EscapedChar(s) == c;
    assert Normalized(s, host) == Written(s, host);
  }
}
