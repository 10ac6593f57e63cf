/** Lists written as text: items between separators, with blanks around them that mean nothing. */
module SeparatedText {
  import opened Text

  function Pieces(text: string, c: char): (pieces: seq<string>)
    ensures pieces != []
    decreases |text|
  {
    var k := Find(text, c);
    if k == |text| then [text] else [text[..k]] + Pieces(text[k + 1..], c)
  }

  /** Reading a list from the left: one item, and the rest if a separator follows it. */
  lemma PiecesStep(before: seq<string>, rest: string, c: char)
    ensures var k := Find(rest, c);
            before + Pieces(rest, c) == before + [rest[..k]] + if k == |rest| then [] else Pieces(rest[k + 1..], c)
  {
    hide Find;
    var k := Find(rest, c);
    if k == |rest| { assert rest[..k] == rest; }
  }

  function Joined(parts: seq<string>, c: char): string {
    if parts == [] then ""
    else if |parts| == 1 then parts[0]
    else parts[0] + ([c] + Joined(parts[1..], c))
  }

  /** Items that do not hold the separator come back as they went in. */
  lemma {:induction false} PiecesOfJoined(parts: seq<string>, c: char)
    requires parts != [] && forall i :: 0 <= i < |parts| ==> Lacks(parts[i], c)
    ensures Pieces(Joined(parts, c), c) == parts
    decreases |parts|
  {
    hide Find;
    if |parts| == 1 {
      FindOf(parts[0], "", c);
      assert parts[0] + "" == parts[0];
    } else {
      var rest := parts[1..];
      assert forall i :: 0 <= i < |rest| ==> rest[i] == parts[i + 1];
      PiecesOfJoined(rest, c);
      var tail := [c] + Joined(rest, c);
      FindOf(parts[0], tail, c);
      assert (parts[0] + tail)[..|parts[0]|] == parts[0];
      assert (parts[0] + tail)[|parts[0]| + 1..] == Joined(rest, c);
      assert [parts[0]] + rest == parts;
    }
  }

  predicate IsBlank(c: char) { c == ' ' || c == '\t' || c == '\r' || c == '\n' }

  function StripFront(text: string): string {
    if text != "" && IsBlank(text[0]) then StripFront(text[1..]) else text
  }

  function StripBack(text: string): string {
    if text != "" && IsBlank(text[|text| - 1]) then StripBack(text[..|text| - 1]) else text
  }

  function Stripped(text: string): string { StripBack(StripFront(text)) }

  /** Text with something at both ends is left alone. */
  lemma StrippedIsFixed(text: string)
    requires text != "" ==> !IsBlank(text[0]) && !IsBlank(text[|text| - 1])
    ensures Stripped(text) == text
  {
  }

  /** Text that can stand as an item, with nothing for `Stripped` to take. */
  predicate Solid(text: string) { text != "" && !IsBlank(text[0]) && !IsBlank(text[|text| - 1]) }

  lemma {:induction false} JoinedIsSolid(parts: seq<string>, c: char)
    requires parts != [] && forall i :: 0 <= i < |parts| ==> Solid(parts[i])
    ensures Solid(Joined(parts, c))
    decreases |parts|
  {
    if |parts| > 1 {
      var rest := parts[1..];
      assert forall i :: 0 <= i < |rest| ==> rest[i] == parts[i + 1];
      JoinedIsSolid(rest, c);
      var text := Joined(parts, c);
      assert text[0] == parts[0][0] && text[|text| - 1] == Joined(rest, c)[|Joined(rest, c)| - 1];
    }
  }

  lemma {:induction false} JoinedLacks(parts: seq<string>, c: char, other: char)
    requires c != other && forall i :: 0 <= i < |parts| ==> Lacks(parts[i], other)
    ensures Lacks(Joined(parts, c), other)
    decreases |parts|
  {
    if |parts| > 1 {
      var rest := parts[1..];
      assert forall i :: 0 <= i < |rest| ==> rest[i] == parts[i + 1];
      JoinedLacks(rest, c, other);
    }
  }
}
