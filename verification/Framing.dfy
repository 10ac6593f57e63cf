/**
 HTTP response framing: the headers a range reader judges a response by. Every value is a server's word, so each
 parser accepts one grammar and refuses numbers that do not fit 64 bits.
 */
module Framing {
  import opened Basics
  import opened RangeMath
  import opened SeparatedText
  import opened Text

  predicate IsSpace(c: char) { c == ' ' || c == '\t' }

  // ----- trimming and numbers ----------------------------------------------

  function TrimFront(text: string): string {
    if text != "" && IsSpace(text[0]) then TrimFront(text[1..]) else text
  }

  function TrimBack(text: string): string {
    if text != "" && IsSpace(text[|text| - 1]) then TrimBack(text[..|text| - 1]) else text
  }

  function Trimmed(text: string): string { TrimBack(TrimFront(text)) }

  method Trim(text: string) returns (r: string)
    ensures r == Trimmed(text)
  {
    r := text;
    while r != "" && IsSpace(r[0])
      invariant TrimFront(r) == TrimFront(text)
      decreases |r|
    {
      r := r[1..];
    }
    while r != "" && IsSpace(r[|r| - 1])
      invariant TrimBack(r) == Trimmed(text)
      decreases |r|
    {
      r := r[..|r| - 1];
    }
  }

  /** Text that neither starts nor ends with a space is left alone. */
  lemma TrimmedIsFixed(text: string)
    requires text != "" ==> !IsSpace(text[0]) && !IsSpace(text[|text| - 1])
    ensures Trimmed(text) == text
  {
  }

  predicate AllBlank(text: string) { forall i :: 0 <= i < |text| ==> text[i] == ' ' || text[i] == '\t' }

  /** What is trimmed is blanks and tabs at the two ends, all of them and nothing else. */
  lemma {:induction false} TrimmedOfPadded(front: string, text: string, back: string)
    requires AllBlank(front) && AllBlank(back)
    requires text != "" ==> !AllBlank(text[..1]) && !AllBlank(text[|text| - 1..])
    ensures Trimmed(front + text + back) == text
    decreases |front| + |back|
  {
    var all := front + text + back;
    if front != "" {
      assert all[0] == front[0] && all[1..] == front[1..] + text + back;
      TrimmedOfPadded(front[1..], text, back);
    } else if back != "" {
      TrimmedOfPadded("", text, back[..|back| - 1]);
      TrimmedDropsLast("" + text + back[..|back| - 1], back[|back| - 1]);
      assert all == ("" + text + back[..|back| - 1]) + [back[|back| - 1]];
    } else {
      assert all == text;
      TrimmedIsFixed(text);
    }
  }

  lemma {:induction false} TrimmedDropsLast(text: string, c: char)
    requires IsSpace(c)
    ensures Trimmed(text + [c]) == Trimmed(text)
    decreases |text|
  {
    var all := text + [c];
    if text == "" {
      assert all == [c] && [c][1..] == "";
    } else if IsSpace(text[0]) {
      assert all[1..] == text[1..] + [c];
      TrimmedDropsLast(text[1..], c);
    } else {
      assert all[..|all| - 1] == text;
    }
  }

  function Unsigned(text: string): Option<nat> {
    if text != "" && AllDigits(text) && Value(text) <= MAX_U64 then Some(Value(text)) else None
  }

  /** Overflow is refused before it can wrap. */
  method ParseUnsigned(text: string) returns (r: Option<nat>)
    ensures r == Unsigned(text)
  {
    if text == "" { return None; }
    var value: nat := 0;
    for i := 0 to |text|
      invariant AllDigits(text[..i]) && value == Value(text[..i]) <= MAX_U64
    {
      var c := text[i];
      assert text[..i + 1][i] == c;
      if !IsDigit(c) { return None; }
      var digit := DigitValue(c);
      assert text[..i + 1][..i] == text[..i];
      assert AllDigits(text[..i + 1]);
      assert Value(text[..i + 1]) == value * 10 + digit;
      if value > (MAX_U64 - digit) / 10 {
        if AllDigits(text) { ValueGrows(text, i + 1); }
        return None;
      }
      value := value * 10 + digit;
    }
    assert text[..|text|] == text;
    return Some(value);
  }

  // ----- Content-Range -----------------------------------------------------

  /** `last` is inclusive, as the header is. */
  datatype ContentRange =
    | Satisfied(first: nat, last: nat, complete: Option<nat>)
    | Unsatisfied(length: nat)

  const UNIT := "bytes"

  function CompleteLength(text: string): Option<Option<nat>> {
    if text == "*" then Some(None)
    else match Unsigned(text) case None => None case Some(n) => Some(Some(n))
  }

  function RangeSpec(spec: string, complete: Option<nat>): Option<ContentRange> {
    if spec == "*" then
      match complete case None => None case Some(n) => Some(Unsatisfied(n))
    else
      var dash := Find(spec, '-');
      if dash == |spec| then None
      else
        match (Unsigned(spec[..dash]), Unsigned(spec[dash + 1..]))
        case (Some(first), Some(last)) =>
          if last < first || (complete.Some? && last >= complete.value) then None
          else Some(Satisfied(first, last, complete))
        case _ => None
  }

  function RangeAfterUnit(value: string): Option<ContentRange> {
    var slash := Find(value, '/');
    if slash == |value| then None
    else
      match CompleteLength(Trimmed(value[slash + 1..]))
      case None => None
      case Some(complete) => RangeSpec(Trimmed(value[..slash]), complete)
  }

  /** What a `Content-Range` value says, by section 14.4 of RFC 9110. */
  function ContentRangeOf(text: string): Option<ContentRange> {
    var value := Trimmed(text);
    if |value| <= |UNIT| || value[..|UNIT|] != UNIT || !IsSpace(value[|UNIT|]) then None
    else RangeAfterUnit(Trimmed(value[|UNIT|..]))
  }

  method ParseContentRange(text: string) returns (r: Option<ContentRange>)
    ensures r == ContentRangeOf(text)
  {
    hide Trimmed, Unsigned, Find;
    var value := Trim(text);
    if |value| <= |UNIT| || value[..|UNIT|] != UNIT || !IsSpace(value[|UNIT|]) { return None; }
    value := Trim(value[|UNIT|..]);
    var slash := Find(value, '/');
    if slash == |value| { return None; }
    var spec := Trim(value[..slash]);
    var completeText := Trim(value[slash + 1..]);
    var complete: Option<nat> := None;
    if completeText != "*" {
      complete := ParseUnsigned(completeText);
      if complete == None { return None; }
    }
    if spec == "*" {
      return if complete == None then None else Some(Unsatisfied(complete.value));
    }
    var dash := Find(spec, '-');
    if dash == |spec| { return None; }
    var first := ParseUnsigned(spec[..dash]);
    if first == None { return None; }
    var last := ParseUnsigned(spec[dash + 1..]);
    if last == None { return None; }
    if last.value < first.value { return None; }
    if complete != None && last.value >= complete.value { return None; }
    return Some(Satisfied(first.value, last.value, complete));
  }

  predicate PossibleRange(r: ContentRange) {
    match r
    case Satisfied(first, last, complete) =>
      && first <= last <= MAX_U64
      && (complete.Some? ==> last < complete.value <= MAX_U64)
    case Unsatisfied(length) => length <= MAX_U64
  }

  /** Nothing impossible is ever accepted: no reversed range, and none past the end of its representation. */
  lemma AcceptedRangeIsPossible(text: string)
    requires ContentRangeOf(text).Some?
    ensures PossibleRange(ContentRangeOf(text).value)
  {
    hide Trimmed, Find;
  }

  /** How a server writes the header. */
  function PrintedRange(r: ContentRange): string {
    "bytes " + match r
               case Satisfied(first, last, complete) =>
                 Digits(first) + "-" + Digits(last) + "/"
                 + (match complete case None => "*" case Some(n) => Digits(n))
               case Unsatisfied(length) => "*/" + Digits(length)
  }

  /** The header says exactly what was meant, for every range that is possible; and no other is ever read. */
  lemma PrintedRangeIsRead(r: ContentRange)
    ensures PossibleRange(r) ==> ContentRangeOf(PrintedRange(r)) == Some(r)
    ensures ContentRangeOf(PrintedRange(r)) == Some(r) ==> PossibleRange(r)
  {
    hide ContentRangeOf, PrintedRange;
    if ContentRangeOf(PrintedRange(r)) == Some(r) { AcceptedRangeIsPossible(PrintedRange(r)); }
    if PossibleRange(r) {
      match r
      case Satisfied(first, last, complete) => PrintedSatisfiedIsRead(first, last, complete);
      case Unsatisfied(length) => PrintedUnsatisfiedIsRead(length);
    }
  }

  lemma PrintedSatisfiedIsRead(first: nat, last: nat, complete: Option<nat>)
    requires PossibleRange(Satisfied(first, last, complete))
    ensures var r := Satisfied(first, last, complete); ContentRangeOf(PrintedRange(r)) == Some(r)
  {
    hide ContentRangeOf, RangeSpec, CompleteLength, Digits;
    var a, b, tail := Digits(first), Digits(last), match complete case None => "*" case Some(n) => Digits(n);
    PrintedSpecIsRead(first, last, complete);
    PrintedLengthIsRead(complete, tail);
    assert IsDigit(a[0]) && IsDigit(b[|b| - 1]) && (complete.Some? ==> IsDigit(tail[0]) && IsDigit(tail[|tail| - 1]));
    var spec := a + "-" + b;
    assert spec[0] == a[0] && spec[|spec| - 1] == b[|b| - 1];
    PrintedPartsAreRead(spec, tail);
  }

  lemma PrintedUnsatisfiedIsRead(length: nat)
    requires length <= MAX_U64
    ensures ContentRangeOf(PrintedRange(Unsatisfied(length))) == Some(Unsatisfied(length))
  {
    hide ContentRangeOf, CompleteLength, Digits;
    var tail := Digits(length);
    PrintedLengthIsRead(Some(length), tail);
    assert IsDigit(tail[0]) && IsDigit(tail[|tail| - 1]);
    PrintedPartsAreRead("*", tail);
    assert "*" + "/" + tail == "*/" + tail;
  }

  lemma PrintedLengthIsRead(complete: Option<nat>, text: string)
    requires text == match complete case None => "*" case Some(n) => Digits(n)
    requires complete.Some? ==> complete.value <= MAX_U64
    ensures CompleteLength(text) == Some(complete)
  {
    if complete.Some? {
      PrintedNumberIsRead(complete.value);
      assert IsDigit(text[0]);
    }
  }

  lemma PrintedNumberIsRead(n: nat)
    ensures Unsigned(Digits(n)) == if n <= MAX_U64 then Some(n) else None
  {
    ValueOfDigits(n);
  }

  lemma PrintedSpecIsRead(first: nat, last: nat, complete: Option<nat>)
    requires first <= last <= MAX_U64 && (complete.Some? ==> last < complete.value)
    ensures RangeSpec(Digits(first) + "-" + Digits(last), complete) == Some(Satisfied(first, last, complete))
  {
    hide Find, Digits, Unsigned;
    var a, b := Digits(first), Digits(last);
    PrintedNumberIsRead(first);
    PrintedNumberIsRead(last);
    assert IsDigit(a[0]);
    FindOf(a, "-" + b, '-');
    var spec := a + "-" + b;
    assert spec == a + ("-" + b) && spec[0] == a[0];
    assert spec[..|a|] == a && spec[|a| + 1..] == b;
  }

  /** Neither part holds a space at an end, and the first holds no slash. */
  lemma PrintedPartsAreRead(spec: string, tail: string)
    requires spec != "" && !IsSpace(spec[0]) && !IsSpace(spec[|spec| - 1]) && Lacks(spec, '/')
    requires tail != "" && !IsSpace(tail[0]) && !IsSpace(tail[|tail| - 1])
    requires CompleteLength(tail).Some?
    ensures ContentRangeOf("bytes " + (spec + "/" + tail)) == RangeSpec(spec, CompleteLength(tail).value)
  {
    hide Trimmed, TrimFront, TrimBack, CompleteLength, RangeSpec, Find;
    var body := spec + "/" + tail;
    var text := UNIT + " " + body;
    assert "bytes " + body == text;
    TrimmedIsFixed(text);
    assert text[..|UNIT|] == UNIT && text[|UNIT|] == ' ';
    assert text[|UNIT|..] == " " + body;
    LeadingSpaceIsTrimmed(body);
    FindOf(spec, "/" + tail, '/');
    assert body == spec + ("/" + tail);
    assert body[..|spec|] == spec && body[|spec| + 1..] == tail;
    TrimmedIsFixed(spec);
    TrimmedIsFixed(tail);
  }

  lemma LeadingSpaceIsTrimmed(body: string)
    requires body != "" && !IsSpace(body[0]) && !IsSpace(body[|body| - 1])
    ensures Trimmed(" " + body) == body
  {
    assert (" " + body)[1..] == body;
    assert TrimFront(" " + body) == TrimFront(body) == body;
  }

  // ----- header tables -----------------------------------------------------

  datatype Header = Header(name: string, value: string)

  /** The last header of that name, ignoring case. */
  function Lookup(headers: seq<Header>, name: string): Option<string> {
    if headers == [] then None
    else
      var last := headers[|headers| - 1];
      if Lower(last.name) == Lower(name) then Some(last.value) else Lookup(headers[..|headers| - 1], name)
  }

  /** The last header of the name, in any case of its letters, is the one that counts. */
  lemma {:induction false} LookupIsLast(headers: seq<Header>, name: string)
    ensures match Lookup(headers, name)
            case None => forall i :: 0 <= i < |headers| ==> Lower(headers[i].name) != Lower(name)
            case Some(value) =>
              exists i :: && 0 <= i < |headers| && Lower(headers[i].name) == Lower(name) && headers[i].value == value
                          && forall j :: i < j < |headers| ==> Lower(headers[j].name) != Lower(name)
  {
    hide Lower;
    if headers != [] {
      var n := |headers| - 1;
      var before := headers[..n];
      LookupIsLast(before, name);
      assert forall i :: 0 <= i < n ==> before[i] == headers[i];
      if Lower(headers[n].name) == Lower(name) {
        assert headers[n].value == Lookup(headers, name).value;
      } else if Lookup(before, name).Some? {
        var i :| && 0 <= i < n && Lower(before[i].name) == Lower(name) && before[i].value == Lookup(before, name).value
                 && forall j :: i < j < n ==> Lower(before[j].name) != Lower(name);
        assert Lower(headers[i].name) == Lower(name);
      }
    }
  }

  method FindHeader(headers: seq<Header>, name: string) returns (found: Option<string>)
    ensures found == Lookup(headers, name)
  {
    hide Lower;
    found := None;
    for i := 0 to |headers|
      invariant found == Lookup(headers[..i], name)
    {
      assert headers[..i + 1][..i] == headers[..i];
      if Lower(headers[i].name) == Lower(name) { found := Some(headers[i].value); }
    }
    assert headers[..|headers|] == headers;
  }

  predicate Named(header: Header, name: string) { Lower(header.name) == Lower(name) }

  /** Two lines of one name that say different things. */
  ghost predicate Conflicting(headers: seq<Header>, name: string) {
    exists i, j :: 0 <= i < j < |headers| && Named(headers[i], name) && Named(headers[j], name)
                   && headers[i].value != headers[j].value
  }

  method HasConflictingDuplicate(headers: seq<Header>, name: string) returns (conflict: bool)
    ensures conflict <==> Conflicting(headers, name)
  {
    hide Named;
    var first: Option<string> := None;
    ghost var at := 0;
    for i := 0 to |headers|
      invariant first == None ==> forall k :: 0 <= k < i ==> !Named(headers[k], name)
      invariant first.Some? ==> 0 <= at < i && Named(headers[at], name) && headers[at].value == first.value
      invariant first.Some? ==> forall k :: 0 <= k < i && Named(headers[k], name) ==> headers[k].value == first.value
    {
      if Named(headers[i], name) {
        if first == None {
          first, at := Some(headers[i].value), i;
        } else if first.value != headers[i].value {
          return true;
        }
      }
    }
    return false;
  }

  // ----- validators --------------------------------------------------------

  datatype Kind = NoKind | EntityTag | HttpDate | Derived
  datatype Strength = NoStrength | Weak | Strong
  datatype Validator = Validator(value: string, kind: Kind, strength: Strength) {
    predicate Usable() { kind != NoKind }
  }

  const NO_VALIDATOR := Validator("", NoKind, NoStrength)

  const ETAG := "ETag"
  const LAST_MODIFIED := "Last-Modified"

  /** The identity bound to, and what may go in an `If-Range`. */
  datatype Captured = Captured(validator: Validator, ifRange: string)

  predicate IsWeakTag(tag: string) { |tag| >= 2 && tag[0] == 'W' && tag[1] == '/' }

  function TrimmedLookup(headers: seq<Header>, name: string): string {
    match Lookup(headers, name) case None => "" case Some(value) => Trimmed(value)
  }

  function CaptureValidator(headers: seq<Header>): (c: Captured)
    ensures c.ifRange != "" ==> c.ifRange == c.validator.value
    ensures c.validator.kind == EntityTag ==> (c.ifRange != "" <==> c.validator.strength == Strong)
    ensures c.validator.strength == Strong ==> c.validator.kind == EntityTag && !IsWeakTag(c.validator.value)
    ensures c.validator.Usable() <==> c.validator.value != ""
  {
    var tag, date := TrimmedLookup(headers, ETAG), TrimmedLookup(headers, LAST_MODIFIED);
    if tag != "" then
      if IsWeakTag(tag) then Captured(Validator(tag, EntityTag, Weak), "")
      else Captured(Validator(tag, EntityTag, Strong), tag)
    else if date != "" then Captured(Validator(date, HttpDate, Weak), date)
    else Captured(NO_VALIDATOR, "")
  }

  /** Part by part: the tag if there is one, weak iff it says so, else the date, always weak. */
  lemma CapturedByParts(headers: seq<Header>)
    ensures var c := CaptureValidator(headers);
            var tag, date := TrimmedLookup(headers, "ETag"), TrimmedLookup(headers, "Last-Modified");
            && c.validator.value == (if tag != "" then tag else date)
            && (c.validator.kind == EntityTag <==> tag != "") && (c.validator.kind == NoKind <==> tag == date == "")
            && c.ifRange == (if "W/" <= tag then "" else c.validator.value)
            && (c.validator.strength == Weak <==> c.validator.value != "" && (tag == "" || "W/" <= tag))
  {
    hide TrimmedLookup;
  }

  /** Positive evidence only: a validator of the captured kind with another value. */
  predicate ContradictsCaptured(headers: seq<Header>, captured: Validator) {
    match captured.kind
    case EntityTag => Lookup(headers, ETAG).Some? && Trimmed(Lookup(headers, ETAG).value) != captured.value
    case HttpDate =>
      Lookup(headers, LAST_MODIFIED).Some? && Trimmed(Lookup(headers, LAST_MODIFIED).value) != captured.value
    case _ => false
  }

  /** A response never contradicts the validator captured from its own headers. */
  lemma CaptureAgreesWithItself(headers: seq<Header>)
    ensures !ContradictsCaptured(headers, CaptureValidator(headers).validator)
  {
    hide Lookup, Trimmed;
  }

  // ----- Accept-Ranges -----------------------------------------------------

  /** Whether some item of a comma-separated list, trimmed, is the token in any case. */
  predicate ListsToken(list: string, token: string)
    decreases |list|
  {
    var comma := Find(list, ',');
    || Lower(Trimmed(list[..comma])) == Lower(token)
    || (comma < |list| && ListsToken(list[comma + 1..], token))
  }

  /** Which are the texts between commas. */
  lemma {:induction false} ListedIff(list: string, token: string)
    ensures ListsToken(list, token) <==>
              exists item :: item in Pieces(list, ',') && Lower(Trimmed(item)) == Lower(token)
    decreases |list|
  {
    hide Lower, Trimmed, Find;
    var comma := Find(list, ',');
    if comma < |list| {
      ListedIff(list[comma + 1..], token);
      assert Pieces(list, ',') == [list[..comma]] + Pieces(list[comma + 1..], ',');
    } else {
      assert list[..comma] == list;
      assert Pieces(list, ',') == [list];
    }
  }

  method ListContainsToken(list: string, token: string) returns (found: bool)
    ensures found == ListsToken(list, token)
  {
    hide Find, Lower, Trimmed;
    var rest := list;
    while true
      invariant ListsToken(list, token) == ListsToken(rest, token)
      decreases |rest|
    {
      var comma := Find(rest, ',');
      var item := Trim(rest[..comma]);
      if Lower(item) == Lower(token) { return true; }
      if comma == |rest| { return false; }
      rest := rest[comma + 1..];
    }
  }
}
