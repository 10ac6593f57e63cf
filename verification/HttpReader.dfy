/**
 Range reads over HTTP. A reader is bound at open to one revision: its size, and whatever validator the server
 gave. A read asks for what is left of its range, accepts a partial response only if it frames exactly that, and
 resumes short bodies out of the same budget the exchanges below it retry from.
 */
module HttpReader {
  import opened Basics
  import opened Framing
  import opened HttpExchange
  import opened HttpUri
  import opened RangeMath
  import opened Text

  /** What an open captured. */
  datatype Bound = Bound(origin: Uri, uri: Uri, size: u64, captured: Captured)

  const CONTENT_RANGE := "Content-Range"
  const CONTENT_LENGTH := "Content-Length"

  function ByteRange(first: nat, length: nat): string
    requires length > 0
  {
    "bytes=" + Digits(first) + "-" + Digits(first + length - 1)
  }

  /** A server that reads ranges as this client does is asked for exactly the window. */
  lemma ByteRangeAsksForWindow(first: nat, length: nat)
    requires length > 0 && first + length - 1 <= MAX_U64
    ensures var text := ByteRange(first, length);
            && "bytes=" <= text && RangeSpec(text[6..], None) == Some(Satisfied(first, first + length - 1, None))
  {
    hide Digits, RangeSpec;
    PrintedSpecIsRead(first, first + length - 1, None);
    var text, spec := ByteRange(first, length), Digits(first) + "-" + Digits(first + length - 1);
    assert text == "bytes=" + spec;
    assert text[6..] == spec;
  }

  function StatusCode(status: nat): Code {
    if status == 404 || status == 410 then NotFound
    else if status == 401 || status == 403 then AccessDenied
    else if status == 405 || status == 501 then Unsupported
    else if status >= 500 || status == 429 then NetworkError
    else InvalidResponse
  }

  /** A body that stopped early may be asked for again, unless it was a deadline that stopped it. */
  predicate IsResumable(error: TransportError) { error == IncompleteBody || error == ConnectionLost }

  // ----- judging one response ----------------------------------------------

  function StatedRange(headers: seq<Header>): Option<ContentRange> {
    match Lookup(headers, CONTENT_RANGE) case None => None case Some(text) => ContentRangeOf(text)
  }

  function StatedLength(headers: seq<Header>): Option<nat> {
    match Lookup(headers, CONTENT_LENGTH) case None => None case Some(text) => Unsigned(Trimmed(text))
  }

  /** The window a partial response frames without contradicting itself. */
  ghost function Framed(headers: seq<Header>): Option<ContentRange> {
    if Conflicting(headers, CONTENT_RANGE) || Conflicting(headers, CONTENT_LENGTH) then None
    else match StatedRange(headers) case Some(Satisfied(first, last, complete)) => StatedRange(headers) case _ => None
  }

  /** `forget` marks a revision change: bytes already delivered belong to an asset that is gone. */
  datatype Judgement = Accepted | Rejected(code: Code, forget: bool)

  const CHANGED := Rejected(AssetChanged, true)

  function JudgeWhole(b: Bound, headers: seq<Header>): Judgement {
    if ContradictsCaptured(headers, b.captured.validator) then CHANGED
    else if StatedLength(headers).Some? && StatedLength(headers).value != b.size then CHANGED
    else Rejected(RangeNotSupported, false)
  }

  function JudgeUnsatisfiable(b: Bound, headers: seq<Header>): Judgement {
    if ContradictsCaptured(headers, b.captured.validator) then CHANGED
    else
      match StatedRange(headers)
      case Some(Unsatisfied(length)) => if length != b.size then CHANGED else Rejected(InvalidResponse, false)
      case _ => Rejected(InvalidResponse, false)
  }

  ghost function JudgePartial(b: Bound, r: Response, at: nat, remaining: nat): Judgement {
    if ContradictsCaptured(r.headers, b.captured.validator) then CHANGED
    else
      match Framed(r.headers)
      case Some(Satisfied(first, last, complete)) =>
        if complete.Some? && complete.value != b.size then CHANGED
        else if first != at || last - first + 1 != remaining || r.overflowed then Rejected(InvalidResponse, false)
        else Accepted
      case _ => Rejected(InvalidResponse, false)
  }

  ghost function Judge(b: Bound, r: Response, at: nat, remaining: nat): Judgement {
    if r.status == 200 then JudgeWhole(b, r.headers)
    else if r.status == 416 then JudgeUnsatisfiable(b, r.headers)
    else if r.status != 206 then Rejected(StatusCode(r.status), false)
    else JudgePartial(b, r, at, remaining)
  }

  // ----- what each judgement means -----------------------------------------

  /** The response carries a validator of the captured kind, and another value. */
  predicate NamesAnother(headers: seq<Header>, v: Validator) {
    || (v.kind == EntityTag && Lookup(headers, "ETag").Some? && Trimmed(Lookup(headers, "ETag").value) != v.value)
    || (v.kind == HttpDate && Lookup(headers, "Last-Modified").Some?
        && Trimmed(Lookup(headers, "Last-Modified").value) != v.value)
  }

  /** The response states a size of the whole asset, where its status has it say one, and another than the bound one. */
  ghost predicate StatesAnotherSize(r: Response, size: nat) {
    var length, range := Lookup(r.headers, "Content-Length"), Lookup(r.headers, "Content-Range");
    match r.status
    case 200 => length.Some? && Unsigned(Trimmed(length.value)).Some? && Unsigned(Trimmed(length.value)).value != size
    case 416 => range.Some? && exists n :: n != size && ContentRangeOf(range.value) == Some(Unsatisfied(n))
    case _ =>
      && range.Some? && !Conflicting(r.headers, "Content-Range") && !Conflicting(r.headers, "Content-Length")
      && exists first, last, n :: n != size && ContentRangeOf(range.value) == Some(Satisfied(first, last, Some(n)))
  }

  ghost predicate ShowsChange(b: Bound, r: Response) {
    r.status in {200, 206, 416} && (NamesAnother(r.headers, b.captured.validator) || StatesAnotherSize(r, b.size))
  }

  /** A revision change is judged exactly where a response shows one, and nothing else makes a read forget. */
  lemma ChangedIff(b: Bound, r: Response, at: nat, remaining: nat)
    ensures var j := Judge(b, r, at, remaining);
            && (j == Rejected(AssetChanged, true) <==> ShowsChange(b, r))
            && (j.Rejected? ==> (j.forget <==> j.code == AssetChanged))
  {
    hide Lookup, ContentRangeOf, Unsigned, Trimmed, Conflicting;
  }

  /** What every other status is refused as. */
  lemma RefusedByStatus(b: Bound, r: Response, at: nat, remaining: nat)
    requires !ShowsChange(b, r)
    ensures var j := Judge(b, r, at, remaining);
            && (r.status in {404, 410} ==> j == Rejected(NotFound, false))
            && (r.status in {401, 403} ==> j == Rejected(AccessDenied, false))
            && (r.status in {405, 501} ==> j == Rejected(Unsupported, false))
            && (r.status == 429 || (r.status >= 500 && r.status != 501) ==> j == Rejected(NetworkError, false))
            && (r.status == 200 ==> j == Rejected(RangeNotSupported, false))
            && ((r.status == 206 && j != Accepted) || r.status == 416 ==> j == Rejected(InvalidResponse, false))
            && (r.status !in {200, 206, 416, 401, 403, 404, 405, 410, 429} && r.status < 500 ==>
                  j == Rejected(InvalidResponse, false))
  {
    ChangedIff(b, r, at, remaining);
    hide Lookup, ContentRangeOf, Unsigned, Trimmed, Conflicting;
  }

  /** And when a response is used: a 206 that shows no change, frames exactly the window, and did not run over. */
  lemma AcceptedIff(b: Bound, r: Response, at: nat, remaining: nat)
    ensures Judge(b, r, at, remaining) == Accepted <==>
              && r.status == 206 && !ShowsChange(b, r) && !r.overflowed
              && !Conflicting(r.headers, "Content-Range") && !Conflicting(r.headers, "Content-Length")
              && var range := Lookup(r.headers, "Content-Range");
                 && range.Some?
                 && exists first: nat, last: nat, complete: Option<nat> ::
                      && ContentRangeOf(range.value) == Some(Satisfied(first, last, complete))
                      && first == at && last - first + 1 == remaining
  {
    ChangedIff(b, r, at, remaining);
    hide Lookup, ContentRangeOf, Unsigned, Trimmed, Conflicting;
  }

  method JudgeResponse(b: Bound, r: Response, at: nat, remaining: nat) returns (j: Judgement)
    ensures j == Judge(b, r, at, remaining)
    ensures j == Rejected(AssetChanged, true) <==> ShowsChange(b, r)
  {
    ChangedIff(b, r, at, remaining);
    hide ShowsChange;
    hide ContradictsCaptured, ContentRangeOf, Lookup, Unsigned, Trimmed, Conflicting;
    if r.status != 200 && r.status != 206 && r.status != 416 { return Rejected(StatusCode(r.status), false); }
    if ContradictsCaptured(r.headers, b.captured.validator) { return CHANGED; }
    if r.status == 200 {
      var length := FindHeader(r.headers, CONTENT_LENGTH);
      if length.Some? {
        var text := Trim(length.value);
        var whole := ParseUnsigned(text);
        if whole.Some? && whole.value != b.size { return CHANGED; }
      }
      return Rejected(RangeNotSupported, false);
    }
    var header := FindHeader(r.headers, CONTENT_RANGE);
    var range: Option<ContentRange> := None;
    if header.Some? { range := ParseContentRange(header.value); }
    if r.status == 416 {
      if range.Some? && range.value.Unsatisfied? && range.value.length != b.size { return CHANGED; }
      return Rejected(InvalidResponse, false);
    }
    var twoRanges := HasConflictingDuplicate(r.headers, CONTENT_RANGE);
    var twoLengths := HasConflictingDuplicate(r.headers, CONTENT_LENGTH);
    if twoRanges || twoLengths || range.None? || range.value.Unsatisfied? { return Rejected(InvalidResponse, false); }
    var window := range.value;
    if window.complete.Some? && window.complete.value != b.size { return CHANGED; }
    if window.first != at || window.last - window.first + 1 != remaining || r.overflowed {
      return Rejected(InvalidResponse, false);
    }
    return Accepted;
  }

  // ----- what a read comes to ----------------------------------------------

  /** Everything that decides what a read sends and returns. */
  datatype Reading = Reading(options: Options, bound: Bound, net: seq<Request> -> Response, offset: nat, length: nat) {
    function Ask(done: nat): Ask
      requires done < length
    {
      HttpExchange.Ask(Get, ByteRange(offset + done, length - done), bound.captured.ifRange, length - done)
    }

    function Terms(done: nat): Terms
      requires done < length
    {
      HttpExchange.Terms(options, bound.origin, Ask(done), net)
    }
  }

  /** Where a read stands after an exchange. An `Ok` that is short may go on. */
  datatype Progress = Progress(count: nat, code: Code, error: TransportError)

  ghost function Advanced(rd: Reading, done: nat, x: Result): Progress
    requires done < rd.length
  {
    if x.code != Ok || x.response.None? then Progress(done, x.code, NoError)
    else
      var r := x.response.value;
      match Judge(rd.bound, r, rd.offset + done, rd.length - done)
      case Rejected(why, forget) => Progress(if forget then 0 else done, why, NoError)
      case Accepted =>
        var code :=
          if r.error != NoError && !IsResumable(r.error) then ErrorCode(r.error)
          else if r.body == [] && r.error == NoError then InvalidResponse
          else Ok;
        Progress(done + |r.body|, code, r.error)
  }

  /** A read as a value: all it sends, how much it delivers, and its code. */
  datatype Fetch = Fetch(sent: seq<Sent>, count: nat, code: Code) {
    function After(before: seq<Sent>): Fetch { this.(sent := before + sent) }
  }

  function OutOfRetries(error: TransportError): Code {
    if error == ConnectionLost then NetworkError else InvalidResponse
  }

  /** A read from an exchange on, with `budget` retries in hand. */
  ghost function Fetched(rd: Reading, before: seq<Request>, asked: nat, done: nat, budget: nat): Fetch
    requires done < rd.length
    decreases budget, 1
  {
    var x := Exchanged(rd.Terms(done), before, Turn(asked, rd.bound.uri, 0, 1, budget));
    Continued(rd, before + Requests(x.sent), x.asked, Advanced(rd, done, x.result), x.retries).After(x.sent)
  }

  /** What follows an exchange: a resume costs a retry like any other. */
  ghost function Continued(rd: Reading, before: seq<Request>, asked: nat, p: Progress, budget: nat): Fetch
    decreases budget, 0
  {
    if p.code != Ok || p.count >= rd.length then Fetch([], p.count, p.code)
    else if budget == 0 then Fetch([], p.count, OutOfRetries(p.error))
    else Fetched(rd, before, asked, p.count, budget - 1)
  }

  // ----- what an assembled read is made of ---------------------------------

  /** A response whose bytes may be used: partial, framed, of the bound size, not of another revision. */
  ghost predicate Sound(b: Bound, r: Response) {
    && r.status == 206
    && !ContradictsCaptured(r.headers, b.captured.validator)
    && Framed(r.headers).Some? && Framed(r.headers).value.Satisfied?
    && (Framed(r.headers).value.complete.Some? ==> Framed(r.headers).value.complete.value == b.size)
    && |r.body| <= Framed(r.headers).value.last - Framed(r.headers).value.first + 1
  }

  ghost function FirstByte(b: Bound, r: Response): nat
    requires Sound(b, r)
  {
    Framed(r.headers).value.first
  }

  /** How a request asks for exactly the window a response frames. */
  ghost function Window(b: Bound, r: Response): string
    requires Sound(b, r)
  {
    var w := Framed(r.headers).value;
    if w.first <= w.last then ByteRange(w.first, w.last - w.first + 1) else ""
  }

  /**
   `bytes` is the bodies of `pieces` laid end to end from `offset`: each piece starts where the one before it
   stopped, by its own framing, and answers a request for exactly that window.
   */
  ghost predicate Tiled(b: Bound, offset: nat, pieces: seq<Sent>, bytes: seq<byte>)
    decreases |pieces|
  {
    if pieces == [] then bytes == []
    else
      var r := pieces[|pieces| - 1].response;
      && Sound(b, r) && |r.body| <= |bytes|
      && pieces[|pieces| - 1].request.ask.range == Window(b, r)
      && FirstByte(b, r) == offset + |bytes| - |r.body|
      && bytes[|bytes| - |r.body|..] == r.body
      && Tiled(b, offset, pieces[..|pieces| - 1], bytes[..|bytes| - |r.body|])
  }

  lemma TiledGrows(b: Bound, offset: nat, pieces: seq<Sent>, bytes: seq<byte>, e: Sent, more: seq<byte>)
    requires Tiled(b, offset, pieces, bytes) && Sound(b, e.response)
    requires FirstByte(b, e.response) == offset + |bytes| && more == bytes + e.response.body
    requires e.request.ask.range == Window(b, e.response)
    ensures Tiled(b, offset, pieces + [e], more)
  {
    hide Sound, Framed, Window;
    var all := pieces + [e];
    assert all[..|all| - 1] == pieces && all[|all| - 1] == e;
    assert more[|more| - |e.response.body|..] == e.response.body;
    assert more[..|more| - |e.response.body|] == bytes;
  }

  lemma AcceptedIsSound(b: Bound, r: Response, at: nat, remaining: nat)
    requires Judge(b, r, at, remaining) == Accepted && |r.body| <= remaining && remaining > 0
    ensures Sound(b, r) && FirstByte(b, r) == at && Window(b, r) == ByteRange(at, remaining)
  {
  }

  // ----- one revision per read ---------------------------------------------

  datatype Revision = Revision(content: seq<byte>, tag: string)

  /**
   A server that honours `If-Range` (section 13.1.5 of RFC 9110): a partial response is of the revision the
   condition names, and delivers a prefix of the window it frames.
   */
  ghost predicate Honours(b: Bound, e: Sent, served: Revision) {
    Sound(b, e.response) ==>
      && (e.request.ask.ifRange != "" ==> served.tag == e.request.ask.ifRange)
      && FirstByte(b, e.response) + |e.response.body| <= |served.content|
      && e.response.body == served.content[FirstByte(b, e.response)..FirstByte(b, e.response) + |e.response.body|]
  }

  /**
   The server may publish a new revision before any request of the read. If it honours the condition, and a strong
   tag means the same bytes, then everything a read assembles is of the revision the reader was bound to.
   */
  lemma {:induction false} TiledIsOneRevision(b: Bound, offset: nat, pieces: seq<Sent>, bytes: seq<byte>,
                                              served: seq<Revision>, atOpen: Revision)
    requires Tiled(b, offset, pieces, bytes) && |served| == |pieces|
    requires atOpen.tag != "" && forall i :: 0 <= i < |pieces| ==> pieces[i].request.ask.ifRange == atOpen.tag
    requires forall i :: 0 <= i < |pieces| ==> Honours(b, pieces[i], served[i])
    requires forall i :: 0 <= i < |pieces| && served[i].tag == atOpen.tag ==> served[i].content == atOpen.content
    ensures pieces != [] ==> offset + |bytes| <= |atOpen.content|
    ensures pieces != [] ==> bytes == atOpen.content[offset..offset + |bytes|]
    decreases |pieces|
  {
    hide Sound, Framed, Window;
    if pieces != [] {
      var n := |pieces| - 1;
      var r := pieces[n].response;
      var head := bytes[..|bytes| - |r.body|];
      assert Honours(b, pieces[n], served[n]);
      TiledIsOneRevision(b, offset, pieces[..n], head, served[..n], atOpen);
      assert bytes == head + r.body;
      if n == 0 { assert head == [] && bytes == r.body; }
      var content := atOpen.content;
      assert content[offset..offset + |bytes|]
          == content[offset..offset + |head|] + content[offset + |head|..offset + |bytes|];
    }
  }
}
