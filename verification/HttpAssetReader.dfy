/** The reader as the object a caller holds, and the open that makes one. */
module HttpAssetReaders {
  import opened Basics
  import opened Framing
  import opened HttpExchange
  import opened HttpOutcomes
  import opened HttpUri
  import opened HttpReader
  import opened Interception
  import opened RangeMath
  import opened Text

  /** The retries one logical operation may spend, whoever spends them. */
  function Budget(o: Options): nat { if o.maxAttempts > 0 then o.maxAttempts - 1 else 0 }

  /** Requests allowed per logical operation, redirects aside. */
  function AttemptsAllowed(o: Options): nat { if o.maxAttempts > 1 then o.maxAttempts else 1 }

  /** How the last exchange of a read ended, and where the read stood before it. */
  datatype Ending = Ending(exchange: Result, done: nat, retriesLeft: nat)

  /** Every request of a read: conditional on the bound revision, permitted, and bare outside the opened origin. */
  ghost predicate Guarded(o: Options, b: Bound, e: Sent) {
    && e.request.ask.verb == Get && e.request.ask.ifRange == b.captured.ifRange
    && o.permits(e.request.url.host)
    && (e.request.headers != [] ==> SameOrigin(e.request.url, b.origin) && Admissible(e.request.headers))
    && (b.uri.Secure() ==> e.request.url.Secure())
  }

  ghost predicate AllGuarded(o: Options, b: Bound, sent: seq<Sent>) {
    forall k :: 0 <= k < |sent| ==> Guarded(o, b, sent[k])
  }

  lemma ChainIsGuarded(o: Options, b: Bound, ask: Ask, asked: nat, sent: seq<Sent>)
    requires Chained(o, b.uri, sent) && AllProper(o, b.origin, ask, asked, sent)
    requires ask.verb == Get && ask.ifRange == b.captured.ifRange
    ensures AllGuarded(o, b, sent)
  {
    forall k | 0 <= k < |sent| ensures Guarded(o, b, sent[k]) {
      assert Proper(o, b.origin, ask, asked + k, sent[k]);
      if b.uri.Secure() { SecureStaysSecure(o, b.uri, sent, k); }
    }
  }

  lemma ProperAsks(o: Options, origin: Uri, ask: Ask, asked: nat, sent: seq<Sent>)
    requires AllProper(o, origin, ask, asked, sent)
    ensures forall k :: 0 <= k < |sent| ==> sent[k].request.ask == ask
  {
    forall k | 0 <= k < |sent| ensures sent[k].request.ask == ask {
      assert Proper(o, origin, ask, asked + k, sent[k]);
    }
  }

  /** Why a read that did not succeed stopped, from its last exchange alone. */
  ghost predicate Failed(b: Bound, offset: nat, length: nat, e: Ending, count: nat, code: Code) {
    if e.exchange.code != Ok || e.exchange.response.None? then code == e.exchange.code && count == e.done
    else if e.done >= length then false
    else
      var r := e.exchange.response.value;
      match Judge(b, r, offset + e.done, length - e.done)
      case Rejected(why, forget) => code == why && count == if forget then 0 else e.done
      case Accepted =>
        && count == e.done + |r.body|
        && if r.error != NoError && !IsResumable(r.error) then code == ErrorCode(r.error)
           else if r.body == [] && r.error == NoError then code == InvalidResponse
           else count < length && e.retriesLeft == 0
                && code == OutOfRetries(r.error)
  }

  class HttpAssetReader {
    const transport: Transport
    const options: Options
    const bound: Bound
    var requests: nat
    var retries: nat
    var redirects: nat

    constructor (transport: Transport, options: Options, bound: Bound)
      ensures this.transport == transport && this.options == options && this.bound == bound
      ensures requests == retries == redirects == 0
    {
      this.transport, this.options, this.bound := transport, options, bound;
      requests, retries, redirects := 0, 0, 0;
    }

    /** One exchange for what is left of the range, judged. */
    method Attempt(offset: nat, length: nat, done: nat, budget: nat, dst: array<byte>)
      returns (exchange: Result, judgement: Judgement, left: nat, hops: nat, ghost sent: seq<Sent>)
      requires done < length <= dst.Length
      modifies transport`log, transport`asked, dst
      ensures transport.log == old(transport.log) + sent
      ensures AllGuarded(options, bound, sent)
      ensures forall k :: 0 <= k < |sent| ==> sent[k].request.ask.range == ByteRange(offset + done, length - done)
      ensures left <= budget && |sent| <= 1 + (budget - left) + hops
      ensures SameOutside(old(Contents(dst)), Contents(dst), done, length - done)
      ensures Outcome(sent, exchange, left, transport.asked)
           == Exchanged(Reading(options, bound, transport.answer, offset, length).Terms(done),
                        Requests(old(transport.log)), Turn(old(transport.asked), bound.uri, 0, 1, budget))
      ensures exchange.code == Ok ==>
                && sent != [] && exchange.response == Some(sent[|sent| - 1].response)
                && judgement == Judge(bound, exchange.response.value, offset + done, length - done)
                && |exchange.response.value.body| <= length - done
                && HoldsAt(Contents(dst), done, exchange.response.value.body)
    {
      hide AllGuarded, SameOutside, HoldsAt, Contents, Judge, Chained, AllProper, Concluded, ByteRange;
      hide Exchanged, Requests;
      var ask := Ask(Get, ByteRange(offset + done, length - done), bound.captured.ifRange, length - done);
      exchange, left, hops, sent :=
        PerformExchange(transport, options, bound.origin, bound.uri, ask, dst, done, budget);
      ChainIsGuarded(options, bound, ask, old(transport.asked), sent);
      ProperAsks(options, bound.origin, ask, old(transport.asked), sent);
      judgement := Accepted;
      if exchange.code == Ok {
        judgement := JudgeResponse(bound, exchange.response.value, offset + done, length - done);
      }
    }

    /**
     Reads a range. Whatever is delivered is tiled by partial responses of the bound revision's size and validator;
     one budget covers every retry and every resume; nothing outside the range's place in the buffer moves.
     */
    method Read(offset: u64, dst: array<byte>, size: u64)
      returns (count: nat, code: Code, ghost sent: seq<Sent>, ghost pieces: seq<Sent>, ghost ending: Ending)
      requires size <= dst.Length
      modifies `requests, `retries, `redirects, transport`log, transport`asked, dst
      ensures transport.log == old(transport.log) + sent
      ensures AllGuarded(options, bound, sent)
      ensures requests == old(requests) + |sent|
      ensures old(retries) <= retries <= old(retries) + Budget(options)
      ensures |sent| <= 1 + (retries - old(retries)) + (redirects - old(redirects))
      ensures |sent| <= AttemptsAllowed(options) + (redirects - old(redirects))
      ensures Delivered(bound, offset, pieces, sent, Contents(dst), count)
      ensures match ResolveReadRange(offset, size, bound.size)
              case Overflow =>
                count == 0 && code == InvalidArgument && sent == [] && Contents(dst) == old(Contents(dst))
              case Empty => count == 0 && code == Ok && sent == [] && Contents(dst) == old(Contents(dst))
              case Transfer(_, length) =>
                && count <= length && SameOutside(old(Contents(dst)), Contents(dst), 0, length)
                && (code == Ok ==> count == length)
                && (code != Ok ==> Failed(bound, offset, length, ending, count, code))
                && Fetch(sent, count, code)
                   == Fetched(Reading(options, bound, transport.answer, offset, length), Requests(old(transport.log)),
                              old(transport.asked), 0, Budget(options))
      ensures code == AssetChanged <==> LastShowsChange(bound, sent)
      ensures code == AssetChanged ==> count == 0
    {
      hide LastShowsChange, Fetched, Requests, Failed, Delivered, AllGuarded, SameOutside;
      NothingIsDelivered(bound, offset, [], Contents(dst));
      NothingIsGuarded(options, bound);
      sent, pieces, ending := [], [], Ending(Result(Ok, None, bound.uri), 0, 0);
      var range := ResolveReadRange(offset, size, bound.size);
      LastOfBoth(bound, [], []);
      if range.Overflow? { return 0, InvalidArgument, sent, pieces, ending; }
      if range.Empty? { return 0, Ok, sent, pieces, ending; }
      ghost var log, asked := Requests(transport.log), transport.asked;
      count, code, sent, pieces, ending := Transfer(offset, range.length, dst);
      ReadChangedIff(Reading(options, bound, transport.answer, offset, range.length), log, asked, 0, Budget(options));
    }

    /** The loop of a read whose range is not empty. */
    method Transfer(offset: nat, length: nat, dst: array<byte>)
      returns (count: nat, code: Code, ghost sent: seq<Sent>, ghost pieces: seq<Sent>, ghost ending: Ending)
      requires 0 < length <= dst.Length
      modifies `requests, `retries, `redirects, transport`log, transport`asked, dst
      ensures transport.log == old(transport.log) + sent
      ensures AllGuarded(options, bound, sent)
      ensures requests == old(requests) + |sent|
      ensures old(retries) <= retries <= old(retries) + Budget(options)
      ensures |sent| <= 1 + (retries - old(retries)) + (redirects - old(redirects))
      ensures count <= length && Delivered(bound, offset, pieces, sent, Contents(dst), count)
      ensures SameOutside(old(Contents(dst)), Contents(dst), 0, length)
      ensures code == Ok ==> count == length
      ensures code != Ok ==> Failed(bound, offset, length, ending, count, code)
      ensures Fetch(sent, count, code)
           == Fetched(Reading(options, bound, transport.answer, offset, length), Requests(old(transport.log)),
                      old(transport.asked), 0, Budget(options))
    {
      hide AllGuarded, SameOutside, HoldsAt, Contents, Judge, ByteRange, Delivered, Failed, Resuming;
      hide Fetched, Requests, Underway;
      ghost var rd := Reading(options, bound, transport.answer, offset, length);
      ghost var all := Fetched(rd, Requests(transport.log), transport.asked, 0, Budget(options));
      SameOutsideItself(Contents(dst), 0, length);
      NothingIsDelivered(bound, offset, [], Contents(dst));
      NothingIsGuarded(options, bound);
      sent, pieces, ending := [], [], Ending(Result(Ok, None, bound.uri), 0, 0);
      count, code := 0, Ok;
      var left: nat, first, lastError := Budget(options), true, NoError;
      while count < length && code == Ok
        invariant count <= length && left <= Budget(options)
        invariant transport.log == old(transport.log) + sent
        invariant AllGuarded(options, bound, sent)
        invariant requests == old(requests) + |sent| && retries == old(retries) + (Budget(options) - left)
        invariant |sent| + (if first then 1 else 0) <= 1 + (Budget(options) - left) + (redirects - old(redirects))
        invariant Delivered(bound, offset, pieces, sent, Contents(dst), count)
        invariant SameOutside(old(Contents(dst)), Contents(dst), 0, length)
        invariant !first && code == Ok && count < length ==> Resuming(bound, offset, length, ending, count, lastError)
        invariant code != Ok ==> Failed(bound, offset, length, ending, count, code)
        invariant if first then count == 0 && code == Ok && sent == [] && left == Budget(options)
                                && transport.asked == old(transport.asked)
                  else Underway(rd, transport.log, transport.asked, Progress(count, code, lastError), left, sent, all)
        decreases left + if first then 1 else 0, code == Ok
      {
        if !first && left == 0 {
          code := OutOfRetries(lastError);
          ShortWithoutBudget(bound, offset, length, ending, count, lastError);
          StopsUnderway(rd, transport.log, transport.asked, Progress(count, Ok, lastError), sent, all);
          ending := ending.(retriesLeft := 0);
        } else {
          if !first {
            ResumesUnderway(rd, transport.log, transport.asked, Progress(count, code, lastError), left, sent, all);
            left, retries := left - 1, retries + 1;
          }
          first := false;
          ghost var rest := Fetched(rd, Requests(transport.log), transport.asked, count, left);
          assert rest.After(sent) == all by { assert sent == [] ==> rest.After(sent) == rest; }
          ghost var before, more := Contents(dst), sent;
          var logged, budget, done, hops := |transport.log|, left, count, 0;
          count, code, lastError, left, hops, more, pieces, ending :=
            Round(offset, length, done, budget, dst, sent, pieces);
          requests := requests + (|transport.log| - logged);
          retries, redirects := retries + (budget - left), redirects + hops;
          AllGuardedJoins(options, bound, sent, more);
          StaysUnderway(rd, transport.log, transport.asked, Progress(count, code, lastError), left, sent, more, rest);
          PrefixSurvives(old(Contents(dst)), before, Contents(dst), done, length);
          sent := sent + more;
        }
      }
      EndsUnderway(rd, transport.log, transport.asked, Progress(count, code, lastError), left, sent, all);
    }

    /** One pass of the loop: an exchange, and what its judgement makes of the read. */
    method Round(offset: nat, length: nat, done: nat, budget: nat, dst: array<byte>, ghost sent: seq<Sent>,
                 ghost before: seq<Sent>)
      returns (count: nat, code: Code, error: TransportError, left: nat, hops: nat, ghost more: seq<Sent>,
               ghost pieces: seq<Sent>, ghost ending: Ending)
      requires done < length <= dst.Length && Delivered(bound, offset, before, sent, Contents(dst), done)
      modifies transport`log, transport`asked, dst
      ensures transport.log == old(transport.log) + more
      ensures AllGuarded(options, bound, more)
      ensures left <= budget && |more| <= 1 + (budget - left) + hops
      ensures SameOutside(old(Contents(dst)), Contents(dst), done, length - done)
      ensures count <= length && Delivered(bound, offset, pieces, sent + more, Contents(dst), count)
      ensures code == Ok && count < length ==> Resuming(bound, offset, length, ending, count, error)
      ensures code != Ok ==> Failed(bound, offset, length, ending, count, code)
      ensures var rd := Reading(options, bound, transport.answer, offset, length);
              var all := Fetched(rd, Requests(old(transport.log)), old(transport.asked), done, budget);
              Underway(rd, transport.log, transport.asked, Progress(count, code, error), left, more, all)
    {
      hide AllGuarded, HoldsAt, Contents, Judge, ByteRange, Delivered, Failed, Resuming, Exchanged, Requests, Continued;
      ghost var rd, log := Reading(options, bound, transport.answer, offset, length), transport.log;
      pieces := before;
      var exchange, judgement;
      exchange, judgement, left, hops, more := Attempt(offset, length, done, budget, dst);
      StaysDelivered(bound, offset, pieces, sent, more, old(Contents(dst)), Contents(dst), done);
      hide SameOutside;
      count, code, error, ending := done, Ok, NoError, Ending(exchange, done, left);
      if exchange.code == Ok && judgement == Accepted {
        var response := exchange.response.value;
        AcceptedExtends(bound, offset, length, done, pieces, sent + more, Contents(dst), more[|more| - 1]);
        pieces := pieces + [more[|more| - 1]];
        count, error := done + |response.body|, response.error;
        if response.error != NoError && !IsResumable(response.error) {
          code := ErrorCode(response.error);
        } else if response.body == [] && response.error == NoError {
          code := InvalidResponse;
        }
      } else if exchange.code == Ok {
        if judgement.forget {
          NothingIsDelivered(bound, offset, sent + more, Contents(dst));
          count, pieces := 0, [];
        }
        code := judgement.code;
      } else {
        code := exchange.code;
      }
      RequestsJoin(log, more);
      Explained(rd, ending, count, code, error);
    }
  }

  /** The read is short, and how its last exchange ended allows asking for the rest. */
  ghost predicate Resuming(b: Bound, offset: nat, length: nat, e: Ending, done: nat, lastError: TransportError) {
    && e.exchange.code == Ok && e.exchange.response.Some? && e.done < length
    && var r := e.exchange.response.value;
       && Judge(b, r, offset + e.done, length - e.done) == Accepted
       && done == e.done + |r.body| && lastError == r.error
       && (r.error == NoError ==> r.body != []) && (r.error != NoError ==> IsResumable(r.error))
  }

  /** The first `count` bytes of the buffer are tiled by responses to requests that were sent. */
  ghost predicate Delivered(b: Bound, offset: nat, pieces: seq<Sent>, sent: seq<Sent>, contents: seq<byte>, count: nat)
  {
    && (forall k :: 0 <= k < |pieces| ==> pieces[k] in sent)
    && count <= |contents| && Tiled(b, offset, pieces, contents[..count])
  }

  lemma NothingIsDelivered(b: Bound, offset: nat, sent: seq<Sent>, contents: seq<byte>)
    ensures Delivered(b, offset, [], sent, contents, 0)
  {
    assert contents[..0] == [];
  }

  lemma NothingIsGuarded(o: Options, b: Bound)
    ensures AllGuarded(o, b, [])
  {
  }

  lemma StaysDelivered(b: Bound, offset: nat, pieces: seq<Sent>, sent: seq<Sent>, more: seq<Sent>,
                       before: seq<byte>, after: seq<byte>, count: nat)
    requires Delivered(b, offset, pieces, sent, before, count)
    requires |before| == |after| && before[..count] == after[..count]
    ensures Delivered(b, offset, pieces, sent + more, after, count)
  {
    hide Tiled;
  }

  lemma AllGuardedJoins(o: Options, b: Bound, sent: seq<Sent>, more: seq<Sent>)
    requires AllGuarded(o, b, sent) && AllGuarded(o, b, more)
    ensures AllGuarded(o, b, sent + more)
  {
    hide Guarded;
  }

  lemma RejectionIsNotOk(b: Bound, r: Response, at: nat, remaining: nat)
    ensures Judge(b, r, at, remaining).Rejected? ==> Judge(b, r, at, remaining).code != Ok
  {
    hide ContradictsCaptured, Framed, StatedRange, StatedLength;
  }

  lemma ShortWithoutBudget(b: Bound, offset: nat, length: nat, e: Ending, count: nat, lastError: TransportError)
    requires Resuming(b, offset, length, e, count, lastError) && count < length
    ensures Failed(b, offset, length, e.(retriesLeft := 0), count, OutOfRetries(lastError))
  {
    hide Judge;
  }

  /** After an exchange: the read is done, may resume, or has failed for a reason the exchange shows. */
  lemma Explained(rd: Reading, e: Ending, count: nat, code: Code, lastError: TransportError)
    requires e.done < rd.length && Advanced(rd, e.done, e.exchange) == Progress(count, code, lastError)
    requires e.exchange.code == Ok ==> e.exchange.response.Some?
    ensures code != Ok ==> Failed(rd.bound, rd.offset, rd.length, e, count, code)
    ensures code == Ok && count < rd.length ==> Resuming(rd.bound, rd.offset, rd.length, e, count, lastError)
  {
    hide Judge;
    if e.exchange.code == Ok {
      RejectionIsNotOk(rd.bound, e.exchange.response.value, rd.offset + e.done, rd.length - e.done);
    }
  }

  /** `sent` is what a read has sent of all it will, and an exchange has just brought it to `p`. */
  ghost predicate Underway(rd: Reading, log: seq<Sent>, asked: nat, p: Progress, left: nat, sent: seq<Sent>, all: Fetch)
  {
    all == Continued(rd, Requests(log), asked, p, left).After(sent)
  }

  lemma StopsUnderway(rd: Reading, log: seq<Sent>, asked: nat, p: Progress, sent: seq<Sent>, all: Fetch)
    requires Underway(rd, log, asked, p, 0, sent, all) && p.code == Ok && p.count < rd.length
    ensures Underway(rd, log, asked, p.(code := OutOfRetries(p.error)), 0, sent, all)
  {
  }

  lemma ResumesUnderway(rd: Reading, log: seq<Sent>, asked: nat, p: Progress, left: nat, sent: seq<Sent>, all: Fetch)
    requires Underway(rd, log, asked, p, left, sent, all) && p.code == Ok && p.count < rd.length && left > 0
    ensures all == Fetched(rd, Requests(log), asked, p.count, left - 1).After(sent)
  {
  }

  lemma StaysUnderway(rd: Reading, log: seq<Sent>, asked: nat, p: Progress, left: nat, sent: seq<Sent>, more: seq<Sent>,
                      rest: Fetch)
    requires Underway(rd, log, asked, p, left, more, rest)
    ensures Underway(rd, log, asked, p, left, sent + more, rest.After(sent))
  {
    hide Continued, Requests;
    var out := Continued(rd, Requests(log), asked, p, left);
    assert sent + (more + out.sent) == sent + more + out.sent;
  }

  lemma EndsUnderway(rd: Reading, log: seq<Sent>, asked: nat, p: Progress, left: nat, sent: seq<Sent>, all: Fetch)
    requires Underway(rd, log, asked, p, left, sent, all) && (p.code != Ok || p.count >= rd.length)
    ensures all == Fetch(sent, p.count, p.code)
  {
  }

  lemma RequestsJoin(a: seq<Sent>, b: seq<Sent>)
    ensures Requests(a + b) == Requests(a) + Requests(b)
  {
  }

  /** Writing past `done` leaves what is before it, and everything past `length`. */
  lemma PrefixSurvives(first: seq<byte>, before: seq<byte>, after: seq<byte>, done: nat, length: nat)
    requires done <= length && SameOutside(first, before, 0, length) && SameOutside(before, after, done, length - done)
    ensures SameOutside(first, after, 0, length)
    ensures before[..done] == after[..done]
  {
  }

  lemma AcceptedExtends(b: Bound, offset: nat, length: nat, done: nat, pieces: seq<Sent>, sent: seq<Sent>,
                        contents: seq<byte>, e: Sent)
    requires done < length <= |contents| && |e.response.body| <= length - done && e in sent
    requires Delivered(b, offset, pieces, sent, contents, done)
    requires Judge(b, e.response, offset + done, length - done) == Accepted
    requires HoldsAt(contents, done, e.response.body)
    requires e.request.ask.range == ByteRange(offset + done, length - done)
    ensures Delivered(b, offset, pieces + [e], sent, contents, done + |e.response.body|)
  {
    hide Judge, Tiled, ByteRange, Framed;
    AcceptedIsSound(b, e.response, offset + done, length - done);
    assert contents[..done + |e.response.body|] == contents[..done] + e.response.body;
    TiledGrows(b, offset, pieces, contents[..done], e, contents[..done + |e.response.body|]);
  }

  // ----- what an Ok read means ---------------------------------------------

  /** The server, on each request of a read, honours the condition; and equal strong tags mean equal bytes. */
  ghost predicate ServedBy(b: Bound, sent: seq<Sent>, served: Sent -> Revision, atOpen: Revision) {
    forall k :: 0 <= k < |sent| ==>
      && Honours(b, sent[k], served(sent[k]))
      && (served(sent[k]).tag == atOpen.tag ==> served(sent[k]).content == atOpen.content)
  }

  /**
   The server may republish between any two requests. A read of a strongly tagged asset that succeeds still returns
   exactly what a plain read of the revision bound at open returns.
   */
  lemma OkReadIsPlainRead(o: Options, b: Bound, headers: seq<Header>, offset: u64, size: u64,
                          pieces: seq<Sent>, sent: seq<Sent>, contents: seq<byte>, count: nat,
                          served: Sent -> Revision, atOpen: Revision)
    requires ResolveReadRange(offset, size, b.size).Transfer? && ResolveReadRange(offset, size, b.size).length == count
    requires AllGuarded(o, b, sent) && Delivered(b, offset, pieces, sent, contents, count)
    requires b.captured == CaptureValidator(headers) && b.captured.validator.strength == Strong
    requires atOpen.tag == b.captured.validator.value && |atOpen.content| == b.size
    requires ServedBy(b, sent, served, atOpen)
    ensures contents[..count] == PlainRead(atOpen.content, offset, size)
  {
    hide Honours, Sound, Framed, CaptureValidator;
    var revisions := seq(|pieces|, i requires 0 <= i < |pieces| => served(pieces[i]));
    forall i | 0 <= i < |pieces|
      ensures pieces[i].request.ask.ifRange == atOpen.tag && Honours(b, pieces[i], revisions[i])
      ensures revisions[i].tag == atOpen.tag ==> revisions[i].content == atOpen.content
    {
      assert pieces[i] in sent;
      var k :| 0 <= k < |sent| && sent[k] == pieces[i];
      assert Guarded(o, b, sent[k]);
      assert Honours(b, sent[k], served(sent[k]));
    }
    TiledIsOneRevision(b, offset, pieces, contents[..count], revisions, atOpen);
    ResolvedRangeIsPlainRead(atOpen.content, offset, size);
  }

  // ----- open --------------------------------------------------------------

  const ACCEPT_RANGES := "Accept-Ranges"

  predicate AdvertisesRanges(headers: seq<Header>) {
    Lookup(headers, ACCEPT_RANGES).Some? && ListsToken(Lookup(headers, ACCEPT_RANGES).value, UNIT)
  }

  /** What the response to a metadata request amounts to: a size somebody stated, and ranges somebody promised. */
  ghost function OpenCode(r: Response): Code {
    if r.status != 200 then StatusCode(r.status)
    else if Conflicting(r.headers, CONTENT_LENGTH) || StatedLength(r.headers).None? then InvalidResponse
    else if !AdvertisesRanges(r.headers) then RangeNotSupported
    else Ok
  }

  lemma OpenCodeByStatus(r: Response)
    ensures OpenCode(r) == Ok <==>
              && r.status == 200
              && !Conflicting(r.headers, "Content-Length") && Lookup(r.headers, "Content-Length").Some?
              && Unsigned(Trimmed(Lookup(r.headers, "Content-Length").value)).Some?
              && Lookup(r.headers, "Accept-Ranges").Some?
              && ListsToken(Lookup(r.headers, "Accept-Ranges").value, "bytes")
    ensures r.status in {404, 410} ==> OpenCode(r) == NotFound
    ensures r.status in {401, 403} ==> OpenCode(r) == AccessDenied
    ensures r.status in {405, 501} ==> OpenCode(r) == Unsupported
    ensures r.status == 429 || (r.status >= 500 && r.status != 501) ==> OpenCode(r) == NetworkError
    ensures r.status !in {200, 401, 403, 404, 405, 410, 429} && r.status < 500 ==> OpenCode(r) == InvalidResponse
    ensures r.status == 200 && OpenCode(r) != Ok ==> OpenCode(r) in {InvalidResponse, RangeNotSupported}
  {
    hide Conflicting, Unsigned, Lookup, ListsToken, Trimmed;
  }

  /** Opens what a caller names: one metadata request, and a reader bound to the revision it described. */
  method Open(transport: Transport, o: Options, text: string)
    returns (reader: HttpAssetReader?, code: Code, redirects: nat, ghost sent: seq<Sent>, ghost exchange: Result)
    modifies transport`log, transport`asked
    ensures transport.log == old(transport.log) + sent
    ensures |sent| <= AttemptsAllowed(o) + redirects && redirects <= Allowed(o.maxRedirects)
    ensures code == Ok <==> reader != null
    ensures match ParseUri(text)
            case None => code == InvalidArgument && sent == []
            case Some(uri) =>
              && Chained(o, uri, sent)
              && AllProper(o, uri, Ask(Head, "", "", 0), old(transport.asked), sent)
              && (var out := Exchanged(Terms(o, uri, Ask(Head, "", "", 0), transport.answer),
                                       Requests(old(transport.log)), Turn(old(transport.asked), uri, 0, 1, Budget(o)));
                  sent == out.sent && exchange == out.result)
              && (exchange.code != Ok ==> code == exchange.code)
              && (exchange.code == Ok ==>
                    && sent != [] && exchange.response == Some(sent[|sent| - 1].response)
                    && code == OpenCode(exchange.response.value))
    ensures reader != null ==>
              && fresh(reader) && reader.transport == transport && reader.options == o
              && exchange.response.Some? && sent != [] && ParseUri(text).Some?
              && var headers := exchange.response.value.headers;
                 && StatedLength(headers) == Some(reader.bound.size)
                 && reader.bound.captured == CaptureValidator(headers)
                 && reader.bound.origin == ParseUri(text).value && reader.bound.uri == sent[|sent| - 1].request.url
                 && WellFormed(reader.bound.uri)
  {
    hide Chained, AllProper, Concluded, Conflicting, Unsigned, Lookup, ListsToken, CaptureValidator, ParseUri,
      WellFormed;
    hide Exchanged, Requests;
    var url := ParseUri(text);
    reader, redirects, sent := null, 0, [];
    exchange := Result(Ok, None, Uri("", "", "", 0, "", "", false));
    if url.None? { return null, InvalidArgument, 0, sent, exchange; }
    ParsedIsWellFormed(text);
    var nothing := new byte[0];
    var result, left;
    result, left, redirects, sent :=
      PerformExchange(transport, o, url.value, url.value, Ask(Head, "", "", 0), nothing, 0, Budget(o));
    exchange := result;
    if result.code != Ok { return null, result.code, redirects, sent, exchange; }
    var response := result.response.value;
    if response.status != 200 { return null, StatusCode(response.status), redirects, sent, exchange; }
    var conflict := HasConflictingDuplicate(response.headers, CONTENT_LENGTH);
    var header := FindHeader(response.headers, CONTENT_LENGTH);
    var size: Option<nat> := None;
    if header.Some? {
      var text := Trim(header.value);
      size := ParseUnsigned(text);
    }
    if conflict || size.None? { return null, InvalidResponse, redirects, sent, exchange; }
    UnsignedFits(Trimmed(header.value));
    var ranges := FindHeader(response.headers, ACCEPT_RANGES);
    var advertised := false;
    if ranges.Some? { advertised := ListContainsToken(ranges.value, UNIT); }
    if !advertised { return null, RangeNotSupported, redirects, sent, exchange; }
    ChainIsWellFormed(o, url.value, sent, |sent| - 1);
    var bound := Bound(url.value, result.finalUri, size.value, CaptureValidator(response.headers));
    reader := new HttpAssetReader(transport, o, bound);
    code := Ok;
  }

  lemma UnsignedFits(text: string)
    ensures Unsigned(text).Some? ==> Unsigned(text).value <= MAX_U64
  {
  }
}
