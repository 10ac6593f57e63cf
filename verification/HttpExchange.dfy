/**
 One logical exchange with a server: bounded redirects around bounded retries, both drawing on what the caller
 allows. The network is an adversary: a function from every request so far to any response whatever, of which a
 transport delivers no more body than there is room for.
 */
module HttpExchange {
  import opened Basics
  import opened Framing
  import opened HttpUri
  import opened Interception

  datatype Verb = Head | Get

  /** What every request of one exchange has in common. */
  datatype Ask = Ask(verb: Verb, range: string, ifRange: string, capacity: nat)

  datatype Request = Request(url: Uri, ask: Ask, headers: seq<Header>)

  datatype TransportError =
    | NoError | ConnectFailed | ConnectTimeout | ResponseTimeout | TransferTimeout | ConnectionLost
    | IncompleteBody | Malformed | HeadersTooLarge | DestinationRefused | Internal

  /** `status` is zero when no response came back. */
  datatype Response = Response(status: nat, headers: seq<Header>, body: seq<byte>, overflowed: bool,
                               error: TransportError)

  datatype Code =
    | Ok | InvalidArgument | NotFound | AccessDenied | Unsupported | NetworkError | Timeout | InvalidResponse
    | RangeNotSupported | AssetChanged

  predicate IsRedirect(status: nat) { status in {301, 302, 307, 308} }

  predicate IsRetryableStatus(status: nat) { status in {429, 502, 503, 504} }

  predicate IsRetryableError(error: TransportError) { error == ConnectFailed || error == ConnectionLost }

  /** Worth sending the same request again for. A block abandoned at the header bound never is. */
  predicate Retryable(r: Response) {
    if r.error == HeadersTooLarge then false
    else if r.status == 0 then IsRetryableError(r.error)
    else IsRetryableStatus(r.status)
  }

  function ErrorCode(error: TransportError): Code {
    match error
    case ConnectFailed => NetworkError
    case ConnectionLost => NetworkError
    case Internal => NetworkError
    case ConnectTimeout => Timeout
    case ResponseTimeout => Timeout
    case TransferTimeout => Timeout
    case IncompleteBody => InvalidResponse
    case Malformed => InvalidResponse
    case HeadersTooLarge => InvalidResponse
    case DestinationRefused => AccessDenied
    case NoError => Ok
  }

  /** What is worth another attempt, in numbers: too many requests, three gateway failures, or a connection lost. */
  lemma RetryableIff(r: Response)
    ensures Retryable(r) <==>
              && r.error != HeadersTooLarge
              && (r.status in {429, 502, 503, 504} || (r.status == 0 && r.error in {ConnectFailed, ConnectionLost}))
  {
  }

  // ----- options and the world ---------------------------------------------

  /** What an interceptor is shown of a request. */
  datatype View = View(verb: Verb, url: Uri, hop: nat, attempt: nat)

  /**
   `permits` judges a host as it is spelled. An interceptor may answer differently each time it is asked: it is
   told how often a request was about to be sent before. `None` declines.
   */
  datatype Options = Options(
    maxRedirects: int,
    maxAttempts: int,
    permits: string -> bool,
    interceptor: Option<(View, nat) -> Option<seq<Header>>>)

  /** One request on the wire, its place in the exchange, and what came back. */
  datatype Sent = Sent(hop: nat, attempt: nat, request: Request, response: Response)

  function Requests(log: seq<Sent>): seq<Request> { seq(|log|, i requires 0 <= i < |log| => log[i].request) }

  ghost function Contents(dst: array<byte>): (s: seq<byte>)
    reads dst
    ensures |s| == dst.Length
  {
    dst[..]
  }

  /** Two contents of a buffer agree outside `[at, at + room)`. */
  ghost predicate SameOutside(before: seq<byte>, after: seq<byte>, at: nat, room: nat) {
    && |before| == |after| && at + room <= |before|
    && before[..at] == after[..at] && before[at + room..] == after[at + room..]
  }

  ghost predicate HoldsAt(contents: seq<byte>, at: nat, body: seq<byte>) {
    at + |body| <= |contents| && contents[at..at + |body|] == body
  }

  method CopyInto(dst: array<byte>, at: nat, body: seq<byte>)
    requires at + |body| <= dst.Length
    modifies dst
    ensures SameOutside(old(Contents(dst)), Contents(dst), at, |body|)
    ensures HoldsAt(Contents(dst), at, body)
  {
    forall k | 0 <= k < |body| { dst[at + k] := body[k]; }
  }

  /** A transport delivers no more body than there is room for. */
  function Clipped(r: Response, capacity: nat): (d: Response)
    ensures |d.body| <= capacity && d.body <= r.body && d == r.(body := d.body, overflowed := d.overflowed)
    ensures |r.body| <= capacity ==> d == r
    ensures d.body != r.body ==> d.overflowed && |d.body| == capacity
  {
    if |r.body| <= capacity then r else r.(body := r.body[..capacity], overflowed := true)
  }

  /** `asked` counts the requests that were about to be sent, including those an interceptor then refused. */
  class Transport {
    const answer: seq<Request> -> Response
    var log: seq<Sent>
    var asked: nat

    constructor (answer: seq<Request> -> Response)
      ensures this.answer == answer && log == [] && asked == 0
    {
      this.answer, log, asked := answer, [], 0;
    }

    /** Sends exactly one request. The body lands in `dst` from `at`, and nothing else there moves. */
    method Perform(request: Request, hop: nat, attempt: nat, dst: array<byte>, at: nat) returns (response: Response)
      requires at + request.ask.capacity <= dst.Length
      modifies `log, dst
      ensures response == Clipped(answer(Requests(old(log)) + [request]), request.ask.capacity)
      ensures log == old(log) + [Sent(hop, attempt, request, response)]
      ensures SameOutside(old(Contents(dst)), Contents(dst), at, |response.body|)
      ensures HoldsAt(Contents(dst), at, response.body)
    {
      hide SameOutside, HoldsAt, Contents;
      response := Clipped(answer(Requests(log) + [request]), request.ask.capacity);
      CopyInto(dst, at, response.body);
      log := log + [Sent(hop, attempt, request, response)];
    }
  }

  // ----- what a chain of requests may look like ----------------------------

  predicate CutShort(r: Response) { r.error == DestinationRefused || r.error == HeadersTooLarge }

  /** Where a response sends the client on to, if anywhere it may go. */
  function Redirection(o: Options, e: Sent): Option<Uri> {
    if CutShort(e.response) || !IsRedirect(e.response.status) || e.hop >= o.maxRedirects then None
    else
      match Lookup(e.response.headers, "Location")
      case None => None
      case Some(location) =>
        if location == "" then None
        else
          match ResolveReference(e.request.url, location)
          case None => None
          case Some(target) => if IsDowngrade(e.request.url, target) then None else Some(target)
  }

  /** The next request is a retry of the last one or follows its redirect: there is no third kind. */
  ghost predicate Follows(o: Options, a: Sent, b: Sent) {
    || (b.hop == a.hop && b.attempt == a.attempt + 1 && b.request.url == a.request.url && Retryable(a.response))
    || (b.hop == a.hop + 1 && b.attempt == 1 && Redirection(o, a) == Some(b.request.url))
  }

  ghost predicate Chained(o: Options, start: Uri, sent: seq<Sent>) {
    && (sent != [] ==> sent[0].hop == 0 && sent[0].attempt == 1 && sent[0].request.url == start)
    && forall k :: 0 < k < |sent| ==> Follows(o, sent[k - 1], sent[k])
  }

  /** The port a URL is reached at. */
  function PortOf(u: Uri): nat { if u.port != 0 then u.port else if u.scheme == "https" then 443 else 80 }

  /** An interceptor's answer, where there is one to ask about this request: what to add, or why not to send it. */
  ghost function Admission(o: Options, origin: Uri, view: View, asked: nat): (Option<Code>, seq<Header>) {
    if o.interceptor.None? || !SameOrigin(view.url, origin) then (None, [])
    else
      match o.interceptor.value(view, asked)
      case None => (Some(AccessDenied), [])
      case Some(headers) => if Admissible(headers) then (None, headers) else (Some(InvalidArgument), [])
  }

  /** The policy permits the host, the headers are the ones admitted, and the rest is what the caller asked. */
  ghost predicate Proper(o: Options, origin: Uri, ask: Ask, asked: nat, e: Sent) {
    && o.permits(e.request.url.host)
    && e.request.ask == ask
    && Admission(o, origin, View(ask.verb, e.request.url, e.hop, e.attempt), asked) == (None, e.request.headers)
    && |e.response.body| <= ask.capacity
  }

  /** `asked` counts from the first request of the chain. */
  ghost predicate AllProper(o: Options, origin: Uri, ask: Ask, asked: nat, sent: seq<Sent>) {
    forall k :: 0 <= k < |sent| ==> Proper(o, origin, ask, asked + k, sent[k])
  }

  datatype Result = Result(code: Code, response: Option<Response>, finalUri: Uri)

  /** What the last response of an exchange amounts to. An `Ok` says nothing about its status yet. */
  function Projected(r: Response): Code {
    if r.error == DestinationRefused then AccessDenied
    else if r.error == HeadersTooLarge then InvalidResponse
    else if r.status == 0 then ErrorCode(r.error)
    else if IsRedirect(r.status) then InvalidResponse
    else Ok
  }

  /** An exchange that ends on a response. */
  function Answered(last: Sent): Result { Result(Projected(last.response), Some(last.response), last.request.url) }

  /** Why the next request of a chain is not sent. */
  ghost function Refusal(o: Options, origin: Uri, verb: Verb, asked: nat, url: Uri, hop: nat, attempt: nat)
    : Option<Code>
  {
    if !o.permits(url.host) then Some(AccessDenied) else Admission(o, origin, View(verb, url, hop, attempt), asked).0
  }

  /** How an exchange ends: refused before anything more is sent, or on a response nothing follows. */
  ghost predicate Concluded(o: Options, origin: Uri, start: Uri, verb: Verb, asked: nat, sent: seq<Sent>,
                            retriesLeft: nat, r: Result)
  {
    if r.response.None? then
      if sent == [] then r.finalUri == start && Refusal(o, origin, verb, asked, start, 0, 1) == Some(r.code)
      else
        var last, next := sent[|sent| - 1], asked + |sent|;
        || (Redirection(o, last) == Some(r.finalUri)
            && Refusal(o, origin, verb, next, r.finalUri, last.hop + 1, 1) == Some(r.code))
        || (Retryable(last.response) && r.finalUri == last.request.url
            && Refusal(o, origin, verb, next, r.finalUri, last.hop, last.attempt + 1) == Some(r.code))
    else
      && sent != [] && Settled(o, sent[|sent| - 1], retriesLeft, r)
  }

  ghost predicate Settled(o: Options, last: Sent, retriesLeft: nat, r: Result) {
    && r == Answered(last)
    && Redirection(o, last) == None
    && (retriesLeft > 0 ==> !Retryable(last.response))
  }

  function Allowed(maxRedirects: int): nat { if maxRedirects > 0 then maxRedirects else 0 }

  // ----- the requests of an exchange ---------------------------------------

  /** Everything that decides which requests an exchange sends: the caller's terms and the network. */
  datatype Terms = Terms(options: Options, origin: Uri, ask: Ask, net: seq<Request> -> Response)

  /** An attempt: how often one was about to be made before, where, and with how many retries in hand. */
  datatype Turn = Turn(asked: nat, url: Uri, hop: nat, attempt: nat, retries: nat) {
    function Retried(): Turn
      requires retries > 0
    {
      Turn(asked + 1, url, hop, attempt + 1, retries - 1)
    }

    function Redirected(target: Uri): Turn { Turn(asked + 1, target, hop + 1, 1, retries) }
  }

  ghost function RefusalOf(t: Terms, turn: Turn): Option<Code> {
    Refusal(t.options, t.origin, t.ask.verb, turn.asked, turn.url, turn.hop, turn.attempt)
  }

  /** The request of an attempt that is not refused, after the requests in `before`, and what comes back. */
  ghost function SentIn(t: Terms, before: seq<Request>, turn: Turn): Sent {
    var view := View(t.ask.verb, turn.url, turn.hop, turn.attempt);
    var request := Request(turn.url, t.ask, Admission(t.options, t.origin, view, turn.asked).1);
    Sent(turn.hop, turn.attempt, request, Clipped(t.net(before + [request]), t.ask.capacity))
  }

  /** What follows a response: a retry, a redirect, or nothing. */
  ghost function NextTurn(o: Options, turn: Turn, e: Sent): (next: Option<Turn>)
    requires e.hop == turn.hop
    ensures next.Some? && next.value.hop == turn.hop ==> next.value.retries < turn.retries
    ensures next.Some? && next.value.hop != turn.hop ==> turn.hop < next.value.hop <= Allowed(o.maxRedirects)
  {
    if turn.retries > 0 && Retryable(e.response) then Some(turn.Retried())
    else match Redirection(o, e) case None => None case Some(target) => Some(turn.Redirected(target))
  }

  /** All that an exchange sends from an attempt on, what it comes to, and what it leaves of the caller's allowances. */
  datatype Outcome = Outcome(sent: seq<Sent>, result: Result, retries: nat, asked: nat) {
    function After(before: seq<Sent>): Outcome { this.(sent := before + sent) }
  }

  ghost function Exchanged(t: Terms, before: seq<Request>, turn: Turn): (out: Outcome)
    ensures out.retries <= turn.retries
    decreases Allowed(t.options.maxRedirects) - turn.hop, turn.retries
  {
    if RefusalOf(t, turn).Some? then
      var asked := turn.asked + if t.options.permits(turn.url.host) then 1 else 0;
      Outcome([], Result(RefusalOf(t, turn).value, None, turn.url), turn.retries, asked)
    else
      var e := SentIn(t, before, turn);
      match NextTurn(t.options, turn, e)
      case None => Outcome([e], Answered(e), turn.retries, turn.asked + 1)
      case Some(next) => Exchanged(t, before + [e.request], next).After([e])
  }

  /** What is left of an exchange after the last attempt at one URL. */
  ghost function Onward(t: Terms, before: seq<Request>, asked: nat, last: Sent, retries: nat): Outcome {
    match Redirection(t.options, last)
    case None => Outcome([], Answered(last), retries, asked)
    case Some(target) => Exchanged(t, before, Turn(asked, target, last.hop + 1, 1, retries))
  }

  /** `sent` has gone out of all that an exchange sends, and the rest begins with an attempt. */
  ghost predicate Ahead(t: Terms, log: seq<Sent>, turn: Turn, sent: seq<Sent>, all: Outcome) {
    all == Exchanged(t, Requests(log), turn).After(sent)
  }

  /** The same, when the last of `sent` is not to be retried. */
  ghost predicate AheadOf(t: Terms, log: seq<Sent>, asked: nat, retries: nat, sent: seq<Sent>, all: Outcome) {
    sent != [] && all == Onward(t, Requests(log), asked, sent[|sent| - 1], retries).After(sent)
  }

  lemma NothingSentYet(t: Terms, log: seq<Sent>, turn: Turn)
    ensures Ahead(t, log, turn, [], Exchanged(t, Requests(log), turn))
  {
    hide Exchanged;
  }

  lemma RefusedIsTheEnd(t: Terms, log: seq<Sent>, turn: Turn, sent: seq<Sent>, all: Outcome, code: Code)
    requires Ahead(t, log, turn, sent, all) && RefusalOf(t, turn) == Some(code)
    ensures var asked := turn.asked + if t.options.permits(turn.url.host) then 1 else 0;
            all == Outcome(sent, Result(code, None, turn.url), turn.retries, asked)
  {
    hide RefusalOf;
  }

  /** One attempt of an exchange moves one request from what is to come to what was sent. */
  lemma AttemptMovesOne(t: Terms, log: seq<Sent>, turn: Turn, sent: seq<Sent>, all: Outcome, e: Sent)
    requires Ahead(t, log, turn, sent, all) && RefusalOf(t, turn).None? && e == SentIn(t, Requests(log), turn)
    ensures if turn.retries > 0 && Retryable(e.response) then Ahead(t, log + [e], turn.Retried(), sent + [e], all)
            else AheadOf(t, log + [e], turn.asked + 1, turn.retries, sent + [e], all)
  {
    hide RefusalOf, Redirection, Retryable, Projected;
    assert Requests(log + [e]) == Requests(log) + [e.request];
  }

  lemma AheadIsTheRest(t: Terms, log: seq<Sent>, turn: Turn, sent: seq<Sent>, all: Outcome)
    requires Ahead(t, log, turn, sent, all)
    ensures all == Exchanged(t, Requests(log), turn).After(sent)
  {
    hide Exchanged;
  }

  /** After the last attempt at one URL, within the exchange it is part of: the end, or an attempt at another. */
  lemma AfterTheLast(t: Terms, log: seq<Sent>, asked: nat, retries: nat, sent: seq<Sent>, more: seq<Sent>,
                     rest: Outcome)
    requires AheadOf(t, log, asked, retries, more, rest)
    ensures var last := more[|more| - 1];
            match Redirection(t.options, last)
            case None => rest.After(sent) == Outcome(sent + more, Answered(last), retries, asked)
            case Some(target) =>
              Ahead(t, log, Turn(asked, target, last.hop + 1, 1, retries), sent + more, rest.After(sent))
  {
    hide Redirection, Exchanged, Requests, Answered;
    assert forall out: Outcome :: out.After(more).After(sent) == out.After(sent + more) by {
      forall out: Outcome ensures out.After(more).After(sent) == out.After(sent + more) {
        assert sent + (more + out.sent) == sent + more + out.sent;
      }
    }
  }

  // ----- the exchange ------------------------------------------------------

  /** Who is asked about a request, and what becomes of the answer. */
  lemma AdmissionByOrigin(o: Options, origin: Uri, view: View, asked: nat)
    ensures var url, (refused, headers) := view.url, Admission(o, origin, view, asked);
            var home := url.scheme == origin.scheme && url.host == origin.host && PortOf(url) == PortOf(origin);
            if o.interceptor.None? || !home then refused == None && headers == []
            else
              match o.interceptor.value(view, asked)
              case None => refused == Some(AccessDenied)
              case Some(added) =>
                if Admissible(added) then refused == None && headers == added else refused == Some(InvalidArgument)
  {
    hide Admissible;
  }

  /** Asks the interceptor, where there is one to ask, and admits what it answers. */
  method Intercept(o: Options, origin: Uri, view: View, asked: nat)
    returns (refused: Option<Code>, headers: seq<Header>)
    ensures (refused, headers) == Admission(o, origin, view, asked)
  {
    if o.interceptor.None? || !SameOrigin(view.url, origin) { return None, []; }
    var answered := o.interceptor.value(view, asked);
    if answered.None? { return Some(AccessDenied), []; }
    var ok := Admit(answered.value);
    if !ok { return Some(InvalidArgument), []; }
    return None, answered.value;
  }

  /** Consecutive attempts at one URL, each but the last answered with something worth retrying. */
  ghost predicate Attempts(o: Options, origin: Uri, ask: Ask, asked: nat, url: Uri, hop: nat, sent: seq<Sent>) {
    && AllProper(o, origin, ask, asked, sent)
    && (forall k :: 0 <= k < |sent| ==> sent[k].hop == hop && sent[k].attempt == k + 1 && sent[k].request.url == url)
    && forall k :: 0 <= k < |sent| - 1 ==> Retryable(sent[k].response)
  }

  lemma SameOutsideItself(a: seq<byte>, at: nat, room: nat)
    requires at + room <= |a|
    ensures SameOutside(a, a, at, room)
  {
  }

  lemma SameOutsideTwice(a: seq<byte>, b: seq<byte>, c: seq<byte>, at: nat, room: nat)
    requires SameOutside(a, b, at, room) && SameOutside(b, c, at, room)
    ensures SameOutside(a, c, at, room)
  {
  }

  lemma NarrowerIsSame(before: seq<byte>, after: seq<byte>, at: nat, room: nat, more: nat)
    requires SameOutside(before, after, at, room) && room <= more && at + more <= |before|
    ensures SameOutside(before, after, at, more)
  {
    assert before[at + more..] == before[at + room..][more - room..];
    assert after[at + more..] == after[at + room..][more - room..];
  }

  /** How a run of attempts ends: on a response, or because the interceptor would not have the next one sent. */
  ghost predicate AttemptsEnd(o: Options, origin: Uri, ask: Ask, asked: nat, url: Uri, hop: nat, sent: seq<Sent>,
                              retriesLeft: nat, refused: Option<Code>, response: Response)
  {
    if refused.Some? then
      && (sent != [] ==> Retryable(sent[|sent| - 1].response))
      && Admission(o, origin, View(ask.verb, url, hop, |sent| + 1), asked + |sent|).0 == refused
    else
      && sent != [] && response == sent[|sent| - 1].response
      && (retriesLeft > 0 ==> !Retryable(response))
  }

  /** The inner loop: one URL, until a response is not worth retrying or the retries are spent. */
  method SendWithRetries(transport: Transport, o: Options, origin: Uri, url: Uri, hop: nat, ask: Ask,
                         dst: array<byte>, at: nat, retries: nat)
    returns (refused: Option<Code>, response: Response, retriesLeft: nat, ghost sent: seq<Sent>)
    requires at + ask.capacity <= dst.Length && o.permits(url.host)
    modifies transport`log, transport`asked, dst
    ensures transport.log == old(transport.log) + sent
    ensures Attempts(o, origin, ask, old(transport.asked), url, hop, sent)
    ensures AttemptsEnd(o, origin, ask, old(transport.asked), url, hop, sent, retriesLeft, refused, response)
    ensures retriesLeft <= retries && |sent| == (if refused.Some? then 0 else 1) + retries - retriesLeft
    ensures transport.asked == old(transport.asked) + |sent| + if refused.Some? then 1 else 0
    ensures var t := Terms(o, origin, ask, transport.answer);
            var all := Exchanged(t, Requests(old(transport.log)), Turn(old(transport.asked), url, hop, 1, retries));
            if refused.Some? then all == Outcome(sent, Result(refused.value, None, url), retriesLeft, transport.asked)
            else AheadOf(t, transport.log, transport.asked, retriesLeft, sent, all)
    ensures SameOutside(old(Contents(dst)), Contents(dst), at, ask.capacity)
    ensures refused.None? ==> |response.body| <= ask.capacity && HoldsAt(Contents(dst), at, response.body)
  {
    hide Admission, Retryable, Requests, SameOutside, HoldsAt, Contents, Exchanged, Ahead, AheadOf;
    SameOutsideItself(Contents(dst), at, ask.capacity);
    ghost var t := Terms(o, origin, ask, transport.answer);
    ghost var all := Exchanged(t, Requests(transport.log), Turn(transport.asked, url, hop, 1, retries));
    NothingSentYet(t, transport.log, Turn(transport.asked, url, hop, 1, retries));
    retriesLeft, sent := retries, [];
    var attempt: nat := 0;
    response := Response(0, [], [], false, NoError);
    while true
      invariant transport.log == old(transport.log) + sent
      invariant Attempts(o, origin, ask, old(transport.asked), url, hop, sent)
      invariant sent != [] ==> Retryable(sent[|sent| - 1].response)
      invariant |sent| == attempt == retries - retriesLeft && retriesLeft >= 0
      invariant transport.asked == old(transport.asked) + |sent|
      invariant Ahead(t, transport.log, Turn(transport.asked, url, hop, attempt + 1, retriesLeft), sent, all)
      invariant SameOutside(old(Contents(dst)), Contents(dst), at, ask.capacity)
      decreases retriesLeft
    {
      attempt := attempt + 1;
      var headers;
      ghost var turn := Turn(transport.asked, url, hop, attempt, retriesLeft);
      refused, headers := Intercept(o, origin, View(ask.verb, url, hop, attempt), transport.asked);
      transport.asked := transport.asked + 1;
      if refused.Some? {
        RefusedIsTheEnd(t, transport.log, turn, sent, all, refused.value);
        return;
      }
      ghost var before, log := Contents(dst), transport.log;
      response := transport.Perform(Request(url, ask, headers), hop, attempt, dst, at);
      NarrowerIsSame(before, Contents(dst), at, |response.body|, ask.capacity);
      SameOutsideTwice(old(Contents(dst)), before, Contents(dst), at, ask.capacity);
      AttemptMovesOne(t, log, turn, sent, all, Sent(hop, attempt, Request(url, ask, headers), response));
      sent := sent + [Sent(hop, attempt, Request(url, ask, headers), response)];
      if retriesLeft == 0 || !Retryable(response) { return; }
      retriesLeft := retriesLeft - 1;
    }
  }

  /** The chain so far leads to an attempt at `url`, the first of hop `hop`. */
  ghost predicate LeadsTo(o: Options, start: Uri, sent: seq<Sent>, hop: nat, url: Uri) {
    if sent == [] then hop == 0 && url == start
    else hop == sent[|sent| - 1].hop + 1 && Redirection(o, sent[|sent| - 1]) == Some(url)
  }

  lemma AttemptsExtendChain(o: Options, origin: Uri, start: Uri, ask: Ask, asked: nat, url: Uri, hop: nat,
                            sent: seq<Sent>, more: seq<Sent>)
    requires Chained(o, start, sent) && AllProper(o, origin, ask, asked, sent)
    requires LeadsTo(o, start, sent, hop, url)
    requires Attempts(o, origin, ask, asked + |sent|, url, hop, more)
    ensures Chained(o, start, sent + more) && AllProper(o, origin, ask, asked, sent + more)
  {
    hide Proper, Redirection, Retryable;
    var all := sent + more;
    forall k | 0 < k < |all| ensures Follows(o, all[k - 1], all[k]) {
      if k > |sent| { assert all[k - 1] == more[k - 1 - |sent|] && all[k] == more[k - |sent|]; }
    }
    forall k | 0 <= k < |all| ensures Proper(o, origin, ask, asked + k, all[k]) {
      if k >= |sent| { assert Proper(o, origin, ask, asked + |sent| + (k - |sent|), more[k - |sent|]); }
    }
  }

  /** Whether a response sends the client on, and where to. */
  method NextHop(o: Options, redirects: nat, current: Uri, response: Response, ghost last: Sent)
    returns (target: Option<Uri>)
    requires last.hop == redirects && last.request.url == current && last.response == response
    ensures target == Redirection(o, last)
    ensures target.Some? <==>
              && response.status in {301, 302, 307, 308} && response.error !in {DestinationRefused, HeadersTooLarge}
              && redirects < o.maxRedirects
              && var location := Lookup(response.headers, "Location");
                 && location.Some? && location.value != ""
                 && var named := ResolveReference(current, location.value);
                    named.Some? && (current.scheme == "https" ==> named.value.scheme == "https")
    ensures target.Some? ==> target == ResolveReference(current, Lookup(response.headers, "Location").value)
  {
    hide ResolveReference, Lookup;
    if CutShort(response) || response.status == 0 || !IsRedirect(response.status) { return None; }
    var location := FindHeader(response.headers, "Location");
    if location.None? || location.value == "" || redirects >= o.maxRedirects { return None; }
    target := ResolveReference(current, location.value);
    if target.Some? && IsDowngrade(current, target.value) { target := None; }
  }

  lemma AdmissionIsNeverOk(o: Options, origin: Uri, view: View, asked: nat)
    ensures Admission(o, origin, view, asked).0 != Some(Ok)
  {
  }

  lemma NothingIsChained(o: Options, origin: Uri, start: Uri, ask: Ask, asked: nat)
    ensures Chained(o, start, []) && AllProper(o, origin, ask, asked, []) && LeadsTo(o, start, [], 0, start)
  {
  }

  lemma LastAttemptStands(o: Options, origin: Uri, ask: Ask, asked: nat, url: Uri, hop: nat, sent: seq<Sent>)
    requires Attempts(o, origin, ask, asked, url, hop, sent) && sent != []
    ensures var last := sent[|sent| - 1]; last.hop == hop && last.attempt == |sent| && last.request.url == url
  {
  }

  lemma AttemptsStand(o: Options, origin: Uri, ask: Ask, asked: nat, url: Uri, hop: nat, sent: seq<Sent>,
                      retriesLeft: nat, response: Response)
    requires Attempts(o, origin, ask, asked, url, hop, sent)
    requires AttemptsEnd(o, origin, ask, asked, url, hop, sent, retriesLeft, None, response)
    ensures sent != []
    ensures var last := sent[|sent| - 1];
            && last.hop == hop && last.request.url == url && last.response == response
            && (retriesLeft > 0 ==> !Retryable(response))
  {
  }

  lemma LeadsOn(o: Options, start: Uri, sent: seq<Sent>)
    requires sent != [] && Redirection(o, sent[|sent| - 1]).Some?
    ensures LeadsTo(o, start, sent, sent[|sent| - 1].hop + 1, Redirection(o, sent[|sent| - 1]).value)
  {
    hide Redirection;
  }

  lemma OkIsNoRedirect(r: Response)
    ensures Projected(r) == Ok ==> r.status !in {301, 302, 307, 308}
  {
  }

  // ----- the three ways to conclude ----------------------------------------

  lemma RefusedAtFirst(o: Options, origin: Uri, start: Uri, verb: Verb, asked: nat, sent: seq<Sent>, retriesLeft: nat,
                       hop: nat, url: Uri, code: Code)
    requires LeadsTo(o, start, sent, hop, url) && Refusal(o, origin, verb, asked + |sent|, url, hop, 1) == Some(code)
    ensures Concluded(o, origin, start, verb, asked, sent, retriesLeft, Result(code, None, url))
  {
    hide Redirection, Refusal;
  }

  lemma RefusedOnRetry(o: Options, origin: Uri, start: Uri, verb: Verb, asked: nat, sent: seq<Sent>, retriesLeft: nat,
                       code: Code)
    requires sent != [] && Retryable(sent[|sent| - 1].response)
    requires var last := sent[|sent| - 1];
             Refusal(o, origin, verb, asked + |sent|, last.request.url, last.hop, last.attempt + 1) == Some(code)
    ensures Concluded(o, origin, start, verb, asked, sent, retriesLeft,
                      Result(code, None, sent[|sent| - 1].request.url))
  {
    hide Redirection, Refusal, Retryable;
  }

  lemma RefusalConcludes(o: Options, origin: Uri, start: Uri, ask: Ask, asked: nat, sent: seq<Sent>, more: seq<Sent>,
                         hop: nat, url: Uri, retriesLeft: nat, code: Code, response: Response)
    requires LeadsTo(o, start, sent, hop, url) && o.permits(url.host)
    requires Attempts(o, origin, ask, asked + |sent|, url, hop, more)
    requires AttemptsEnd(o, origin, ask, asked + |sent|, url, hop, more, retriesLeft, Some(code), response)
    ensures Concluded(o, origin, start, ask.verb, asked, sent + more, retriesLeft, Result(code, None, url))
    ensures code != Ok
  {
    hide LeadsTo, Admission, Retryable, Attempts, Concluded;
    AdmissionIsNeverOk(o, origin, View(ask.verb, url, hop, |more| + 1), asked + |sent| + |more|);
    if more == [] {
      assert sent + more == sent;
      RefusedAtFirst(o, origin, start, ask.verb, asked, sent, retriesLeft, hop, url, code);
    } else {
      LastAttemptStands(o, origin, ask, asked + |sent|, url, hop, more);
      assert (sent + more)[|sent + more| - 1] == more[|more| - 1];
      RefusedOnRetry(o, origin, start, ask.verb, asked, sent + more, retriesLeft, code);
    }
  }

  lemma ResponseConcludes(o: Options, origin: Uri, start: Uri, verb: Verb, asked: nat, sent: seq<Sent>,
                          retriesLeft: nat)
    requires sent != [] && Redirection(o, sent[|sent| - 1]) == None
    requires retriesLeft > 0 ==> !Retryable(sent[|sent| - 1].response)
    ensures var last := sent[|sent| - 1];
            Concluded(o, origin, start, verb, asked, sent, retriesLeft, Answered(last))
  {
    hide Redirection, Retryable, Projected;
  }

  /** The outer loop: redirects, each judged by the policy before anything is sent to it. */
  method PerformExchange(transport: Transport, o: Options, origin: Uri, start: Uri, ask: Ask,
                         dst: array<byte>, at: nat, retries: nat)
    returns (result: Result, retriesLeft: nat, redirects: nat, ghost sent: seq<Sent>)
    requires at + ask.capacity <= dst.Length
    modifies transport`log, transport`asked, dst
    ensures transport.log == old(transport.log) + sent
    ensures Chained(o, start, sent) && AllProper(o, origin, ask, old(transport.asked), sent)
    ensures Concluded(o, origin, start, ask.verb, old(transport.asked), sent, retriesLeft, result)
    ensures result.code == Ok ==>
              && sent != [] && result.response == Some(sent[|sent| - 1].response)
              && result.finalUri == sent[|sent| - 1].request.url
              && result.response.value.status !in {301, 302, 307, 308}
    ensures retriesLeft <= retries && redirects <= Allowed(o.maxRedirects)
    ensures |sent| <= 1 + (retries - retriesLeft) + redirects
    ensures Outcome(sent, result, retriesLeft, transport.asked)
         == Exchanged(Terms(o, origin, ask, transport.answer), Requests(old(transport.log)),
                      Turn(old(transport.asked), start, 0, 1, retries))
    ensures SameOutside(old(Contents(dst)), Contents(dst), at, ask.capacity)
    ensures result.response.Some? ==>
              |result.response.value.body| <= ask.capacity && HoldsAt(Contents(dst), at, result.response.value.body)
  {
    hide Chained, AllProper, Concluded, Redirection, SameOutside, HoldsAt, Contents, Attempts, AttemptsEnd;
    hide Exchanged, Requests, Ahead, AheadOf, LeadsTo, Projected, ResolveReference, Lookup;
    SameOutsideItself(Contents(dst), at, ask.capacity);
    NothingIsChained(o, origin, start, ask, transport.asked);
    ghost var base, t := transport.asked, Terms(o, origin, ask, transport.answer);
    ghost var all := Exchanged(t, Requests(transport.log), Turn(base, start, 0, 1, retries));
    NothingSentYet(t, transport.log, Turn(base, start, 0, 1, retries));
    retriesLeft, sent := retries, [];
    redirects := 0;
    var current := start;
    while true
      invariant transport.log == old(transport.log) + sent
      invariant Chained(o, start, sent) && AllProper(o, origin, ask, base, sent)
      invariant LeadsTo(o, start, sent, redirects, current)
      invariant redirects <= Allowed(o.maxRedirects) && retriesLeft <= retries
      invariant |sent| == redirects + (retries - retriesLeft)
      invariant transport.asked == base + |sent|
      invariant Ahead(t, transport.log, Turn(transport.asked, current, redirects, 1, retriesLeft), sent, all)
      invariant SameOutside(old(Contents(dst)), Contents(dst), at, ask.capacity)
      decreases Allowed(o.maxRedirects) - redirects
    {
      if !o.permits(current.host) {
        RefusedIsTheEnd(t, transport.log, Turn(base + |sent|, current, redirects, 1, retriesLeft), sent, all,
                        AccessDenied);
        RefusedAtFirst(o, origin, start, ask.verb, base, sent, retriesLeft, redirects, current, AccessDenied);
        return Result(AccessDenied, None, current), retriesLeft, redirects, sent;
      }
      ghost var before, rest :=
        Contents(dst), Exchanged(t, Requests(transport.log), Turn(base + |sent|, current, redirects, 1, retriesLeft));
      AheadIsTheRest(t, transport.log, Turn(base + |sent|, current, redirects, 1, retriesLeft), sent, all);
      var refused, response;
      ghost var more;
      refused, response, retriesLeft, more :=
        SendWithRetries(transport, o, origin, current, redirects, ask, dst, at, retriesLeft);
      SameOutsideTwice(old(Contents(dst)), before, Contents(dst), at, ask.capacity);
      AttemptsExtendChain(o, origin, start, ask, base, current, redirects, sent, more);
      ghost var chain := sent;
      sent := sent + more;
      if refused.Some? {
        result := Result(refused.value, None, current);
        RefusalConcludes(o, origin, start, ask, base, chain, more, redirects, current, retriesLeft, refused.value,
                         response);
        return;
      }
      ghost var last := sent[|sent| - 1];
      AttemptsStand(o, origin, ask, base + |chain|, current, redirects, more, retriesLeft, response);
      assert last == more[|more| - 1];
      AfterTheLast(t, transport.log, transport.asked, retriesLeft, chain, more, rest);
      var target := NextHop(o, redirects, current, response, last);
      if target.None? {
        ResponseConcludes(o, origin, start, ask.verb, base, sent, retriesLeft);
        OkIsNoRedirect(response);
        return Result(Projected(response), Some(response), current), retriesLeft, redirects, sent;
      }
      LeadsOn(o, start, sent);
      redirects := redirects + 1;
      current := target.value;
    }
  }

  // ----- what holds of every chain -----------------------------------------

  /** Transport security is never given up on the way. */
  lemma {:induction false} SecureStaysSecure(o: Options, start: Uri, sent: seq<Sent>, k: nat)
    requires Chained(o, start, sent) && start.scheme == "https" && k < |sent|
    ensures sent[k].request.url.scheme == "https"
  {
    hide ResolveReference, Lookup;
    if k > 0 {
      SecureStaysSecure(o, start, sent, k - 1);
      assert Follows(o, sent[k - 1], sent[k]);
    }
  }

  /** Nor is a chain ever led to a URL that is not one. */
  lemma {:induction false} ChainIsWellFormed(o: Options, start: Uri, sent: seq<Sent>, k: nat)
    requires Chained(o, start, sent) && WellFormed(start) && k < |sent|
    ensures WellFormed(sent[k].request.url)
  {
    hide ResolveReference, WellFormed, Lookup;
    if k > 0 {
      ChainIsWellFormed(o, start, sent, k - 1);
      assert Follows(o, sent[k - 1], sent[k]);
      if Redirection(o, sent[k - 1]).Some? {
        ResolvedIsWellFormed(sent[k - 1].request.url, Lookup(sent[k - 1].response.headers, "Location").value);
      }
    }
  }

  /** No chain is longer than the redirects allow, whoever retried how often. */
  lemma {:induction false} HopsAreBounded(o: Options, start: Uri, sent: seq<Sent>, k: nat)
    requires Chained(o, start, sent) && k < |sent|
    ensures sent[k].hop <= Allowed(o.maxRedirects) && sent[k].hop <= k
  {
    hide ResolveReference, Lookup;
    if k > 0 {
      HopsAreBounded(o, start, sent, k - 1);
      assert Follows(o, sent[k - 1], sent[k]);
    }
  }

  /** Whatever an interceptor adds goes to the opened origin only, and is never a header the protocol owns. */
  lemma AddedHeadersStayHome(o: Options, origin: Uri, ask: Ask, asked: nat, sent: seq<Sent>, k: nat, h: nat)
    requires AllProper(o, origin, ask, asked, sent) && k < |sent| && h < |sent[k].request.headers|
    ensures var url := sent[k].request.url;
            && o.permits(url.host) && url.scheme == origin.scheme && url.host == origin.host
            && PortOf(url) == PortOf(origin)
    ensures IsInterceptable(sent[k].request.headers[h])
  {
    assert Proper(o, origin, ask, asked + k, sent[k]);
  }
}
