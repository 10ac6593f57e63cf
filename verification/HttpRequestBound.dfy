/**
 How many requests one exchange, and one read, can cost. The largest number is worked out and shown to be reached,
 which settles exactly when the plain sum of the two limits an operator sets is a bound.
 */
module HttpRequestBound {
  import opened Arithmetic
  import opened Basics
  import opened Framing
  import opened HttpAssetReaders
  import opened HttpExchange
  import opened HttpReader
  import opened HttpUri
  import opened Text

  // ----- no more than ------------------------------------------------------

  /** A retry is spent or kept, and a hop is taken or not: each request but one accounts for one of the two. */
  lemma {:induction false} ExchangeIsBounded(t: Terms, before: seq<Request>, turn: Turn)
    requires turn.hop <= Allowed(t.options.maxRedirects)
    ensures var out := Exchanged(t, before, turn);
            |out.sent| + out.retries <= 1 + turn.retries + (Allowed(t.options.maxRedirects) - turn.hop)
    decreases Allowed(t.options.maxRedirects) - turn.hop, turn.retries
  {
    hide RefusalOf, Redirection, Retryable, SentIn, Answered;
    if RefusalOf(t, turn).None? {
      SentInHop(t, before, turn);
      var e := SentIn(t, before, turn);
      var next := NextTurn(t.options, turn, e);
      if next.Some? { ExchangeIsBounded(t, before + [e.request], next.value); }
    }
  }

  lemma SentInHop(t: Terms, before: seq<Request>, turn: Turn)
    ensures SentIn(t, before, turn).hop == turn.hop && SentIn(t, before, turn).request.url == turn.url
  {
  }

  /** Every exchange of a read may take all its hops again, and every resume is a retry. */
  lemma {:induction false} ReadIsBounded(rd: Reading, before: seq<Request>, asked: nat, done: nat, budget: nat)
    requires done < rd.length
    ensures |Fetched(rd, before, asked, done, budget).sent| <= (1 + budget) * (1 + Allowed(rd.options.maxRedirects))
    decreases budget
  {
    hide Exchanged, Advanced, Requests;
    var turn, allowed := Turn(asked, rd.bound.uri, 0, 1, budget), Allowed(rd.options.maxRedirects);
    ExchangeIsBounded(rd.Terms(done), before, turn);
    var x := Exchanged(rd.Terms(done), before, turn);
    var p := Advanced(rd, done, x.result);
    if p.code == Ok && p.count < rd.length && x.retries > 0 {
      ReadIsBounded(rd, before + Requests(x.sent), x.asked, p.count, x.retries - 1);
    }
    ProductKeeps(budget, x.retries, allowed);
  }

  lemma ProductKeeps(budget: nat, left: nat, allowed: nat)
    requires left <= budget
    ensures 1 + budget - left + allowed + left * (1 + allowed) <= (1 + budget) * (1 + allowed)
  {
    assert (1 + budget) * (1 + allowed) == 1 + budget + allowed + budget * allowed;
    assert left * allowed <= budget * allowed;
    assert left * (1 + allowed) == left + left * allowed;
  }

  // ----- networks that cost that much --------------------------------------

  /** Nothing the caller configured refuses a request to this host. */
  ghost predicate Unopposed(o: Options, origin: Uri, host: string) {
    && o.permits(host)
    && forall view: View, asked: nat :: view.url.host == host ==> Admission(o, origin, view, asked).0 == None
  }

  const BUSY := Response(503, [], [], false, NoError)

  const AWAY := Response(302, [Header("Location", "?")], [], false, NoError)

  /** The window a request asked for, and a connection lost before its first byte. */
  function Cut(first: nat, length: nat): Response
    requires length > 0
  {
    var window := PrintedRange(Satisfied(first, first + length - 1, None));
    Response(206, [Header(CONTENT_RANGE, window)], [], false, ConnectionLost)
  }

  function Requeried(u: Uri): Uri { u.(query := "", hasQuery := true) }

  lemma AwayLeadsOn(o: Options, e: Sent)
    requires e.response == AWAY
    ensures Redirection(o, e) == if e.hop < o.maxRedirects then Some(Requeried(e.request.url)) else None
  {
    hide ParseUri, ResolvedPath;
    var headers := AWAY.headers;
    assert headers[|headers| - 1] == Header("Location", "?");
    assert Lookup(headers, "Location") == Some("?");
    ReferenceToNothing(e.request.url);
  }

  lemma ReferenceToNothing(base: Uri)
    ensures ResolveReference(base, "?") == Some(Requeried(base))
  {
    hide ParseUri, ResolvedPath;
  }

  lemma UnopposedIsSent(t: Terms, turn: Turn)
    requires Unopposed(t.options, t.origin, turn.url.host)
    ensures RefusalOf(t, turn) == None
  {
    var view := View(t.ask.verb, turn.url, turn.hop, turn.attempt);
    assert Admission(t.options, t.origin, view, turn.asked).0 == None;
  }

  /** Busy until the retries are spent, and elsewhere ever after. */
  ghost predicate BusyThenAway(net: seq<Request> -> Response, base: nat, retries: nat) {
    forall requests :: net(requests) == if |requests| <= base + retries then BUSY else AWAY
  }

  lemma {:induction false} WorstExchange(t: Terms, base: nat, retries: nat, before: seq<Request>, turn: Turn)
    requires BusyThenAway(t.net, base, retries) && Unopposed(t.options, t.origin, turn.url.host)
    requires turn.hop <= Allowed(t.options.maxRedirects) && turn.retries <= retries
    requires |before| == base + (retries - turn.retries) + turn.hop && (turn.retries > 0 ==> turn.hop == 0)
    ensures |Exchanged(t, before, turn).sent| == 1 + turn.retries + (Allowed(t.options.maxRedirects) - turn.hop)
    decreases Allowed(t.options.maxRedirects) - turn.hop, turn.retries
  {
    hide RefusalOf, SentIn, Redirection, Unopposed, Answered, BusyThenAway;
    UnopposedIsSent(t, turn);
    SentInHop(t, before, turn);
    AttemptOfWorst(t, base, retries, before, turn);
    var e := SentIn(t, before, turn);
    if turn.retries > 0 {
      WorstExchange(t, base, retries, before + [e.request], turn.Retried());
    } else {
      AwayLeadsOn(t.options, e);
      if turn.hop < t.options.maxRedirects {
        WorstExchange(t, base, retries, before + [e.request], turn.Redirected(Requeried(turn.url)));
      }
    }
  }

  lemma AttemptOfWorst(t: Terms, base: nat, retries: nat, before: seq<Request>, turn: Turn)
    requires BusyThenAway(t.net, base, retries) && turn.retries <= retries
    requires |before| == base + (retries - turn.retries) + turn.hop && (turn.retries > 0 ==> turn.hop == 0)
    ensures SentIn(t, before, turn).response == if turn.retries > 0 then BUSY else AWAY
  {
    hide Admission;
    var request := SentIn(t, before, turn).request;
    assert |before + [request]| == |before| + 1;
  }

  /** Elsewhere as often as it will be followed, and then cut off; over and over. */
  ghost predicate AwayThenCut(net: seq<Request> -> Response, base: nat, allowed: nat, cut: Response) {
    forall requests :: net(requests) == if (|requests| - 1 - base) % (allowed + 1) < allowed then AWAY else cut
  }

  lemma RemainderOf(q: nat, d: nat, r: nat)
    requires r < d
    ensures (q * d + r) % d == r
  {
    var n := q * d + r;
    var p := n / d;
    assert n == p * d + n % d && p >= 0;
    assert (p + 1) * d == p * d + d && (q + 1) * d == q * d + d;
    if p < q { ProductMonotone(p + 1, q, d); }
    if q < p { ProductMonotone(q + 1, p, d); }
  }

  lemma AttemptOfCut(t: Terms, base: nat, round: nat, cut: Response, before: seq<Request>, turn: Turn)
    requires var allowed := Allowed(t.options.maxRedirects);
             && AwayThenCut(t.net, base, allowed, cut) && turn.hop <= allowed
             && |before| == base + round * (allowed + 1) + turn.hop
    requires cut.body == []
    ensures SentIn(t, before, turn).response == if turn.hop < Allowed(t.options.maxRedirects) then AWAY else cut
  {
    hide Admission;
    var request := SentIn(t, before, turn).request;
    assert |before + [request]| == |before| + 1;
    RemainderOf(round, Allowed(t.options.maxRedirects) + 1, turn.hop);
  }

  /** An exchange over that network takes every hop, spends no retry, and ends on the response cut off. */
  lemma {:induction false} HopsThenCut(t: Terms, base: nat, round: nat, cut: Response, before: seq<Request>, turn: Turn)
    requires var allowed := Allowed(t.options.maxRedirects);
             && AwayThenCut(t.net, base, allowed, cut) && turn.hop <= allowed
             && |before| == base + round * (allowed + 1) + turn.hop
    requires Unopposed(t.options, t.origin, turn.url.host)
    requires cut.status == 206 && cut.body == [] && cut.error == ConnectionLost
    ensures var out := Exchanged(t, before, turn);
            && |out.sent| == 1 + Allowed(t.options.maxRedirects) - turn.hop && out.retries == turn.retries
            && out.result.code == Ok && out.result.response == Some(cut)
    decreases Allowed(t.options.maxRedirects) - turn.hop
  {
    hide RefusalOf, SentIn, Unopposed, AwayThenCut, ResolveReference, Lookup;
    UnopposedIsSent(t, turn);
    SentInHop(t, before, turn);
    AttemptOfCut(t, base, round, cut, before, turn);
    var e := SentIn(t, before, turn);
    if turn.hop < Allowed(t.options.maxRedirects) {
      AwayLeadsOn(t.options, e);
      HopsThenCut(t, base, round, cut, before + [e.request], turn.Redirected(Requeried(turn.url)));
    } else {
      assert Redirection(t.options, e) == None;
    }
  }

  /** What is cut off before its first byte is accepted all the same, and asked for again. */
  lemma CutIsResumable(rd: Reading, x: Result)
    requires 0 < rd.length && rd.offset + rd.length <= rd.bound.size
    requires x.code == Ok && x.response == Some(Cut(rd.offset, rd.length))
    ensures Advanced(rd, 0, x) == Progress(0, Ok, ConnectionLost)
  {
    hide PrintedRange, ContentRangeOf;
    var r := Cut(rd.offset, rd.length);
    PrintedRangeIsRead(Satisfied(rd.offset, rd.offset + rd.length - 1, None));
    OnlyContentRange(r.headers[0].value);
    assert r.headers == [Header(CONTENT_RANGE, r.headers[0].value)];
    hide Lookup, Conflicting;
  }

  lemma OnlyContentRange(value: string)
    ensures var headers := [Header(CONTENT_RANGE, value)];
            && Lookup(headers, CONTENT_RANGE) == Some(value)
            && Lookup(headers, ETAG) == None && Lookup(headers, LAST_MODIFIED) == None
            && !Conflicting(headers, CONTENT_RANGE) && !Conflicting(headers, CONTENT_LENGTH)
  {
    assert Lower(CONTENT_RANGE)[0] == 'c' && Lower(LAST_MODIFIED)[0] == 'l';
  }

  lemma {:induction false} WorstRead(rd: Reading, base: nat, round: nat, before: seq<Request>, asked: nat, budget: nat)
    requires 0 < rd.length && rd.offset + rd.length <= rd.bound.size
    requires AwayThenCut(rd.net, base, Allowed(rd.options.maxRedirects), Cut(rd.offset, rd.length))
    requires Unopposed(rd.options, rd.bound.origin, rd.bound.uri.host)
    requires |before| == base + round * (Allowed(rd.options.maxRedirects) + 1)
    ensures |Fetched(rd, before, asked, 0, budget).sent| == (1 + budget) * (1 + Allowed(rd.options.maxRedirects))
    decreases budget
  {
    hide Unopposed, AwayThenCut, PrintedRange, Exchanged, Advanced;
    var t, turn, cut := rd.Terms(0), Turn(asked, rd.bound.uri, 0, 1, budget), Cut(rd.offset, rd.length);
    HopsThenCut(t, base, round, cut, before, turn);
    var x := Exchanged(t, before, turn);
    CutIsResumable(rd, x.result);
    if budget > 0 {
      var after, d := before + Requests(x.sent), Allowed(rd.options.maxRedirects) + 1;
      assert |after| == |before| + d && round * d + d == (round + 1) * d;
      WorstRead(rd, base, round + 1, after, x.asked, budget - 1);
      assert (1 + budget) * d == d + budget * d;
    }
  }

  // ----- when the plain sum is a bound -------------------------------------

  ghost predicate SumBoundsExchanges(o: Options, origin: Uri, start: Uri) {
    forall ask, net, before, asked ::
      |Exchanged(Terms(o, origin, ask, net), before, Turn(asked, start, 0, 1, Budget(o))).sent|
      <= o.maxRedirects + o.maxAttempts
  }

  ghost predicate SumBoundsReads(o: Options, b: Bound, offset: nat, length: nat)
    requires 0 < length
  {
    forall net, before, asked ::
      |Fetched(Reading(o, b, net, offset, length), before, asked, 0, Budget(o)).sent| <= o.maxRedirects + o.maxAttempts
  }

  /** Over one exchange: exactly when neither limit is set below what is sent regardless. */
  lemma ExchangeSumIff(o: Options, origin: Uri, start: Uri)
    ensures 0 <= o.maxRedirects && 1 <= o.maxAttempts ==> SumBoundsExchanges(o, origin, start)
    ensures Unopposed(o, origin, start.host) && SumBoundsExchanges(o, origin, start) ==>
              0 <= o.maxRedirects && 1 <= o.maxAttempts
  {
    hide Exchanged, Unopposed;
    if 0 <= o.maxRedirects && 1 <= o.maxAttempts {
      forall ask, net, before, asked
        ensures |Exchanged(Terms(o, origin, ask, net), before, Turn(asked, start, 0, 1, Budget(o))).sent|
             <= o.maxRedirects + o.maxAttempts
      {
        ExchangeIsBounded(Terms(o, origin, ask, net), before, Turn(asked, start, 0, 1, Budget(o)));
      }
    }
    if Unopposed(o, origin, start.host) && SumBoundsExchanges(o, origin, start) {
      var net := (requests: seq<Request>) => if |requests| <= Budget(o) then BUSY else AWAY;
      var t := Terms(o, origin, Ask(Get, "", "", 0), net);
      WorstExchange(t, 0, Budget(o), [], Turn(0, start, 0, 1, Budget(o)));
      assert |Exchanged(t, [], Turn(0, start, 0, 1, Budget(o))).sent| <= o.maxRedirects + o.maxAttempts;
    }
  }

  /** Over a whole read it takes more: hops are allowed anew after each resume. */
  lemma ReadSumIff(o: Options, b: Bound, offset: nat, length: nat)
    requires 0 < length && offset + length <= b.size
    ensures 0 <= o.maxRedirects && 1 <= o.maxAttempts && (o.maxRedirects == 0 || o.maxAttempts == 1) ==>
              SumBoundsReads(o, b, offset, length)
    ensures Unopposed(o, b.origin, b.uri.host) && SumBoundsReads(o, b, offset, length) ==>
              0 <= o.maxRedirects && 1 <= o.maxAttempts && (o.maxRedirects == 0 || o.maxAttempts == 1)
  {
    hide Fetched, Unopposed, Cut;
    var most := (1 + Budget(o)) * (1 + Allowed(o.maxRedirects));
    ProductIsSum(o.maxRedirects, o.maxAttempts, Budget(o));
    if most <= o.maxRedirects + o.maxAttempts {
      forall net, before, asked
        ensures |Fetched(Reading(o, b, net, offset, length), before, asked, 0, Budget(o)).sent|
             <= o.maxRedirects + o.maxAttempts
      {
        ReadIsBounded(Reading(o, b, net, offset, length), before, asked, 0, Budget(o));
      }
    }
    if Unopposed(o, b.origin, b.uri.host) && SumBoundsReads(o, b, offset, length) {
      var allowed, cut := Allowed(o.maxRedirects), Cut(offset, length);
      var net := (requests: seq<Request>) => if (|requests| - 1) % (allowed + 1) < allowed then AWAY else cut;
      var rd := Reading(o, b, net, offset, length);
      WorstRead(rd, 0, 0, [], 0, Budget(o));
      assert |Fetched(rd, [], 0, 0, Budget(o)).sent| <= o.maxRedirects + o.maxAttempts;
    }
  }

  lemma ProductIsSum(maxRedirects: int, maxAttempts: int, budget: nat)
    requires budget == if maxAttempts > 0 then maxAttempts - 1 else 0
    ensures (1 + budget) * (1 + Allowed(maxRedirects)) <= maxRedirects + maxAttempts
       <==> 0 <= maxRedirects && 1 <= maxAttempts && (maxRedirects == 0 || maxAttempts == 1)
  {
    var allowed := Allowed(maxRedirects);
    assert (1 + budget) * (1 + allowed) == 1 + budget + allowed + budget * allowed;
    if budget > 0 && allowed > 0 { assert budget * allowed >= 1; }
  }

  /** Options that refuse nothing. */
  function Lenient(maxRedirects: int, maxAttempts: int): Options {
    Options(maxRedirects, maxAttempts, host => true, None)
  }

  /** No redirects, spelled -1; no attempts, spelled 0; and, for a read, one redirect and one retry. */
  lemma PlainSumFails(origin: Uri, start: Uri, b: Bound, offset: nat, length: nat)
    requires 0 < length && offset + length <= b.size
    ensures !SumBoundsExchanges(Lenient(-1, 1), origin, start)
    ensures !SumBoundsExchanges(Lenient(0, 0), origin, start)
    ensures SumBoundsExchanges(Lenient(1, 2), origin, start) && !SumBoundsReads(Lenient(1, 2), b, offset, length)
  {
    hide SumBoundsExchanges, SumBoundsReads;
    ExchangeSumIff(Lenient(-1, 1), origin, start);
    ExchangeSumIff(Lenient(0, 0), origin, start);
    ExchangeSumIff(Lenient(1, 2), origin, start);
    ReadSumIff(Lenient(1, 2), b, offset, length);
  }
}
