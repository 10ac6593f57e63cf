/**
 What the requests and the codes of an exchange and a read follow from, in the numbers of the protocol:
 which responses are retried, which are followed, and what each ending is reported as.
 */
module HttpOutcomes {
  import opened Basics
  import opened Framing
  import opened HttpExchange
  import opened HttpReader
  import opened HttpUri
  import opened Text

  // ----- why each request was sent -----------------------------------------

  /** Too many requests, a gateway that failed, or a connection that could not be made or was lost. */
  predicate WorthRetrying(r: Response) {
    && r.error != HeadersTooLarge
    && (r.status in {429, 502, 503, 504} || (r.status == 0 && r.error in {ConnectFailed, ConnectionLost}))
  }

  lemma FirstOfTurn(t: Terms, before: seq<Request>, turn: Turn)
    ensures var out := Exchanged(t, before, turn);
            out.sent != [] ==>
              out.sent[0].hop == turn.hop && out.sent[0].attempt == turn.attempt && out.sent[0].request.url == turn.url
  {
    hide RefusalOf, Redirection, Retryable, Answered;
  }

  /**
   Between two requests of an exchange: the second is a retry exactly if the first was answered with something worth
   retrying and a retry was left, all requests before it that were not redirects having spent one. Otherwise it is
   where the first was redirected to.
   */
  ghost predicate Motivated(o: Options, turn: Turn, k: nat, a: Sent, b: Sent) {
    if WorthRetrying(a.response) && k - (a.hop - turn.hop) < turn.retries
    then b.hop == a.hop && b.attempt == a.attempt + 1 && b.request.url == a.request.url
    else b.hop == a.hop + 1 && b.attempt == 1 && Redirection(o, a) == Some(b.request.url)
  }

  lemma {:induction false} EachRequestIsMotivated(t: Terms, before: seq<Request>, turn: Turn, k: nat)
    requires k + 1 < |Exchanged(t, before, turn).sent|
    ensures var sent := Exchanged(t, before, turn).sent; Motivated(t.options, turn, k, sent[k], sent[k + 1])
    decreases k
  {
    hide RefusalOf, Redirection, Retryable, Answered, WorthRetrying;
    var e := SentIn(t, before, turn);
    var next := NextTurn(t.options, turn, e).value;
    var rest := Exchanged(t, before + [e.request], next).sent;
    assert Exchanged(t, before, turn).sent == [e] + rest;
    RetryableIff(e.response);
    assert Retryable(e.response) <==> WorthRetrying(e.response) by { RetryableIsWorthRetrying(e.response); }
    if k == 0 {
      FirstOfTurn(t, before + [e.request], next);
    } else {
      EachRequestIsMotivated(t, before + [e.request], next, k - 1);
    }
  }

  lemma RetryableIsWorthRetrying(r: Response)
    ensures Retryable(r) <==> WorthRetrying(r)
  {
  }

  // ----- how an exchange ends ----------------------------------------------

  /** On the last response, when that is neither to be retried nor followed; or on a refusal of what would come next. */
  ghost predicate EndsProperly(o: Options, turn: Turn, out: Outcome) {
    if out.result.response.Some? then
      && out.sent != []
      && var last, n := out.sent[|out.sent| - 1], |out.sent| - 1;
         && out.result == Result(CodeOf(last.response), Some(last.response), last.request.url)
         && Redirection(o, last) == None
         && !(WorthRetrying(last.response) && n - (last.hop - turn.hop) < turn.retries)
    else
      && out.result.code in {AccessDenied, InvalidArgument}
      && (out.sent != [] ==>
            var last := out.sent[|out.sent| - 1];
            WorthRetrying(last.response) || Redirection(o, last).Some?)
  }

  /** The code an exchange reports for the response it ends on. */
  function CodeOf(r: Response): Code {
    if r.error == DestinationRefused then AccessDenied
    else if r.error == HeadersTooLarge || r.status in {301, 302, 307, 308} then InvalidResponse
    else if r.status != 0 then Ok
    else if r.error in {ConnectTimeout, ResponseTimeout, TransferTimeout} then Timeout
    else if r.error in {ConnectFailed, ConnectionLost, Internal} then NetworkError
    else if r.error in {IncompleteBody, Malformed} then InvalidResponse
    else Ok
  }

  lemma ProjectedIsCode(r: Response)
    ensures Projected(r) == CodeOf(r)
  {
  }

  lemma RefusalsHaveTwoCodes(t: Terms, turn: Turn)
    ensures RefusalOf(t, turn).Some? ==> RefusalOf(t, turn).value in {AccessDenied, InvalidArgument}
  {
  }

  lemma {:induction false} ExchangeEndsProperly(t: Terms, before: seq<Request>, turn: Turn)
    ensures EndsProperly(t.options, turn, Exchanged(t, before, turn))
    decreases Allowed(t.options.maxRedirects) - turn.hop, turn.retries
  {
    hide RefusalOf, Redirection, Retryable, WorthRetrying, CodeOf, Projected;
    RefusalsHaveTwoCodes(t, turn);
    if RefusalOf(t, turn).None? {
      var e := SentIn(t, before, turn);
      RetryableIsWorthRetrying(e.response);
      ProjectedIsCode(e.response);
      var next := NextTurn(t.options, turn, e);
      if next.Some? {
        ExchangeEndsProperly(t, before + [e.request], next.value);
        LastOfRest(t.options, turn, e, next.value, Exchanged(t, before + [e.request], next.value));
      }
    }
  }

  lemma LastOfRest(o: Options, turn: Turn, e: Sent, next: Turn, rest: Outcome)
    requires EndsProperly(o, next, rest) && e.hop == turn.hop
    requires if next.hop == turn.hop then next.retries == turn.retries - 1 && WorthRetrying(e.response)
             else next.hop == turn.hop + 1 && next.retries == turn.retries && Redirection(o, e).Some?
    ensures EndsProperly(o, turn, rest.After([e]))
  {
    hide Redirection, WorthRetrying, CodeOf;
    var out := rest.After([e]);
    if rest.sent == [] {
      assert out.sent == [e];
    } else {
      assert out.sent[|out.sent| - 1] == rest.sent[|rest.sent| - 1];
    }
  }

  // ----- when a read reports a change --------------------------------------

  /** The last response came whole and shows another revision than the bound one. */
  ghost predicate LastShowsChange(b: Bound, sent: seq<Sent>) {
    && sent != []
    && var r := sent[|sent| - 1].response;
       r.error !in {DestinationRefused, HeadersTooLarge} && ShowsChange(b, r)
  }

  /** An exchange that ends `Ok` ends on its last response; any other ends on nothing that shows a change. */
  lemma ChangeEndsExchange(o: Options, b: Bound, turn: Turn, out: Outcome)
    requires EndsProperly(o, turn, out)
    ensures out.result.code != AssetChanged
    ensures out.result.code == Ok && out.result.response.Some? ==>
              && out.sent != [] && out.result.response == Some(out.sent[|out.sent| - 1].response)
              && (LastShowsChange(b, out.sent) <==> ShowsChange(b, out.result.response.value))
    ensures out.result.code != Ok || out.result.response.None? ==> !LastShowsChange(b, out.sent)
  {
    hide NamesAnother, StatesAnotherSize, ResolveReference, Lookup;
  }

  lemma AdvancedOnChange(rd: Reading, done: nat, x: Result)
    requires done < rd.length && x.code != AssetChanged
    ensures var p := Advanced(rd, done, x);
            && (p.code == AssetChanged <==>
                  x.code == Ok && x.response.Some? && ShowsChange(rd.bound, x.response.value))
            && (p.code == AssetChanged ==> p.count == 0)
  {
    if x.code == Ok && x.response.Some? {
      ChangedIff(rd.bound, x.response.value, rd.offset + done, rd.length - done);
      JudgedOrNot(rd.bound, x.response.value, rd.offset + done, rd.length - done);
    }
    hide Judge, ShowsChange;
  }

  lemma JudgedOrNot(b: Bound, r: Response, at: nat, remaining: nat)
    ensures Judge(b, r, at, remaining).Rejected? && Judge(b, r, at, remaining).code == AssetChanged ==>
              Judge(b, r, at, remaining) == Rejected(AssetChanged, true)
  {
    hide ContradictsCaptured, StatedLength, StatedRange, Framed;
  }

  /**
   After a response that is used: the read goes on if the response ended well and brought something, or was cut short
   by a server or a connection that may be asked again; it stops on a deadline, on nothing, and on anything else.
   */
  lemma UsedThen(rd: Reading, done: nat, x: Result)
    requires done < rd.length && x.code == Ok && x.response.Some?
    requires Judge(rd.bound, x.response.value, rd.offset + done, rd.length - done) == Accepted
    ensures var p, r := Advanced(rd, done, x), x.response.value;
            && p.count == done + |r.body| && p.error == r.error
            && (p.code == Ok <==> (r.error == NoError && r.body != []) || r.error in {IncompleteBody, ConnectionLost})
            && (r.error == NoError && r.body == [] ==> p.code == InvalidResponse)
            && (r.error in {ConnectTimeout, ResponseTimeout, TransferTimeout} ==> p.code == Timeout)
            && (r.error in {ConnectFailed, Internal} ==> p.code == NetworkError)
            && (r.error in {Malformed, HeadersTooLarge} ==> p.code == InvalidResponse)
            && (r.error == DestinationRefused ==> p.code == AccessDenied)
  {
    hide Judge;
  }

  /** A short read that may go on costs a retry; without one it ends as what cut it short. */
  lemma ShortThen(rd: Reading, before: seq<Request>, asked: nat, p: Progress, budget: nat)
    requires p.code == Ok && p.count < rd.length
    ensures Continued(rd, before, asked, p, budget)
         == if budget > 0 then Fetched(rd, before, asked, p.count, budget - 1)
            else Fetch([], p.count, if p.error == ConnectionLost then NetworkError else InvalidResponse)
  {
    hide Fetched;
  }

  /**
   A read reports that the asset changed exactly if its last response shows it, and then nothing it delivered before
   counts.
   */
  lemma {:induction false} ReadChangedIff(rd: Reading, before: seq<Request>, asked: nat, done: nat, budget: nat)
    requires done < rd.length
    ensures var f := Fetched(rd, before, asked, done, budget);
            && (f.code == AssetChanged <==> LastShowsChange(rd.bound, f.sent))
            && (f.code == AssetChanged ==> f.count == 0)
    decreases budget
  {
    hide Exchanged, Advanced, Requests, EndsProperly, LastShowsChange, ShowsChange;
    var t, turn := rd.Terms(done), Turn(asked, rd.bound.uri, 0, 1, budget);
    var x := Exchanged(t, before, turn);
    ExchangeEndsProperly(t, before, turn);
    ChangeEndsExchange(rd.options, rd.bound, turn, x);
    AdvancedOnChange(rd, done, x.result);
    var p := Advanced(rd, done, x.result);
    if p.code == Ok && p.count < rd.length && x.retries > 0 {
      var after := before + Requests(x.sent);
      ReadChangedIff(rd, after, x.asked, p.count, x.retries - 1);
      var rest := Fetched(rd, after, x.asked, p.count, x.retries - 1);
      LastOfBoth(rd.bound, x.sent, rest.sent);
    } else {
      assert x.sent + [] == x.sent;
    }
  }

  lemma LastOfBoth(b: Bound, sent: seq<Sent>, more: seq<Sent>)
    ensures LastShowsChange(b, sent + more) <==> LastShowsChange(b, if more == [] then sent else more)
    ensures !LastShowsChange(b, [])
  {
    hide ShowsChange;
    if more == [] {
      assert sent + more == sent;
    } else {
      assert (sent + more)[|sent + more| - 1] == more[|more| - 1];
    }
  }
}
