/** Metrics middleware and handler as they run for one request: a status writer assigned in
    place, metrics incremented along the way, proved against what MetricsSteps says a request
    leaves behind. */
module Middleware {
  import opened Sequences
  import opened Adapters
  import opened Registry
  import opened Exchange
  import opened MetricsSteps
  import C = Canonical

  const EXCHANGE_PATH := "/v1/token/exchange"
  const INITIAL_STATUS := 200
  const UNAUTHORIZED := 401

  /** A status writer, perhaps around another one: TracingMiddleware makes one around the
      server's own writer, MetricsMiddleware one around that. */
  class StatusWriter {
    var status: int
    var adapter: string
    const inner: StatusWriter?

    constructor (inner: StatusWriter?)
      ensures status == INITIAL_STATUS && adapter == "" && this.inner == inner
    {
      status := INITIAL_STATUS;
      adapter := "";
      this.inner := inner;
    }

    /** At most two writers deep, and none around itself. */
    ghost predicate Nested() {
      inner != this && (inner != null ==> inner.inner == null)
    }

    /** Notes the code and passes it on to the writer within. */
    method WriteHeader(code: int)
      requires Nested()
      modifies this`status, inner
      ensures status == code
      ensures inner != null ==> inner.status == code && inner.adapter == old(inner.adapter)
    {
      status := code;
      if inner != null {
        inner.status := code;
      }
    }

    method SetAdapter(name: string)
      modifies this`adapter
      ensures adapter == name
    {
      adapter := name;
    }
  }

  class Metrics {
    var active: int
    var requestDuration: multiset<RequestLabel>
    var requestTotal: multiset<RequestLabel>
    var adapterDuration: multiset<string>
    var mintDuration: nat
    var issued: multiset<(string, string)>

    ghost function Snapshot(): Counters
      reads this
    {
      Counters(active, requestDuration, requestTotal, adapterDuration, mintDuration, issued)
    }

    constructor ()
      ensures Snapshot() == ZERO
    {
      active, mintDuration := 0, 0;
      requestDuration, requestTotal := multiset{}, multiset{};
      adapterDuration, issued := multiset{}, multiset{};
    }
  }

  /** The counters after the handler's part of a journey. */
  function AfterHandler(c: Counters, j: Journey): Counters {
    c.(adapterDuration := if j.adapter.Some? then c.adapterDuration + multiset{j.adapter.value} else c.adapterDuration,
       mintDuration := if j.claims.Some? then c.mintDuration + 1 else c.mintDuration,
       issued := if j.minted then c.issued + multiset{IssuedLabel(j)} else c.issued)
  }

  /** The resolving half of Handler.exchange. */
  method ResolveAdapter(env: Env, req: TokenRequest) returns (r: Result<Adapter, ExchangeError>)
    ensures r == Resolve(env, req)
  {
    if req.subjectTokenType != "" {
      if req.subjectTokenType !in env.adapters {
        return Err(UnsupportedTokenType);
      }
      return Ok(env.adapters[req.subjectTokenType]);
    }
    var detected := FirstMatch(env.adapters, env.order, env.world.readJson, req.subjectToken);
    if detected.None? {
      return Err(UndeterminedTokenType);
    }
    return Ok(detected.value);
  }

  /** What an adapter's answer makes of the rest of the request. */
  function Concluded(env: Env, req: TokenRequest, exchanged: Result<ExchangeResult, AdapterError>): Result<Response, ExchangeError> {
    match exchanged
    case Err(e) => Err(AdapterFailed(e))
    case Ok(result) => if env.signerWorks then Ok(Response(IssueToken(env, req, result), C.EXPIRES_IN)) else Err(MintFailed)
  }

  function JourneyFrom(env: Env, adapterName: string, exchanged: Result<ExchangeResult, AdapterError>): Journey {
    match exchanged
    case Err(_) => Journey(None, Some(adapterName), None, false)
    case Ok(result) => Journey(None, Some(adapterName), Some(result.claims), env.signerWorks)
  }

  lemma JourneyContinues(env: Env, http: HttpRequest, a: Adapter, exchanged: Result<ExchangeResult, AdapterError>)
    requires Refusal(http).None? && Resolve(env, http.body.value) == Ok(a)
    requires exchanged == Adapters.Exchange(a, env.world, http.body.value.subjectToken, env.exchangeAt)
    ensures JourneyOf(env, http) == JourneyFrom(env, a.TokenType(), exchanged)
    ensures ExchangeRequest(env, http.body.value) == Concluded(env, http.body.value, exchanged)
  {}

  /** The half after the adapter's answer: observe, mint, observe, count. */
  method Conclude(env: Env, req: TokenRequest, adapterName: string, exchanged: Result<ExchangeResult, AdapterError>, m: Metrics)
    returns (r: Result<Response, ExchangeError>)
    modifies m
    ensures r == Concluded(env, req, exchanged)
    ensures m.Snapshot() == AfterHandler(old(m.Snapshot()), JourneyFrom(env, adapterName, exchanged))
  {
    ghost var before := m.Snapshot();
    m.adapterDuration := m.adapterDuration + multiset{adapterName};
    ghost var observed := before.(adapterDuration := before.adapterDuration + multiset{adapterName});
    assert m.Snapshot() == observed;
    if exchanged.Err? {
      return Err(AdapterFailed(exchanged.error));
    }
    var result := exchanged.value;
    var audience := [];
    if req.audience != "" {
      audience := [req.audience];
    }
    assert audience == Audience(req);
    var token := C.Mint(C.DefaultConfig(env.signingKey), result.subject, audience, result.claims, env.mintAt, env.id);
    assert token == IssueToken(env, req, result);
    m.mintDuration := m.mintDuration + 1;
    assert m.Snapshot() == observed.(mintDuration := before.mintDuration + 1);
    if !env.signerWorks {
      return Err(MintFailed);
    }
    var l := (result.claims.trustLevel, result.claims.authMethod);
    assert l == IssuedLabel(JourneyFrom(env, adapterName, exchanged));
    m.issued := m.issued + multiset{l};
    return Ok(Response(token, C.EXPIRES_IN));
  }

  /** Handler.exchange. */
  method RunExchange(env: Env, req: TokenRequest, w: StatusWriter, m: Metrics, ghost http: HttpRequest)
    returns (r: Result<Response, ExchangeError>)
    requires Refusal(http).None? && http.body.value == req
    requires w.adapter == ""
    modifies w`adapter, m
    ensures r == ExchangeRequest(env, req)
    ensures w.adapter == AdapterName(JourneyOf(env, http))
    ensures m.Snapshot() == AfterHandler(old(m.Snapshot()), JourneyOf(env, http))
  {
    var adp := ResolveAdapter(env, req);
    if adp.Err? {
      return Err(adp.error);
    }
    w.SetAdapter(adp.value.TokenType());
    var exchanged := Adapters.Exchange(adp.value, env.world, req.subjectToken, env.exchangeAt);
    r := Conclude(env, req, adp.value.TokenType(), exchanged, m);
    JourneyContinues(env, http, adp.value, exchanged);
  }

  /** The status a client is answered with. */
  function StatusOf(answer: Answer): int {
    if answer.Refused? then answer.status else INITIAL_STATUS
  }

  /** Handler.ServeHTTP. */
  method ServeHttp(env: Env, http: HttpRequest, w: StatusWriter, m: Metrics) returns (answer: Answer)
    requires w.adapter == "" && w.status == INITIAL_STATUS && w.Nested()
    requires w.inner != null ==> w.inner.status == INITIAL_STATUS
    modifies w, w.inner, m
    ensures answer == Serve(env, http)
    ensures w.adapter == AdapterName(JourneyOf(env, http))
    ensures w.status == StatusOf(answer)
    ensures w.inner != null ==> w.inner.status == StatusOf(answer) && w.inner.adapter == old(w.inner.adapter)
    ensures m.Snapshot() == AfterHandler(old(m.Snapshot()), JourneyOf(env, http))
  {
    if http.verb != POST {
      w.WriteHeader(405);
      return Refused(405);
    }
    if http.body.None? {
      w.WriteHeader(400);
      return Refused(400);
    }
    var req := http.body.value;
    if req.grantType != GRANT_TYPE {
      w.WriteHeader(400);
      return Refused(400);
    }
    if req.subjectToken == [] {
      w.WriteHeader(400);
      return Refused(400);
    }
    var result := RunExchange(env, req, w, m, http);
    if result.Err? {
      w.WriteHeader(UNAUTHORIZED);
      return Refused(UNAUTHORIZED);
    }
    return Granted(result.value);
  }

  /** The labels read off a status writer. */
  function WriterLabel(adapter: string, status: int): RequestLabel {
    (if adapter == "" then UNKNOWN else adapter, if status >= 400 then ERROR else SUCCESS)
  }

  /** The counters after the closing half of the middleware. */
  function AfterObserving(c: Counters, l: RequestLabel): Counters {
    c.(active := c.active - 1,
       requestDuration := c.requestDuration + multiset{l},
       requestTotal := c.requestTotal + multiset{l})
  }

  /** The closing half of MetricsMiddleware: derive the labels, observe, count, release. */
  method Observe(sw: StatusWriter, m: Metrics)
    modifies m
    ensures m.Snapshot() == AfterObserving(old(m.Snapshot()), WriterLabel(sw.adapter, sw.status))
  {
    var status := SUCCESS;
    if sw.status >= 400 {
      status := ERROR;
    }
    var adapter := sw.adapter;
    if adapter == "" {
      adapter := UNKNOWN;
    }
    var l := (adapter, status);
    assert l == WriterLabel(sw.adapter, sw.status);
    ghost var before := m.Snapshot();
    m.requestDuration := m.requestDuration + multiset{l};
    m.requestTotal := m.requestTotal + multiset{l};
    assert m.Snapshot() == before.(requestDuration := before.requestDuration + multiset{l},
                                   requestTotal := before.requestTotal + multiset{l});
    m.active := m.active - 1;
  }

  /** MetricsMiddleware around the handler, `w` being the writer TracingMiddleware hands it. On the
      exchange path the metrics change by exactly one completed request with the journey's labels,
      and the adapter is noted on the middleware's own writer only. On any other path the handler
      runs all the same, but nothing but its own counters changes. */
  method ServeWithMetrics(env: Env, path: string, http: HttpRequest, w: StatusWriter, m: Metrics) returns (answer: Answer)
    requires w.adapter == "" && w.status == INITIAL_STATUS && w.inner == null
    modifies w, m
    ensures answer == Serve(env, http)
    ensures w.status == StatusOf(answer)
    ensures w.status == 200 <==> answer.Granted?
    ensures w.adapter == if path == "/v1/token/exchange" then "" else AdapterName(JourneyOf(env, http))
    ensures m.Snapshot() == AfterServing(old(m.Snapshot()), path, JourneyOf(env, http))
  {
    if path != EXCHANGE_PATH {
      answer := ServeHttp(env, http, w, m);
      return;
    }
    ghost var before := m.Snapshot();
    m.active := m.active + 1;
    assert m.Snapshot() == before.(active := before.active + 1);
    var sw := new StatusWriter(w);
    answer := ServeHttp(env, http, sw, m);
    WriterGivesLabel(env, http, sw.adapter, sw.status);
    Observe(sw, m);
    HalvesComplete(before, JourneyOf(env, http));
  }

  /** The counters after a request to a path: the handler increments its own on every path, the
      middleware's are kept on the exchange path alone. */
  function AfterServing(c: Counters, path: string, j: Journey): Counters {
    if path == EXCHANGE_PATH then Completed(c, j) else AfterHandler(c, j)
  }

  /** Tokens issued without a counted success. */
  function Unmatched(c: Counters): int { |c.issued| - SuccessTotal(c.requestTotal) }

  /** Serving a request keeps tokens issued and successes counted in step exactly when it is on
      the exchange path or refused; otherwise one token goes without its success. */
  lemma IssuedMatchesSuccess(c: Counters, env: Env, path: string, http: HttpRequest)
    ensures var after := AfterServing(c, path, JourneyOf(env, http));
            && (Unmatched(after) == Unmatched(c) <==> path == "/v1/token/exchange" || Serve(env, http).Refused?)
            && (Unmatched(after) != Unmatched(c) ==> Unmatched(after) == Unmatched(c) + 1)
  {
    JourneyIsValid(env, http);
    JourneyUnmatched(c, path, JourneyOf(env, http));
  }

  lemma JourneyUnmatched(c: Counters, path: string, j: Journey)
    requires ValidJourney(j)
    ensures Unmatched(AfterServing(c, path, j)) == Unmatched(c) + if path != EXCHANGE_PATH && j.minted then 1 else 0
  {
    var r := Req(j, Finished);
    SuccessLabel(r);
    assert SuccessTotal(c.requestTotal + TotalOf(r)) == SuccessTotal(c.requestTotal) + SuccessTotal(TotalOf(r));
  }

  lemma HalvesComplete(c: Counters, j: Journey)
    ensures AfterObserving(AfterHandler(c.(active := c.active + 1), j), LabelOf(j)) == Completed(c, j)
  {}

  lemma NamedAdapter(j: Journey)
    requires ValidJourney(j)
    ensures j.adapter.Some? <==> AdapterName(j) != ""
  {
    TokenTypesDiffer();
  }

  lemma RefusalsAreErrors(env: Env, http: HttpRequest)
    ensures Serve(env, http).Refused? ==> Serve(env, http).status >= 400
  {}

  /** The two labels read off the status writer are the journey's. */
  lemma WriterGivesLabel(env: Env, http: HttpRequest, adapter: string, status: int)
    requires adapter == AdapterName(JourneyOf(env, http))
    requires status == StatusOf(Serve(env, http))
    ensures WriterLabel(adapter, status) == LabelOf(JourneyOf(env, http))
  {
    JourneyIsValid(env, http);
    NamedAdapter(JourneyOf(env, http));
    RefusalsAreErrors(env, http);
  }
}
