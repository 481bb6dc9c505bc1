/** The exchange endpoint: what it answers to a request, and that the issued token carries what the
    adapter found. */
module Exchange {
  import opened Sequences
  import opened Base64
  import opened Adapters
  import opened Registry
  import C = Canonical

  const GRANT_TYPE := "urn:ietf:params:oauth:grant-type:token-exchange"
  const POST := "POST"

  datatype TokenRequest = TokenRequest(grantType: string, subjectToken: Bytes, subjectTokenType: string, audience: string)

  /** A request as it arrives; a body that does not decode is None. */
  datatype HttpRequest = HttpRequest(verb: string, body: Option<TokenRequest>)

  /** What one request meets: the registered adapters and the order in which their map happens to
      be ranged over, the world, the signing key and whether signing works, and the readings of
      the clock and of the id generator. */
  datatype Env = Env(adapters: AdapterMap, order: seq<string>, world: World, signingKey: C.Key, signerWorks: bool,
                     exchangeAt: int, mintAt: int, id: string)

  datatype Response = Response(accessToken: C.SignedToken, expiresIn: int)

  datatype ExchangeError = UnsupportedTokenType | UndeterminedTokenType | AdapterFailed(error: AdapterError) | MintFailed

  /** An explicit token type is looked up, an empty one detected. */
  function Resolve(env: Env, req: TokenRequest): Result<Adapter, ExchangeError> {
    if req.subjectTokenType != "" then
      if req.subjectTokenType in env.adapters then Ok(env.adapters[req.subjectTokenType]) else Err(UnsupportedTokenType)
    else
      match FirstMatch(env.adapters, env.order, env.world.readJson, req.subjectToken)
      case Some(a) => Ok(a)
      case None => Err(UndeterminedTokenType)
  }

  /** Among adapters filed by type: a type that is given resolves to the adapter of that type, if
      there is one; without a type every accepting adapter, and no other, is the answer for some
      order, and there is no answer exactly when none accepts. */
  lemma ResolveSpec(env: Env, req: TokenRequest)
    requires Filed(env.adapters) && IterationOrder(env.adapters, env.order)
    ensures req.subjectTokenType != "" ==> forall a ::
                Resolve(env, req) == Ok(a) <==> a in env.adapters.Values && a.TokenType() == req.subjectTokenType
    ensures req.subjectTokenType == "" ==> forall a ::
                (exists order :: IterationOrder(env.adapters, order) && Resolve(env.(order := order), req) == Ok(a))
                <==> a in env.adapters.Values && a.Detect(env.world.readJson, req.subjectToken)
    ensures Resolve(env, req) == Err(UnsupportedTokenType)
            <==> req.subjectTokenType != "" && forall a :: a in env.adapters.Values ==> a.TokenType() != req.subjectTokenType
    ensures Resolve(env, req) == Err(UndeterminedTokenType)
            <==> req.subjectTokenType == "" && forall a :: a in env.adapters.Values ==> !a.Detect(env.world.readJson, req.subjectToken)
  {
    DetectAnswers(env.adapters, env.world.readJson, req.subjectToken);
    if req.subjectTokenType == "" {
      forall order
        ensures Resolve(env.(order := order), req).Ok?
                <==> FirstMatch(env.adapters, order, env.world.readJson, req.subjectToken).Some?
      {}
    }
  }

  function Audience(req: TokenRequest): seq<string> {
    if req.audience != "" then [req.audience] else []
  }

  function IssueToken(env: Env, req: TokenRequest, result: ExchangeResult): C.SignedToken {
    C.Mint(C.DefaultConfig(env.signingKey), result.subject, Audience(req), result.claims, env.mintAt, env.id)
  }

  /** Handler.exchange. */
  function ExchangeRequest(env: Env, req: TokenRequest): Result<Response, ExchangeError> {
    match Resolve(env, req)
    case Err(e) => Err(e)
    case Ok(a) =>
      match Adapters.Exchange(a, env.world, req.subjectToken, env.exchangeAt)
      case Err(e) => Err(AdapterFailed(e))
      case Ok(result) =>
        if env.signerWorks then Ok(Response(IssueToken(env, req, result), C.EXPIRES_IN)) else Err(MintFailed)
  }

  /** The status ServeHTTP refuses a request with before it exchanges anything. */
  function Refusal(http: HttpRequest): Option<int> {
    if http.verb != POST then Some(405)
    else if http.body.None? then Some(400)
    else if http.body.value.grantType != GRANT_TYPE then Some(400)
    else if http.body.value.subjectToken == [] then Some(400)
    else None
  }

  datatype Answer = Refused(status: int) | Granted(response: Response)

  /** Handler.ServeHTTP. */
  function Serve(env: Env, http: HttpRequest): Answer {
    match Refusal(http)
    case Some(status) => Refused(status)
    case None =>
      match ExchangeRequest(env, http.body.value)
      case Err(_) => Refused(401)
      case Ok(response) => Granted(response)
  }

  /** What each refusal means: 405 for another method than POST; 400 for a POST without a body that
      decodes, with another grant type or an empty token; 401 for a request that gets no adapter, or
      whose adapter refuses the token, or whose token cannot be signed. All others are granted. */
  lemma ServeIff(env: Env, http: HttpRequest)
    ensures Serve(env, http) == Refused(405) <==> http.verb != "POST"
    ensures Serve(env, http) == Refused(400)
            <==> http.verb == "POST"
                 && (http.body.None?
                     || http.body.value.grantType != "urn:ietf:params:oauth:grant-type:token-exchange"
                     || http.body.value.subjectToken == [])
    ensures Serve(env, http) == Refused(401)
            <==> http.verb == "POST" && http.body.Some?
                 && http.body.value.grantType == "urn:ietf:params:oauth:grant-type:token-exchange"
                 && http.body.value.subjectToken != []
                 && (Resolve(env, http.body.value).Err?
                     || Adapters.Exchange(Resolve(env, http.body.value).value, env.world, http.body.value.subjectToken, env.exchangeAt).Err?
                     || !env.signerWorks)
    ensures Serve(env, http).Refused? ==> Serve(env, http).status in {400, 401, 405}
  {}

  /** How far a request gets: refused at the door, or through adapter, exchange and minting. */
  datatype Journey = Journey(refusal: Option<int>, adapter: Option<string>, claims: Option<C.IdentityClaims>, minted: bool)

  function JourneyOf(env: Env, http: HttpRequest): Journey {
    match Refusal(http)
    case Some(status) => Journey(Some(status), None, None, false)
    case None =>
      match Resolve(env, http.body.value)
      case Err(_) => Journey(None, None, None, false)
      case Ok(a) =>
        match Adapters.Exchange(a, env.world, http.body.value.subjectToken, env.exchangeAt)
        case Err(_) => Journey(None, Some(a.TokenType()), None, false)
        case Ok(result) => Journey(None, Some(a.TokenType()), Some(result.claims), env.signerWorks)
  }

  const TOKEN_TYPES := {TYPE_JWT, TYPE_SAML2, TYPE_HMAC, TYPE_OPAQUE}

  function MethodOf(tokenType: string): string {
    if tokenType == TYPE_SAML2 then "saml" else "legacy"
  }

  /** Stages are reached in order, under the name of one of the four adapters, and the adapter
      gives the auth method. */
  predicate ValidJourney(j: Journey) {
    && (j.refusal.Some? ==> 400 <= j.refusal.value && j.adapter.None?)
    && (j.adapter.Some? ==> j.adapter.value in TOKEN_TYPES)
    && (j.claims.Some? ==> j.adapter.Some? && j.claims.value.authMethod == MethodOf(j.adapter.value))
    && (j.minted ==> j.claims.Some?)
  }

  /** A granted request's journey is through its adapter to the adapter's claims. */
  lemma GrantedJourney(env: Env, http: HttpRequest)
    requires Serve(env, http).Granted?
    ensures JourneyOf(env, http) == Journey(None, Some(GrantedAdapter(env, http).TokenType()), Some(GrantedResult(env, http).claims), true)
  {}

  /** A request's journey is well ordered, and ends in a minted token exactly when the request is
      granted; the claims it reaches never have the PCI flag. */
  lemma JourneyIsValid(env: Env, http: HttpRequest)
    ensures ValidJourney(JourneyOf(env, http))
    ensures JourneyOf(env, http).minted <==> Serve(env, http).Granted?
    ensures JourneyOf(env, http).claims.Some? ==> !JourneyOf(env, http).claims.value.pciScope
  {
    TokenTypesDiffer();
    if Refusal(http).None? && Resolve(env, http.body.value).Ok? {
      var a := Resolve(env, http.body.value).value;
      if Adapters.Exchange(a, env.world, http.body.value.subjectToken, env.exchangeAt).Ok? {
        ExchangeProvenance(a, env.world, http.body.value.subjectToken, env.exchangeAt);
      }
    }
  }

  // ----- from the adapter to the token -----

  function GrantedAdapter(env: Env, http: HttpRequest): Adapter
    requires Serve(env, http).Granted?
  {
    Resolve(env, http.body.value).value
  }

  /** What the adapter made of the subject token of a granted request. */
  function GrantedResult(env: Env, http: HttpRequest): ExchangeResult
    requires Serve(env, http).Granted?
  {
    Adapters.Exchange(GrantedAdapter(env, http), env.world, http.body.value.subjectToken, env.exchangeAt).value
  }

  /** The window of a token issued in this environment: 300 seconds from the second it was minted
      in. */
  predicate InWindow(env: Env, later: int) {
    var second := 1_000_000_000;
    env.mintAt / second * second <= later < (env.mintAt / second + 300) * second
  }

  /** For every granted request, at any later instant: the issued token validates under a key
      exactly when that is the service's and the instant is in its window; then the validated
      claims and subject are the adapter's result, for the audience the request asked for, if any;
      issuer, trust and auth method are those the subject token stands for; expires_in is the
      token's lifetime. */
  lemma GrantedIdentity(env: Env, http: HttpRequest, key: C.Key, later: int)
    requires Serve(env, http).Granted?
    ensures var token := Serve(env, http).response.accessToken;
            var validated := C.Validate(token, "identity-fabric.internal", key, later);
            var a, result := GrantedAdapter(env, http), GrantedResult(env, http);
            && (validated.Ok? <==> key == env.signingKey && InWindow(env, later))
            && (validated.Ok? ==>
                var v := validated.value;
                && v.claims == result.claims && v.registered.subject == result.subject && v.registered.id == env.id
                && v.registered.audience == (if http.body.value.audience == "" then [] else [http.body.value.audience]))
            && TrustIsConfigured(a, env.world, http.body.value.subjectToken, result.claims)
            && result.claims.authMethod == (if a.SamlAdapter? then "saml" else "legacy")
    ensures var response := Serve(env, http).response;
            var issued, expires := response.accessToken.content.registered.issuedAt, response.accessToken.content.registered.expiresAt;
            response.expiresIn == 300 && issued.Some? && expires == Some(issued.value + 300_000_000_000)
  {
    var req := http.body.value;
    var result := GrantedResult(env, http);
    var config := C.DefaultConfig(env.signingKey);
    ExchangeProvenance(GrantedAdapter(env, http), env.world, req.subjectToken, env.exchangeAt);
    C.MintedValidity(config, result.subject, Audience(req), result.claims, env.mintAt, env.id, config.issuer, key, later);
    C.WholeSecondWindow(env.mintAt, 5 * C.MINUTE);
  }
}
