/** Tokens of the mock applications through the whole server: from the login or the identity
    provider to the claims of the issued token. */
module EndToEnd {
  import opened Sequences
  import opened Base64
  import opened Json
  import opened Classifier
  import opened Adapters
  import opened Registry
  import opened Exchange
  import SessionApp
  import TrustedIssuers
  import KeyFetch
  import C = Canonical

  /** A request to exchange a token, of a type given or left to detection. */
  function Asking(token: Bytes, tokenType: string, audience: string): HttpRequest {
    HttpRequest("POST", Some(TokenRequest("urn:ietf:params:oauth:grant-type:token-exchange", token, tokenType, audience)))
  }

  /** The session store: the session application, asked at some instant. */
  function StoreAnswer(sessions: map<Bytes, SessionApp.Session>, token: Bytes, now: int): Option<SessionData> {
    match SessionApp.Answer(sessions, token, now)
    case Err(_) => None
    case Ok(s) => Some(SessionData(s.userId, s.orgId, s.roles, s.issuer))
  }

  /** A session token is granted exactly for 24 hours after its login, whether its type is given or
      detected and in every iteration order, to the user of the session. */
  lemma SessionToken(env: Env, sessions: map<Bytes, SessionApp.Session>, draw: Bytes, created: int, renewed: int,
                     asked: int, tokenType: string, audience: string)
    requires HasAll(env.adapters) || HasWired(env.adapters)
    requires IterationOrder(env.adapters, env.order) && env.signerWorks
    requires |draw| == 32 && tokenType in {"", "urn:identity-fabric:token-type:opaque"}
    requires var after := sessions[SessionApp.HexEncode(draw) := SessionApp.NewSession(created, renewed)];
             env.world.lookupSession(SessionApp.HexEncode(draw)) == StoreAnswer(after, SessionApp.HexEncode(draw), asked)
    ensures var http := Asking(SessionApp.HexEncode(draw), tokenType, audience);
            if asked <= renewed + 86_400_000_000_000
            then Serve(env, http).Granted?
                 && GrantedResult(env, http)
                    == ExchangeResult("user:" + "user-opaque-1",
                                      C.IdentityClaims("acme-corp", ["order.read"], "legacy", "opaque-token-app", "medium", false, ""))
            else Serve(env, http) == Refused(401)
  {
    StoreKnowsSession(sessions, draw, created, renewed, asked);
    SessionResolves(env, draw, tokenType, audience);
    OpaqueServed(env, SessionApp.HexEncode(draw), tokenType, audience);
  }

  lemma SessionResolves(env: Env, draw: Bytes, tokenType: string, audience: string)
    requires HasAll(env.adapters) || HasWired(env.adapters)
    requires IterationOrder(env.adapters, env.order)
    requires |draw| == 32 && tokenType in {"", "urn:identity-fabric:token-type:opaque"}
    ensures SessionApp.HexEncode(draw) != []
    ensures Resolve(env, Asking(SessionApp.HexEncode(draw), tokenType, audience).body.value) == Ok(OpaqueAdapter)
  {
    SessionApp.HexEncodeShape(draw);
    SessionTokenDetected(env.adapters, env.world.readJson, draw, env.order);
    OpaqueType(env.adapters);
  }

  lemma StoreKnowsSession(sessions: map<Bytes, SessionApp.Session>, draw: Bytes, created: int, renewed: int, asked: int)
    requires |draw| == 32
    ensures var after := sessions[SessionApp.HexEncode(draw) := SessionApp.NewSession(created, renewed)];
            StoreAnswer(after, SessionApp.HexEncode(draw), asked)
            == if asked <= renewed + 86_400_000_000_000
               then Some(SessionData("user-opaque-1", "acme-corp", ["order.read"], "opaque-token-app"))
               else None
  {
    SessionApp.LoginThenValidate(sessions, draw, draw, created, renewed, asked);
  }

  lemma OpaqueServed(env: Env, token: Bytes, tokenType: string, audience: string)
    requires env.signerWorks && token != []
    requires Resolve(env, Asking(token, tokenType, audience).body.value) == Ok(OpaqueAdapter)
    ensures var http := Asking(token, tokenType, audience);
            match env.world.lookupSession(token)
            case None => Serve(env, http) == Refused(401)
            case Some(s) =>
              Serve(env, http).Granted?
              && GrantedResult(env, http)
                 == ExchangeResult("user:" + s.userId, C.IdentityClaims(s.orgId, s.roles, "legacy", s.issuer, "medium", false, ""))
  {
    SessionExchanges(env.world, token, env.exchangeAt);
  }

  /** A marked assertion of the legacy provider over 192 bytes is granted exactly until its
      NotOnOrAfter, with medium trust under auth method saml; one of any other provider is refused. */
  lemma Assertion(env: Env, text: Bytes, a: SamlAssertion, tokenType: string, audience: string)
    requires HasWired(env.adapters) && env.adapters[TYPE_SAML2] == WiredSaml()
    requires IterationOrder(env.adapters, env.order) && env.signerWorks
    requires HasMarker(text) && |text| > 192 && env.world.parseSaml(text) == Some(a)
    requires tokenType in {"", "urn:ietf:params:oauth:token-type:saml2"}
    ensures var http := Asking(Encode(StdEncoding, text), tokenType, audience);
            && (Serve(env, http).Granted?
                <==> a.issuer == "https://legacy-idp.example.com/saml"
                     && (UsableUntil(env.world, a).Some? ==> env.exchangeAt <= UsableUntil(env.world, a).value))
            && (Serve(env, http).Granted? ==>
                var claims := GrantedResult(env, http).claims;
                && claims.originalIssuer == "https://legacy-idp.example.com/saml"
                && claims.trustLevel == "medium" && claims.authMethod == "saml")
            && (Serve(env, http).Refused? ==> Serve(env, http) == Refused(401))
  {
    LongAssertionDetected(env.adapters, env.world.readJson, text, env.order);
    EncodedLength(StdEncoding, text);
    AssertionExchanges(WiredSaml().idps, env.world, text, a, env.exchangeAt);
  }

  /** A compact token under the default issuer list is granted exactly when it is current, names
      legacy-jwt-issuer and is signed with the key loaded for it; its trust is medium. */
  lemma LegacyJwt(env: Env, net: KeyFetch.Network, header: Bytes, payload: Bytes, signature: Bytes, jwt: ForeignJwt,
                  tokenType: string, audience: string)
    requires HasWired(env.adapters) && env.adapters[TYPE_JWT] == WiredJwt(net, TrustedIssuers.Parse(TrustedIssuers.FromEnvironment("")))
    requires IterationOrder(env.adapters, env.order) && env.signerWorks
    requires env.world.readJson(header).Document? && "service_id" !in env.world.readJson(header).fields
    requires "alg" in env.world.readJson(header).fields && env.world.readJson(header).fields["alg"] != JNull
    requires env.world.parseJwt(CompactForm(header, payload, signature)) == Some(jwt)
    requires tokenType in {"", "urn:ietf:params:oauth:token-type:jwt"}
    ensures var http := Asking(CompactForm(header, payload, signature), tokenType, audience);
            && (Serve(env, http).Granted?
                <==> jwt.exp.Some? && env.exchangeAt < jwt.exp.value && (jwt.nbf.Some? ==> jwt.nbf.value <= env.exchangeAt)
                     && TextClaim(jwt.claims, "iss") == "legacy-jwt-issuer"
                     && KeyFetch.FirstKey(net, 0) == Some(jwt.signer))
            && (Serve(env, http).Granted? ==>
                GrantedResult(env, http).claims.originalIssuer == "legacy-jwt-issuer" && GrantedResult(env, http).claims.trustLevel == "medium")
            && (Serve(env, http).Refused? ==> Serve(env, http) == Refused(401))
  {
    var entries := TrustedIssuers.Parse(TrustedIssuers.FromEnvironment(""));
    var token := CompactForm(header, payload, signature);
    TrustedIssuers.DefaultIssuers();
    CompactResolves(env, header, payload, signature, tokenType, audience);
    WiredJwtExchangedIff(net, entries, env.world, token, env.exchangeAt);
    SingleEntryKey(net, entries, jwt);
    if Adapters.Exchange(WiredJwt(net, entries), env.world, token, env.exchangeAt).Ok? {
      WiredJwtTrust(net, entries, env.world, token, env.exchangeAt, 0);
    }
  }

  lemma CompactResolves(env: Env, header: Bytes, payload: Bytes, signature: Bytes, tokenType: string, audience: string)
    requires HasWired(env.adapters) && IterationOrder(env.adapters, env.order)
    requires env.world.readJson(header).Document? && "service_id" !in env.world.readJson(header).fields
    requires "alg" in env.world.readJson(header).fields && env.world.readJson(header).fields["alg"] != JNull
    requires tokenType in {"", "urn:ietf:params:oauth:token-type:jwt"}
    ensures CompactForm(header, payload, signature) != []
    ensures Resolve(env, Asking(CompactForm(header, payload, signature), tokenType, audience).body.value) == Ok(env.adapters[TYPE_JWT])
  {
    CompactTokenDetected(env.adapters, env.world.readJson, header, payload, signature, env.order);
    CompactTokenHasDot(header, payload, signature);
  }

  lemma SingleEntryKey(net: KeyFetch.Network, entries: seq<TrustedIssuers.Entry>, jwt: ForeignJwt)
    requires |entries| == 1
    ensures (exists e: nat :: SignedUnderEntry(net, entries, jwt, e))
            <==> TextClaim(jwt.claims, "iss") == entries[0].name && KeyFetch.FirstKey(net, 0) == Some(jwt.signer)
  {
    assert KeyFetch.FetchAll(net, entries[..0]).keys == map[];
    assert KeyFetch.Supply(net, entries, 0) == KeyFetch.FirstKey(net, 0);
    if TextClaim(jwt.claims, "iss") == entries[0].name && KeyFetch.FirstKey(net, 0) == Some(jwt.signer) {
      assert SignedUnderEntry(net, entries, jwt, 0);
    }
  }

  lemma HmacResolves(env: Env, payload: Bytes, signature: Bytes, tokenType: string, audience: string)
    requires HasAll(env.adapters) && IterationOrder(env.adapters, env.order)
    requires env.world.readJson(payload).Document? && "service_id" in env.world.readJson(payload).fields
    requires tokenType in {"", "urn:identity-fabric:token-type:hmac"}
    ensures HmacForm(payload, signature) != []
    ensures Resolve(env, Asking(HmacForm(payload, signature), tokenType, audience).body.value) == Ok(HmacAdapter)
  {
    var token := HmacForm(payload, signature);
    HmacTokenClassified(env.world.readJson, payload, signature);
    AcceptsByType(env.adapters, env.world.readJson, token);
    UniqueAnswer(env.adapters, TYPE_HMAC, env.world.readJson, token, env.order);
    HmacType(env.adapters);
    assert token[|Encode(RawURLEncoding, payload)|] == 46;
  }

  lemma HmacType(adapters: AdapterMap)
    requires Filed(adapters) && TYPE_HMAC in adapters
    ensures adapters[TYPE_HMAC] == HmacAdapter
  {
    TokenTypesDiffer();
  }

  /** With the HMAC adapter registered, an HMAC token of a known service is granted exactly when its
      signature is the MAC of its payload under the service's secret, to the service, with low trust. */
  lemma HmacToken(env: Env, payload: Bytes, signature: Bytes, parsed: HmacPayload, secret: HmacSecret, tokenType: string, audience: string)
    requires HasAll(env.adapters) && IterationOrder(env.adapters, env.order) && env.signerWorks
    requires env.world.readJson(payload).Document? && "service_id" in env.world.readJson(payload).fields
    requires env.world.parseHmac(payload) == Some(parsed) && env.world.secretOf(parsed.serviceId) == Some(secret)
    requires tokenType in {"", "urn:identity-fabric:token-type:hmac"}
    ensures var http := Asking(HmacForm(payload, signature), tokenType, audience);
            if signature == env.world.mac(secret.secret, payload)
            then Serve(env, http).Granted?
                 && GrantedResult(env, http)
                    == ExchangeResult("service:" + parsed.serviceId,
                                      C.IdentityClaims(parsed.orgId, parsed.roles, "legacy", parsed.serviceId, "low", false, secret.serviceName))
            else Serve(env, http) == Refused(401)
  {
    HmacResolves(env, payload, signature, tokenType, audience);
    HmacTokenExchanges(env.world, payload, signature);
  }
}
