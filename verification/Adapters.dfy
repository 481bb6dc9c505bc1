/** The four token adapters: their token types, their detectors, and what exchanging a token
    through them yields. Everything outside the service (JSON, XML and JWT parsing, the session
    and secret stores, the MAC) is a World of arbitrary functions. */
module Adapters {
  import opened Sequences
  import opened Base64
  import opened Json
  import opened Classifier
  import Roles
  import TrustedIssuers
  import KeyFetch
  import C = Canonical

  const TYPE_JWT := "urn:ietf:params:oauth:token-type:jwt"
  const TYPE_SAML2 := "urn:ietf:params:oauth:token-type:saml2"
  const TYPE_HMAC := "urn:identity-fabric:token-type:hmac"
  const TYPE_OPAQUE := "urn:identity-fabric:token-type:opaque"

  datatype SamlIdp = SamlIdp(entityId: string, trustLevel: string)

  datatype Adapter =
    | JwtAdapter(issuers: map<string, TrustedIssuers.TrustedIssuer>, keys: map<string, KeyFetch.PublicKey>)
    | HmacAdapter
    | OpaqueAdapter
    | SamlAdapter(idps: map<string, SamlIdp>)
  {
    function TokenType(): string {
      match this
      case JwtAdapter(_, _) => TYPE_JWT
      case HmacAdapter => TYPE_HMAC
      case OpaqueAdapter => TYPE_OPAQUE
      case SamlAdapter(_) => TYPE_SAML2
    }

    predicate Detect(read: JsonReader, token: Bytes) {
      match this
      case JwtAdapter(_, _) => DetectsJwt(read, token)
      case HmacAdapter => DetectsHmac(read, token)
      case OpaqueAdapter => DetectsOpaque(token)
      case SamlAdapter(_) => DetectsSaml(token)
    }
  }

  lemma TokenTypesDiffer()
    ensures TYPE_JWT != TYPE_SAML2 && TYPE_JWT != TYPE_HMAC && TYPE_JWT != TYPE_OPAQUE
    ensures TYPE_SAML2 != TYPE_HMAC && TYPE_SAML2 != TYPE_OPAQUE && TYPE_HMAC != TYPE_OPAQUE
    ensures "" !in {TYPE_JWT, TYPE_SAML2, TYPE_HMAC, TYPE_OPAQUE}
    ensures "unknown" !in {TYPE_JWT, TYPE_SAML2, TYPE_HMAC, TYPE_OPAQUE}
  {
    assert |TYPE_JWT| == 36 && |TYPE_SAML2| == 38 && |TYPE_HMAC| == 35 && |TYPE_OPAQUE| == 37;
  }

  // ----- the world around the service -----

  /** A parsed foreign JWT: claims, the two times the parser checks, and the key it verifies
      under. */
  datatype ForeignJwt = ForeignJwt(claims: map<string, JsonValue>, exp: Option<int>, nbf: Option<int>, signer: KeyFetch.PublicKey)

  datatype SessionData = SessionData(userId: string, orgId: string, roles: seq<string>, issuer: string)

  datatype SamlAssertion = SamlAssertion(issuer: string, nameId: string, notOnOrAfter: string, statements: seq<Roles.Statement>)

  datatype HmacPayload = HmacPayload(serviceId: string, roles: seq<string>, orgId: string)

  datatype HmacSecret = HmacSecret(serviceName: string, secret: Bytes)

  datatype World = World(readJson: JsonReader,
                         parseJwt: Bytes -> Option<ForeignJwt>,
                         lookupSession: Bytes -> Option<SessionData>,
                         parseSaml: Bytes -> Option<SamlAssertion>,
                         parseTime: string -> Option<int>,
                         parseHmac: Bytes -> Option<HmacPayload>,
                         secretOf: string -> Option<HmacSecret>,
                         mac: (Bytes, Bytes) -> Bytes)

  datatype ExchangeResult = ExchangeResult(subject: string, claims: C.IdentityClaims)

  datatype AdapterError =
    | JwtRejected | UntrustedIssuer(issuer: string)
    | SessionLookupFailed
    | SamlNotBase64 | SamlUnparsed | UntrustedIdp(issuer: string) | SamlExpired
    | HmacMalformed | SecretLookupFailed | HmacSignatureInvalid

  // ----- JWT -----

  /** claims.GetIssuer with its error dropped: a missing or non-string iss reads as empty. */
  function IssuerOf(claims: map<string, JsonValue>): string {
    if "iss" in claims && claims["iss"].JString? then claims["iss"].text else ""
  }

  /** parser.Parse with the key function of the server: the token parses, its issuer has a key,
      the key verifies it, exp is present and ahead, nbf (if present) is not. */
  predicate Verifies(keys: map<string, KeyFetch.PublicKey>, w: World, token: Bytes, now: int) {
    match w.parseJwt(token)
    case None => false
    case Some(jwt) =>
      && IssuerOf(jwt.claims) in keys
      && jwt.signer == keys[IssuerOf(jwt.claims)]
      && jwt.exp.Some? && now < jwt.exp.value
      && (jwt.nbf.Some? ==> jwt.nbf.value <= now)
  }

  function ExchangeJwt(issuers: map<string, TrustedIssuers.TrustedIssuer>, keys: map<string, KeyFetch.PublicKey>,
                       w: World, token: Bytes, now: int): Result<ExchangeResult, AdapterError> {
    if !Verifies(keys, w, token, now) then Err(JwtRejected)
    else
      var claims := w.parseJwt(token).value.claims;
      var issuer := IssuerOf(claims);
      if issuer !in issuers then Err(UntrustedIssuer(issuer))
      else
        var trusted := issuers[issuer];
        Ok(ExchangeResult(
             Roles.ExtractClaim(claims, trusted.claimMap.subjectField, "sub"),
             C.IdentityClaims(Roles.ExtractClaim(claims, trusted.claimMap.orgIdField, "org_id"),
                              Roles.ClaimRoles(claims, trusted.claimMap.rolesField, "roles"),
                              C.AUTH_LEGACY, issuer, trusted.trustLevel, false, "")))
  }

  // ----- the other three -----

  function ExchangeOpaque(w: World, token: Bytes): Result<ExchangeResult, AdapterError> {
    match w.lookupSession(token)
    case None => Err(SessionLookupFailed)
    case Some(s) => Ok(ExchangeResult("user:" + s.userId, C.IdentityClaims(s.orgId, s.roles, C.AUTH_LEGACY, s.issuer, C.TRUST_MEDIUM, false, "")))
  }

  /** NotOnOrAfter counts only when present and readable as a time. */
  predicate SamlPastExpiry(w: World, a: SamlAssertion, now: int) {
    a.notOnOrAfter != "" && w.parseTime(a.notOnOrAfter).Some? && now > w.parseTime(a.notOnOrAfter).value
  }

  function ExchangeSaml(idps: map<string, SamlIdp>, w: World, token: Bytes, now: int): Result<ExchangeResult, AdapterError> {
    match DecodeString(StdEncoding, token)
    case None => Err(SamlNotBase64)
    case Some(text) =>
      match w.parseSaml(text)
      case None => Err(SamlUnparsed)
      case Some(a) =>
        if a.issuer !in idps then Err(UntrustedIdp(a.issuer))
        else if SamlPastExpiry(w, a, now) then Err(SamlExpired)
        else
          var attrs := Roles.Collected(a.statements);
          Ok(ExchangeResult(
               "user:" + a.nameId,
               C.IdentityClaims(Roles.Coalesce(Roles.Lookup(attrs, "org_id"), Roles.Lookup(attrs, "org")),
                                Roles.SamlRoles(attrs), C.AUTH_SAML, idps[a.issuer].entityId, idps[a.issuer].trustLevel, false, "")))
  }

  function ExchangeHmac(w: World, token: Bytes): Result<ExchangeResult, AdapterError> {
    match HmacSegments(token)
    case None => Err(HmacMalformed)
    case Some((payloadBytes, signatureBytes)) =>
      match w.parseHmac(payloadBytes)
      case None => Err(HmacMalformed)
      case Some(payload) =>
        match w.secretOf(payload.serviceId)
        case None => Err(SecretLookupFailed)
        case Some(secret) =>
          match signatureBytes
          case None => Err(HmacMalformed)
          case Some(signature) =>
            if signature != w.mac(secret.secret, payloadBytes) then Err(HmacSignatureInvalid)
            else Ok(ExchangeResult("service:" + payload.serviceId,
                                   C.IdentityClaims(payload.orgId, payload.roles, C.AUTH_LEGACY, payload.serviceId, C.TRUST_LOW, false, secret.serviceName)))
  }

  function Exchange(a: Adapter, w: World, token: Bytes, now: int): Result<ExchangeResult, AdapterError> {
    match a
    case JwtAdapter(issuers, keys) => ExchangeJwt(issuers, keys, w, token, now)
    case HmacAdapter => ExchangeHmac(w, token)
    case OpaqueAdapter => ExchangeOpaque(w, token)
    case SamlAdapter(idps) => ExchangeSaml(idps, w, token, now)
  }

  /** The issuer a token names: its iss, the issuer of its session or of its assertion, or the
      service of its payload. */
  function NamedIssuer(a: Adapter, w: World, token: Bytes): Option<string> {
    match a
    case JwtAdapter(_, _) =>
      (match w.parseJwt(token)
       case None => None
       case Some(jwt) => Some(IssuerOf(jwt.claims)))
    case HmacAdapter =>
      (match HmacSegments(token)
       case None => None
       case Some((payloadBytes, _)) =>
         match w.parseHmac(payloadBytes)
         case None => None
         case Some(payload) => Some(payload.serviceId))
    case OpaqueAdapter =>
      (match w.lookupSession(token)
       case None => None
       case Some(session) => Some(session.issuer))
    case SamlAdapter(_) =>
      (match DecodeString(StdEncoding, token)
       case None => None
       case Some(text) =>
         match w.parseSaml(text)
         case None => None
         case Some(assertion) => Some(assertion.issuer))
  }

  /** The original issuer and the trust level are the configured ones of the issuer the token
      names; sessions have medium trust and HMAC tokens low. */
  predicate TrustIsConfigured(a: Adapter, w: World, token: Bytes, claims: C.IdentityClaims) {
    match NamedIssuer(a, w, token)
    case None => false
    case Some(issuer) =>
      match a
      case JwtAdapter(issuers, keys) =>
        issuer in keys && issuer in issuers && claims.originalIssuer == issuer && claims.trustLevel == issuers[issuer].trustLevel
      case HmacAdapter => claims.originalIssuer == issuer && claims.trustLevel == "low"
      case OpaqueAdapter => claims.originalIssuer == issuer && claims.trustLevel == "medium"
      case SamlAdapter(idps) =>
        issuer in idps && claims.originalIssuer == idps[issuer].entityId && claims.trustLevel == idps[issuer].trustLevel
  }

  /** Whatever the world answers: a successful exchange never sets the PCI flag, its auth method
      is saml for the SAML adapter and legacy for the others, and its issuer and trust are those
      configured for the issuer the token names. */
  lemma ExchangeProvenance(a: Adapter, w: World, token: Bytes, now: int)
    requires Exchange(a, w, token, now).Ok?
    ensures var claims := Exchange(a, w, token, now).value.claims;
            && !claims.pciScope
            && claims.authMethod == (if a.SamlAdapter? then "saml" else "legacy")
            && TrustIsConfigured(a, w, token, claims)
  {}

  /** An HMAC token is exchanged exactly when its payload parses, names a service with a secret,
      and the signature is the MAC of the payload bytes under that secret; and then to the
      service, with its roles and organisation. */
  lemma HmacTokenExchanges(w: World, payloadBytes: Bytes, signature: Bytes)
    ensures var r := Exchange(HmacAdapter, w, HmacForm(payloadBytes, signature), 0);
            match w.parseHmac(payloadBytes)
            case None => r.Err?
            case Some(payload) =>
              match w.secretOf(payload.serviceId)
              case None => r.Err?
              case Some(secret) =>
                && (r.Ok? <==> signature == w.mac(secret.secret, payloadBytes))
                && (r.Ok? ==> r.value.subject == "service:" + payload.serviceId
                              && r.value.claims == C.IdentityClaims(payload.orgId, payload.roles, "legacy", payload.serviceId, "low", false, secret.serviceName))
  {
    HmacSegmentsRoundTrip(payloadBytes, signature);
  }

  /** The last instant at which an assertion may be used, if it gives a readable one. */
  function UsableUntil(w: World, a: SamlAssertion): Option<int> {
    if a.notOnOrAfter == "" then None else w.parseTime(a.notOnOrAfter)
  }

  /** An encoded assertion is exchanged exactly when its issuer is a configured provider and its
      NotOnOrAfter, if given and readable, is not past; the subject is its NameID, the organisation
      the org_id attribute or else org, the roles those of the attributes, and issuer and trust the
      provider's. */
  lemma AssertionExchanges(idps: map<string, SamlIdp>, w: World, text: Bytes, a: SamlAssertion, now: int)
    requires w.parseSaml(text) == Some(a)
    ensures var r := Exchange(SamlAdapter(idps), w, Encode(StdEncoding, text), now);
            var attrs := Roles.Collected(a.statements);
            && (r.Ok? <==> a.issuer in idps && (UsableUntil(w, a).Some? ==> now <= UsableUntil(w, a).value))
            && (r.Ok? ==>
                && r.value.subject == "user:" + a.nameId
                && r.value.claims.orgId == (if "org_id" in attrs && attrs["org_id"] != "" then attrs["org_id"]
                                            else if "org" in attrs then attrs["org"] else "")
                && r.value.claims.roles == Roles.SamlRoles(attrs)
                && r.value.claims.originalIssuer == idps[a.issuer].entityId && r.value.claims.trustLevel == idps[a.issuer].trustLevel
                && r.value.claims.authMethod == "saml" && r.value.claims.serviceName == "")
  {
    RoundTrip(StdEncoding, text);
  }

  /** A session token is exchanged exactly when the session store knows it, and then to the
      session's user, organisation, roles and issuer, with medium trust. */
  lemma SessionExchanges(w: World, token: Bytes, now: int)
    ensures var r := Exchange(OpaqueAdapter, w, token, now);
            match w.lookupSession(token)
            case None => r.Err?
            case Some(s) =>
              r == Ok(ExchangeResult("user:" + s.userId, C.IdentityClaims(s.orgId, s.roles, "legacy", s.issuer, "medium", false, "")))
  {}

  // ----- the server's wiring -----

  const LEGACY_IDP := "https://legacy-idp.example.com/saml"

  /** The JWT adapter main builds: issuers and keys come from the same entries. */
  function WiredJwt(net: KeyFetch.Network, entries: seq<TrustedIssuers.Entry>): Adapter {
    JwtAdapter(TrustedIssuers.IssuerConfig(entries), KeyFetch.FetchAll(net, entries).keys)
  }

  function WiredSaml(): Adapter {
    SamlAdapter(map[LEGACY_IDP := SamlIdp(LEGACY_IDP, C.TRUST_MEDIUM)])
  }

  /** The untrusted-issuer branch is taken exactly by verified tokens whose issuer has a key but
      no configuration. */
  lemma UntrustedIssuerIff(issuers: map<string, TrustedIssuers.TrustedIssuer>, keys: map<string, KeyFetch.PublicKey>,
                           w: World, token: Bytes, now: int)
    ensures (exists i :: ExchangeJwt(issuers, keys, w, token, now) == Err(UntrustedIssuer(i)))
            <==> Verifies(keys, w, token, now) && IssuerOf(w.parseJwt(token).value.claims) in keys.Keys - issuers.Keys
  {
    if Verifies(keys, w, token, now) && IssuerOf(w.parseJwt(token).value.claims) !in issuers {
      assert ExchangeJwt(issuers, keys, w, token, now) == Err(UntrustedIssuer(IssuerOf(w.parseJwt(token).value.claims)));
    }
  }

  /** The world in which every token is a verified one of this issuer. */
  function WorldOf(issuer: string, key: KeyFetch.PublicKey): World {
    World(_ => Malformed, _ => Some(ForeignJwt(map["iss" := JString(issuer)], Some(1), None, key)), _ => None, _ => None,
          _ => None, _ => None, _ => None, (_, _) => [])
  }

  ghost predicate CanMeetUntrusted(issuers: map<string, TrustedIssuers.TrustedIssuer>, keys: map<string, KeyFetch.PublicKey>) {
    exists w: World, token: Bytes, now: int, i: string :: ExchangeJwt(issuers, keys, w, token, now) == Err(UntrustedIssuer(i))
  }

  /** A JWT adapter can meet an untrusted issuer exactly when it has a key without a configuration. */
  lemma CanMeetUntrustedIff(issuers: map<string, TrustedIssuers.TrustedIssuer>, keys: map<string, KeyFetch.PublicKey>)
    ensures CanMeetUntrusted(issuers, keys) <==> !(keys.Keys <= issuers.Keys)
  {
    if i :| i in keys && i !in issuers {
      assert ExchangeJwt(issuers, keys, WorldOf(i, keys[i]), [], 0) == Err(UntrustedIssuer(i));
    }
    if w: World, token: Bytes, now: int, i: string :| ExchangeJwt(issuers, keys, w, token, now) == Err(UntrustedIssuer(i)) {
      UntrustedIssuerIff(issuers, keys, w, token, now);
    }
  }

  /** In the server's wiring, whatever the issuer list and the network at start-up, a verified
      token is always exchanged: the untrusted-issuer branch is dead. */
  lemma WiredJwtNeverUntrusted(net: KeyFetch.Network, entries: seq<TrustedIssuers.Entry>, w: World, token: Bytes, now: int)
    ensures var a := WiredJwt(net, entries);
            && (forall i :: Exchange(a, w, token, now) != Err(UntrustedIssuer(i)))
            && (Exchange(a, w, token, now).Ok? <==> Verifies(a.keys, w, token, now))
  {
    var a := WiredJwt(net, entries);
    KeyFetch.LoadedNamesAreTrusted(net, entries);
    UntrustedIssuerIff(a.issuers, a.keys, w, token, now);
  }

  /** The text of a string claim, empty when there is none. */
  function TextClaim(claims: map<string, JsonValue>, name: string): string {
    if name in claims then match claims[name] case JString(text) => text case _ => "" else ""
  }

  /** The key that verifies the token came from an answer for an entry of the name its iss gives:
      the last such entry that got one. */
  ghost predicate SignedUnderEntry(net: KeyFetch.Network, entries: seq<TrustedIssuers.Entry>, jwt: ForeignJwt, e: nat) {
    && KeyFetch.Supplies(net, entries, e, TextClaim(jwt.claims, "iss"))
    && KeyFetch.Supply(net, entries, e) == Some(jwt.signer)
  }

  /** In the server's wiring a token is exchanged exactly when it parses, has an exp that is ahead,
      is past its nbf if it has one, and is signed with the key loaded for an entry of its iss. */
  lemma WiredJwtExchangedIff(net: KeyFetch.Network, entries: seq<TrustedIssuers.Entry>, w: World, token: Bytes, now: int)
    ensures Exchange(WiredJwt(net, entries), w, token, now).Ok?
            <==> match w.parseJwt(token)
                 case None => false
                 case Some(jwt) =>
                   && jwt.exp.Some? && now < jwt.exp.value
                   && (jwt.nbf.Some? ==> jwt.nbf.value <= now)
                   && exists e: nat :: SignedUnderEntry(net, entries, jwt, e)
  {
    WiredJwtNeverUntrusted(net, entries, w, token, now);
    if w.parseJwt(token).Some? {
      var jwt := w.parseJwt(token).value;
      WiredKeyIff(net, entries, jwt);
    }
  }

  lemma WiredKeyIff(net: KeyFetch.Network, entries: seq<TrustedIssuers.Entry>, jwt: ForeignJwt)
    ensures var keys := KeyFetch.FetchAll(net, entries).keys;
            IssuerOf(jwt.claims) in keys && jwt.signer == keys[IssuerOf(jwt.claims)]
            <==> exists e: nat :: SignedUnderEntry(net, entries, jwt, e)
  {
    var iss := IssuerOf(jwt.claims);
    KeyFetch.LoadedKeysAreSupplied(net, entries, iss);
    if iss in KeyFetch.FetchAll(net, entries).keys {
      var e: nat :| KeyFetch.Supplies(net, entries, e, iss);
      assert SignedUnderEntry(net, entries, jwt, e) <==> jwt.signer == KeyFetch.FetchAll(net, entries).keys[iss];
    }
  }

  /** Then the subject is its sub, the organisation its org and the issuer its iss, as far as they
      are strings; the roles are the strings of a perms array, the parts of a perms string, else
      none. */
  lemma WiredJwtClaims(net: KeyFetch.Network, entries: seq<TrustedIssuers.Entry>, w: World, token: Bytes, now: int)
    requires Exchange(WiredJwt(net, entries), w, token, now).Ok?
    ensures var result := Exchange(WiredJwt(net, entries), w, token, now).value;
            var claims := w.parseJwt(token).value.claims;
            && result.subject == TextClaim(claims, "sub")
            && result.claims.orgId == TextClaim(claims, "org")
            && result.claims.originalIssuer == TextClaim(claims, "iss")
            && result.claims.serviceName == ""
            && result.claims.roles ==
               if "perms" in claims then
                 match claims["perms"]
                 case JString(text) => Split(text, ',')
                 case JArray(items) => Roles.StringItems(items)
                 case _ => []
               else []
  {
    TrustedIssuers.ConfiguredClaimMap(entries, IssuerOf(w.parseJwt(token).value.claims));
  }

  /** In the server's wiring a JWT's trust is the trust of the last entry that names its issuer. */
  lemma WiredJwtTrust(net: KeyFetch.Network, entries: seq<TrustedIssuers.Entry>, w: World, token: Bytes, now: int, i: nat)
    requires Exchange(WiredJwt(net, entries), w, token, now).Ok?
    requires i < |entries| && entries[i].name == Exchange(WiredJwt(net, entries), w, token, now).value.claims.originalIssuer
    requires forall j | i < j < |entries| :: entries[j].name != entries[i].name
    ensures Exchange(WiredJwt(net, entries), w, token, now).value.claims.trustLevel == entries[i].trust
  {
    TrustedIssuers.ConfigIsLastEntry(entries, entries[i].name);
  }
}
