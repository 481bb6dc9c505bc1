/** The consumer's side: Client.ValidateToken of the Go SDK, which takes its key from the JWKS cache,
    and when it accepts the tokens the exchange endpoint issues. */
module Sdk {
  import opened Sequences
  import opened Base64
  import opened JwksCache
  import opened Exchange
  import C = Canonical

  /** What the SDK keeps of a validated token. */
  datatype Identity = Identity(subject: string, orgId: string, roles: seq<string>, authMethod: string, trustLevel: string, pciScope: bool)

  datatype SdkError = KeysUnavailable | LookupFailed(error: LookupError) | Rejected(reason: C.ValidationError)

  /** What a signature verifier makes of a value handed to it as a key; None if it takes no such
      value. */
  type KeyReader = Bytes -> Option<C.Key>

  /** A key function: the key for a header's kid, None inside Ok for a value that is no key. */
  type KeyFunc = Option<string> -> Result<Option<C.Key>, LookupError>

  /** validateCanonicalJWT: the key, the signature, the claims, in that order. */
  function ValidateCanonicalJwt(token: C.SignedToken, keyFunc: KeyFunc, now: int): Result<C.CanonicalClaims, SdkError> {
    match keyFunc(token.kid)
    case Err(e) => Err(LookupFailed(e))
    case Ok(None) => Err(Rejected(C.SignatureInvalid))
    case Ok(Some(key)) =>
      match C.Validate(token, C.FABRIC_ISSUER, key, now)
      case Err(e) => Err(Rejected(e))
      case Ok(claims) => Ok(claims)
  }

  ghost function CacheKey(c: Cache, keyOf: KeyReader, kid: Option<string>): Result<Option<C.Key>, LookupError> {
    match AtomicLookup(c, kid)
    case Err(e) => Err(e)
    case Ok(raw) => Ok(keyOf(raw))
  }

  /** The key function the cache hands out, over the cache as the lookup finds it. */
  ghost function CacheKeys(c: Cache, keyOf: KeyReader): KeyFunc {
    kid => CacheKey(c, keyOf, kid)
  }

  /** Client.ValidateToken: `refreshed` is the reply of the cache's refresh, `c` the cache as the
      lookup after it finds it. */
  ghost function ValidateToken(refreshed: Reply, c: Cache, keyOf: KeyReader, token: C.SignedToken, now: int): Result<Identity, SdkError> {
    if refreshed == Failed then Err(KeysUnavailable)
    else
      match ValidateCanonicalJwt(token, CacheKeys(c, keyOf), now)
      case Err(e) => Err(e)
      case Ok(v) => Ok(Identity(v.registered.subject, v.claims.orgId, v.claims.roles, v.claims.authMethod, v.claims.trustLevel, v.claims.pciScope))
  }

  /** An issued token passes validateCanonicalJWT exactly when the key function answers a header
      without kid with the service's key, inside the token's window; and then with the claims of
      the adapter's result. */
  lemma GrantedTokenAccepted(env: Env, http: HttpRequest, keyFunc: KeyFunc, later: int)
    requires Serve(env, http).Granted?
    ensures var r := ValidateCanonicalJwt(Serve(env, http).response.accessToken, keyFunc, later);
            && (r.Ok? <==> keyFunc(None) == Ok(Some(env.signingKey)) && InWindow(env, later))
            && (r.Ok? ==> r.value.claims == GrantedResult(env, http).claims && r.value.registered.subject == GrantedResult(env, http).subject)
  {
    if keyFunc(None).Ok? && keyFunc(None).value.Some? {
      GrantedIdentity(env, http, keyFunc(None).value.value, later);
    }
  }

  /** The SDK accepts an issued token exactly when its refresh succeeded, the cache holds a single
      key (the token names none) that reads as the service's, and the instant is in the token's
      window; and then it reads the identity the adapter found. */
  lemma SdkAcceptsIff(env: Env, http: HttpRequest, refreshed: Reply, c: Cache, keyOf: KeyReader, later: int)
    requires Serve(env, http).Granted?
    ensures var r := ValidateToken(refreshed, c, keyOf, Serve(env, http).response.accessToken, later);
            && (r.Ok? <==>
                && refreshed == Ready
                && |c.keys| == 1 && keyOf(OnlyValue(c.keys)) == Some(env.signingKey)
                && InWindow(env, later))
            && (r.Ok? ==>
                var result := GrantedResult(env, http);
                && r.value.subject == result.subject
                && r.value.orgId == result.claims.orgId
                && r.value.roles == result.claims.roles
                && r.value.authMethod == result.claims.authMethod
                && r.value.trustLevel == result.claims.trustLevel
                && r.value.pciScope == false)
  {
    GrantedTokenAccepted(env, http, CacheKeys(c, keyOf), later);
    GrantedJourney(env, http);
    JourneyIsValid(env, http);
    assert CacheKeys(c, keyOf)(None) == CacheKey(c, keyOf, None);
  }

  ghost predicate AcceptsSome(keyOf: KeyReader) {
    exists c: Cache, token: C.SignedToken, now: int :: ValidateToken(Ready, c, keyOf, token, now).Ok?
  }

  /** The SDK can accept a token, issued or not, exactly when some stored value reads as a key. */
  lemma AcceptsSomeIff(keyOf: KeyReader)
    ensures AcceptsSome(keyOf) <==> exists raw: Bytes :: keyOf(raw).Some?
  {
    if raw: Bytes :| keyOf(raw).Some? {
      var c := Cache(map["k" := raw], ZERO_TIME);
      var registered := C.RegisteredClaims(C.FABRIC_ISSUER, "", [], Some(1), None, None, "");
      var claims := C.IdentityClaims("", [], "", "", "", false, "");
      var token := C.SignedToken(C.CanonicalClaims(registered, claims), keyOf(raw).value, Some("k"));
      assert CacheKeys(c, keyOf)(token.kid) == CacheKey(c, keyOf, token.kid);
      assert C.ClaimErrors(registered, C.FABRIC_ISSUER, 0) == {};
      assert ValidateToken(Ready, c, keyOf, token, 0).Ok?;
    }
    if c: Cache, token: C.SignedToken, now: int :| ValidateToken(Ready, c, keyOf, token, now).Ok? {
      var raw := AtomicLookup(c, token.kid).value;
      assert keyOf(raw).Some?;
    }
  }

  /** How golang-jwt v5 reads what this cache stores: ES256 takes an *ecdsa.PublicKey and nothing
      else, and a json.RawMessage is none, whatever JSON it holds. */
  function RawMessageAsKey(raw: Bytes): Option<C.Key> { None }

  /** So the SDK as written accepts no token, at any instant, from any cache. */
  lemma SdkAcceptsNothing(refreshed: Reply, c: Cache, token: C.SignedToken, now: int)
    ensures !AcceptsSome(RawMessageAsKey)
    ensures ValidateToken(refreshed, c, RawMessageAsKey, token, now).Err?
  {
    AcceptsSomeIff(RawMessageAsKey);
  }
}
