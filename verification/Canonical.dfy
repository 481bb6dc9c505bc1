/** The canonical token: minting, the claim checks of validation (RFC 7519, sections 4.1.1,
    4.1.4, 4.1.5 and 4.1.6) and the time arithmetic between them. Instants and durations are
    nanoseconds; a numeric date is an instant cut to whole seconds. */
module Canonical {
  import opened Sequences

  const SECOND := 1_000_000_000
  const MINUTE := 60 * SECOND

  const TRUST_MEDIUM := "medium"
  const TRUST_LOW := "low"
  const AUTH_SAML := "saml"
  const AUTH_LEGACY := "legacy"
  const FABRIC_ISSUER := "identity-fabric.internal"

  /** The expires_in of every successful exchange response, in seconds. */
  const EXPIRES_IN := 300

  datatype IdentityClaims = IdentityClaims(orgId: string, roles: seq<string>, authMethod: string, originalIssuer: string,
                                           trustLevel: string, pciScope: bool, serviceName: string)

  datatype RegisteredClaims = RegisteredClaims(issuer: string, subject: string, audience: seq<string>,
                                               expiresAt: Option<int>, notBefore: Option<int>, issuedAt: Option<int>, id: string)

  datatype CanonicalClaims = CanonicalClaims(registered: RegisteredClaims, claims: IdentityClaims)

  type Key = nat

  /** A signed token is its claims, the key that signed them and the kid of its header: a signature
      verifies under the signing key and under no other. */
  datatype SignedToken = SignedToken(content: CanonicalClaims, signer: Key, kid: Option<string>)

  datatype TokenConfig = TokenConfig(issuer: string, defaultTtl: int, pciTtl: int, signingKey: Key)

  function DefaultConfig(signingKey: Key): TokenConfig {
    TokenConfig(FABRIC_ISSUER, 5 * MINUTE, 60 * SECOND, signingKey)
  }

  /** jwt.NewNumericDate: Truncate(time.Second). */
  function NumericDate(t: int): int { t / SECOND * SECOND }

  function TtlFor(config: TokenConfig, claims: IdentityClaims): int {
    if claims.pciScope then config.pciTtl else config.defaultTtl
  }

  /** Mint sets no kid. */
  function Mint(config: TokenConfig, subject: string, audience: seq<string>, claims: IdentityClaims, now: int, id: string): SignedToken {
    var expiry := NumericDate(now + TtlFor(config, claims));
    var registered := RegisteredClaims(config.issuer, subject, audience, Some(expiry), None, Some(NumericDate(now)), id);
    SignedToken(CanonicalClaims(registered, claims), config.signingKey, None)
  }

  datatype ClaimError = ExpiryMissing | TokenExpired | NotValidYet | UsedBeforeIssued | IssuerMissing | IssuerWrong

  datatype ValidationError = SignatureInvalid | ClaimsInvalid(errors: set<ClaimError>)

  /** The checks a parser with WithExpirationRequired, WithIssuedAt and WithIssuer(issuer) makes;
      an empty expected issuer is not checked. */
  function ClaimErrors(r: RegisteredClaims, issuer: string, now: int): set<ClaimError> {
    (if r.expiresAt.None? then {ExpiryMissing} else if now >= r.expiresAt.value then {TokenExpired} else {})
    + (if r.notBefore.Some? && now < r.notBefore.value then {NotValidYet} else {})
    + (if r.issuedAt.Some? && now < r.issuedAt.value then {UsedBeforeIssued} else {})
    + (if issuer == "" then {} else if r.issuer == "" then {IssuerMissing} else if r.issuer != issuer then {IssuerWrong} else {})
  }

  function Validate(token: SignedToken, issuer: string, key: Key, now: int): Result<CanonicalClaims, ValidationError> {
    if token.signer != key then Err(SignatureInvalid)
    else
      var errors := ClaimErrors(token.content.registered, issuer, now);
      if errors != {} then Err(ClaimsInvalid(errors)) else Ok(token.content)
  }

  /** A token validates exactly when it is signed with the key, has an expiry that is ahead, is
      past its notBefore and issuedAt if it has them, and names the issuer if one is asked; it
      then yields its claims. */
  lemma ValidateIff(token: SignedToken, issuer: string, key: Key, now: int)
    ensures var registered := token.content.registered;
            var r := Validate(token, issuer, key, now);
            && (r.Ok? <==>
                && token.signer == key
                && registered.expiresAt.Some? && now < registered.expiresAt.value
                && (registered.notBefore.Some? ==> registered.notBefore.value <= now)
                && (registered.issuedAt.Some? ==> registered.issuedAt.value <= now)
                && (issuer != "" ==> registered.issuer == issuer))
            && (r.Ok? ==> r.value == token.content)
  {
    var registered := token.content.registered;
    var errors := ClaimErrors(registered, issuer, now);
    assert ExpiryMissing in errors <==> registered.expiresAt.None?;
    assert TokenExpired in errors <==> registered.expiresAt.Some? && now >= registered.expiresAt.value;
    assert NotValidYet in errors <==> registered.notBefore.Some? && now < registered.notBefore.value;
    assert UsedBeforeIssued in errors <==> registered.issuedAt.Some? && now < registered.issuedAt.value;
    assert IssuerMissing in errors || IssuerWrong in errors <==> issuer != "" && registered.issuer != issuer;
  }

  // ----- lifetimes -----

  /** Truncating both ends of a lifetime rounds it down or up to whole seconds, up exactly when
      the fractions of start and ttl together reach a second. */
  lemma TruncatedLifetime(now: int, ttl: int)
    ensures NumericDate(now + ttl) - NumericDate(now)
            == NumericDate(ttl) + if now % SECOND + ttl % SECOND >= SECOND then SECOND else 0
  {
    var a, b := now / SECOND, ttl / SECOND;
    var f := now % SECOND + ttl % SECOND;
    assert now + ttl == (a + b) * SECOND + f;
  }

  function MintedExpiry(token: SignedToken): int
    requires token.content.registered.expiresAt.Some?
  {
    token.content.registered.expiresAt.value
  }

  function MintedIssue(token: SignedToken): int
    requires token.content.registered.issuedAt.Some?
  {
    token.content.registered.issuedAt.value
  }

  /** exp - iat is the ttl rounded down or up to whole seconds, and the ttl itself exactly when
      that is a whole number of seconds. */
  lemma MintedLifetime(config: TokenConfig, subject: string, audience: seq<string>, claims: IdentityClaims, now: int, id: string)
    ensures var token := Mint(config, subject, audience, claims, now, id);
            var life := MintedExpiry(token) - MintedIssue(token);
            var ttl := TtlFor(config, claims);
            && (life == NumericDate(ttl) || life == NumericDate(ttl + SECOND - 1))
            && (life == ttl <==> ttl % SECOND == 0)
  {
    TruncatedLifetime(now, TtlFor(config, claims));
  }

  /** A minted token validates exactly under its signing key, for its issuer (or with none
      asked), and from the second it was minted in until its cut expiry, that excluded; and then
      it yields the minted claims. */
  lemma MintedValidity(config: TokenConfig, subject: string, audience: seq<string>, claims: IdentityClaims, now: int, id: string,
                       issuer: string, key: Key, later: int)
    ensures var token := Mint(config, subject, audience, claims, now, id);
            var r := Validate(token, issuer, key, later);
            && (r.Ok? <==>
                && key == config.signingKey
                && (issuer == "" || issuer == config.issuer)
                && NumericDate(now) <= later < NumericDate(now + TtlFor(config, claims)))
            && (r.Ok? ==> r.value.claims == claims && r.value.registered.subject == subject
                          && r.value.registered.audience == audience && r.value.registered.id == id)
  {
    ValidateIff(Mint(config, subject, audience, claims, now, id), issuer, key, later);
  }

  /** With a ttl of whole seconds the window is floor(now) <= later < floor(now) + ttl. */
  lemma WholeSecondWindow(now: int, ttl: int)
    requires ttl % SECOND == 0
    ensures NumericDate(now + ttl) == NumericDate(now) + ttl
  {
    TruncatedLifetime(now, ttl);
  }

  /** Under the default configuration the reported expires_in is the token's lifetime, 300 seconds,
      exactly for tokens without the PCI flag; those with it live 60 seconds. */
  lemma ExpiresInIsLifetime(signingKey: Key, subject: string, audience: seq<string>, claims: IdentityClaims, now: int, id: string)
    ensures var token := Mint(DefaultConfig(signingKey), subject, audience, claims, now, id);
            && MintedExpiry(token) - MintedIssue(token) == (if claims.pciScope then 60_000_000_000 else 300_000_000_000)
            && (MintedExpiry(token) - MintedIssue(token) == EXPIRES_IN * SECOND <==> !claims.pciScope)
  {
    WholeSecondWindow(now, TtlFor(DefaultConfig(signingKey), claims));
  }
}
