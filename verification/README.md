# Identity Fabric: verified model of token exchange

A Dafny 4.11 model of the token-exchange service, the key cache of its Go SDK and the session
application beside it, with proofs over all inputs, all iteration orders and all interleavings.

`dafny verify dfyconfig.toml` checks everything.

## What is modelled

- **Token classifier** (`Base64`, `Classifier`, `SessionApp`, `Registry`). Tokens are byte strings.
  Go's base64 decoder is written out (CR and LF skipped, trailing bits ignored); JSON is any function
  from bytes to documents. `Registry.Detect` ranges over a Go map, so its answer is that of some
  iteration order. The order matters exactly when two adapters accept. {JWT, HMAC} and {opaque, SAML}
  never meet; JWT and HMAC meet on one shape of token; opaque and SAML meet exactly on the alphanumeric
  encodings of marker-bearing texts of 12 to 192 bytes. So the detection of the wired server is *not*
  a function of the token (`Registry.WiredOrderMatters` gives one), and the condition for that is exact.
  Tokens the system itself issues are safe in every order: hex session tokens, compact tokens from
  `Mint`, and assertions of more than 192 bytes.
- **Key cache** (`JwksCache`, `JwksSteps`). The struct as a class, proved against an atomic "if stale,
  fetch" object, and the same code as a step system: every lock operation, age check, store and clock
  reading of every goroutine is its own step, `keys` and `fetchedAt` being stored in two steps.
  Every run is linearizable to the atomic object, refreshes are at least ttl apart, an interval of
  length L holds at most 1 + floor(L / ttl) of them when ttl is positive, and the locks never
  deadlock. The request is made under the write lock by a client without timeout, so one that is never
  answered stops every other call (`JwksSteps.ProgressIff`). A call that stalls between reading the
  clock and storing the reading can succeed without the cache having been fresh at any moment of it;
  `JwksSteps.FieldFreshIff` says exactly when.
- **Exchange pipeline** (`Canonical`, `Adapters`, `Exchange`, `EndToEnd`, `Sdk`). Minting and validation with second
  truncation, the four adapters, the endpoint, and what the SDK makes of the issued token. `EndToEnd`
  follows the tokens of the mock applications through all of it.
- **Metrics** (`MetricsSteps`, `Middleware`). Middleware and handler on shared counters: one request
  alone as classes and methods, any number of requests as a step system. A labelled counter is the
  multiset of the labels it was incremented with. The conservation laws hold in every reachable state.
  Off the exchange path, which the server's mux never routes there, the middleware would count nothing
  and the handler still its own (`Middleware.IssuedMatchesSuccess`).
- **Configuration and text** (`TrustedIssuers`, `KeyFetch`, `Roles`, with `Sequences` and `MapWrites`
  below them). The issuer list parser, the start-up key fetch against an arbitrary network, role lists
  and SAML attributes. Text is a sequence of Unicode characters.

Where code and documents differ the model follows the code. `docs/adr/001-canonical-token-format.md`
gives PCI tokens 60 seconds, but no adapter sets the PCI flag and the endpoint always reports 300
(`Canonical.ExpiresInIsLifetime`, `Adapters.ExchangeProvenance`). The design document has detection
give one type per token; `Registry.OrderMattersWhenWired` says when it does not. A SAML subject whose
role attributes are blank or missing gets one empty role, not none (`Roles.SamlRolesBlankIff`).

The SDK is there to validate the issued tokens. It would for a cache of a single key that reads as the
service's (`Sdk.SdkAcceptsIff`: minted tokens name no key). But the cache hands out the raw JSON of a
key, and golang-jwt v5 verifies ES256 with an `*ecdsa.PublicKey` only, so that as written it accepts
nothing (`Sdk.SdkAcceptsNothing`; the library is not part of this model, `Sdk.RawMessageAsKey` states
what is taken from it).

Instants are integers in nanoseconds. The clock of `JwksSteps` never goes back: `time.Now` carries a
monotonic reading; it starts more than a `time.Duration` after the zero time, which is the year 1. A
signature verifies under the signing key and no other.

## Model

| member | source | states |
|---|---|---|
| Base64.RoundTrip | services/token-exchange/internal/adapter/saml_adapter.go:41 | every byte string, encoded in either alphabet, decodes back (RFC 4648 sections 4 and 5) through the decoder that skips newlines |
| Base64.Vectors | local-dev/mock-services/saml-app/main.go:53 | the test vectors of RFC 4648 section 10 that end in three, two and one bytes |
| Base64.NewlinesIgnored | services/token-exchange/internal/adapter/saml_adapter.go:41 | a CR or LF anywhere makes no difference to decoding |
| Base64.TrailingBitsIgnored | services/token-exchange/internal/adapter/hmac_adapter.go:44-47 | nor do the spare bits of a last letter |
| Base64.LetterTable | services/token-exchange/internal/adapter/saml_adapter.go:41 | the letters are those of the two tables of RFC 4648 |
| Base64.DecodesIffWellPadded | services/token-exchange/internal/adapter/saml_adapter.go:41-44 | standard decoding succeeds exactly on multiples of four letters with at most two closing pads |
| Base64.RawDecodesIff | services/token-exchange/internal/adapter/hmac_adapter.go:44-47 | raw URL decoding succeeds exactly on section 5 letters of length not 1 mod 4 |
| Base64.EncodedLength | local-dev/mock-services/saml-app/main.go:53 | encoded length is 4 * ceil(n / 3) padded and ceil(4n / 3) raw |
| Sequences.SplitUnique | services/token-exchange/internal/adapter/jwt_adapter.go:47 | splitting gives the only separator-free parts whose join is the string |
| Classifier.SamlIff | services/token-exchange/internal/adapter/saml_adapter.go:40-47 | SAML accepts exactly the tokens that decode to a text around "<saml", "<Assertion" or "saml2:" |
| Classifier.MarkedIsSaml | services/token-exchange/internal/adapter/saml_adapter.go:40-47 | every text around one of the three, once encoded, is accepted |
| Classifier.OpaqueIff | services/token-exchange/internal/adapter/opaque_adapter.go:35-45 | opaque accepts exactly 16 to 256 letters of the section 5 alphabet |
| Classifier.RawIsOpaqueIff | services/token-exchange/internal/adapter/opaque_adapter.go:35-60 | so the raw encoding of a value is opaque exactly for 12 to 192 bytes |
| Classifier.DottedAndDotlessDisjoint | services/token-exchange/internal/adapter/jwt_adapter.go:46-58 | no string is both {JWT or HMAC} and {opaque or SAML} |
| Classifier.JwtHmacOverlap | services/token-exchange/internal/adapter/hmac_adapter.go:39-54 | JWT and HMAC both accept exactly h.p.s whose h decodes to an object with non-null alg and a service_id key |
| Classifier.OpaqueSamlOverlap | services/token-exchange/internal/adapter/opaque_adapter.go:35-45 | opaque and SAML both accept exactly the alphanumeric encodings of marker-bearing texts of 12, 15, ..., 192 bytes |
| Classifier.OverlapWitness | services/token-exchange/internal/adapter/saml_adapter.go:40-47 | PHNhbWwAAAAAAAAA is accepted by both |
| Classifier.EncodedAssertion | local-dev/mock-services/saml-app/main.go:53 | an encoded text with a marker is SAML, never dotted, and opaque exactly when 12 to 192 bytes, a multiple of 3 and free of + and / |
| Classifier.LongAssertionOnlySaml | services/token-exchange/internal/adapter/opaque_adapter.go:36 | the encoding exceeds 256 characters iff the text exceeds 192 bytes, and then a marked text is SAML only |
| Classifier.CompactTokenClassified | services/token-exchange/internal/canonical/token.go:85-86 | a compact token is JWT iff its header has alg, HMAC iff it has service_id, and neither opaque nor SAML |
| Classifier.HmacTokenClassified | services/token-exchange/internal/adapter/hmac_adapter.go:39-54 | a token b64(p) + "." + b64(s) is HMAC iff p is an object with a service_id, and nothing else |
| Classifier.HmacSegmentsRoundTrip | services/token-exchange/internal/adapter/hmac_adapter.go:57-85 | cutting b64(p) + "." + b64(s) at the first dot and decoding recovers p and s |
| SessionApp.HexIsNeverSaml | services/token-exchange/internal/adapter/saml_adapter.go:40-47 | no lowercase hex text, of any length, with newlines or pads anywhere, decodes to a text with a SAML marker |
| SessionApp.SessionTokenOnlyOpaque | local-dev/mock-services/opaque-token-app/main.go:46-49 | every token the login can issue is accepted by the opaque detector and no other |
| SessionApp.HexEncodeTable | local-dev/mock-services/opaque-token-app/main.go:49 | each byte becomes two digits of 0123456789abcdef, the high one first |
| SessionApp.HexEncodeInjective | local-dev/mock-services/opaque-token-app/main.go:49 | different draws give different tokens |
| SessionApp.SessionTable.Login | local-dev/mock-services/opaque-token-app/main.go:46-62 | the table gains exactly the new session under the hex of the draw |
| SessionApp.SessionTable.Validate | local-dev/mock-services/opaque-token-app/main.go:72-95 | the answer is by header, presence and expiry in that order |
| SessionApp.LoginThenValidate | local-dev/mock-services/opaque-token-app/main.go:46-95 | a fresh token answers its session up to 24 hours later, that instant included, and expired after; other draws' answers do not change; missing and unknown tokens are told apart |
| Registry.Registry.Register | services/token-exchange/internal/adapter/adapter.go:49-51 | the adapter is filed under its own token type, over any earlier one |
| Registry.Registry.Get | services/token-exchange/internal/adapter/adapter.go:53-59 | the adapter found has the type asked for; none is found exactly when no registered adapter has it |
| Registry.Registry.Detect | services/token-exchange/internal/adapter/adapter.go:61-68 | the answer is that of some order of ranging over the map |
| Registry.DetectAnswers | services/token-exchange/internal/adapter/adapter.go:61-68 | over all orders the possible answers are exactly the registered adapters that accept, and none exactly when none accepts |
| Registry.OrderMattersIffAmbiguous | services/token-exchange/internal/adapter/adapter.go:61-68 | two orders can answer differently exactly when two adapters accept |
| Registry.OrderMattersWithAll | services/token-exchange/internal/adapter/adapter.go:61-68 | with all four adapters the order matters exactly on the JWT/HMAC shape and on opaque-looking assertions |
| Registry.OrderMattersWhenWired | services/token-exchange/cmd/server/main.go:54-77 | with the server's three adapters it matters exactly on opaque-looking assertions |
| Registry.WiredOrderMatters | services/token-exchange/cmd/server/main.go:54-77 | it does matter for PHNhbWwAAAAAAAAA |
| Registry.SessionTokenDetected | services/token-exchange/internal/adapter/adapter.go:61-68 | every session token goes to the opaque adapter in every order |
| Registry.LongAssertionDetected | services/token-exchange/internal/adapter/adapter.go:61-68 | every encoded marked text over 192 bytes goes to the SAML adapter in every order |
| Registry.CompactTokenDetected | services/token-exchange/internal/adapter/adapter.go:61-68 | every compact token with alg and without service_id goes to the JWT adapter in every order |
| Registry.WireRegistry | services/token-exchange/cmd/server/main.go:51-77 | the three wired adapters, the JWT one with issuers and keys from the same entries |
| JwksCache.FetchedKeysAreLast | sdk/go/jwks.go:95-103 | the fetched map has exactly the non-empty kids, each with its last entry's raw JSON |
| JwksCache.RefreshThenLookup | sdk/go/jwks.go:48-108 | after status 200 with a body that decodes, a kid looks up the raw JSON of its last entry or is unknown; after anything else the cache is unchanged and the refresh fails |
| JwksCache.JwksCache.Fetch | sdk/go/jwks.go:79-108 | a failed fetch changes nothing; a good one sets keys and fetchedAt together |
| JwksCache.JwksCache.RefreshIfStale | sdk/go/jwks.go:56-73 | undisturbed, it is the atomic refresh at the first check or at the stamp |
| JwksCache.JwksCache.LookupKey | sdk/go/jwks.go:34-53 | it is the atomic lookup; without a kid, the only key or an error |
| JwksCache.LookupWithoutKidIff | sdk/go/jwks.go:38-46 | a lookup without kid succeeds iff the cache holds one key, and gives its value |
| JwksCache.LookupWithoutKidDeterministic | sdk/go/jwks.go:38-46 | ranging over a one-key map has one outcome |
| JwksCache.SinceIsNearest | sdk/go/jwks.go:58 | time.Since is the elapsed time or the nearest 64-bit Duration |
| JwksSteps.InvHolds | sdk/go/jwks.go:56-73 | in every reachable state the lock holders are the program points inside the locks, writers exclude all others, and whoever is fetching found the cache stale and it still is |
| JwksSteps.StampMonotone | sdk/go/jwks.go:105-106 | fetchedAt never goes back and only the stamp sets it, to the clock reading its writer took |
| JwksSteps.NoDeadlock | sdk/go/jwks.go:56-73 | while a call is under way some call can step, without a reader overtaking a waiting writer, or be answered by the network |
| JwksSteps.ProgressIff | sdk/go/jwks.go:56-80 | without an answer of the network calls get on iff no request is under way or one of them is returning |
| JwksSteps.FetchHoldsUpOthers | sdk/go/jwks.go:68-80 | during a request no other goroutine gets either lock: it can only make a call, or return from one |
| JwksSteps.CallIsShort | sdk/go/jwks.go:29-73 | a call takes at most twelve steps of its own in any run |
| JwksSteps.StepRefines | sdk/go/jwks.go:29-108 | every step leaves the abstract cache alone or is one atomic operation |
| JwksSteps.RunRefines | sdk/go/jwks.go:29-108 | every run of the interleaved cache is a run of the atomic object |
| JwksSteps.CallsTakeEffectOnce | sdk/go/jwks.go:29-73 | each call takes effect exactly once, between call and return, and returns that operation's result |
| JwksSteps.StoresAnswer | sdk/go/jwks.go:95-105 | what a goroutine stores is the last answer it was given by the endpoint |
| JwksSteps.EffectIsAnswer | sdk/go/jwks.go:95-106 | a refresh takes effect with that answer |
| JwksSteps.CacheIsPublished | sdk/go/jwks.go:105-106 | outside the two stores the fields are the answer the last goroutine to stamp was given and the instant it read |
| JwksSteps.ReadersSeeOneFetch | sdk/go/jwks.go:35-52 | under the read lock, keys and fetchedAt are of the same completed fetch: that answer and that instant |
| JwksSteps.SuccessFreshIff | sdk/go/jwks.go:29-32 | a nil-error refresh had a moment inside the call with age below ttl, exactly when ttl > 0; for a fetching call the moment of its clock reading |
| JwksSteps.FieldFreshIff | sdk/go/jwks.go:56-106 | fetchedAt was younger than ttl at some moment of a call iff it was so when the call was made or some store during the call was in time |
| JwksSteps.SuccessSawFieldFresh | sdk/go/jwks.go:56-73 | a successful call without such a moment has stored a reading already stale itself |
| JwksSteps.LateStore | sdk/go/jwks.go:106 | for every positive ttl some successful call has none: stale when made, and its one store late |
| JwksSteps.SuccessNeedsFetch | sdk/go/jwks.go:20-32 | no refresh returns a nil error before a fetch has completed |
| JwksSteps.RefreshesAreSpaced | sdk/go/jwks.go:65-73 | successive successful refreshes are at least ttl apart in every run |
| JwksSteps.RefreshBound | sdk/go/jwks.go:65-73 | any interval of length L holds at most 1 + floor(L / ttl) of them |
| JwksSteps.NothingSkipped | sdk/go/jwks.go:56-73 | with a ttl of zero or less every refresh is a fetch |
| JwksSteps.BoundedIffPositive | sdk/go/jwks.go:56-73 | the number of successful refreshes of one instant is bounded iff ttl is positive |
| Canonical.TruncatedLifetime | services/token-exchange/internal/canonical/token.go:78-79 | truncating both ends rounds the ttl down or up, up exactly when the fractions reach a second |
| Canonical.MintedLifetime | services/token-exchange/internal/canonical/token.go:66-81 | exp - iat is floor or ceiling of ttl, and ttl itself iff that is whole seconds |
| Canonical.ValidateIff | services/token-exchange/internal/canonical/token.go:91-121 | any token validates iff signed with the key, with an exp ahead, past its nbf and iat, from the issuer asked; and yields its claims |
| Canonical.MintedValidity | services/token-exchange/internal/canonical/token.go:107-121 | a minted token validates iff key and issuer match and floor(now) <= later < floor(now + ttl), and yields the minted claims |
| Canonical.WholeSecondWindow | services/token-exchange/internal/canonical/token.go:78 | for whole-second ttl the window ends at floor(now) + ttl |
| Canonical.ExpiresInIsLifetime | services/token-exchange/internal/exchange/handler.go:172-177 | under the default configuration tokens live 300 seconds, the reported expires_in, and with the PCI flag 60 |
| Adapters.ExchangeProvenance | services/token-exchange/internal/adapter/jwt_adapter.go:83-92 | a successful exchange has no PCI flag, auth method saml or legacy by adapter, and the original issuer and trust configured for the issuer the token names (medium for sessions, low for HMAC) |
| Adapters.HmacTokenExchanges | services/token-exchange/internal/adapter/hmac_adapter.go:56-111 | an HMAC token is exchanged iff its payload parses, its service has a secret and the signature is the MAC of the payload; and then to the service |
| Adapters.AssertionExchanges | services/token-exchange/internal/adapter/saml_adapter.go:79-111 | an encoded assertion is exchanged iff its issuer is configured and its readable NotOnOrAfter is not past; with subject, organisation (org_id before org), roles, issuer and trust of the claims |
| Adapters.SessionExchanges | services/token-exchange/internal/adapter/opaque_adapter.go:47-65 | a session token is exchanged iff the store knows it, to the session's user, organisation, roles and issuer |
| Adapters.CanMeetUntrustedIff | services/token-exchange/internal/adapter/jwt_adapter.go:63-77 | an adapter can meet the untrusted-issuer error iff it has a key for an issuer without configuration |
| Adapters.WiredJwtNeverUntrusted | services/token-exchange/cmd/server/main.go:250-263 | in the server's wiring it never arises, and a token is exchanged iff it verifies |
| Adapters.WiredJwtExchangedIff | services/token-exchange/internal/adapter/jwt_adapter.go:60-77 | in the server's wiring a token is exchanged iff it parses, has an exp ahead, is past its nbf, and is signed with the key loaded for an entry of its iss |
| Adapters.WiredJwtClaims | services/token-exchange/internal/adapter/jwt_adapter.go:79-131 | subject is sub, organisation org, issuer iss, if strings; roles are the strings of a perms array, the comma parts of a perms string, else none |
| Adapters.WiredJwtTrust | services/token-exchange/cmd/server/main.go:168-182 | a JWT's trust is the trust of the last entry naming its issuer |
| Exchange.JourneyIsValid | services/token-exchange/internal/exchange/handler.go:54-178 | stages are reached in order under one of four adapter names, the auth method is the adapter's, and minting is reached exactly by granted requests |
| Exchange.GrantedIdentity | services/token-exchange/internal/exchange/handler.go:135-177 | the issued token validates under a key iff that is the service's and the instant is in the 300-second window; it then carries the adapter's result for the audience asked, with the issuer, trust and auth method the subject token stands for, and expires_in is its lifetime |
| EndToEnd.SessionToken | local-dev/mock-services/opaque-token-app/main.go:46-95 | a session token, detected in any order or typed, is granted exactly for 24 hours after login, to the session's user; else 401 |
| EndToEnd.Assertion | services/token-exchange/cmd/server/main.go:68-77 | a marked assertion over 192 bytes is granted iff of the legacy provider and not past, with medium trust; else 401 |
| EndToEnd.LegacyJwt | services/token-exchange/cmd/server/main.go:51-66 | under the default issuer list a compact token is granted iff current, of legacy-jwt-issuer and signed with its loaded key, with medium trust; else 401 |
| EndToEnd.HmacToken | services/token-exchange/internal/adapter/hmac_adapter.go:39-111 | with the HMAC adapter registered, a token of a known service is granted iff its MAC is right, with low trust; else 401 |
| Sdk.GrantedTokenAccepted | sdk/go/helpers.go:24-42 | validateCanonicalJWT accepts an issued token iff the key function answers a header without kid with the service's key, inside the window, and then yields the adapter's claims |
| Sdk.SdkAcceptsIff | sdk/go/identity.go:89-108 | ValidateToken accepts an issued token iff the refresh succeeded, the cache holds one key, its stored value reads as the service's key, and the instant is in the window; it then reads the adapter's identity |
| Sdk.AcceptsSomeIff | sdk/go/identity.go:89-108 | the SDK can accept some token iff some stored value reads as a key |
| Sdk.SdkAcceptsNothing | sdk/go/jwks.go:95-105 | with the raw JSON the cache stores, which ES256 verification does not take as a key, it accepts no token at any instant |
| MetricsSteps.RunIsAccounted | services/token-exchange/internal/observability/middleware.go:70-101 | in every interleaving each counter is what the requests' program points say they added |
| MetricsSteps.GaugeLaw | services/token-exchange/internal/observability/middleware.go:77-78 | the gauge is the number in flight; started = active + finished |
| MetricsSteps.DurationAndTotalAgree | services/token-exchange/internal/observability/middleware.go:98-99 | per label, histogram = counter + requests between the two updates; one increment a completion |
| MetricsSteps.RequestLabelLaw | services/token-exchange/internal/observability/middleware.go:85-99 | the request counter of an adapter and status is the number of requests past it so resolved ("unknown" if not) and so ended |
| MetricsSteps.AdapterLabelLaw | services/token-exchange/internal/exchange/handler.go:139 | the histogram count of an adapter is the number of requests whose exchange with it was observed |
| MetricsSteps.IssuedLaw | services/token-exchange/internal/exchange/handler.go:170 | tokens issued = success completions + in-flight requests past issuance; label unknown has no success |
| MetricsSteps.IssuedLabelLaw | services/token-exchange/internal/exchange/handler.go:170 | the issued counter of a trust level and auth method is the number of requests past issuance with both in their claims |
| MetricsSteps.IssuedByMethod | services/token-exchange/internal/exchange/handler.go:170 | tokens issued under saml are the SAML adapter's successes and under legacy the others', each plus in-flight requests past issuance, none at quiescence |
| MetricsSteps.ObservationsDecrease | services/token-exchange/internal/exchange/handler.go:135-170 | adapter observations >= mint observations >= tokens issued |
| MetricsSteps.AdapterLaw | services/token-exchange/internal/exchange/handler.go:139 | per adapter, observations = successes + errors + served requests not yet counted |
| MetricsSteps.QuiescentLaws | services/token-exchange/internal/observability/middleware.go:85-99 | at quiescence all laws are equalities label by label and the gauge is zero |
| MetricsSteps.RunAloneCompletes | services/token-exchange/internal/observability/middleware.go:70-101 | the steps of one uninterrupted request add up to one completed request |
| Exchange.ResolveSpec | services/token-exchange/internal/exchange/handler.go:98-120 | a given type resolves to the adapter of that type, no type to any accepting adapter and no other; each of the two errors arises exactly when there is none |
| Exchange.ServeIff | services/token-exchange/internal/exchange/handler.go:54-93 | 405 iff not POST; 400 iff POST without decodable body, with another grant type or an empty token; 401 iff no adapter, the adapter refuses or signing fails; no other refusal |
| Middleware.Conclude | services/token-exchange/internal/exchange/handler.go:135-177 | result and counters after the adapter's answer |
| Middleware.RunExchange | services/token-exchange/internal/exchange/handler.go:95-178 | the exchange result, the adapter noted on the writer, and the journey's counters |
| Middleware.ServeHttp | services/token-exchange/internal/exchange/handler.go:54-93 | the answer, the final status and adapter on the writer, and the journey's counters |
| Middleware.Observe | services/token-exchange/internal/observability/middleware.go:83-99 | labels from the writer into histogram and counter, gauge released |
| Middleware.ServeWithMetrics | services/token-exchange/internal/observability/middleware.go:70-101 | on the exchange path exactly one completed request with the journey's labels, the adapter noted on the middleware's writer only; on other paths the handler's own counters; the outer writer has the answer's status on both |
| Middleware.IssuedMatchesSuccess | services/token-exchange/internal/observability/middleware.go:72-75 | a request keeps tokens issued and successes counted in step iff it is on the exchange path or refused |
| TrustedIssuers.ParseTrustedIssuers | services/token-exchange/cmd/server/main.go:141-166 | the loop collects the entries of the segments in order |
| TrustedIssuers.TrimSpec | services/token-exchange/cmd/server/main.go:145 | trimming drops outer white space (Unicode) and nothing else |
| TrustedIssuers.SpaceTable | services/token-exchange/cmd/server/main.go:145 | white space is the 25 characters Unicode gives that property |
| TrustedIssuers.SegmentEntries | services/token-exchange/cmd/server/main.go:144-163 | a segment yields an entry exactly when it has an equals sign, and a well-formed one |
| TrustedIssuers.EntryWithoutTrust | services/token-exchange/cmd/server/main.go:155-158 | an entry without a trust level has medium trust |
| TrustedIssuers.ParseJoined | services/token-exchange/cmd/server/main.go:144 | the entries of two lists around a semicolon are those of both, in order |
| TrustedIssuers.ParsePrint | services/token-exchange/cmd/server/main.go:141-166 | parse(print(entries)) = entries exactly when every entry is free of delimiters and outer white space |
| TrustedIssuers.PrintParse | services/token-exchange/cmd/server/main.go:141-166 | for every raw text, parse after print after parse is parse |
| TrustedIssuers.EnvironmentRoundTrip | services/token-exchange/cmd/server/main.go:142 | through the environment, whose empty value means the default, this holds exactly when the variable is empty or has an equals sign |
| TrustedIssuers.DefaultIssuers | services/token-exchange/cmd/server/main.go:142 | without the variable there is the one legacy issuer, with medium trust |
| TrustedIssuers.BuildTrustedIssuerConfig | services/token-exchange/cmd/server/main.go:168-182 | the loop leaves the replay of the entries' writes |
| TrustedIssuers.ConfigIsLastEntry | services/token-exchange/cmd/server/main.go:168-182 | the configured issuers are the entry names, each as its last entry says, with roles from perms and organisation from org |
| KeyFetch.LastKeySpec | services/token-exchange/cmd/server/main.go:211-222 | the key of a body is its last parseable EC key |
| KeyFetch.ParseKeySpec | services/token-exchange/cmd/server/main.go:211-214 | an EC key with base64url coordinates parses to them (main.go:233-248); another type or bad coordinates do not |
| KeyFetch.BigEndianFirst | services/token-exchange/cmd/server/main.go:243-246 | coordinates are read with the first byte most significant |
| KeyFetch.StoreKeys | services/token-exchange/cmd/server/main.go:211-222 | the innermost loop stores that key under the entry's name, or nothing |
| KeyFetch.TryEntry | services/token-exchange/cmd/server/main.go:197-228 | between one and ten requests, ending at the first error-free response after which the name has a key |
| KeyFetch.RepeatedName | services/token-exchange/cmd/server/main.go:197-228 | an entry whose name is loaded stops at its first answer that is no error; ten errors change nothing |
| KeyFetch.FetchAllJwks | services/token-exchange/cmd/server/main.go:192-231 | the loops terminate with at most 10n requests and the keys of FetchAll |
| KeyFetch.LoadedKeysAreSupplied | services/token-exchange/cmd/server/main.go:192-231 | a name is loaded iff an entry of that name ends with a key, and holds the last such entry's: the last parseable EC key of the last response requested for it |
| KeyFetch.DistinctNamesStopAtFirstYield | services/token-exchange/cmd/server/main.go:224-226 | with distinct names an entry stops at its first response with a key, which is the one loaded |
| KeyFetch.LoadedNamesAreTrusted | services/token-exchange/cmd/server/main.go:51-61 | the loaded names are among the configured issuers |
| Roles.ExtractStringSlice | services/token-exchange/internal/adapter/jwt_adapter.go:108-131 | the roles of an array (its strings, in order), of a comma string, or none |
| Roles.StringItemsSpec | services/token-exchange/internal/adapter/jwt_adapter.go:117-124 | the strings of an array are kept in order and anything else passed over |
| Roles.ArrayAndCommaFormsAgree | services/token-exchange/internal/adapter/jwt_adapter.go:117-127 | both forms give equal roles iff the list is non-empty and no role has a comma |
| Roles.ExtractSamlAttributes | services/token-exchange/internal/adapter/saml_adapter.go:135-149 | the nested loops leave the attribute map of the document |
| Roles.CollectedIsLast | services/token-exchange/internal/adapter/saml_adapter.go:135-149 | each name holds the comma-join of its last attribute, in document order, that has a value |
| Roles.SamlRolesFlattened | services/token-exchange/internal/adapter/saml_adapter.go:105 | the last valued roles attribute or, that being blank or missing, the last valued role attribute, gives each of its values split by comma, in order |
| Roles.BlankJoin | services/token-exchange/internal/adapter/saml_adapter.go:113-120 | values join to the empty string iff there are none or one empty one |
| Roles.SamlRolesBlankIff | services/token-exchange/internal/adapter/saml_adapter.go:105 | the role list is never empty, and is one empty role iff both attributes are blank or missing |

## Left out

- HTTP, environment access, signals, sleeping, logging, tracing spans and correlation ids: plumbing; an answer of the network is any value.
- Parsing of JSON, XML and JWT texts: arbitrary functions of the bytes; that claims survive JSON serialization unchanged is taken for granted.
- ECDSA and HMAC: a signature is the key it was made with, a MAC any function; token ids are parameters, and what a verifier reads a stored key as is a parameter of `Sdk`.
- Text that is not valid UTF-8 in configuration and claims: text is a sequence of Unicode characters. Tokens are bytes and have no such limit.
- Panics inside a request (the gauge would be released, the counters skipped), and the time values put into histograms: only counts are modelled.
- JwksSteps.NoDeadlock: fairness of the read/write lock is not modelled. Some call can always move and each moves a bounded number of times, so all return once no new calls are made and requests are answered; while calls keep arriving, one may wait.
- JwksCache.JwksCache.RefreshIfStale: states the undisturbed call, with the monotone clock as its precondition; interference is the subject of JwksSteps.
- JwksSteps.RefreshBound: asks for a positive ttl; otherwise there is no bound (`JwksSteps.BoundedIffPositive`).
- Middleware.RunExchange: the iteration order that detection meets is a parameter of the request's environment; a registry of its own answers with some order.
- KeyFetch.DistinctNamesStopAtFirstYield: asks for distinct names; with a repeated name a later entry also stops at an error-free response without a key (`KeyFetch.RepeatedName`).
- The SDK's HTTP middleware, policy call and global client, the Rego policies, and deployment files: thin wrappers and single branches.
