/** The adapter registry. Detect ranges over a Go map, whose order is any order at all. */
module Registry {
  import opened Sequences
  import opened Base64
  import opened Json
  import opened Classifier
  import opened Adapters
  import KeyFetch
  import TrustedIssuers
  import SessionApp

  type AdapterMap = map<string, Adapter>

  /** The adapters are filed under their own token types. */
  predicate Filed(adapters: AdapterMap) {
    forall k | k in adapters :: adapters[k].TokenType() == k
  }

  predicate Accepts(adapters: AdapterMap, k: string, read: JsonReader, token: Bytes) {
    k in adapters && adapters[k].Detect(read, token)
  }

  /** An order in which the map may be ranged over: every key once. */
  ghost predicate IterationOrder(adapters: AdapterMap, order: seq<string>) {
    && (forall k :: k in order <==> k in adapters)
    && (forall i, j | 0 <= i < j < |order| :: order[i] != order[j])
  }

  /** The first adapter along an order that accepts the token. */
  function FirstMatch(adapters: AdapterMap, order: seq<string>, read: JsonReader, token: Bytes): Option<Adapter> {
    if order == [] then None
    else if Accepts(adapters, order[0], read, token) then Some(adapters[order[0]])
    else FirstMatch(adapters, order[1..], read, token)
  }

  class Registry {
    var adapters: AdapterMap

    constructor ()
      ensures adapters == map[]
    {
      adapters := map[];
    }

    method Register(a: Adapter)
      requires Filed(adapters)
      modifies this
      ensures adapters == old(adapters)[a.TokenType() := a]
      ensures Filed(adapters)
    {
      adapters := adapters[a.TokenType() := a];
    }

    /** The registered adapter of that very type; none exactly when no adapter has the type. */
    method Get(tokenType: string) returns (r: Option<Adapter>)
      requires Filed(adapters)
      ensures r.Some? ==> r.value in adapters.Values && r.value.TokenType() == tokenType
      ensures r.None? <==> forall a :: a in adapters.Values ==> a.TokenType() != tokenType
    {
      if tokenType !in adapters {
        return None;
      }
      return Some(adapters[tokenType]);
    }

    /** The answer is that of some iteration order; which one is not determined. */
    method Detect(read: JsonReader, token: Bytes) returns (r: Option<Adapter>)
      ensures exists order :: IterationOrder(adapters, order) && r == FirstMatch(adapters, order, read, token)
    {
      var remaining := adapters.Keys;
      ghost var visited: seq<string> := [];
      while remaining != {}
        invariant remaining <= adapters.Keys
        invariant forall k :: k in visited <==> k in adapters && k !in remaining
        invariant forall i, j | 0 <= i < j < |visited| :: visited[i] != visited[j]
        invariant forall k :: k in visited ==> !Accepts(adapters, k, read, token)
        decreases remaining
      {
        var k :| k in remaining;
        if adapters[k].Detect(read, token) {
          ghost var order := CompleteOrder(adapters, visited, k, remaining - {k});
          SkipRejected(adapters, visited, [k] + Enumerate(remaining - {k}), read, token);
          return Some(adapters[k]);
        }
        visited := visited + [k];
        remaining := remaining - {k};
      }
      SkipRejected(adapters, visited, [], read, token);
      assert visited + [] == visited;
      assert IterationOrder(adapters, visited);
      return None;
    }
  }

  /** Some listing of a set, each element once. */
  ghost function Enumerate(s: set<string>): (order: seq<string>)
    ensures forall k :: k in order <==> k in s
    ensures forall i, j | 0 <= i < j < |order| :: order[i] != order[j]
  {
    if s == {} then []
    else
      var k :| k in s;
      [k] + Enumerate(s - {k})
  }

  /** What was ranged over, the current key and the rest make an iteration order. */
  lemma CompleteOrder(adapters: AdapterMap, visited: seq<string>, k: string, rest: set<string>) returns (order: seq<string>)
    requires forall x :: x in adapters <==> x in visited || x == k || x in rest
    requires k !in visited && k !in rest && forall x :: x in visited ==> x !in rest
    requires forall i, j | 0 <= i < j < |visited| :: visited[i] != visited[j]
    ensures order == visited + ([k] + Enumerate(rest)) && IterationOrder(adapters, order)
  {
    var tail := [k] + Enumerate(rest);
    order := visited + tail;
    forall i, j | 0 <= i < j < |order| ensures order[i] != order[j] {
      if i < |visited| <= j {
        assert order[i] in visited && order[j] == tail[j - |visited|] && tail[j - |visited|] in tail;
      }
    }
  }

  lemma {:induction false} SkipRejected(adapters: AdapterMap, rejected: seq<string>, rest: seq<string>, read: JsonReader, token: Bytes)
    requires forall k :: k in rejected ==> !Accepts(adapters, k, read, token)
    ensures FirstMatch(adapters, rejected + rest, read, token) == FirstMatch(adapters, rest, read, token)
  {
    if rejected == [] {
      assert rejected + rest == rest;
    } else {
      assert (rejected + rest)[1..] == rejected[1..] + rest;
      SkipRejected(adapters, rejected[1..], rest, read, token);
    }
  }

  // ----- does the order matter? -----

  lemma {:induction false} FirstMatchAccepts(adapters: AdapterMap, order: seq<string>, read: JsonReader, token: Bytes)
    ensures FirstMatch(adapters, order, read, token).None? <==> forall k :: k in order ==> !Accepts(adapters, k, read, token)
    ensures FirstMatch(adapters, order, read, token).Some? ==>
              exists k :: k in order && Accepts(adapters, k, read, token) && FirstMatch(adapters, order, read, token) == Some(adapters[k])
  {
    if order != [] {
      assert order == [order[0]] + order[1..];
      FirstMatchAccepts(adapters, order[1..], read, token);
    }
  }

  /** Two different adapters accept the token. */
  ghost predicate Ambiguous(adapters: AdapterMap, read: JsonReader, token: Bytes) {
    exists k, l :: k != l && Accepts(adapters, k, read, token) && Accepts(adapters, l, read, token)
  }

  ghost predicate OrderMatters(adapters: AdapterMap, read: JsonReader, token: Bytes) {
    exists a, b ::
      && IterationOrder(adapters, a) && IterationOrder(adapters, b)
      && FirstMatch(adapters, a, read, token) != FirstMatch(adapters, b, read, token)
  }

  lemma OrderStartingWith(adapters: AdapterMap, k: string, read: JsonReader, token: Bytes) returns (order: seq<string>)
    requires Accepts(adapters, k, read, token)
    ensures IterationOrder(adapters, order)
    ensures FirstMatch(adapters, order, read, token) == Some(adapters[k])
  {
    order := [k] + Enumerate(adapters.Keys - {k});
  }

  /** Detect's answer depends on the iteration order exactly when two adapters accept. */
  lemma OrderMattersIffAmbiguous(adapters: AdapterMap, read: JsonReader, token: Bytes)
    requires Filed(adapters)
    ensures OrderMatters(adapters, read, token) <==> Ambiguous(adapters, read, token)
  {
    if Ambiguous(adapters, read, token) {
      var k, l :| k != l && Accepts(adapters, k, read, token) && Accepts(adapters, l, read, token);
      var a := OrderStartingWith(adapters, k, read, token);
      var b := OrderStartingWith(adapters, l, read, token);
      assert adapters[k].TokenType() != adapters[l].TokenType();
    }
    if OrderMatters(adapters, read, token) {
      var a, b :| IterationOrder(adapters, a) && IterationOrder(adapters, b)
                  && FirstMatch(adapters, a, read, token) != FirstMatch(adapters, b, read, token);
      FirstMatchAccepts(adapters, a, read, token);
      FirstMatchAccepts(adapters, b, read, token);
    }
  }

  /** The possible answers of Detect, over all orders, are exactly the registered adapters that
      accept the token; it finds none, in one order as in another, exactly when none accepts. */
  lemma DetectAnswers(adapters: AdapterMap, read: JsonReader, token: Bytes)
    requires Filed(adapters)
    ensures forall a :: (exists order :: IterationOrder(adapters, order) && FirstMatch(adapters, order, read, token) == Some(a))
                        <==> a in adapters.Values && a.Detect(read, token)
    ensures forall order | IterationOrder(adapters, order) ::
              FirstMatch(adapters, order, read, token).None? <==> forall a :: a in adapters.Values ==> !a.Detect(read, token)
  {
    forall order | IterationOrder(adapters, order)
      ensures FirstMatch(adapters, order, read, token).None? <==> forall a :: a in adapters.Values ==> !a.Detect(read, token)
      ensures forall a | FirstMatch(adapters, order, read, token) == Some(a) :: a in adapters.Values && a.Detect(read, token)
    {
      FirstMatchAccepts(adapters, order, read, token);
      forall a | a in adapters.Values ensures Accepts(adapters, a.TokenType(), read, token) <==> a.Detect(read, token) {}
    }
    forall a | a in adapters.Values && a.Detect(read, token)
      ensures exists order :: IterationOrder(adapters, order) && FirstMatch(adapters, order, read, token) == Some(a)
    {
      var order := OrderStartingWith(adapters, a.TokenType(), read, token);
    }
  }

  /** When exactly one adapter accepts, every order finds it. */
  lemma UniqueAnswer(adapters: AdapterMap, k: string, read: JsonReader, token: Bytes, order: seq<string>)
    requires Filed(adapters) && IterationOrder(adapters, order)
    requires Accepts(adapters, k, read, token)
    requires forall l :: Accepts(adapters, l, read, token) ==> l == k
    ensures FirstMatch(adapters, order, read, token) == Some(adapters[k])
  {
    FirstMatchAccepts(adapters, order, read, token);
    assert k in order;
  }

  // ----- the registries of the service -----

  predicate HasAll(adapters: AdapterMap) {
    Filed(adapters) && adapters.Keys == {TYPE_JWT, TYPE_SAML2, TYPE_OPAQUE, TYPE_HMAC}
  }

  /** The three adapters main registers. */
  predicate HasWired(adapters: AdapterMap) {
    Filed(adapters) && adapters.Keys == {TYPE_JWT, TYPE_SAML2, TYPE_OPAQUE}
  }

  lemma AcceptsByType(adapters: AdapterMap, read: JsonReader, token: Bytes)
    requires Filed(adapters)
    ensures Accepts(adapters, TYPE_JWT, read, token) <==> TYPE_JWT in adapters && DetectsJwt(read, token)
    ensures Accepts(adapters, TYPE_HMAC, read, token) <==> TYPE_HMAC in adapters && DetectsHmac(read, token)
    ensures Accepts(adapters, TYPE_OPAQUE, read, token) <==> TYPE_OPAQUE in adapters && DetectsOpaque(token)
    ensures Accepts(adapters, TYPE_SAML2, read, token) <==> TYPE_SAML2 in adapters && DetectsSaml(token)
  {
    TokenTypesDiffer();
  }

  /** With all four adapters the answer depends on the order exactly on the two overlaps. */
  lemma OrderMattersWithAll(adapters: AdapterMap, read: JsonReader, token: Bytes)
    requires HasAll(adapters)
    ensures OrderMatters(adapters, read, token)
            <==> (exists h, p, s :: JwtHmacShape(read, token, h, p, s)) || (exists text :: OpaqueLookingAssertion(token, text))
  {
    OrderMattersIffAmbiguous(adapters, read, token);
    AcceptsByType(adapters, read, token);
    DottedAndDotlessDisjoint(read, token);
    JwtHmacOverlap(read, token);
    OpaqueSamlOverlap(token);
    TokenTypesDiffer();
  }

  /** With the three adapters of the server it does exactly on opaque-looking assertions. */
  lemma OrderMattersWhenWired(adapters: AdapterMap, read: JsonReader, token: Bytes)
    requires HasWired(adapters)
    ensures OrderMatters(adapters, read, token) <==> exists text :: OpaqueLookingAssertion(token, text)
  {
    OrderMattersIffAmbiguous(adapters, read, token);
    AcceptsByType(adapters, read, token);
    DottedAndDotlessDisjoint(read, token);
    OpaqueSamlOverlap(token);
    TokenTypesDiffer();
  }

  /** The server's Detect is not a function of the token: on PHNhbWwAAAAAAAAA the order decides. */
  lemma WiredOrderMatters(adapters: AdapterMap, read: JsonReader)
    requires HasWired(adapters)
    ensures OrderMatters(adapters, read, WITNESS_TOKEN)
  {
    OverlapWitness();
    OpaqueSamlOverlap(WITNESS_TOKEN);
    OrderMattersWhenWired(adapters, read, WITNESS_TOKEN);
  }

  /** Every session token is sent to the opaque adapter, in every order, with or without HMAC. */
  lemma SessionTokenDetected(adapters: AdapterMap, read: JsonReader, draw: Bytes, order: seq<string>)
    requires HasAll(adapters) || HasWired(adapters)
    requires IterationOrder(adapters, order) && |draw| == SessionApp.TOKEN_BYTES
    ensures FirstMatch(adapters, order, read, SessionApp.HexEncode(draw)) == Some(OpaqueAdapter)
  {
    var token := SessionApp.HexEncode(draw);
    SessionApp.SessionTokenOnlyOpaque(read, draw);
    AcceptsByType(adapters, read, token);
    UniqueAnswer(adapters, TYPE_OPAQUE, read, token, order);
    OpaqueType(adapters);
  }

  lemma OpaqueType(adapters: AdapterMap)
    requires Filed(adapters) && TYPE_OPAQUE in adapters
    ensures adapters[TYPE_OPAQUE] == OpaqueAdapter
  {
    TokenTypesDiffer();
  }

  /** Every encoded assertion of more than 192 bytes is sent to the SAML adapter, in every order. */
  lemma LongAssertionDetected(adapters: AdapterMap, read: JsonReader, text: Bytes, order: seq<string>)
    requires HasAll(adapters) || HasWired(adapters)
    requires IterationOrder(adapters, order) && HasMarker(text) && |text| > 192
    ensures FirstMatch(adapters, order, read, Encode(StdEncoding, text)) == Some(adapters[TYPE_SAML2])
  {
    var token := Encode(StdEncoding, text);
    LongAssertionOnlySaml(read, text);
    AcceptsByType(adapters, read, token);
    UniqueAnswer(adapters, TYPE_SAML2, read, token, order);
  }

  /** Every compact token whose header has an alg and no service_id, which is what Mint signs, is
      sent to the JWT adapter, in every order. */
  lemma CompactTokenDetected(adapters: AdapterMap, read: JsonReader, header: Bytes, payload: Bytes, signature: Bytes, order: seq<string>)
    requires HasAll(adapters) || HasWired(adapters)
    requires IterationOrder(adapters, order)
    requires read(header).Document? && "alg" in read(header).fields && read(header).fields["alg"] != JNull
    requires "service_id" !in read(header).fields
    ensures FirstMatch(adapters, order, read, CompactForm(header, payload, signature)) == Some(adapters[TYPE_JWT])
  {
    var token := CompactForm(header, payload, signature);
    CompactTokenClassified(read, header, payload, signature);
    AcceptsByType(adapters, read, token);
    UniqueAnswer(adapters, TYPE_JWT, read, token, order);
  }

  lemma WiredMap(jwt: Adapter, saml: Adapter)
    requires jwt.JwtAdapter? && saml.SamlAdapter?
    ensures var m: AdapterMap := map[][TYPE_JWT := jwt][TYPE_OPAQUE := OpaqueAdapter][TYPE_SAML2 := saml];
            HasWired(m) && m[TYPE_JWT] == jwt && m[TYPE_OPAQUE] == OpaqueAdapter && m[TYPE_SAML2] == saml
  {
    TokenTypesDiffer();
  }

  /** main's registrations. */
  method WireRegistry(net: KeyFetch.Network, entries: seq<TrustedIssuers.Entry>) returns (registry: Registry)
    ensures fresh(registry) && HasWired(registry.adapters)
    ensures registry.adapters[TYPE_JWT] == WiredJwt(net, entries)
    ensures registry.adapters[TYPE_OPAQUE] == OpaqueAdapter
    ensures registry.adapters[TYPE_SAML2] == WiredSaml()
  {
    var keys, _ := KeyFetch.FetchAllJwks(net, entries);
    var issuers := TrustedIssuers.BuildTrustedIssuerConfig(entries);
    registry := new Registry();
    registry.Register(JwtAdapter(issuers, keys));
    registry.Register(OpaqueAdapter);
    registry.Register(WiredSaml());
    WiredMap(WiredJwt(net, entries), WiredSaml());
  }
}
