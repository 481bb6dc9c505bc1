/** The key-fetch loops run at start-up: at most ten requests for each trusted-issuer entry,
    against a network that may answer anything. */
module KeyFetch {
  import opened Sequences
  import opened Base64
  import opened TrustedIssuers
  import opened MapWrites

  const ATTEMPTS := 10

  datatype EcJwk = EcJwk(kty: string, x: Bytes, y: Bytes)

  datatype PublicKey = PublicKey(x: nat, y: nat)

  /** One answer of the network: an error of the client, or the keys of the decoded body (none
      when it does not decode; the status code is not looked at). */
  datatype Answer = Failed | Body(keys: seq<EcJwk>)

  /** What the network answers to a request for an entry (by position), attempt by attempt. */
  type Network = (nat, nat) -> Answer

  /** big.Int.SetBytes. */
  function BigEndian(b: Bytes): nat {
    if b == [] then 0 else BigEndian(b[..|b| - 1]) * 256 + b[|b| - 1]
  }

  /** parseECPublicKey, with the kty test in front of it. */
  function ParseKey(k: EcJwk): Option<PublicKey> {
    if k.kty != "EC" then None
    else
      match (DecodeString(RawURLEncoding, k.x), DecodeString(RawURLEncoding, k.y))
      case (Some(x), Some(y)) => Some(PublicKey(BigEndian(x), BigEndian(y)))
      case _ => None
  }

  function Power256(n: nat): nat { if n == 0 then 1 else 256 * Power256(n - 1) }

  /** The first byte is the most significant. */
  lemma {:induction false} BigEndianFirst(b: Byte, rest: Bytes)
    ensures BigEndian([b] + rest) == b * Power256(|rest|) + BigEndian(rest)
  {
    var whole := [b] + rest;
    if rest == [] {
      assert whole[..0] == [];
    } else {
      var n := |rest| - 1;
      assert whole[..|whole| - 1] == [b] + rest[..n];
      BigEndianFirst(b, rest[..n]);
    }
  }

  /** A key of type EC with base64url coordinates parses to those coordinates; any other type does
      not parse, nor does a coordinate that is no base64url. */
  lemma ParseKeySpec(kty: string, x: Bytes, y: Bytes, other: Bytes)
    ensures ParseKey(EcJwk("EC", Encode(RawURLEncoding, x), Encode(RawURLEncoding, y))) == Some(PublicKey(BigEndian(x), BigEndian(y)))
    ensures kty != "EC" ==> ParseKey(EcJwk(kty, x, y)).None?
    ensures DecodeString(RawURLEncoding, other).None? ==> ParseKey(EcJwk(kty, other, y)).None? && ParseKey(EcJwk(kty, x, other)).None?
  {
    RoundTrip(RawURLEncoding, x);
    RoundTrip(RawURLEncoding, y);
  }

  /** The last parseable EC key of a body. */
  function LastKey(keys: seq<EcJwk>): Option<PublicKey> {
    if keys == [] then None
    else if ParseKey(keys[|keys| - 1]).Some? then ParseKey(keys[|keys| - 1])
    else LastKey(keys[..|keys| - 1])
  }

  lemma {:induction false} LastKeySpec(keys: seq<EcJwk>)
    ensures LastKey(keys).None? <==> forall k :: k in keys ==> ParseKey(k).None?
    ensures LastKey(keys).Some? ==>
              exists i | 0 <= i < |keys| :: ParseKey(keys[i]) == LastKey(keys) && forall j | i < j < |keys| :: ParseKey(keys[j]).None?
  {
    if keys != [] {
      var n := |keys| - 1;
      LastKeySpec(keys[..n]);
      assert keys == keys[..n] + [keys[n]];
      if ParseKey(keys[n]).None? && LastKey(keys).Some? {
        var i :| 0 <= i < n && ParseKey(keys[..n][i]) == LastKey(keys[..n])
                 && forall j | i < j < n :: ParseKey(keys[..n][j]).None?;
        assert ParseKey(keys[i]) == LastKey(keys);
        forall j | i < j < |keys| ensures ParseKey(keys[j]).None? {
          assert j < n ==> keys[j] == keys[..n][j];
        }
      } else if LastKey(keys).Some? {
        assert ParseKey(keys[n]) == LastKey(keys);
      }
    }
  }

  function KeyOf(a: Answer): Option<PublicKey> {
    if a.Body? then LastKey(a.keys) else None
  }

  /** Does an answer end the attempts for an entry? It does when it is no error and the entry
      has a key, from this answer or (the name having occurred before) from an earlier one. */
  predicate Ends(a: Answer, loaded: bool) {
    a.Body? && (loaded || KeyOf(a).Some?)
  }

  /** The first attempt that ends an entry's loop, or ATTEMPTS. */
  function EndingAttempt(net: Network, entry: nat, loaded: bool, from: nat): (a: nat)
    requires from <= ATTEMPTS
    ensures from <= a <= ATTEMPTS
    ensures forall b | from <= b < a :: !Ends(net(entry, b), loaded)
    ensures a < ATTEMPTS ==> Ends(net(entry, a), loaded)
    decreases ATTEMPTS - from
  {
    if from == ATTEMPTS || Ends(net(entry, from), loaded) then from
    else EndingAttempt(net, entry, loaded, from + 1)
  }

  datatype Loaded = Loaded(keys: map<string, PublicKey>, requests: nat)

  /** The keys and the number of requests after one more entry. */
  function FetchEntry(net: Network, before: Loaded, entry: nat, name: string): Loaded {
    var a := EndingAttempt(net, entry, name in before.keys, 0);
    if a == ATTEMPTS then Loaded(before.keys, before.requests + ATTEMPTS)
    else
      match KeyOf(net(entry, a))
      case Some(key) => Loaded(before.keys[name := key], before.requests + a + 1)
      case None => Loaded(before.keys, before.requests + a + 1)
  }

  function FetchAll(net: Network, entries: seq<Entry>): Loaded {
    if entries == [] then Loaded(map[], 0)
    else
      var n := |entries| - 1;
      FetchEntry(net, FetchAll(net, entries[..n]), n, entries[n].name)
  }

  /** fetchAllJWKS; `requests` counts the calls of client.Get. */
  method FetchAllJwks(net: Network, entries: seq<Entry>) returns (keys: map<string, PublicKey>, requests: nat)
    ensures Loaded(keys, requests) == FetchAll(net, entries)
    ensures requests <= 10 * |entries|
  {
    keys := map[];
    requests := 0;
    for e := 0 to |entries|
      invariant Loaded(keys, requests) == FetchAll(net, entries[..e])
      invariant requests <= ATTEMPTS * e
    {
      assert entries[..e + 1][..e] == entries[..e];
      keys, requests := TryEntry(net, e, entries[e].name, keys, requests);
    }
    assert entries[..|entries|] == entries;
  }

  /** The attempts for one entry. */
  method TryEntry(net: Network, entry: nat, name: string, loaded: map<string, PublicKey>, sent: nat)
    returns (keys: map<string, PublicKey>, requests: nat)
    ensures Loaded(keys, requests) == FetchEntry(net, Loaded(loaded, sent), entry, name)
    ensures sent < requests <= sent + 10
  {
    keys, requests := loaded, sent;
    ghost var ending := EndingAttempt(net, entry, name in loaded, 0);
    for attempt := 0 to ATTEMPTS
      invariant keys == loaded && requests == sent + attempt
      invariant attempt <= ending
    {
      var answer := net(entry, attempt);
      requests := requests + 1;
      if answer.Failed? {
        continue;
      }
      keys := StoreKeys(keys, name, answer.keys);
      if name in keys {
        assert ending == attempt && Some(answer) == Some(net(entry, ending));
        return;
      }
    }
    assert ending == ATTEMPTS;
  }

  /** The innermost loop: every parseable EC key overwrites the one before. */
  method StoreKeys(keys: map<string, PublicKey>, name: string, jwks: seq<EcJwk>) returns (stored: map<string, PublicKey>)
    ensures stored == match LastKey(jwks) case Some(key) => keys[name := key] case None => keys
  {
    stored := keys;
    for i := 0 to |jwks|
      invariant stored == match LastKey(jwks[..i]) case Some(key) => keys[name := key] case None => keys
    {
      assert jwks[..i + 1][..i] == jwks[..i];
      var parsed := ParseKey(jwks[i]);
      if parsed.Some? {
        stored := stored[name := parsed.value];
      }
    }
    assert jwks[..|jwks|] == jwks;
  }

  // ----- what is loaded -----

  /** The attempt at which an entry's loop ends; ATTEMPTS if it spends them all. */
  function LastAttempt(net: Network, entries: seq<Entry>, entry: nat): (a: nat)
    requires entry < |entries|
    ensures a <= ATTEMPTS
  {
    EndingAttempt(net, entry, entries[entry].name in FetchAll(net, entries[..entry]).keys, 0)
  }

  /** The key of the response at which an entry's loop ends. */
  function Supply(net: Network, entries: seq<Entry>, entry: nat): Option<PublicKey>
    requires entry < |entries|
  {
    var a := LastAttempt(net, entries, entry);
    if a < ATTEMPTS then KeyOf(net(entry, a)) else None
  }

  function SupplyWrite(net: Network, entries: seq<Entry>, entry: nat): Option<(string, PublicKey)>
    requires entry < |entries|
  {
    match Supply(net, entries, entry)
    case None => None
    case Some(key) => Some((entries[entry].name, key))
  }

  function SupplyWrites(net: Network, entries: seq<Entry>): seq<Option<(string, PublicKey)>> {
    seq(|entries|, i requires 0 <= i < |entries| => SupplyWrite(net, entries, i))
  }

  lemma PrefixSupply(net: Network, entries: seq<Entry>, n: nat, entry: nat)
    requires entry < n <= |entries|
    ensures SupplyWrite(net, entries[..n], entry) == SupplyWrite(net, entries, entry)
  {
    assert entries[..n][..entry] == entries[..entry];
  }

  lemma PrefixWrites(net: Network, entries: seq<Entry>, n: nat)
    requires n <= |entries|
    ensures SupplyWrites(net, entries)[..n] == SupplyWrites(net, entries[..n])
  {
    forall i: nat | i < n ensures SupplyWrites(net, entries[..n])[i] == SupplyWrites(net, entries)[i] {
      PrefixSupply(net, entries, n, i);
    }
  }

  lemma LastEntryWrites(net: Network, entries: seq<Entry>)
    requires entries != []
    ensures var n := |entries| - 1;
            var before := FetchAll(net, entries[..n]).keys;
            FetchAll(net, entries).keys == match SupplyWrite(net, entries, n) case None => before case Some(w) => before[w.0 := w.1]
  {}

  lemma SplitWrites(net: Network, entries: seq<Entry>)
    requires entries != []
    ensures var n := |entries| - 1;
            SupplyWrites(net, entries) == SupplyWrites(net, entries[..n]) + [SupplyWrite(net, entries, n)]
  {
    PrefixWrites(net, entries, |entries| - 1);
  }

  lemma FetchReplaysStep(net: Network, entries: seq<Entry>)
    requires entries != []
    requires FetchAll(net, entries[..|entries| - 1]).keys == Replay(SupplyWrites(net, entries[..|entries| - 1]))
    ensures FetchAll(net, entries).keys == Replay(SupplyWrites(net, entries))
  {
    LastEntryWrites(net, entries);
    SplitWrites(net, entries);
    ReplayStep(SupplyWrites(net, entries[..|entries| - 1]), SupplyWrite(net, entries, |entries| - 1));
  }

  lemma {:induction false} FetchReplays(net: Network, entries: seq<Entry>)
    ensures FetchAll(net, entries).keys == Replay(SupplyWrites(net, entries))
  {
    if entries != [] {
      FetchReplays(net, entries[..|entries| - 1]);
      FetchReplaysStep(net, entries);
    }
  }

  /** An entry whose name is loaded already stops at its first answer that is no error, with or
      without a key; ten errors cost ten requests and change nothing. */
  lemma RepeatedName(net: Network, before: Loaded, entry: nat, name: string, a: nat)
    requires name in before.keys && a <= 10
    requires forall b | 0 <= b < a :: net(entry, b).Failed?
    ensures a == 10 ==> FetchEntry(net, before, entry, name) == Loaded(before.keys, before.requests + 10)
    ensures a < 10 && net(entry, a).Body? ==>
              FetchEntry(net, before, entry, name)
              == Loaded(match LastKey(net(entry, a).keys) case Some(key) => before.keys[name := key] case None => before.keys,
                        before.requests + a + 1)
  {
    var e := EndingAttempt(net, entry, true, 0);
    if a < 10 && net(entry, a).Body? {
      assert Ends(net(entry, a), true);
    }
  }

  /** The last entry of a name whose loop ends with a key. */
  ghost predicate Supplies(net: Network, entries: seq<Entry>, entry: nat, name: string) {
    && entry < |entries|
    && entries[entry].name == name
    && Supply(net, entries, entry).Some?
    && forall j | entry < j < |entries| :: entries[j].name == name ==> Supply(net, entries, j).None?
  }

  lemma WriteIsSupply(net: Network, entries: seq<Entry>, entry: nat, name: string)
    requires entry < |entries|
    ensures WritesTo(SupplyWrites(net, entries), entry, name)
            <==> entries[entry].name == name && Supply(net, entries, entry).Some?
  {}

  lemma LastWriteSupplies(net: Network, entries: seq<Entry>, entry: nat, name: string)
    ensures LastWrite(SupplyWrites(net, entries), entry, name) <==> Supplies(net, entries, entry, name)
    ensures Supplies(net, entries, entry, name) ==>
              SupplyWrites(net, entries)[entry] == Some((name, Supply(net, entries, entry).value))
  {
    forall j: nat | j < |entries|
      ensures WritesTo(SupplyWrites(net, entries), j, name)
              <==> entries[j].name == name && Supply(net, entries, j).Some?
    {
      WriteIsSupply(net, entries, j, name);
    }
  }

  /** A name is loaded exactly when some entry of that name ends with a key, and then with the key
      of the last such entry: the last parseable EC key of the last response requested for it. */
  lemma LoadedKeysAreSupplied(net: Network, entries: seq<Entry>, name: string)
    ensures name in FetchAll(net, entries).keys <==> exists entry: nat :: Supplies(net, entries, entry, name)
    ensures forall entry: nat | Supplies(net, entries, entry, name) ::
              name in FetchAll(net, entries).keys && Supply(net, entries, entry) == Some(FetchAll(net, entries).keys[name])
  {
    FetchReplays(net, entries);
    LastWriteWins(SupplyWrites(net, entries), name);
    forall entry: nat
      ensures LastWrite(SupplyWrites(net, entries), entry, name) <==> Supplies(net, entries, entry, name)
      ensures Supplies(net, entries, entry, name) ==>
                SupplyWrites(net, entries)[entry] == Some((name, Supply(net, entries, entry).value))
    {
      LastWriteSupplies(net, entries, entry, name);
    }
  }

  lemma LoadedIsNamed(net: Network, entries: seq<Entry>, name: string)
    requires name in FetchAll(net, entries).keys
    ensures exists e :: e in entries && e.name == name
  {
    LoadedKeysAreSupplied(net, entries, name);
    var entry: nat :| Supplies(net, entries, entry, name);
    assert entries[entry] in entries;
  }

  /** The loaded names are configured names: the key map's domain is inside the domain of the
      trusted-issuer map built from the same entries. */
  lemma LoadedNamesAreTrusted(net: Network, entries: seq<Entry>)
    ensures FetchAll(net, entries).keys.Keys <= IssuerConfig(entries).Keys
  {
    forall name | name in FetchAll(net, entries).keys ensures name in IssuerConfig(entries) {
      LoadedIsNamed(net, entries, name);
      ConfigIsLastEntry(entries, name);
    }
  }

  ghost predicate DistinctNames(entries: seq<Entry>) {
    forall i, j | 0 <= i < j < |entries| :: entries[i].name != entries[j].name
  }

  /** The first of an entry's attempts whose response yields a key, or ATTEMPTS. */
  function FirstYield(net: Network, entry: nat): (a: nat)
    ensures a <= ATTEMPTS
    ensures forall b | 0 <= b < a :: KeyOf(net(entry, b)).None?
    ensures a < ATTEMPTS ==> KeyOf(net(entry, a)).Some?
  {
    EndingAttempt(net, entry, false, 0)
  }

  function RequestsOf(net: Network, entry: nat): nat {
    if FirstYield(net, entry) < ATTEMPTS then FirstYield(net, entry) + 1 else ATTEMPTS
  }

  function TotalRequests(net: Network, n: nat): nat {
    if n == 0 then 0 else TotalRequests(net, n - 1) + RequestsOf(net, n - 1)
  }

  /** The key of an entry's first response that yields one. */
  function FirstKey(net: Network, entry: nat): Option<PublicKey> {
    if FirstYield(net, entry) < ATTEMPTS then KeyOf(net(entry, FirstYield(net, entry))) else None
  }

  function Find(keys: map<string, PublicKey>, name: string): Option<PublicKey> {
    if name in keys then Some(keys[name]) else None
  }

  /** With distinct names no name is loaded before its own entry. */
  lemma NotLoadedBefore(net: Network, entries: seq<Entry>, i: nat)
    requires DistinctNames(entries) && i < |entries|
    ensures entries[i].name !in FetchAll(net, entries[..i]).keys
  {
    if entries[i].name in FetchAll(net, entries[..i]).keys {
      LoadedIsNamed(net, entries[..i], entries[i].name);
    }
  }

  lemma {:induction false} DistinctNamesRequests(net: Network, entries: seq<Entry>)
    requires DistinctNames(entries)
    ensures FetchAll(net, entries).requests == TotalRequests(net, |entries|)
  {
    if entries != [] {
      var n := |entries| - 1;
      DistinctNamesRequests(net, entries[..n]);
      NotLoadedBefore(net, entries, n);
    }
  }

  lemma DistinctNamesKey(net: Network, entries: seq<Entry>, i: nat)
    requires DistinctNames(entries) && i < |entries|
    ensures Find(FetchAll(net, entries).keys, entries[i].name) == FirstKey(net, i)
  {
    NotLoadedBefore(net, entries, i);
    assert Supply(net, entries, i) == FirstKey(net, i);
    LoadedKeysAreSupplied(net, entries, entries[i].name);
    forall j: nat | Supplies(net, entries, j, entries[i].name) ensures j == i {}
    assert Supply(net, entries, i).Some? ==> Supplies(net, entries, i, entries[i].name);
  }

  /** With distinct names every entry stops at its first response that yields a key, that key is
      the one loaded, and an entry without such a response costs ten requests and has no key. */
  lemma DistinctNamesStopAtFirstYield(net: Network, entries: seq<Entry>)
    requires DistinctNames(entries)
    ensures FetchAll(net, entries).requests == TotalRequests(net, |entries|)
    ensures forall i | 0 <= i < |entries| :: Find(FetchAll(net, entries).keys, entries[i].name) == FirstKey(net, i)
  {
    DistinctNamesRequests(net, entries);
    forall i | 0 <= i < |entries|
      ensures Find(FetchAll(net, entries).keys, entries[i].name) == FirstKey(net, i)
    {
      DistinctNamesKey(net, entries, i);
    }
  }
}
