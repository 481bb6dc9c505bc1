/** The SDK's key cache as one object: the atomic "if stale, fetch" it is meant to be, and the
    struct whose methods do it. Times and durations are nanoseconds. */
module JwksCache {
  import opened Sequences
  import opened Base64
  import opened MapWrites

  type Keys = map<string, Bytes> // key id to raw JSON

  datatype Cache = Cache(keys: Keys, fetchedAt: int)

  const MAX_DURATION := 0x7fff_ffff_ffff_ffff
  const MIN_DURATION := -0x8000_0000_0000_0000
  const ZERO_TIME := 0
  const STATUS_OK := 200

  /** time.Since: the difference, saturated to the range of a Duration. */
  function Since(now: int, t: int): int {
    if now - t > MAX_DURATION then MAX_DURATION
    else if now - t < MIN_DURATION then MIN_DURATION
    else now - t
  }

  predicate Fresh(ttl: int, now: int, fetchedAt: int) { Since(now, fetchedAt) < ttl }

  datatype Fetched = FetchFailed | FetchOk(keys: Keys)

  datatype Reply = Ready | Failed

  datatype LookupError = MissingKid | UnknownKid(kid: string)

  // ----- the atomic object -----

  function AtomicRefresh(ttl: int, c: Cache, now: int, fetched: Fetched): (Cache, Reply) {
    if Fresh(ttl, now, c.fetchedAt) then (c, Ready)
    else
      match fetched
      case FetchFailed => (c, Failed)
      case FetchOk(keys) => (Cache(keys, now), Ready)
  }

  lemma SingleKey<K, V>(m: map<K, V>, a: K, b: K)
    requires |m| == 1 && a in m && b in m
    ensures a == b
  {
    assert m.Keys - {a} == {} by {
      assert |m.Keys - {a}| == 0;
    }
    assert b !in m.Keys - {a};
  }

  /** The value of a one-entry map, whichever way it is ranged over. */
  ghost function OnlyValue<K(!new), V>(m: map<K, V>): (v: V)
    requires |m| == 1
    ensures forall k :: k in m ==> m[k] == v
  {
    assert exists k :: k in m by {
      assert m.Keys != {};
    }
    var k :| k in m;
    forall other | other in m ensures m[other] == m[k] {
      SingleKey(m, other, k);
    }
    m[k]
  }

  ghost function AtomicLookup(c: Cache, kid: Option<string>): Result<Bytes, LookupError> {
    match kid
    case None => if |c.keys| == 1 then Ok(OnlyValue(c.keys)) else Err(MissingKid)
    case Some(id) => if id in c.keys then Ok(c.keys[id]) else Err(UnknownKid(id))
  }

  // ----- the response of the endpoint -----

  /** One entry of the "keys" array: its raw JSON and the kid it unmarshals to, if it does. */
  datatype RawKey = RawKey(raw: Bytes, kid: Option<string>)

  datatype HttpAnswer = GetFailed | Response(status: int, body: Option<seq<RawKey>>)

  function KeyWrite(k: RawKey): Option<(string, Bytes)> {
    if k.kid.Some? && k.kid.value != "" then Some((k.kid.value, k.raw)) else None
  }

  function KeyWrites(entries: seq<RawKey>): seq<Option<(string, Bytes)>> {
    seq(|entries|, i requires 0 <= i < |entries| => KeyWrite(entries[i]))
  }

  function FetchedFrom(answer: HttpAnswer): Fetched {
    if answer.GetFailed? || answer.status != STATUS_OK || answer.body.None? then FetchFailed
    else FetchOk(Replay(KeyWrites(answer.body.value)))
  }

  ghost predicate LastWithKid(entries: seq<RawKey>, i: nat, kid: string) {
    && i < |entries|
    && entries[i].kid == Some(kid)
    && forall j | i < j < |entries| :: entries[j].kid != Some(kid)
  }

  /** A fetched key set has exactly the non-empty kids of the response, each with the raw JSON of
      its last entry. */
  lemma FetchedKeysAreLast(entries: seq<RawKey>, kid: string)
    ensures var keys := Replay(KeyWrites(entries));
            && (kid in keys <==> kid != "" && exists i: nat :: LastWithKid(entries, i, kid))
            && (forall i: nat | kid != "" && LastWithKid(entries, i, kid) :: kid in keys && keys[kid] == entries[i].raw)
  {
    var writes := KeyWrites(entries);
    LastWriteWins(writes, kid);
    assert forall i | 0 <= i < |entries| :: WritesTo(writes, i, kid) <==> entries[i].kid == Some(kid) && kid != "";
    if kid != "" {
      forall i: nat ensures LastWrite(writes, i, kid) <==> LastWithKid(entries, i, kid) {
        if LastWithKid(entries, i, kid) {
          assert WritesTo(writes, i, kid);
        }
        if LastWrite(writes, i, kid) {
          forall j | i < j < |entries| ensures entries[j].kid != Some(kid) {
            assert !WritesTo(writes, j, kid);
          }
        }
      }
    }
  }

  /** Refreshing a stale cache and looking a kid up: after status 200 with a body that decodes, the
      lookup gives the raw JSON of the last entry with that kid, or fails for a kid without entry;
      after anything else the cache is as it was and the refresh fails. */
  lemma RefreshThenLookup(ttl: int, c: Cache, now: int, answer: HttpAnswer, kid: string)
    requires !Fresh(ttl, now, c.fetchedAt) && kid != ""
    ensures var (after, reply) := AtomicRefresh(ttl, c, now, FetchedFrom(answer));
            match answer
            case Response(200, Some(entries)) =>
              && reply == Ready && after.fetchedAt == now
              && (forall i: nat | LastWithKid(entries, i, kid) :: AtomicLookup(after, Some(kid)) == Ok(entries[i].raw))
              && ((forall e :: e in entries ==> e.kid != Some(kid)) ==> AtomicLookup(after, Some(kid)) == Err(UnknownKid(kid)))
            case _ => reply == Failed && after == c
  {
    if answer.Response? && answer.body.Some? {
      FetchedKeysAreLast(answer.body.value, kid);
    }
  }

  /** A lookup without a kid succeeds exactly on a cache of one key, and gives its value. */
  lemma LookupWithoutKidIff(c: Cache, raw: Bytes)
    ensures AtomicLookup(c, None) == Ok(raw) <==> exists kid :: c.keys == map[kid := raw]
    ensures AtomicLookup(c, None).Err? ==> AtomicLookup(c, None) == Err(MissingKid)
  {
    if |c.keys| == 1 {
      assert c.keys.Keys != {};
      var kid :| kid in c.keys;
      forall k | k in c.keys ensures k == kid {
        SingleKey(c.keys, k, kid);
      }
      assert c.keys == map[kid := OnlyValue(c.keys)];
    }
    if kid :| c.keys == map[kid := raw] {
      assert kid in c.keys && |c.keys| == 1;
    }
  }

  /** time.Since is the elapsed time where a Duration of 64 bits can hold it, else the nearest
      Duration. */
  lemma SinceIsNearest(now: int, t: int, d: int)
    requires -0x8000_0000_0000_0000 <= d <= 0x7fff_ffff_ffff_ffff
    ensures -0x8000_0000_0000_0000 <= Since(now, t) <= 0x7fff_ffff_ffff_ffff
    ensures d <= now - t ==> d <= Since(now, t)
    ensures d >= now - t ==> d >= Since(now, t)
  {}

  // ----- the struct -----

  class JwksCache {
    const ttl: int
    var keys: Keys
    var fetchedAt: int

    ghost function State(): Cache
      reads this
    {
      Cache(keys, fetchedAt)
    }

    /** newJWKSCache: no keys, the zero time. */
    constructor (ttl: int)
      ensures this.ttl == ttl
      ensures State() == Cache(map[], ZERO_TIME)
    {
      this.ttl := ttl;
      keys := map[];
      fetchedAt := ZERO_TIME;
    }

    /** fetch: `answer` is the endpoint's, `now` the time.Now() after the body was read. */
    method Fetch(answer: HttpAnswer, now: int) returns (reply: Reply)
      modifies this
      ensures FetchedFrom(answer).FetchFailed? ==> reply == Failed && State() == old(State())
      ensures FetchedFrom(answer).FetchOk? ==> reply == Ready && State() == Cache(FetchedFrom(answer).keys, now)
    {
      if answer.GetFailed? {
        return Failed;
      }
      if answer.status != STATUS_OK {
        return Failed;
      }
      if answer.body.None? {
        return Failed;
      }
      var entries := answer.body.value;
      var newKeys: Keys := map[];
      for i := 0 to |entries|
        invariant newKeys == Replay(KeyWrites(entries[..i]))
        invariant State() == old(State())
      {
        assert KeyWrites(entries[..i + 1]) == KeyWrites(entries[..i]) + [KeyWrite(entries[i])];
        ReplayStep(KeyWrites(entries[..i]), KeyWrite(entries[i]));
        if entries[i].kid.Some? && entries[i].kid.value != "" {
          newKeys := newKeys[entries[i].kid.value := entries[i].raw];
        }
      }
      assert entries[..|entries|] == entries;
      keys := newKeys;
      fetchedAt := now;
      return Ready;
    }

    /** refreshIfStale by a caller nobody interferes with: the three times are those of the two
        time.Since and of the stamp. It is the atomic refresh, at the instant of the first check
        if that was fresh and at the instant of the stamp otherwise. */
    method RefreshIfStale(checkAt: int, recheckAt: int, answer: HttpAnswer, stampAt: int) returns (reply: Reply)
      requires checkAt <= recheckAt <= stampAt
      modifies this
      ensures var at := if Fresh(ttl, checkAt, old(fetchedAt)) then checkAt else stampAt;
              (State(), reply) == AtomicRefresh(ttl, old(State()), at, FetchedFrom(answer))
    {
      var isFresh := Since(checkAt, fetchedAt) < ttl;
      if isFresh {
        return Ready;
      }
      if Since(recheckAt, fetchedAt) < ttl {
        return Ready;
      }
      reply := Fetch(answer, stampAt);
    }

    /** The key function handed out: `kid` is the token's kid header, if it is a string. */
    method LookupKey(kid: Option<string>) returns (r: Result<Bytes, LookupError>)
      ensures r == AtomicLookup(State(), kid)
    {
      if kid.None? {
        if |keys| == 1 {
          assert keys.Keys != {};
          var some :| some in keys;
          return Ok(keys[some]);
        }
        return Err(MissingKid);
      }
      if kid.value !in keys {
        return Err(UnknownKid(kid.value));
      }
      return Ok(keys[kid.value]);
    }
  }

  /** A lookup without a kid has one possible answer: every iteration order finds the same. */
  lemma LookupWithoutKidDeterministic(c: Cache, some: string)
    requires |c.keys| == 1 && some in c.keys
    ensures AtomicLookup(c, None) == Ok(c.keys[some])
    ensures AtomicLookup(c, None) == AtomicLookup(c, Some(some))
  {}
}
