/** The opaque-token application: random session tokens in lowercase hex, kept in a table. */
module SessionApp {
  import opened Sequences
  import opened Base64
  import opened Json
  import opened Classifier

  const HOUR := 3_600_000_000_000 // nanoseconds
  const TOKEN_BYTES := 32

  function HexDigit(v: nat): Byte
    requires v < 16
  {
    if v < 10 then 48 + v else 97 + v - 10
  }

  /** hex.EncodeToString. */
  function HexEncode(b: Bytes): Bytes {
    if b == [] then [] else [HexDigit(b[0] / 16), HexDigit(b[0] % 16)] + HexEncode(b[1..])
  }

  /** Each byte becomes two digits of the table, the high one first. */
  lemma HexEncodeTable(b: Byte, rest: Bytes)
    ensures HexEncode([b] + rest)
            == [("0123456789abcdef"[b / 16]) as int, ("0123456789abcdef"[b % 16]) as int] + HexEncode(rest)
    ensures HexEncode([]) == []
  {
    HexDigitTable(b / 16);
    HexDigitTable(b % 16);
    assert ([b] + rest)[1..] == rest;
  }

  lemma HexDigitTable(v: nat)
    requires v < 16
    ensures HexDigit(v) == "0123456789abcdef"[v] as int
  {}

  predicate IsLowerHex(c: Byte) { 48 <= c <= 57 || 97 <= c <= 102 }

  lemma {:induction false} HexEncodeShape(b: Bytes)
    ensures |HexEncode(b)| == 2 * |b|
    ensures forall c :: c in HexEncode(b) ==> IsLowerHex(c)
  {
    if b != [] {
      HexEncodeShape(b[1..]);
    }
  }

  /** Different draws give different tokens. */
  lemma {:induction false} HexEncodeInjective(a: Bytes, b: Bytes)
    requires HexEncode(a) == HexEncode(b)
    ensures a == b
  {
    HexEncodeShape(a);
    HexEncodeShape(b);
    if a != [] {
      var s, t := HexEncode(a), HexEncode(b);
      assert s[0] == t[0] && s[1] == t[1];
      HexDigitInjective(a[0] / 16, b[0] / 16);
      HexDigitInjective(a[0] % 16, b[0] % 16);
      assert s[2..] == HexEncode(a[1..]) && t[2..] == HexEncode(b[1..]);
      HexEncodeInjective(a[1..], b[1..]);
      assert a == [a[0]] + a[1..] && b == [b[0]] + b[1..];
    }
  }

  lemma HexDigitInjective(v: nat, w: nat)
    requires v < 16 && w < 16 && HexDigit(v) == HexDigit(w)
    ensures v == w
  {}

  // ----- lowercase hex read as base64 -----

  const LOWER_A: Byte := 97
  const UPPER_A: Byte := 65

  /** Sextets of the letters 0-9 and a-f. */
  predicate HexSextet(v: Sextet) { 26 <= v <= 31 || 52 <= v <= 61 }

  lemma HexValue(c: Byte)
    requires IsLowerHex(c)
    ensures Value(StdEncoding, c).Some? && HexSextet(Value(StdEncoding, c).value)
  {}

  /** At none of the three byte alignments can hex sextets form the letter a or A: their bits
      leave 97 / 4, 97 % 16 and 97 % 64 (and the same for 65) out of reach. */
  lemma NoLetterAtFirst(v0: Sextet, v1: Sextet)
    requires HexSextet(v0) && HexSextet(v1)
    ensures Byte0(v0, v1) != LOWER_A && Byte0(v0, v1) != UPPER_A
  {}

  lemma NoLetterAtSecond(v1: Sextet, v2: Sextet)
    requires HexSextet(v1) && HexSextet(v2)
    ensures Byte1(v1, v2) != LOWER_A && Byte1(v1, v2) != UPPER_A
  {}

  lemma NoLetterAtThird(v2: Sextet, v3: Sextet)
    requires HexSextet(v2) && HexSextet(v3)
    ensures Byte2(v2, v3) != LOWER_A && Byte2(v2, v3) != UPPER_A
  {}

  predicate HexOrPad(s: Bytes) { forall i | 0 <= i < |s| :: IsLowerHex(s[i]) || s[i] == PAD }

  lemma HexQuantum(s: Bytes)
    requires |s| == 4 && HexOrPad(s)
    ensures Decode4(StdEncoding, s).Some? ==> LetterFree(Decode4(StdEncoding, s).value)
    ensures Decode3(StdEncoding, s[..3]).Some? ==> LetterFree(Decode3(StdEncoding, s[..3]).value)
    ensures Decode2(StdEncoding, s[..2]).Some? ==> LetterFree(Decode2(StdEncoding, s[..2]).value)
  {
    var e := StdEncoding;
    forall i | 0 <= i < 4 && Value(e, s[i]).Some? ensures HexSextet(Value(e, s[i]).value) {
      HexValue(s[i]);
    }
    if Value(e, s[0]).Some? && Value(e, s[1]).Some? {
      NoLetterAtFirst(Value(e, s[0]).value, Value(e, s[1]).value);
      if Value(e, s[2]).Some? {
        NoLetterAtSecond(Value(e, s[1]).value, Value(e, s[2]).value);
        if Value(e, s[3]).Some? {
          NoLetterAtThird(Value(e, s[2]).value, Value(e, s[3]).value);
        }
      }
    }
  }

  predicate LetterFree(text: Bytes) { LOWER_A !in text && UPPER_A !in text }

  lemma {:induction false} HexDecodesLetterFree(s: Bytes)
    requires HexOrPad(s) && DecodeQuanta(StdEncoding, s).Some?
    ensures LetterFree(DecodeQuanta(StdEncoding, s).value)
  {
    if |s| >= 4 {
      HexQuantum(s[..4]);
      assert s[..4][..2] == s[..2] && s[..4][..3] == s[..3];
      if !(|s| == 4 && s[3] == PAD) {
        HexDecodesLetterFree(s[4..]);
      }
    }
  }

  /** Every marker holds an a or an A, so a text without them has no marker. */
  lemma MarkerNeedsLetter(text: Bytes)
    requires LetterFree(text)
    ensures !HasMarker(text)
  {
    if Contains(text, MARKER_TAG) {
      ContainsElement(text, MARKER_TAG, 2);
    }
    if Contains(text, MARKER_ELEMENT) {
      ContainsElement(text, MARKER_ELEMENT, 1);
    }
    if Contains(text, MARKER_PREFIX) {
      ContainsElement(text, MARKER_PREFIX, 1);
    }
  }

  /** No lowercase hex text, of any length and with line breaks or pads anywhere, is SAML. */
  lemma HexIsNeverSaml(token: Bytes)
    requires forall c :: c in token ==> IsLowerHex(c) || c == PAD || c == CR || c == LF
    ensures !DetectsSaml(token)
  {
    var s := SkipNewlines(token);
    forall i | 0 <= i < |s| ensures IsLowerHex(s[i]) || s[i] == PAD {
      assert s[i] in s;
    }
    if DecodeString(StdEncoding, token).Some? {
      HexDecodesLetterFree(s);
      MarkerNeedsLetter(DecodeQuanta(StdEncoding, s).value);
    }
  }

  /** Every token the login can issue is opaque and nothing else. */
  lemma SessionTokenOnlyOpaque(read: JsonReader, draw: Bytes)
    requires |draw| == 32
    ensures var token := HexEncode(draw);
            DetectsOpaque(token) && !DetectsSaml(token) && !DetectsJwt(read, token) && !DetectsHmac(read, token)
  {
    var token := HexEncode(draw);
    HexEncodeShape(draw);
    HexIsNeverSaml(token);
    DottedAndDotlessDisjoint(read, token);
  }

  // ----- the session table -----

  datatype Session = Session(userId: string, orgId: string, roles: seq<string>, issuer: string,
                             createdAt: int, expiresAt: int)

  datatype SessionError = MissingToken | InvalidSession | SessionExpired

  /** What handleValidate answers from a table at an instant. */
  function Answer(sessions: map<Bytes, Session>, token: Bytes, now: int): Result<Session, SessionError> {
    if token == [] then Err(MissingToken)
    else if token !in sessions then Err(InvalidSession)
    else if now > sessions[token].expiresAt then Err(SessionExpired)
    else Ok(sessions[token])
  }

  function NewSession(created: int, renewed: int): Session {
    Session("user-opaque-1", "acme-corp", ["order.read"], "opaque-token-app", created, renewed + 24 * HOUR)
  }

  class SessionTable {
    var sessions: map<Bytes, Session>

    constructor ()
      ensures sessions == map[]
    {
      sessions := map[];
    }

    /** handleLogin: `draw` is what rand.Read filled in, the two times are the two time.Now(). */
    method Login(draw: Bytes, created: int, renewed: int) returns (token: Bytes)
      requires |draw| == TOKEN_BYTES
      modifies this
      ensures token == HexEncode(draw)
      ensures sessions == old(sessions)[token := NewSession(created, renewed)]
    {
      token := HexEncode(draw);
      sessions := sessions[token := NewSession(created, renewed)];
    }

    /** handleValidate. */
    method Validate(token: Bytes, now: int) returns (r: Result<Session, SessionError>)
      ensures r == Answer(sessions, token, now)
    {
      if token == [] {
        return Err(MissingToken);
      }
      if token !in sessions {
        return Err(InvalidSession);
      }
      var sess := sessions[token];
      if now > sess.expiresAt {
        return Err(SessionExpired);
      }
      return Ok(sess);
    }
  }

  /** A fresh token answers its session for 24 hours, the last instant included, and is expired
      from then on; a login with another draw leaves every other answer as it was. A missing
      header and a token that was never issued are told apart from an expired one. */
  lemma LoginThenValidate(sessions: map<Bytes, Session>, draw: Bytes, other: Bytes, created: int, renewed: int, now: int)
    requires |draw| == 32 && |other| == 32
    ensures var after := sessions[HexEncode(draw) := NewSession(created, renewed)];
            && Answer(after, HexEncode(draw), now)
               == (if now <= renewed + 86_400_000_000_000
                   then Ok(Session("user-opaque-1", "acme-corp", ["order.read"], "opaque-token-app", created, renewed + 86_400_000_000_000))
                   else Err(SessionExpired))
            && (other != draw ==> Answer(after, HexEncode(other), now) == Answer(sessions, HexEncode(other), now))
            && Answer(after, [], now) == Err(MissingToken)
            && (other != draw && HexEncode(other) !in sessions ==> Answer(after, HexEncode(other), now) == Err(InvalidSession))
  {
    HexEncodeShape(draw);
    HexEncodeShape(other);
    if HexEncode(other) == HexEncode(draw) {
      HexEncodeInjective(other, draw);
    }
  }
}
