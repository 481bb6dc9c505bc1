/** The four token detectors of the exchange service and the question whether they overlap. */
module Classifier {
  import opened Sequences
  import opened Base64
  import opened Json

  const DOT: Byte := 46
  const MARKER_TAG: Bytes := [60, 115, 97, 109, 108]                                // <saml
  const MARKER_ELEMENT: Bytes := [60, 65, 115, 115, 101, 114, 116, 105, 111, 110]   // <Assertion
  const MARKER_PREFIX: Bytes := [115, 97, 109, 108, 50, 58]                         // saml2:

  predicate HasMarker(text: Bytes) {
    Contains(text, MARKER_TAG) || Contains(text, MARKER_ELEMENT) || Contains(text, MARKER_PREFIX)
  }

  function ReadSegment(read: JsonReader, segment: Bytes): JsonDoc {
    match DecodeString(RawURLEncoding, segment)
    case None => Malformed
    case Some(text) => read(text)
  }

  predicate DetectsSaml(token: Bytes) {
    match DecodeString(StdEncoding, token)
    case None => false
    case Some(text) => HasMarker(text)
  }

  predicate DetectsJwt(read: JsonReader, token: Bytes) {
    var parts := Split(token, DOT);
    |parts| == 3 && HasNonNull(ReadSegment(read, parts[0]), "alg")
  }

  predicate DetectsHmac(read: JsonReader, token: Bytes) {
    var parts := Cut(token, DOT);
    |parts| == 2 && HasKey(ReadSegment(read, parts[0]), "service_id")
  }

  predicate IsAlphanumeric(c: Byte) {
    97 <= c <= 122 || 65 <= c <= 90 || 48 <= c <= 57
  }

  predicate IsAlphanumericOrDash(c: Byte) {
    IsAlphanumeric(c) || c == 45 || c == 95
  }

  predicate DetectsOpaque(token: Bytes) {
    16 <= |token| <= 256 && forall c :: c in token ==> IsAlphanumericOrDash(c)
  }

  // ----- the dotted formats against the dotless ones -----

  lemma OpaqueHasNoDot(token: Bytes)
    requires DetectsOpaque(token)
    ensures DOT !in token && CR !in token && LF !in token && PAD !in token
  {}

  lemma SamlHasNoDot(token: Bytes)
    requires DecodeString(StdEncoding, token).Some?
    ensures DOT !in token
  {
    var s := SkipNewlines(token);
    DecodesIffWellPadded(s);
    var k :| 0 <= k <= 2 && k <= |s| && LettersThenPads(s, k);
    forall i | 0 <= i < |s| ensures s[i] != DOT {
      assert if i < |s| - k then IsLetter(StdEncoding, s[i]) else s[i] == PAD;
    }
  }

  lemma DottedHasDot(read: JsonReader, token: Bytes)
    requires DetectsJwt(read, token) || DetectsHmac(read, token)
    ensures DOT in token
  {
    if DOT !in token {
      SplitWithoutSeparator(token, DOT);
      CutSound(token, DOT);
    }
  }

  /** No string is both {JWT or HMAC} and {opaque or SAML}. */
  lemma DottedAndDotlessDisjoint(read: JsonReader, token: Bytes)
    ensures !((DetectsJwt(read, token) || DetectsHmac(read, token)) && (DetectsOpaque(token) || DetectsSaml(token)))
  {
    if DetectsJwt(read, token) || DetectsHmac(read, token) {
      DottedHasDot(read, token);
      if DetectsSaml(token) {
        SamlHasNoDot(token);
      }
    }
  }

  /** A raw section 5 text of a JSON object with the fields given. */
  predicate EncodesObject(read: JsonReader, segment: Bytes, fields: map<string, JsonValue>) {
    match DecodeString(RawURLEncoding, segment)
    case None => false
    case Some(text) => read(text) == Document(fields)
  }

  /** Three segments, the first an object with a non-null alg and a service_id. */
  ghost predicate JwtHmacShape(read: JsonReader, token: Bytes, h: Bytes, p: Bytes, s: Bytes) {
    && token == h + Ascii(".") + p + Ascii(".") + s
    && 46 !in h && 46 !in p && 46 !in s
    && exists fields: map<string, JsonValue> ::
         EncodesObject(read, h, fields) && "alg" in fields && fields["alg"] != JNull && "service_id" in fields
  }

  /** JWT and HMAC meet exactly on h.p.s where h decodes to an object with a non-null alg and a
      service_id key. */
  lemma JwtHmacOverlap(read: JsonReader, token: Bytes)
    ensures DetectsJwt(read, token) && DetectsHmac(read, token)
            <==> exists h, p, s :: JwtHmacShape(read, token, h, p, s)
  {
    if DetectsJwt(read, token) && DetectsHmac(read, token) {
      var parts := Split(token, DOT);
      SplitSound(token, DOT);
      CutSound(token, DOT);
      assert parts == [parts[0], parts[1], parts[2]];
      JoinThreeParts(parts[0], parts[1], parts[2]);
      DotIsPeriod();
      assert EncodesObject(read, parts[0], ReadSegment(read, parts[0]).fields);
      assert JwtHmacShape(read, token, parts[0], parts[1], parts[2]);
    }
    if h, p, s :| JwtHmacShape(read, token, h, p, s) {
      ShapeDetected(read, token, h, p, s);
    }
  }

  lemma ShapeDetected(read: JsonReader, token: Bytes, h: Bytes, p: Bytes, s: Bytes)
    requires JwtHmacShape(read, token, h, p, s)
    ensures DetectsJwt(read, token) && DetectsHmac(read, token)
  {
    DotIsPeriod();
    SplitThreeParts(h, p, s);
    assert token == h + [DOT] + (p + [DOT] + s);
    CutUnique(h, DOT, p + [DOT] + s);
  }

  lemma DotIsPeriod()
    ensures Ascii(".") == [DOT]
  {}

  lemma JoinThreeParts(h: Bytes, p: Bytes, s: Bytes)
    ensures Join([h, p, s], DOT) == h + [DOT] + p + [DOT] + s
  {
    assert [h, p, s][1..] == [p, s] && [p, s][1..] == [s];
    assert Join([p, s], DOT) == p + [DOT] + s;
  }

  lemma SplitThreeParts(h: Bytes, p: Bytes, s: Bytes)
    requires DOT !in h && DOT !in p && DOT !in s
    ensures Split(h + [DOT] + p + [DOT] + s, DOT) == [h, p, s]
  {
    SplitAtSeparator(h + [DOT] + p, DOT, s);
    SplitAtSeparator(h, DOT, p);
    SplitWithoutSeparator(h, DOT);
    SplitWithoutSeparator(p, DOT);
    SplitWithoutSeparator(s, DOT);
  }

  // ----- opaque against SAML -----

  /** Whole quanta of letters carry no spare bits: encoding what they decode to gives them back. */
  lemma {:induction false} LettersAreEncodings(s: Bytes) returns (b: Bytes)
    requires |s| % 4 == 0
    requires forall i | 0 <= i < |s| :: IsLetter(StdEncoding, s[i])
    ensures DecodeQuanta(StdEncoding, s) == Some(b) && Encode(StdEncoding, b) == s
    ensures |b| == |s| / 4 * 3
  {
    if |s| == 0 {
      b := [];
    } else {
      var rest := s[4..];
      assert forall i | 0 <= i < |rest| :: rest[i] == s[i + 4];
      var tail := LettersAreEncodings(rest);
      var head := Decode4(StdEncoding, s[..4]).value;
      b := head + tail;
      QuantumLetters(s[..4], head);
      assert s == s[..4] + rest && b[3..] == tail;
      DecodeStep(StdEncoding, s[..4], rest);
    }
  }

  lemma QuantumSextets(v0: Sextet, v1: Sextet, v2: Sextet, v3: Sextet)
    ensures Sextet0(Byte0(v0, v1)) == v0
    ensures Sextet1(Byte0(v0, v1), Byte1(v1, v2)) == v1
    ensures Sextet2(Byte1(v1, v2), Byte2(v2, v3)) == v2
    ensures Sextet3(Byte2(v2, v3)) == v3
  {}

  lemma QuantumLetters(s: Bytes, b: Bytes)
    requires |s| == 4 && Decode4(StdEncoding, s) == Some(b)
    ensures Encode3(StdEncoding, b[0], b[1], b[2]) == s
  {
    var e := StdEncoding;
    var v0, v1, v2, v3 := Value(e, s[0]).value, Value(e, s[1]).value, Value(e, s[2]).value, Value(e, s[3]).value;
    QuantumSextets(v0, v1, v2, v3);
    ValueLetter(e, s[0]);
    ValueLetter(e, s[1]);
    ValueLetter(e, s[2]);
    ValueLetter(e, s[3]);
  }

  /** A marker-bearing text whose encoding is alphanumeric, unpadded and 16 to 256 long. */
  ghost predicate OpaqueLookingAssertion(token: Bytes, text: Bytes) {
    && 12 <= |text| <= 192
    && |text| % 3 == 0
    && HasMarker(text)
    && token == Encode(StdEncoding, text)
    && forall c :: c in token ==> IsAlphanumeric(c)
  }

  lemma OpaqueDecodesIsLetters(token: Bytes)
    requires DetectsOpaque(token) && DecodeString(StdEncoding, token).Some?
    ensures SkipNewlines(token) == token
    ensures |token| % 4 == 0
    ensures forall i | 0 <= i < |token| :: IsLetter(StdEncoding, token[i])
  {
    OpaqueHasNoDot(token);
    SkipNewlinesIdentity(token);
    DecodesIffWellPadded(token);
    var k :| 0 <= k <= 2 && k <= |token| && LettersThenPads(token, k);
    assert token[|token| - 1] in token;
  }

  lemma OpaqueLettersAreAlphanumeric(token: Bytes)
    requires DetectsOpaque(token)
    requires forall i | 0 <= i < |token| :: IsLetter(StdEncoding, token[i])
    ensures forall c :: c in token ==> IsAlphanumeric(c)
  {
    forall c | c in token ensures IsAlphanumeric(c) {
      var i :| 0 <= i < |token| && token[i] == c;
    }
  }

  /** Opaque and SAML meet exactly on the alphanumeric encodings of marker-bearing texts of
      12, 15, ..., 192 bytes; such tokens are 16, 20, ..., 256 characters long. */
  lemma OpaqueSamlOverlap(token: Bytes)
    ensures DetectsOpaque(token) && DetectsSaml(token)
            <==> exists text :: OpaqueLookingAssertion(token, text)
    ensures DetectsOpaque(token) && DetectsSaml(token)
            ==> |token| % 4 == 0 && forall c :: c in token ==> IsAlphanumeric(c)
  {
    if DetectsOpaque(token) && DetectsSaml(token) {
      var text := OverlapText(token);
    }
    if text :| OpaqueLookingAssertion(token, text) {
      OverlapDetected(token, text);
    }
  }

  lemma OverlapText(token: Bytes) returns (text: Bytes)
    requires DetectsOpaque(token) && DetectsSaml(token)
    ensures |token| % 4 == 0
    ensures OpaqueLookingAssertion(token, text)
  {
    OpaqueDecodesIsLetters(token);
    OpaqueLettersAreAlphanumeric(token);
    text := LettersAreEncodings(token);
    QuantaLength(|token|, |text|);
  }

  lemma QuantaLength(letters: nat, bytes: nat)
    requires letters % 4 == 0 && bytes == letters / 4 * 3
    ensures bytes % 3 == 0
    ensures 16 <= letters <= 256 ==> 12 <= bytes <= 192
  {}

  lemma OverlapDetected(token: Bytes, text: Bytes)
    requires OpaqueLookingAssertion(token, text)
    ensures DetectsOpaque(token) && DetectsSaml(token)
  {
    assert DetectsSaml(token) by { RoundTrip(StdEncoding, text); }
    assert 16 <= |token| <= 256 by {
      EncodedLength(StdEncoding, text);
      EncodedLengthWindow(|text|);
    }
  }

  lemma EncodeQuantumStep(e: Encoding, b0: Byte, b1: Byte, b2: Byte, rest: Bytes)
    ensures Encode(e, [b0, b1, b2] + rest) == Encode3(e, b0, b1, b2) + Encode(e, rest)
  {
    assert ([b0, b1, b2] + rest)[3..] == rest;
  }

  const WITNESS_TEXT: Bytes := [60, 115, 97] + ([109, 108, 0] + ([0, 0, 0] + ([0, 0, 0] + [])))
  const WITNESS_TOKEN: Bytes := [80, 72, 78, 104] + ([98, 87, 119, 65] + ([65, 65, 65, 65] + ([65, 65, 65, 65] + [])))

  lemma WitnessQuanta()
    ensures Encode3(StdEncoding, 60, 115, 97) == [80, 72, 78, 104]
    ensures Encode3(StdEncoding, 109, 108, 0) == [98, 87, 119, 65]
    ensures Encode3(StdEncoding, 0, 0, 0) == [65, 65, 65, 65]
  {}

  lemma WitnessEncoding()
    ensures Encode(StdEncoding, WITNESS_TEXT) == WITNESS_TOKEN
  {
    var e := StdEncoding;
    var text6: Bytes := [0, 0, 0] + ([0, 0, 0] + []);
    WitnessQuanta();
    EncodeQuantumStep(e, 0, 0, 0, []);
    EncodeQuantumStep(e, 0, 0, 0, [0, 0, 0] + []);
    EncodeQuantumStep(e, 109, 108, 0, text6);
    EncodeQuantumStep(e, 60, 115, 97, [109, 108, 0] + text6);
  }

  /** The overlap is inhabited: PHNhbWwAAAAAAAAA, sixteen characters, encodes "<saml" followed
      by seven zero bytes. */
  lemma OverlapWitness()
    ensures |WITNESS_TOKEN| == 16
    ensures DetectsOpaque(WITNESS_TOKEN) && DetectsSaml(WITNESS_TOKEN)
  {
    WitnessEncoding();
    RoundTrip(StdEncoding, WITNESS_TEXT);
    WitnessHasMarker([0, 0, 0] + ([0, 0, 0] + []));
  }

  lemma WitnessHasMarker(rest: Bytes)
    ensures HasMarker([60, 115, 97] + ([109, 108, 0] + rest))
  {
    assert OccursAt([60, 115, 97] + ([109, 108, 0] + rest), MARKER_TAG, 0);
  }

  // ----- what each dotless detector accepts -----

  /** The texts that make a token an assertion. */
  const MARKERS := {"<saml", "<Assertion", "saml2:"}

  lemma MarkerBytes()
    ensures Ascii("<saml") == MARKER_TAG && Ascii("<Assertion") == MARKER_ELEMENT && Ascii("saml2:") == MARKER_PREFIX
  {}

  lemma OccursBetween(pre: Bytes, m: Bytes, post: Bytes)
    ensures Contains(pre + m + post, m)
  {
    assert OccursAt(pre + m + post, m, |pre|);
  }

  lemma OccurrenceSplits(text: Bytes, m: Bytes) returns (pre: Bytes, post: Bytes)
    requires Contains(text, m)
    ensures text == pre + m + post
  {
    var i :| 0 <= i <= |text| - |m| && OccursAt(text, m, i);
    pre, post := text[..i], text[i + |m|..];
  }

  lemma MarkedIff(text: Bytes)
    ensures HasMarker(text) <==> exists pre, m, post :: m in MARKERS && text == pre + Ascii(m) + post
  {
    MarkerBytes();
    if HasMarker(text) {
      var m := if Contains(text, MARKER_TAG) then "<saml" else if Contains(text, MARKER_ELEMENT) then "<Assertion" else "saml2:";
      var pre, post := OccurrenceSplits(text, Ascii(m));
    }
    if pre, m, post :| m in MARKERS && text == pre + Ascii(m) + post {
      OccursBetween(pre, Ascii(m), post);
    }
  }

  /** A token is SAML exactly when it decodes to a text around "<saml", "<Assertion" or "saml2:";
      every such text, once encoded, is. */
  lemma SamlIff(token: Bytes)
    ensures DetectsSaml(token)
            <==> exists pre, m, post ::
                   m in {"<saml", "<Assertion", "saml2:"} && DecodeString(StdEncoding, token) == Some(pre + Ascii(m) + post)
  {
    if DecodeString(StdEncoding, token).Some? {
      MarkedIff(DecodeString(StdEncoding, token).value);
    }
  }

  lemma MarkedIsSaml(pre: Bytes, m: string, post: Bytes)
    requires m in {"<saml", "<Assertion", "saml2:"}
    ensures DetectsSaml(Encode(StdEncoding, pre + Ascii(m) + post))
  {
    RoundTrip(StdEncoding, pre + Ascii(m) + post);
    MarkedIff(pre + Ascii(m) + post);
  }

  /** The opaque characters are the letters of section 5 of RFC 4648. */
  lemma OpaqueCharacters(c: Byte)
    ensures IsAlphanumericOrDash(c) <==> IsLetter(RawURLEncoding, c)
  {}

  /** A token is opaque exactly when it has 16 to 256 characters, all of them letters of section 5;
      so the raw encoding of a value is opaque exactly when the value has 12 to 192 bytes. */
  lemma OpaqueIff(token: Bytes)
    ensures DetectsOpaque(token)
            <==> 16 <= |token| <= 256 && forall c :: c in token ==> exists v: Sextet :: Letter(RawURLEncoding, v) == c
  {
    forall c: Byte ensures IsAlphanumericOrDash(c) <==> exists v: Sextet :: Letter(RawURLEncoding, v) == c {
      OpaqueCharacters(c);
      if IsLetter(RawURLEncoding, c) {
        ValueLetter(RawURLEncoding, c);
      }
      if v: Sextet :| Letter(RawURLEncoding, v) == c {
        LetterValue(RawURLEncoding, v);
      }
    }
  }

  lemma RawIsOpaqueIff(b: Bytes)
    ensures DetectsOpaque(Encode(RawURLEncoding, b)) <==> 12 <= |b| <= 192
  {
    EncodedLength(RawURLEncoding, b);
    EncodeAlphabet(RawURLEncoding, b);
    forall c | c in Encode(RawURLEncoding, b) ensures IsAlphanumericOrDash(c) {
      OpaqueCharacters(c);
    }
  }

  // ----- what the issuers produce -----

  /** An encoded text with a marker is SAML and never dotted; it is also opaque exactly when it
      is short, a multiple of three, and encodes without '+' and '/'. */
  lemma EncodedAssertion(read: JsonReader, text: Bytes)
    requires HasMarker(text)
    ensures var token := Encode(StdEncoding, text);
            && DetectsSaml(token)
            && !DetectsJwt(read, token)
            && !DetectsHmac(read, token)
            && (DetectsOpaque(token) <==>
                12 <= |text| <= 192 && |text| % 3 == 0 && 43 !in token && 47 !in token)
  {
    RoundTrip(StdEncoding, text);
    DottedAndDotlessDisjoint(read, Encode(StdEncoding, text));
    EncodedOpaqueIff(text);
  }

  lemma EncodedOpaqueIff(text: Bytes)
    ensures var token := Encode(StdEncoding, text);
            DetectsOpaque(token) <==>
            12 <= |text| <= 192 && |text| % 3 == 0 && 43 !in token && 47 !in token
  {
    EncodedCharacters(text);
    EncodedWindow(text);
  }

  lemma EncodedWindow(text: Bytes)
    ensures var token := Encode(StdEncoding, text);
            PAD !in token && 16 <= |token| <= 256 <==> |text| % 3 == 0 && 12 <= |text| <= 192
  {
    EncodedLength(StdEncoding, text);
    PaddingIff(text);
    if |text| % 3 == 0 {
      EncodedLengthWindow(|text|);
    }
  }

  lemma EncodedLengthWindow(n: nat)
    requires n % 3 == 0
    ensures 16 <= (n + 2) / 3 * 4 <= 256 <==> 12 <= n <= 192
  {}

  lemma EncodedCharacters(text: Bytes)
    ensures var token := Encode(StdEncoding, text);
            (forall c :: c in token ==> IsAlphanumericOrDash(c)) <==> PAD !in token && 43 !in token && 47 !in token
  {
    EncodeAlphabet(StdEncoding, text);
  }

  lemma {:induction false} WholeQuantaUnpadded(text: Bytes)
    requires |text| % 3 == 0
    ensures PAD !in Encode(StdEncoding, text)
  {
    if |text| > 0 {
      WholeQuantaUnpadded(text[3..]);
      QuantumHasNoPad(text[0], text[1], text[2]);
    }
  }

  lemma {:induction false} PartialQuantumPadded(text: Bytes)
    requires |text| % 3 != 0
    ensures PAD in Encode(StdEncoding, text)
  {
    if |text| > 3 {
      PartialQuantumPadded(text[3..]);
    } else {
      assert Encode(StdEncoding, text)[3] == PAD;
    }
  }

  lemma PaddingIff(text: Bytes)
    ensures PAD in Encode(StdEncoding, text) <==> |text| % 3 != 0
  {
    if |text| % 3 == 0 {
      WholeQuantaUnpadded(text);
    } else {
      PartialQuantumPadded(text);
    }
  }

  lemma QuantumHasNoPad(b0: Byte, b1: Byte, b2: Byte)
    ensures PAD !in Encode3(StdEncoding, b0, b1, b2)
  {
    var v0, v1, v2, v3 := Sextet0(b0), Sextet1(b0, b1), Sextet2(b1, b2), Sextet3(b2);
    DecodeLetters(StdEncoding, v0, v0, v0, v1);
    DecodeLetters(StdEncoding, v0, v0, v2, v3);
  }

  /** More than 192 bytes is exactly what makes the encoding too long for the opaque detector. */
  lemma LongAssertionOnlySaml(read: JsonReader, text: Bytes)
    ensures |Encode(StdEncoding, text)| > 256 <==> |text| > 192
    ensures HasMarker(text) && |text| > 192 ==>
              var token := Encode(StdEncoding, text);
              DetectsSaml(token) && !DetectsOpaque(token) && !DetectsJwt(read, token) && !DetectsHmac(read, token)
  {
    EncodedLength(StdEncoding, text);
    if HasMarker(text) {
      EncodedAssertion(read, text);
    }
  }

  /** The compact form of section 7.1 of RFC 7515. */
  function CompactForm(header: Bytes, payload: Bytes, signature: Bytes): Bytes {
    Encode(RawURLEncoding, header) + Ascii(".") + Encode(RawURLEncoding, payload) + Ascii(".") + Encode(RawURLEncoding, signature)
  }

  lemma RawHasNoDot(b: Bytes)
    ensures DOT !in Encode(RawURLEncoding, b)
  {
    EncodeAlphabet(RawURLEncoding, b);
  }

  lemma CompactTokenIsJwt(read: JsonReader, header: Bytes, payload: Bytes, signature: Bytes)
    ensures DetectsJwt(read, CompactForm(header, payload, signature)) <==> HasNonNull(read(header), "alg")
  {
    DotIsPeriod();
    RawHasNoDot(header);
    RawHasNoDot(payload);
    RawHasNoDot(signature);
    SplitThreeParts(Encode(RawURLEncoding, header), Encode(RawURLEncoding, payload), Encode(RawURLEncoding, signature));
    RoundTrip(RawURLEncoding, header);
  }

  lemma CompactTokenIsHmac(read: JsonReader, header: Bytes, payload: Bytes, signature: Bytes)
    ensures DetectsHmac(read, CompactForm(header, payload, signature)) <==> HasKey(read(header), "service_id")
  {
    DotIsPeriod();
    var h, p, s := Encode(RawURLEncoding, header), Encode(RawURLEncoding, payload), Encode(RawURLEncoding, signature);
    RawHasNoDot(header);
    assert CompactForm(header, payload, signature) == h + [DOT] + (p + [DOT] + s);
    CutUnique(h, DOT, p + [DOT] + s);
    RoundTrip(RawURLEncoding, header);
  }

  lemma CompactTokenHasDot(header: Bytes, payload: Bytes, signature: Bytes)
    ensures DOT in CompactForm(header, payload, signature)
  {
    DotIsPeriod();
    assert CompactForm(header, payload, signature)[|Encode(RawURLEncoding, header)|] == DOT;
  }

  lemma DotIsNeither(token: Bytes)
    requires DOT in token
    ensures !DetectsOpaque(token) && !DetectsSaml(token)
  {
    if DetectsOpaque(token) {
      OpaqueHasNoDot(token);
    }
    if DetectsSaml(token) {
      SamlHasNoDot(token);
    }
  }

  /** Any compact token is JWT iff its header is an object with a non-null alg, HMAC iff it is one
      with a service_id, and neither opaque nor SAML. */
  lemma CompactTokenClassified(read: JsonReader, header: Bytes, payload: Bytes, signature: Bytes)
    ensures var token := CompactForm(header, payload, signature);
            && (DetectsJwt(read, token) <==>
                match read(header)
                case Malformed => false
                case Document(fields) => "alg" in fields && fields["alg"] != JNull)
            && (DetectsHmac(read, token) <==>
                match read(header)
                case Malformed => false
                case Document(fields) => "service_id" in fields)
            && !DetectsOpaque(token)
            && !DetectsSaml(token)
  {
    CompactTokenIsJwt(read, header, payload, signature);
    CompactTokenIsHmac(read, header, payload, signature);
    CompactTokenHasDot(header, payload, signature);
    DotIsNeither(CompactForm(header, payload, signature));
  }

  /** The form of an HMAC token: payload and MAC around a period. */
  function HmacForm(payload: Bytes, signature: Bytes): Bytes {
    Encode(RawURLEncoding, payload) + Ascii(".") + Encode(RawURLEncoding, signature)
  }

  /** A token of that form is HMAC iff its payload is an object with a service_id, and nothing else
      in any case. */
  lemma HmacTokenClassified(read: JsonReader, payload: Bytes, signature: Bytes)
    ensures var token := HmacForm(payload, signature);
            && (DetectsHmac(read, token) <==>
                match read(payload)
                case Malformed => false
                case Document(fields) => "service_id" in fields)
            && !DetectsJwt(read, token) && !DetectsOpaque(token) && !DetectsSaml(token)
  {
    var p, s := Encode(RawURLEncoding, payload), Encode(RawURLEncoding, signature);
    DotIsPeriod();
    RawHasNoDot(payload);
    RawHasNoDot(signature);
    RoundTrip(RawURLEncoding, payload);
    CutUnique(p, DOT, s);
    SplitAtSeparator(p, DOT, s);
    SplitWithoutSeparator(p, DOT);
    SplitWithoutSeparator(s, DOT);
    assert HmacForm(payload, signature)[|p|] == DOT;
    DotIsNeither(HmacForm(payload, signature));
  }

  /** The two halves an HMAC exchange works on: the payload bytes and, when that half decodes,
      the signature bytes. */
  function HmacSegments(token: Bytes): Option<(Bytes, Option<Bytes>)> {
    var parts := Cut(token, DOT);
    if |parts| != 2 then None
    else
      match DecodeString(RawURLEncoding, parts[0])
      case None => None
      case Some(payload) => Some((payload, DecodeString(RawURLEncoding, parts[1])))
  }

  lemma HmacSegmentsRoundTrip(payload: Bytes, signature: Bytes)
    ensures HmacSegments(HmacForm(payload, signature)) == Some((payload, Some(signature)))
  {
    DotIsPeriod();
    RawHasNoDot(payload);
    CutUnique(Encode(RawURLEncoding, payload), DOT, Encode(RawURLEncoding, signature));
    RoundTrip(RawURLEncoding, payload);
    RoundTrip(RawURLEncoding, signature);
  }
}
