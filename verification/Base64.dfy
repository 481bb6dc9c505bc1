/** Base64 as Go's encoding/base64 does it: the two alphabets of RFC 4648 (section 4 and
    section 5), padded and raw forms. The decoder skips CR and LF wherever they stand and does
    not look at trailing bits (it is not Strict()). */
module Base64 {
  import opened Sequences

  type Byte = b: nat | b < 256 witness 0
  type Bytes = seq<Byte>
  type Sextet = v: nat | v < 64 witness 0

  const LF: Byte := 10
  const CR: Byte := 13
  const PAD: Byte := 61 // '='

  /** The bytes of a text of ASCII characters. */
  function Ascii(s: string): Bytes {
    seq(|s|, i requires 0 <= i < |s| => s[i] as int % 256)
  }

  /** RFC 4648: StdEncoding is padded with the alphabet of section 4, RawURLEncoding is
      unpadded with the alphabet of section 5. */
  datatype Encoding = StdEncoding | RawURLEncoding

  function Letter(e: Encoding, v: Sextet): Byte {
    if v < 26 then 65 + v
    else if v < 52 then 97 + v - 26
    else if v < 62 then 48 + v - 52
    else if v == 62 then (if e.StdEncoding? then 43 else 45)
    else if e.StdEncoding? then 47 else 95
  }

  function Value(e: Encoding, c: Byte): Option<Sextet> {
    if 65 <= c <= 90 then Some(c - 65)
    else if 97 <= c <= 122 then Some(c - 97 + 26)
    else if 48 <= c <= 57 then Some(c - 48 + 52)
    else if c == (if e.StdEncoding? then 43 else 45) then Some(62)
    else if c == (if e.StdEncoding? then 47 else 95) then Some(63)
    else None
  }

  /** The three bytes of a quantum of four sextets. */
  function Byte0(v0: Sextet, v1: Sextet): Byte { v0 * 4 + v1 / 16 }
  function Byte1(v1: Sextet, v2: Sextet): Byte { v1 % 16 * 16 + v2 / 4 }
  function Byte2(v2: Sextet, v3: Sextet): Byte { v2 % 4 * 64 + v3 }

  /** The four sextets of three bytes; missing bytes count as zero. */
  function Sextet0(b0: Byte): Sextet { b0 / 4 }
  function Sextet1(b0: Byte, b1: Byte): Sextet { b0 % 4 * 16 + b1 / 16 }
  function Sextet2(b1: Byte, b2: Byte): Sextet { b1 % 16 * 4 + b2 / 64 }
  function Sextet3(b2: Byte): Sextet { b2 % 64 }

  function Padding(e: Encoding, n: nat): Bytes {
    if e.StdEncoding? then seq(n, _ => PAD) else []
  }

  function Encode1(e: Encoding, b0: Byte): Bytes {
    [Letter(e, Sextet0(b0)), Letter(e, Sextet1(b0, 0))]
  }

  function Encode2(e: Encoding, b0: Byte, b1: Byte): Bytes {
    [Letter(e, Sextet0(b0)), Letter(e, Sextet1(b0, b1)), Letter(e, Sextet2(b1, 0))]
  }

  function Encode3(e: Encoding, b0: Byte, b1: Byte, b2: Byte): Bytes {
    [Letter(e, Sextet0(b0)), Letter(e, Sextet1(b0, b1)), Letter(e, Sextet2(b1, b2)), Letter(e, Sextet3(b2))]
  }

  function Encode(e: Encoding, b: Bytes): Bytes {
    if |b| == 0 then []
    else if |b| == 1 then Encode1(e, b[0]) + Padding(e, 2)
    else if |b| == 2 then Encode2(e, b[0], b[1]) + Padding(e, 1)
    else Encode3(e, b[0], b[1], b[2]) + Encode(e, b[3..])
  }

  function Decode2(e: Encoding, s: Bytes): Option<Bytes>
    requires |s| == 2
  {
    match (Value(e, s[0]), Value(e, s[1]))
    case (Some(v0), Some(v1)) => Some([Byte0(v0, v1)])
    case _ => None
  }

  function Decode3(e: Encoding, s: Bytes): Option<Bytes>
    requires |s| == 3
  {
    match (Value(e, s[0]), Value(e, s[1]), Value(e, s[2]))
    case (Some(v0), Some(v1), Some(v2)) => Some([Byte0(v0, v1), Byte1(v1, v2)])
    case _ => None
  }

  function Decode4(e: Encoding, s: Bytes): Option<Bytes>
    requires |s| == 4
  {
    match (Value(e, s[0]), Value(e, s[1]), Value(e, s[2]), Value(e, s[3]))
    case (Some(v0), Some(v1), Some(v2), Some(v3)) => Some([Byte0(v0, v1), Byte1(v1, v2), Byte2(v2, v3)])
    case _ => None
  }

  /** Decodes text that holds no CR or LF, quantum by quantum. */
  function DecodeQuanta(e: Encoding, s: Bytes): Option<Bytes> {
    if |s| == 0 then Some([])
    else if |s| < 4 then
      if e.StdEncoding? || |s| == 1 then None
      else if |s| == 2 then Decode2(e, s)
      else Decode3(e, s)
    else if e.StdEncoding? && |s| == 4 && s[3] == PAD then
      if s[2] == PAD then Decode2(e, s[..2]) else Decode3(e, s[..3])
    else
      match (Decode4(e, s[..4]), DecodeQuanta(e, s[4..]))
      case (Some(head), Some(tail)) => Some(head + tail)
      case _ => None
  }

  function SkipNewlines(s: Bytes): (r: Bytes)
    ensures forall c :: c in r <==> c in s && c != CR && c != LF
  {
    if s == [] then []
    else if s[0] == CR || s[0] == LF then SkipNewlines(s[1..])
    else
      assert s == [s[0]] + s[1..];
      [s[0]] + SkipNewlines(s[1..])
  }

  /** Encoding.DecodeString; None is CorruptInputError. */
  function DecodeString(e: Encoding, s: Bytes): Option<Bytes> {
    DecodeQuanta(e, SkipNewlines(s))
  }

  const UPPER := "ABCDEFGHIJKLMNOPQRSTUVWXYZ"
  const LOWER := "abcdefghijklmnopqrstuvwxyz"
  const DIGITS := "0123456789"

  lemma UpperLetter(e: Encoding, v: Sextet)
    requires v < 26
    ensures Letter(e, v) == UPPER[v] as int
  {}

  lemma LowerLetter(e: Encoding, v: Sextet)
    requires 26 <= v < 52
    ensures Letter(e, v) == LOWER[v - 26] as int
  {}

  /** Letter is the alphabet of RFC 4648: table 1 (section 4) or table 2 (section 5). */
  lemma LetterTable(e: Encoding, v: Sextet)
    ensures v < 26 ==> Letter(e, v) == UPPER[v] as int
    ensures 26 <= v < 52 ==> Letter(e, v) == LOWER[v - 26] as int
    ensures 52 <= v < 62 ==> Letter(e, v) == DIGITS[v - 52] as int
    ensures 62 <= v ==> Letter(e, v) == (if e.StdEncoding? then "+/" else "-_")[v - 62] as int
  {
    if v < 26 {
      UpperLetter(e, v);
    } else if v < 52 {
      LowerLetter(e, v);
    }
  }

  lemma LetterValue(e: Encoding, v: Sextet)
    ensures Value(e, Letter(e, v)) == Some(v)
  {}

  lemma ValueLetter(e: Encoding, c: Byte)
    ensures Value(e, c).Some? ==> Letter(e, Value(e, c).value) == c
  {}

  /** Packing and unpacking bits: a quantum built from three bytes holds those bytes. */
  lemma QuantumBytes(b0: Byte, b1: Byte, b2: Byte)
    ensures Byte0(Sextet0(b0), Sextet1(b0, b1)) == b0
    ensures Byte1(Sextet1(b0, b1), Sextet2(b1, b2)) == b1
    ensures Byte2(Sextet2(b1, b2), Sextet3(b2)) == b2
  {}

  lemma DecodeLetters(e: Encoding, v0: Sextet, v1: Sextet, v2: Sextet, v3: Sextet)
    ensures Decode4(e, [Letter(e, v0), Letter(e, v1), Letter(e, v2), Letter(e, v3)])
            == Some([Byte0(v0, v1), Byte1(v1, v2), Byte2(v2, v3)])
    ensures Decode3(e, [Letter(e, v0), Letter(e, v1), Letter(e, v2)]) == Some([Byte0(v0, v1), Byte1(v1, v2)])
    ensures Decode2(e, [Letter(e, v0), Letter(e, v1)]) == Some([Byte0(v0, v1)])
    ensures Letter(e, v2) != PAD && Letter(e, v3) != PAD
  {
    LetterValue(e, v0);
    LetterValue(e, v1);
    LetterValue(e, v2);
    LetterValue(e, v3);
  }

  lemma Quantum3(e: Encoding, b0: Byte, b1: Byte, b2: Byte)
    ensures Decode4(e, Encode3(e, b0, b1, b2)) == Some([b0, b1, b2])
    ensures Encode3(e, b0, b1, b2)[3] != PAD
  {
    QuantumBytes(b0, b1, b2);
    DecodeLetters(e, Sextet0(b0), Sextet1(b0, b1), Sextet2(b1, b2), Sextet3(b2));
  }

  lemma Quantum2(e: Encoding, b0: Byte, b1: Byte)
    ensures Decode3(e, Encode2(e, b0, b1)) == Some([b0, b1])
    ensures Encode2(e, b0, b1)[2] != PAD
  {
    QuantumBytes(b0, b1, 0);
    var v0, v1, v2 := Sextet0(b0), Sextet1(b0, b1), Sextet2(b1, 0);
    DecodeLetters(e, v0, v1, v2, v2);
  }

  lemma Quantum1(e: Encoding, b0: Byte)
    ensures Decode2(e, Encode1(e, b0)) == Some([b0])
  {
    QuantumBytes(b0, 0, 0);
    var v0, v1 := Sextet0(b0), Sextet1(b0, 0);
    DecodeLetters(e, v0, v1, v1, v1);
  }

  /** One full quantum in front adds its three bytes in front. */
  lemma DecodeStep(e: Encoding, quantum: Bytes, rest: Bytes)
    requires |quantum| == 4 && quantum[3] != PAD
    requires Decode4(e, quantum).Some? && DecodeQuanta(e, rest).Some?
    ensures DecodeQuanta(e, quantum + rest) == Some(Decode4(e, quantum).value + DecodeQuanta(e, rest).value)
  {
    var s := quantum + rest;
    assert s[..4] == quantum && s[4..] == rest && s[3] == quantum[3];
  }

  /** Every byte string survives encoding and decoding, in both forms. */
  lemma {:induction false} DecodeEncodeQuanta(e: Encoding, b: Bytes)
    ensures DecodeQuanta(e, Encode(e, b)) == Some(b)
  {
    var s := Encode(e, b);
    if |b| == 1 {
      Quantum1(e, b[0]);
      assert s[..2] == Encode1(e, b[0]);
      assert e.RawURLEncoding? ==> s == s[..2];
      assert b == [b[0]];
    } else if |b| == 2 {
      Quantum2(e, b[0], b[1]);
      assert s[..3] == Encode2(e, b[0], b[1]);
      assert e.RawURLEncoding? ==> s == s[..3];
      assert b == [b[0], b[1]];
    } else if |b| > 2 {
      Quantum3(e, b[0], b[1], b[2]);
      DecodeEncodeQuanta(e, b[3..]);
      DecodeStep(e, Encode3(e, b[0], b[1], b[2]), Encode(e, b[3..]));
      assert b == [b[0], b[1], b[2]] + b[3..];
    }
  }

  predicate IsLetter(e: Encoding, c: Byte) { Value(e, c).Some? }

  lemma LettersAreLetters(e: Encoding)
    ensures forall v: Sextet :: IsLetter(e, Letter(e, v))
  {
    forall v: Sextet ensures IsLetter(e, Letter(e, v)) { LetterValue(e, v); }
  }

  lemma {:induction false} EncodeAlphabet(e: Encoding, b: Bytes)
    ensures forall c :: c in Encode(e, b) ==> IsLetter(e, c) || (e.StdEncoding? && c == PAD)
  {
    LettersAreLetters(e);
    if |b| >= 3 {
      EncodeAlphabet(e, b[3..]);
    }
  }

  lemma {:induction false} SkipNewlinesIdentity(s: Bytes)
    requires CR !in s && LF !in s
    ensures SkipNewlines(s) == s
  {
    if s != [] {
      assert s == [s[0]] + s[1..];
      SkipNewlinesIdentity(s[1..]);
    }
  }

  /** DecodeString(EncodeToString(b)) == b for every b (RFC 4648, sections 4 and 5). */
  lemma RoundTrip(e: Encoding, b: Bytes)
    ensures DecodeString(e, Encode(e, b)) == Some(b)
  {
    EncodeAlphabet(e, b);
    SkipNewlinesIdentity(Encode(e, b));
    DecodeEncodeQuanta(e, b);
  }

  /** Padded output is 4 * ceil(n / 3) letters; raw output is ceil(4n / 3). */
  lemma {:induction false} EncodedLength(e: Encoding, b: Bytes)
    ensures |Encode(e, b)| == if e.StdEncoding? then (|b| + 2) / 3 * 4 else (4 * |b| + 2) / 3
  {
    if |b| >= 3 {
      EncodedLength(e, b[3..]);
      QuantumLength(|b|);
    }
  }

  lemma QuantumLength(n: nat)
    requires n >= 3
    ensures (n + 2) / 3 * 4 == 4 + (n - 1) / 3 * 4
    ensures (4 * n + 2) / 3 == 4 + (4 * (n - 3) + 2) / 3
  {}

  /** Section 4 text decodes exactly when, newlines aside, it is a multiple of four characters,
      all letters except for at most two closing pads. */
  ghost predicate WellPadded(s: Bytes) {
    && |s| % 4 == 0
    && exists k | 0 <= k <= 2 && k <= |s| :: LettersThenPads(s, k)
  }

  predicate LettersThenPads(s: Bytes, k: nat)
    requires k <= |s|
  {
    && (forall i | 0 <= i < |s| - k :: IsLetter(StdEncoding, s[i]))
    && (forall i | |s| - k <= i < |s| :: s[i] == PAD)
  }

  lemma WellPaddedStep(s: Bytes)
    requires |s| > 4
    ensures WellPadded(s) <==> WellPadded(s[4..]) && forall i | 0 <= i < 4 :: IsLetter(StdEncoding, s[i])
  {
    var rest := s[4..];
    if WellPadded(s) {
      var k :| 0 <= k <= 2 && k <= |s| && LettersThenPads(s, k);
      assert LettersThenPads(rest, k);
    }
    if WellPadded(rest) && forall i | 0 <= i < 4 :: IsLetter(StdEncoding, s[i]) {
      var k :| 0 <= k <= 2 && k <= |rest| && LettersThenPads(rest, k);
      assert forall i | 4 <= i < |s| :: s[i] == rest[i - 4];
      assert LettersThenPads(s, k);
    }
  }

  lemma WellPaddedQuantum(s: Bytes)
    requires |s| == 4
    ensures DecodeQuanta(StdEncoding, s).Some? <==> WellPadded(s)
  {
    assert s[4..] == [];
    assert LettersThenPads(s, 0) <==> Decode4(StdEncoding, s).Some?;
    assert LettersThenPads(s, 1) <==> s[3] == PAD && Decode3(StdEncoding, s[..3]).Some?;
    assert LettersThenPads(s, 2) <==> s[3] == PAD && s[2] == PAD && Decode2(StdEncoding, s[..2]).Some?;
  }

  lemma {:induction false} DecodesIffWellPadded(s: Bytes)
    ensures DecodeQuanta(StdEncoding, s).Some? <==> WellPadded(s)
  {
    if |s| == 0 {
      assert LettersThenPads(s, 0);
    } else if |s| == 4 {
      WellPaddedQuantum(s);
    } else if |s| > 4 {
      DecodesIffWellPadded(s[4..]);
      WellPaddedStep(s);
      assert Decode4(StdEncoding, s[..4]).Some? <==> forall i | 0 <= i < 4 :: IsLetter(StdEncoding, s[i]);
    }
  }

  /** Raw section 5 text decodes exactly when all characters are letters and the length is not
      one more than a multiple of four. */
  lemma {:induction false} RawDecodesIff(s: Bytes)
    ensures DecodeQuanta(RawURLEncoding, s).Some?
            <==> |s| % 4 != 1 && forall i | 0 <= i < |s| :: IsLetter(RawURLEncoding, s[i])
  {
    if |s| >= 4 {
      var rest := s[4..];
      RawDecodesIff(rest);
      assert forall i | 4 <= i < |s| :: s[i] == rest[i - 4];
      assert Decode4(RawURLEncoding, s[..4]).Some? <==> forall i | 0 <= i < 4 :: IsLetter(RawURLEncoding, s[i]);
      assert forall i | 0 <= i < |rest| :: rest[i] == s[i + 4];
    }
  }

  /** The vectors of section 10 of RFC 4648 that end in a quantum of three, two and one bytes. */
  lemma Vectors()
    ensures Encode(StdEncoding, Ascii("foo")) == Ascii("Zm9v")
    ensures Encode(StdEncoding, Ascii("fo")) == Ascii("Zm8=")
    ensures Encode(StdEncoding, Ascii("f")) == Ascii("Zg==")
  {
    assert Ascii("foo") == [102, 111, 111] && Ascii("fo") == [102, 111] && Ascii("f") == [102];
    assert Ascii("Zm9v") == [90, 109, 57, 118] && Ascii("Zm8=") == [90, 109, 56, 61] && Ascii("Zg==") == [90, 103, 61, 61];
  }

  lemma {:induction false} SkipNewlinesAppend(a: Bytes, b: Bytes)
    ensures SkipNewlines(a + b) == SkipNewlines(a) + SkipNewlines(b)
  {
    if a == [] {
      assert a + b == b;
    } else {
      assert (a + b)[1..] == a[1..] + b;
      SkipNewlinesAppend(a[1..], b);
    }
  }

  /** A carriage return or a line feed anywhere in a text makes no difference to its decoding. */
  lemma NewlinesIgnored(e: Encoding, a: Bytes, newline: string, b: Bytes)
    requires newline in {"\r", "\n"}
    ensures DecodeString(e, a + Ascii(newline) + b) == DecodeString(e, a + b)
  {
    assert Ascii(newline) == [CR] || Ascii(newline) == [LF];
    SkipNewlinesAppend(a + Ascii(newline), b);
    SkipNewlinesAppend(a, Ascii(newline));
    SkipNewlinesAppend(a, b);
    assert SkipNewlines(a) + [] == SkipNewlines(a);
  }

  /** The bits of a last letter that no byte takes up make no difference either. */
  lemma TrailingBitsIgnored(v0: Sextet, v1: Sextet, v2: Sextet, spare: Sextet)
    ensures Decode2(RawURLEncoding, [Letter(RawURLEncoding, v0), Letter(RawURLEncoding, v1 / 16 * 16 + spare % 16)])
            == Some([v0 * 4 + v1 / 16])
    ensures Decode3(RawURLEncoding, [Letter(RawURLEncoding, v0), Letter(RawURLEncoding, v1), Letter(RawURLEncoding, v2 / 4 * 4 + spare % 4)])
            == Some([v0 * 4 + v1 / 16, v1 % 16 * 16 + v2 / 4])
  {
    LetterValue(RawURLEncoding, v0);
    LetterValue(RawURLEncoding, v1);
    LetterValue(RawURLEncoding, v1 / 16 * 16 + spare % 16);
    LetterValue(RawURLEncoding, v2 / 4 * 4 + spare % 4);
  }
}
