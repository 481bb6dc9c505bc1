/** The trusted-issuer list of the server: TRUSTED_ISSUERS read into entries, and the
    configuration map built from them. */
module TrustedIssuers {
  import opened Sequences
  import opened MapWrites

  const SEMICOLON := ';'
  const EQUALS := '='
  const DEFAULT_TRUST := "medium"
  const DEFAULT_HOST := "http://legacy-jwt-app:9001"
  const DEFAULT_PATH := "/.well-known/jwks.json"
  const DEFAULT_ISSUERS := "legacy-jwt-issuer" + "=" + (DEFAULT_HOST + DEFAULT_PATH) + "," + "medium"

  datatype Entry = Entry(name: string, jwksUrl: string, trust: string)

  /** unicode.IsSpace: what strings.TrimSpace removes. */
  predicate IsSpace(c: char) {
    || c == '\t' || c == '\n' || c == '\U{b}' || c == '\U{c}' || c == '\r' || c == ' '
    || c == '\U{85}' || c == '\U{a0}' || c == '\U{1680}' || '\U{2000}' <= c <= '\U{200a}'
    || c == '\U{2028}' || c == '\U{2029}' || c == '\U{202f}' || c == '\U{205f}' || c == '\U{3000}'
  }

  function TrimLeft(s: string): string {
    if s != "" && IsSpace(s[0]) then TrimLeft(s[1..]) else s
  }

  function TrimRight(s: string): string {
    if s != "" && IsSpace(s[|s| - 1]) then TrimRight(s[..|s| - 1]) else s
  }

  /** strings.TrimSpace. */
  function Trim(s: string): string { TrimRight(TrimLeft(s)) }

  predicate Trimmed(s: string) {
    s != "" ==> !IsSpace(s[0]) && !IsSpace(s[|s| - 1])
  }

  /** The entry a trimmed segment with an equals sign stands for. */
  function ReadEntry(entry: string): Entry
    requires EQUALS in entry
  {
    var parts := Cut(entry, EQUALS);
    var rest := Cut(parts[1], COMMA);
    Entry(parts[0], rest[0], if |rest| == 2 then rest[1] else DEFAULT_TRUST)
  }

  /** What one segment of the list contributes: at most one entry. */
  function ParseSegment(segment: string): seq<Entry> {
    var entry := Trim(segment);
    if EQUALS in entry then [ReadEntry(entry)] else []
  }

  function ParseSegments(segments: seq<string>): seq<Entry> {
    if segments == [] then []
    else ParseSegments(segments[..|segments| - 1]) + ParseSegment(segments[|segments| - 1])
  }

  function Parse(raw: string): seq<Entry> {
    ParseSegments(Split(raw, SEMICOLON))
  }

  /** parseTrustedIssuers, after the environment has been read. */
  method ParseTrustedIssuers(raw: string) returns (entries: seq<Entry>)
    ensures entries == Parse(raw)
  {
    entries := [];
    var segments := Split(raw, SEMICOLON);
    for i := 0 to |segments|
      invariant entries == ParseSegments(segments[..i])
    {
      ParsePrefix(segments, i);
      var entry := Trim(segments[i]);
      if entry == "" {
        continue;
      }
      var parts := Cut(entry, EQUALS);
      if |parts| != 2 {
        continue;
      }
      var issuer := parts[0];
      var rest := Cut(parts[1], COMMA);
      var trust := DEFAULT_TRUST;
      if |rest| == 2 {
        trust := rest[1];
      }
      entries := entries + [Entry(issuer, rest[0], trust)];
    }
    assert segments[..|segments|] == segments;
  }

  function PrintEntry(e: Entry): string {
    e.name + [EQUALS] + e.jwksUrl + [COMMA] + e.trust
  }

  function PrintEach(entries: seq<Entry>): seq<string> {
    if entries == [] then [] else PrintEach(entries[..|entries| - 1]) + [PrintEntry(entries[|entries| - 1])]
  }

  /** name=url,trust joined by semicolons. */
  function Print(entries: seq<Entry>): string {
    Join(PrintEach(entries), SEMICOLON)
  }

  /** No delimiter where it would be read as one, no outer white space. */
  predicate WellFormed(e: Entry) {
    && EQUALS !in e.name && SEMICOLON !in e.name
    && COMMA !in e.jwksUrl && SEMICOLON !in e.jwksUrl
    && SEMICOLON !in e.trust
    && (e.name != "" ==> !IsSpace(e.name[0]))
    && (e.trust != "" ==> !IsSpace(e.trust[|e.trust| - 1]))
  }

  predicate AllWellFormed(entries: seq<Entry>) {
    forall i | 0 <= i < |entries| :: WellFormed(entries[i])
  }

  // ----- trimming -----

  lemma {:induction false} TrimLeftSpec(s: string) returns (cut: nat)
    ensures cut <= |s| && TrimLeft(s) == s[cut..]
    ensures forall i | 0 <= i < cut :: IsSpace(s[i])
    ensures TrimLeft(s) != "" ==> !IsSpace(TrimLeft(s)[0])
  {
    cut := 0;
    if s != "" && IsSpace(s[0]) {
      cut := TrimLeftSpec(s[1..]);
      assert s[1..][cut..] == s[cut + 1..];
      assert forall i | 1 <= i < cut + 1 :: s[i] == s[1..][i - 1];
      cut := cut + 1;
    }
  }

  lemma {:induction false} TrimRightSpec(s: string) returns (keep: nat)
    ensures keep <= |s| && TrimRight(s) == s[..keep]
    ensures forall i | keep <= i < |s| :: IsSpace(s[i])
    ensures TrimRight(s) != "" ==> !IsSpace(TrimRight(s)[keep - 1])
  {
    keep := |s|;
    if s != "" && IsSpace(s[|s| - 1]) {
      keep := TrimRightSpec(s[..|s| - 1]);
      assert s[..|s| - 1][..keep] == s[..keep];
    }
  }

  /** Trim drops outer white space and nothing else; what is left starts and ends without it. */
  lemma TrimSpec(s: string) returns (lo: nat, hi: nat)
    ensures lo <= hi <= |s| && Trim(s) == s[lo..hi]
    ensures forall i | 0 <= i < lo || hi <= i < |s| :: IsSpace(s[i])
    ensures Trimmed(Trim(s))
  {
    lo := TrimLeftSpec(s);
    var t := TrimLeft(s);
    var keep := TrimRightSpec(t);
    hi := lo + keep;
    assert s[lo..][..keep] == s[lo..hi];
    forall i | hi <= i < |s| ensures IsSpace(s[i]) {
      assert t[i - lo] == s[i];
    }
  }

  lemma TrimmedIsKept(s: string)
    requires Trimmed(s)
    ensures Trim(s) == s
  {}

  lemma TrimKeepsNonSpace(s: string, c: char)
    requires !IsSpace(c)
    ensures c in Trim(s) <==> c in s
  {
    var lo, hi := TrimSpec(s);
    if c in s {
      var i :| 0 <= i < |s| && s[i] == c;
      assert s[lo..hi][i - lo] == c;
    }
  }

  lemma TrimSubset(s: string)
    ensures forall c :: c in Trim(s) ==> c in s
  {
    var lo, hi := TrimSpec(s);
  }

  // ----- one segment -----

  lemma ReadEntryWellFormed(entry: string)
    requires EQUALS in entry && SEMICOLON !in entry && Trimmed(entry)
    ensures WellFormed(ReadEntry(entry))
  {
    NameAndTail(entry);
    TailWellFormed(Cut(entry, EQUALS)[1]);
  }

  lemma NameAndTail(entry: string)
    requires EQUALS in entry && SEMICOLON !in entry
    ensures var parts := Cut(entry, EQUALS);
            && EQUALS !in parts[0] && SEMICOLON !in parts[0] && SEMICOLON !in parts[1]
            && (parts[0] != "" ==> parts[0][0] == entry[0])
            && (parts[1] != "" ==> parts[1][|parts[1]| - 1] == entry[|entry| - 1])
  {
    var parts := Cut(entry, EQUALS);
    CutSound(entry, EQUALS);
    assert entry == parts[0] + [EQUALS] + parts[1];
  }

  lemma TailWellFormed(tail: string)
    requires SEMICOLON !in tail
    ensures var rest := Cut(tail, COMMA);
            && COMMA !in rest[0] && SEMICOLON !in rest[0]
            && (|rest| == 2 ==> SEMICOLON !in rest[1] && (rest[1] != "" ==> rest[1][|rest[1]| - 1] == tail[|tail| - 1]))
  {
    CutSound(tail, COMMA);
  }

  /** A segment free of semicolons yields an entry exactly when it has an equals sign, and that
      entry is well formed. */
  lemma SegmentEntries(segment: string)
    requires SEMICOLON !in segment
    ensures ParseSegment(segment) != [] <==> EQUALS in segment
    ensures AllWellFormed(ParseSegment(segment))
  {
    var entry := Trim(segment);
    var lo, hi := TrimSpec(segment);
    TrimKeepsNonSpace(segment, EQUALS);
    TrimSubset(segment);
    if EQUALS in entry {
      ReadEntryWellFormed(entry);
    }
  }

  lemma ParsePrintedEntry(e: Entry)
    requires WellFormed(e)
    ensures ParseSegment(PrintEntry(e)) == [e]
    ensures SEMICOLON !in PrintEntry(e)
  {
    var text := PrintEntry(e);
    var rest := e.jwksUrl + [COMMA] + e.trust;
    assert text == e.name + [EQUALS] + rest;
    assert text[|text| - 1] == if e.trust == "" then COMMA else e.trust[|e.trust| - 1];
    assert text[0] == if e.name == "" then EQUALS else e.name[0];
    TrimmedIsKept(text);
    CutUnique(e.name, EQUALS, rest);
    CutUnique(e.jwksUrl, COMMA, e.trust);
  }

  // ----- the list -----

  lemma {:induction false} ParsedAreWellFormed(segments: seq<string>)
    requires forall s :: s in segments ==> SEMICOLON !in s
    ensures AllWellFormed(ParseSegments(segments))
    ensures ParseSegments(segments) != [] <==> exists s :: s in segments && EQUALS in s
  {
    if segments != [] {
      var n := |segments| - 1;
      ParsedAreWellFormed(segments[..n]);
      SegmentEntries(segments[n]);
      assert forall s :: s in segments <==> s in segments[..n] || s == segments[n];
    }
  }

  lemma {:induction false} PrintedSegments(entries: seq<Entry>)
    requires AllWellFormed(entries)
    ensures forall s :: s in PrintEach(entries) ==> SEMICOLON !in s
  {
    if entries != [] {
      PrintedSegments(entries[..|entries| - 1]);
      ParsePrintedEntry(entries[|entries| - 1]);
    }
  }

  lemma PrintAppend(entries: seq<Entry>, last: Entry)
    ensures PrintEach(entries + [last]) == PrintEach(entries) + [PrintEntry(last)]
  {
    assert (entries + [last])[..|entries|] == entries;
  }

  lemma ParseOfPrintedStep(entries: seq<Entry>, last: Entry)
    requires WellFormed(last) && ParseSegments(PrintEach(entries)) == entries
    ensures ParseSegments(PrintEach(entries + [last])) == entries + [last]
  {
    PrintAppend(entries, last);
    ParsePrintedEntry(last);
    ParseAppend(PrintEach(entries), PrintEntry(last));
  }

  lemma {:induction false} ParseOfPrintedPrefix(entries: seq<Entry>, n: nat)
    requires AllWellFormed(entries) && n <= |entries|
    ensures ParseSegments(PrintEach(entries[..n])) == entries[..n]
  {
    if n > 0 {
      var prefix, last := entries[..n - 1], entries[n - 1];
      assert entries[..n] == prefix + [last];
      ParseOfPrintedPrefix(entries, n - 1);
      ParseOfPrintedStep(prefix, last);
    }
  }

  lemma ParseOfPrinted(entries: seq<Entry>)
    requires AllWellFormed(entries)
    ensures ParseSegments(PrintEach(entries)) == entries
  {
    ParseOfPrintedPrefix(entries, |entries|);
    assert entries[..|entries|] == entries;
  }

  lemma ParsePrefix(segments: seq<string>, i: nat)
    requires i < |segments|
    ensures ParseSegments(segments[..i + 1]) == ParseSegments(segments[..i]) + ParseSegment(segments[i])
  {
    assert segments[..i + 1] == segments[..i] + [segments[i]];
    ParseAppend(segments[..i], segments[i]);
  }

  lemma ParseAppend(segments: seq<string>, last: string)
    ensures ParseSegments(segments + [last]) == ParseSegments(segments) + ParseSegment(last)
  {
    assert (segments + [last])[..|segments|] == segments;
  }

  /** An entry without a trust level has medium trust. */
  lemma EntryWithoutTrust(name: string, url: string)
    requires '=' !in name && ',' !in url && Trimmed(name + "=" + url)
    ensures ParseSegment(name + "=" + url) == [Entry(name, url, "medium")]
  {
    var text := name + "=" + url;
    assert text[|name|] == '=';
    TrimmedIsKept(text);
    assert text == name + [EQUALS] + url;
    CutUnique(name, EQUALS, url);
    CutSound(url, COMMA);
  }

  lemma {:induction false} ParseConcat(a: seq<string>, b: seq<string>)
    ensures ParseSegments(a + b) == ParseSegments(a) + ParseSegments(b)
  {
    if b == [] {
      assert a + b == a;
    } else {
      var prefix, last := b[..|b| - 1], b[|b| - 1];
      assert b == prefix + [last];
      ParseConcat(a, prefix);
      ParseConcatStep(a, prefix, last);
    }
  }

  lemma ParseConcatStep(a: seq<string>, b: seq<string>, last: string)
    requires ParseSegments(a + b) == ParseSegments(a) + ParseSegments(b)
    ensures ParseSegments(a + (b + [last])) == ParseSegments(a) + ParseSegments(b + [last])
  {
    Associative(a, b, [last]);
    ParseAppend(a + b, last);
    ParseAppend(b, last);
    Associative(ParseSegments(a), ParseSegments(b), ParseSegment(last));
  }

  lemma Associative<T>(a: seq<T>, b: seq<T>, c: seq<T>)
    ensures a + (b + c) == (a + b) + c
  {}

  /** The entries of two lists around a semicolon are those of the first, then the second. */
  lemma ParseJoined(a: string, b: string)
    ensures Parse(a + ";" + b) == Parse(a) + Parse(b)
  {
    assert a + ";" + b == a + [SEMICOLON] + b;
    SplitAtSeparator(a, SEMICOLON, b);
    ParseConcat(Split(a, SEMICOLON), Split(b, SEMICOLON));
  }

  lemma ParseEmpty()
    ensures Parse("") == []
  {
    assert Split("", SEMICOLON) == [""];
    assert ParseSegments([""]) == ParseSegments([""][..0]) + ParseSegment("");
  }

  /** Printing then parsing is the identity exactly on lists of well-formed entries. */
  lemma ParsePrint(entries: seq<Entry>)
    ensures Parse(Print(entries)) == entries <==> AllWellFormed(entries)
  {
    var printed := Print(entries);
    SplitSound(printed, SEMICOLON);
    ParsedAreWellFormed(Split(printed, SEMICOLON));
    if AllWellFormed(entries) {
      if entries == [] {
        ParseEmpty();
      } else {
        PrintedSegments(entries);
        ParseOfPrinted(entries);
        SplitUnique(PrintEach(entries), SEMICOLON);
      }
    }
  }

  /** Whatever the raw text, what was parsed prints to a text that parses to the same. */
  lemma PrintParse(raw: string)
    ensures Parse(Print(Parse(raw))) == Parse(raw)
  {
    SplitSound(raw, SEMICOLON);
    ParsedAreWellFormed(Split(raw, SEMICOLON));
    ParsePrint(Parse(raw));
  }

  /** getEnv: an empty variable counts as unset and gives the fallback. */
  function FromEnvironment(variable: string): string {
    if variable != "" then variable else DEFAULT_ISSUERS
  }

  /** Through the environment the round trip needs an entry to print: it holds exactly when the
      text read has an equals sign, since an empty list prints as the empty text, which reads
      as the built-in default. */
  lemma EnvironmentRoundTrip(variable: string)
    ensures var entries := Parse(FromEnvironment(variable));
            Parse(FromEnvironment(Print(entries))) == entries <==> variable == "" || EQUALS in variable
  {
    var raw := FromEnvironment(variable);
    SplitSound(raw, SEMICOLON);
    ParsedAreWellFormed(Split(raw, SEMICOLON));
    JoinElements(Split(raw, SEMICOLON), SEMICOLON, EQUALS);
    PrintParse(raw);
    DefaultHasEntry();
    if Parse(raw) != [] {
      PrintedNonEmpty(Parse(raw));
    }
  }

  lemma PrintedNonEmpty(entries: seq<Entry>)
    requires entries != [] && AllWellFormed(entries)
    ensures Print(entries) != ""
  {
    ParsePrint(entries);
    ParseEmpty();
  }

  /** Without the variable there is one issuer. */
  lemma DefaultIssuers()
    ensures Parse(FromEnvironment(""))
            == [Entry("legacy-jwt-issuer", "http://legacy-jwt-app:9001" + "/.well-known/jwks.json", "medium")]
  {
    var e := Entry("legacy-jwt-issuer", DEFAULT_HOST + DEFAULT_PATH, "medium");
    HostPlain();
    PathPlain();
    NamePlain();
    PrintSingle(e);
    ParsePrint([e]);
  }

  predicate Plain(s: string) { EQUALS !in s && COMMA !in s && SEMICOLON !in s && Trimmed(s) }

  lemma HostPlain()
    ensures Plain(DEFAULT_HOST)
  {}

  lemma PathPlain()
    ensures Plain(DEFAULT_PATH)
  {}

  lemma NamePlain()
    ensures Plain("legacy-jwt-issuer") && Plain("medium")
  {}

  lemma PrintSingle(e: Entry)
    ensures Print([e]) == e.name + "=" + e.jwksUrl + "," + e.trust
  {
    PrintAppend([], e);
    assert [] + [e] == [e];
    assert PrintEach([e]) == [PrintEntry(e)];
  }

  /** The white space is the 25 characters Unicode gives that property. */
  lemma SpaceTable(c: char)
    ensures IsSpace(c) <==>
            c in "\t\n\U{b}\U{c}\r \U{85}\U{a0}\U{1680}\U{2000}\U{2001}\U{2002}\U{2003}\U{2004}\U{2005}\U{2006}\U{2007}\U{2008}\U{2009}\U{200a}\U{2028}\U{2029}\U{202f}\U{205f}\U{3000}"
  {}

  lemma DefaultHasEntry()
    ensures EQUALS in DEFAULT_ISSUERS
    ensures Parse(DEFAULT_ISSUERS) != []
  {
    SplitSound(DEFAULT_ISSUERS, SEMICOLON);
    ParsedAreWellFormed(Split(DEFAULT_ISSUERS, SEMICOLON));
    JoinElements(Split(DEFAULT_ISSUERS, SEMICOLON), SEMICOLON, EQUALS);
  }

  // ----- the configuration map -----

  datatype ClaimMapping = ClaimMapping(subjectField: string, rolesField: string, orgIdField: string)

  datatype TrustedIssuer = TrustedIssuer(name: string, jwksUrl: string, trustLevel: string, claimMap: ClaimMapping)

  function EntryIssuer(e: Entry): TrustedIssuer {
    TrustedIssuer(e.name, e.jwksUrl, e.trust, ClaimMapping("", "perms", "org"))
  }

  function IssuerWrites(entries: seq<Entry>): seq<Option<(string, TrustedIssuer)>> {
    seq(|entries|, i requires 0 <= i < |entries| => Some((entries[i].name, EntryIssuer(entries[i]))))
  }

  function IssuerConfig(entries: seq<Entry>): map<string, TrustedIssuer> {
    Replay(IssuerWrites(entries))
  }

  method BuildTrustedIssuerConfig(entries: seq<Entry>) returns (config: map<string, TrustedIssuer>)
    ensures config == IssuerConfig(entries)
  {
    config := map[];
    for i := 0 to |entries|
      invariant config == IssuerConfig(entries[..i])
    {
      var e := entries[i];
      config := config[e.name := TrustedIssuer(e.name, e.jwksUrl, e.trust, ClaimMapping("", "perms", "org"))];
      assert IssuerWrites(entries[..i + 1]) == IssuerWrites(entries[..i]) + [Some((e.name, EntryIssuer(e)))];
      ReplayStep(IssuerWrites(entries[..i]), Some((e.name, EntryIssuer(e))));
    }
    assert entries[..|entries|] == entries;
  }

  /** Every configured issuer reads roles from perms, the organisation from org, and the subject
      from the default claim. */
  lemma ConfiguredClaimMap(entries: seq<Entry>, name: string)
    requires name in IssuerConfig(entries)
    ensures IssuerConfig(entries)[name].claimMap == ClaimMapping("", "perms", "org")
  {
    LastWriteWins(IssuerWrites(entries), name);
    var i: nat :| LastWrite(IssuerWrites(entries), i, name);
  }

  /** The configured issuers are the entry names, each as its last entry says. */
  lemma ConfigIsLastEntry(entries: seq<Entry>, name: string)
    ensures name in IssuerConfig(entries) <==> exists e :: e in entries && e.name == name
    ensures forall i | 0 <= i < |entries| && entries[i].name == name && (forall j | i < j < |entries| :: entries[j].name != name) ::
              && name in IssuerConfig(entries)
              && IssuerConfig(entries)[name] == TrustedIssuer(name, entries[i].jwksUrl, entries[i].trust, ClaimMapping("", "perms", "org"))
  {
    var writes := IssuerWrites(entries);
    LastWriteWins(writes, name);
    assert forall i | 0 <= i < |entries| :: WritesTo(writes, i, name) <==> entries[i].name == name;
    if name in IssuerConfig(entries) {
      var i :| 0 <= i < |writes| && WritesTo(writes, i, name);
      assert entries[i] in entries;
    }
    if e :| e in entries && e.name == name {
      var i :| 0 <= i < |entries| && entries[i] == e;
      assert WritesTo(writes, i, name);
    }
    forall i | 0 <= i < |entries| && entries[i].name == name && (forall j | i < j < |entries| :: entries[j].name != name)
      ensures LastWrite(writes, i, name)
    {}
  }
}
