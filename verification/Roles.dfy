/** Role lists: the JWT claim in array or comma form, and the SAML attribute statements. */
module Roles {
  import opened Sequences
  import opened Json
  import opened MapWrites

  // ----- JWT: extractClaim and extractStringSlice -----

  function FieldName(preferred: string, fallback: string): string {
    if preferred == "" then fallback else preferred
  }

  function ExtractClaim(claims: map<string, JsonValue>, preferred: string, fallback: string): string {
    var field := FieldName(preferred, fallback);
    if field in claims && claims[field].JString? then claims[field].text else ""
  }

  /** The strings among the items, in order. */
  function StringItems(items: seq<JsonValue>): seq<string> {
    if items == [] then []
    else
      var before := StringItems(items[..|items| - 1]);
      var last := items[|items| - 1];
      if last.JString? then before + [last.text] else before
  }

  /** The roles a claim value stands for. */
  function ValueRoles(value: JsonValue): seq<string> {
    match value
    case JArray(items) => StringItems(items)
    case JString(text) => Split(text, COMMA)
    case _ => []
  }

  function ClaimRoles(claims: map<string, JsonValue>, preferred: string, fallback: string): seq<string> {
    var field := FieldName(preferred, fallback);
    if field in claims then ValueRoles(claims[field]) else []
  }

  method ExtractStringSlice(claims: map<string, JsonValue>, preferred: string, fallback: string)
    returns (roles: seq<string>)
    ensures roles == ClaimRoles(claims, preferred, fallback)
  {
    var field := preferred;
    if field == "" {
      field := fallback;
    }
    if field !in claims {
      return [];
    }
    match claims[field] {
      case JArray(items) =>
        roles := [];
        for i := 0 to |items|
          invariant roles == StringItems(items[..i])
        {
          assert items[..i + 1][..i] == items[..i];
          if items[i].JString? {
            roles := roles + [items[i].text];
          }
        }
        assert items[..|items|] == items;
      case JString(text) =>
        roles := Split(text, COMMA);
      case _ =>
        roles := [];
    }
  }

  /** The strings of an array are kept in order, and anything else in it is passed over. */
  lemma {:induction false} StringItemsSpec(before: seq<JsonValue>, x: JsonValue, after: seq<JsonValue>)
    ensures StringItems([]) == []
    ensures StringItems(before + [x] + after)
            == StringItems(before) + (if x.JString? then [x.text] else []) + StringItems(after)
  {
    var all := before + [x] + after;
    if after == [] {
      assert all[..|before|] == before;
    } else {
      var n := |after| - 1;
      assert all[..|all| - 1] == before + [x] + after[..n];
      StringItemsSpec(before, x, after[..n]);
    }
  }

  function StringArray(values: seq<string>): JsonValue {
    JArray(seq(|values|, i requires 0 <= i < |values| => JString(values[i])))
  }

  lemma {:induction false} StringArrayItems(values: seq<string>)
    ensures ValueRoles(StringArray(values)) == values
  {
    var items := StringArray(values).items;
    if values != [] {
      var n := |values| - 1;
      StringArrayItems(values[..n]);
      assert items[..n] == StringArray(values[..n]).items;
      assert values == values[..n] + [values[n]];
    }
  }

  /** The array form and the comma-joined form of a role list give the same roles exactly when
      the list is non-empty and no role holds a comma. */
  lemma ArrayAndCommaFormsAgree(values: seq<string>)
    ensures ValueRoles(StringArray(values)) == ValueRoles(JString(Join(values, COMMA)))
            <==> values != [] && forall v :: v in values ==> COMMA !in v
  {
    StringArrayItems(values);
    SplitJoinIdentity(values, COMMA);
  }

  // ----- SAML: extractSAMLAttributes, coalesce and the role attribute -----

  datatype Attribute = Attribute(name: string, values: seq<string>)

  type Statement = seq<Attribute>

  function AttributeWrite(a: Attribute): Option<(string, string)> {
    if |a.values| > 0 then Some((a.name, Join(a.values, COMMA))) else None
  }

  function AttributeWrites(attributes: seq<Attribute>): seq<Option<(string, string)>> {
    seq(|attributes|, i requires 0 <= i < |attributes| => AttributeWrite(attributes[i]))
  }

  /** The attribute map, with the attributes taken in document order. */
  function Collected(statements: seq<Statement>): map<string, string> {
    Replay(AttributeWrites(Flatten(statements)))
  }

  method ExtractSamlAttributes(statements: seq<Statement>) returns (attrs: map<string, string>)
    ensures attrs == Collected(statements)
  {
    attrs := map[];
    for s := 0 to |statements|
      invariant attrs == Collected(statements[..s])
    {
      ghost var before := Flatten(statements[..s]);
      var stmt := statements[s];
      assert before + stmt[..0] == before;
      for a := 0 to |stmt|
        invariant attrs == Replay(AttributeWrites(before + stmt[..a]))
      {
        var attr := stmt[a];
        NextWrite(before, stmt, a);
        if |attr.values| > 0 {
          var values := new string[|attr.values|];
          for i := 0 to |attr.values|
            invariant values[..i] == attr.values[..i]
          {
            values[i] := attr.values[i];
          }
          assert values[..] == attr.values;
          attrs := attrs[attr.name := Join(values[..], COMMA)];
        }
      }
      FlattenPrefix(statements, s);
      assert stmt[..|stmt|] == stmt;
    }
    assert statements[..|statements|] == statements;
  }

  lemma NextWrite(before: seq<Attribute>, stmt: Statement, a: nat)
    requires a < |stmt|
    ensures var writes := AttributeWrites(before + stmt[..a]);
            var next := AttributeWrites(before + stmt[..a + 1]);
            Replay(next) ==
            if |stmt[a].values| > 0 then Replay(writes)[stmt[a].name := Join(stmt[a].values, COMMA)] else Replay(writes)
  {
    var writes := AttributeWrites(before + stmt[..a]);
    assert AttributeWrites(before + stmt[..a + 1]) == writes + [AttributeWrite(stmt[a])];
    ReplayStep(writes, AttributeWrite(stmt[a]));
  }

  lemma {:induction false} FlattenAppend<T>(parts: seq<seq<T>>, last: seq<T>)
    ensures Flatten(parts + [last]) == Flatten(parts) + last
  {
    if parts == [] {
      assert ([last])[1..] == [];
    } else {
      assert (parts + [last])[1..] == parts[1..] + [last];
      FlattenAppend(parts[1..], last);
    }
  }

  lemma FlattenPrefix<T>(parts: seq<seq<T>>, i: nat)
    requires i < |parts|
    ensures Flatten(parts[..i + 1]) == Flatten(parts[..i]) + parts[i]
  {
    assert parts[..i + 1] == parts[..i] + [parts[i]];
    FlattenAppend(parts[..i], parts[i]);
  }

  /** i is the last attribute of the document with this name and at least one value. */
  ghost predicate LastNamed(attributes: seq<Attribute>, i: nat, name: string) {
    && i < |attributes|
    && attributes[i].name == name
    && attributes[i].values != []
    && forall j | i < j < |attributes| :: attributes[j].name == name ==> attributes[j].values == []
  }

  /** A name is in the collected map exactly when some attribute with that name has a value,
      and then holds the comma-join of the last such attribute in document order. */
  lemma CollectedIsLast(statements: seq<Statement>, name: string)
    ensures name in Collected(statements)
            <==> exists a :: a in Flatten(statements) && a.name == name && a.values != []
    ensures name in Collected(statements) <==> exists i: nat :: LastNamed(Flatten(statements), i, name)
    ensures forall i: nat | LastNamed(Flatten(statements), i, name) ::
              && name in Collected(statements)
              && Collected(statements)[name] == Join(Flatten(statements)[i].values, COMMA)
  {
    var attributes := Flatten(statements);
    var writes := AttributeWrites(attributes);
    LastWriteWins(writes, name);
    forall i: nat ensures LastWrite(writes, i, name) <==> LastNamed(attributes, i, name) {
      if LastNamed(attributes, i, name) {
        assert WritesTo(writes, i, name);
      }
      if LastWrite(writes, i, name) {
        forall j | i < j < |attributes| && attributes[j].name == name ensures attributes[j].values == [] {
          assert !WritesTo(writes, j, name);
        }
      }
    }
    if name in Collected(statements) {
      var i :| 0 <= i < |writes| && WritesTo(writes, i, name);
      assert attributes[i] in attributes;
    }
    if a :| a in attributes && a.name == name && a.values != [] {
      var i :| 0 <= i < |attributes| && attributes[i] == a;
      assert writes[i] == AttributeWrite(a) && WritesTo(writes, i, name);
    }
  }

  /** attrs[key] on a Go map: the zero value when the key is missing. */
  function Lookup(attrs: map<string, string>, key: string): string {
    if key in attrs then attrs[key] else ""
  }

  function Coalesce(first: string, second: string): string {
    if first != "" then first else second
  }

  function SamlRoles(attrs: map<string, string>): seq<string> {
    Split(Coalesce(Lookup(attrs, "roles"), Lookup(attrs, "role")), COMMA)
  }

  /** The document gives nothing under a name: the last attribute of that name with a value, if
      there is one, has a single blank value. */
  ghost predicate Blank(statements: seq<Statement>, name: string) {
    forall i: nat | LastNamed(Flatten(statements), i, name) :: Flatten(statements)[i].values == [""]
  }

  /** The values of an attribute join to the empty string exactly when it has one empty value
      (or none at all). */
  lemma BlankJoin(values: seq<string>)
    ensures Join(values, COMMA) == "" <==> values == [] || values == [""]
  {}

  lemma BlankLookup(statements: seq<Statement>, name: string)
    ensures Lookup(Collected(statements), name) == "" <==> Blank(statements, name)
  {
    CollectedIsLast(statements, name);
    forall i: nat | LastNamed(Flatten(statements), i, name)
      ensures Lookup(Collected(statements), name) == "" <==> Flatten(statements)[i].values == [""]
    {
      BlankJoin(Flatten(statements)[i].values);
    }
  }

  /** The attribute the roles are taken from: the last "roles" attribute with a value or, that
      being blank or missing, the last "role" attribute with one. */
  ghost predicate RoleSource(statements: seq<Statement>, i: nat) {
    || LastNamed(Flatten(statements), i, "roles")
    || (Blank(statements, "roles") && LastNamed(Flatten(statements), i, "role"))
  }

  /** A role source that is not blank gives the flattened list: each of its values split by
      comma, in order. */
  lemma SamlRolesFlattened(statements: seq<Statement>, i: nat)
    requires RoleSource(statements, i) && Flatten(statements)[i].values != [""]
    ensures SamlRoles(Collected(statements)) == SplitEach(Flatten(statements)[i].values, COMMA)
  {
    var values := Flatten(statements)[i].values;
    BlankJoin(values);
    BlankLookup(statements, "roles");
    CollectedIsLast(statements, "roles");
    CollectedIsLast(statements, "role");
    SplitOfJoin(values, COMMA);
  }

  /** A SAML subject never has an empty role list; it has the one empty role exactly when both
      role attributes are blank or missing, and that is the one case without a source that is not
      blank. */
  lemma SamlRolesBlankIff(statements: seq<Statement>)
    ensures SamlRoles(Collected(statements)) != []
    ensures SamlRoles(Collected(statements)) == [""] <==> Blank(statements, "roles") && Blank(statements, "role")
    ensures Blank(statements, "roles") && Blank(statements, "role")
            <==> forall i: nat | RoleSource(statements, i) :: Flatten(statements)[i].values == [""]
  {
    var attrs := Collected(statements);
    BlankLookup(statements, "roles");
    BlankLookup(statements, "role");
    SplitSound(Coalesce(Lookup(attrs, "roles"), Lookup(attrs, "role")), COMMA);
    assert forall i: nat | LastNamed(Flatten(statements), i, "roles") :: RoleSource(statements, i);
    assert Blank(statements, "roles") ==> forall i: nat | LastNamed(Flatten(statements), i, "role") :: RoleSource(statements, i);
  }
}
