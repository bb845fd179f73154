/** What the schemas of the model mean, keyword by keyword: references (JSON Schema Core draft
    2020-12, section 8.2.3.1) and the applicators (sections 10.2 and 10.3). */
module SchemaMeaning {
  import opened JsonSchema

  lemma {:induction false} OneKeyword(
    fuel: nat, defs: Definitions, key: string, item: Json, value: Json, literal: LiteralMeaning)
    ensures var schema := Obj(map[key := item]);
      Accepts(fuel, defs, schema, value, literal) <==>
        KeywordHolds(fuel, defs, key, item, DeclaredProperties(schema), PrefixLength(schema), value, literal)
  {
    var schema := Obj(map[key := item]);
    assert forall k :: k in schema.members <==> k == key;
    assert schema.members[key] == item;
  }

  /** A reference accepts what the definition it names accepts, one step down. */
  lemma {:induction false} ReferenceAccepts(
    fuel: nat, defs: Definitions, name: string, value: Json, literal: LiteralMeaning)
    ensures Accepts(fuel + 1, defs, Obj(map["$ref" := Str("#/$defs/" + name)]), value, literal) <==>
      name in defs && Accepts(fuel, defs, defs[name], value, literal)
  {
    var item := Str("#/$defs/" + name);
    OneKeyword(fuel + 1, defs, "$ref", item, value, literal);
    assert IsLocalRef("$ref", item) && RefName(item) == name;
  }

  lemma {:induction false} AllOfAccepts(
    fuel: nat, defs: Definitions, schemas: seq<Json>, value: Json, literal: LiteralMeaning)
    ensures Accepts(fuel, defs, Obj(map["allOf" := Arr(schemas)]), value, literal) <==>
      forall i :: 0 <= i < |schemas| ==> Accepts(fuel, defs, schemas[i], value, literal)
  {
    OneKeyword(fuel, defs, "allOf", Arr(schemas), value, literal);
  }

  lemma {:induction false} AnyOfAccepts(
    fuel: nat, defs: Definitions, schemas: seq<Json>, value: Json, literal: LiteralMeaning)
    ensures Accepts(fuel, defs, Obj(map["anyOf" := Arr(schemas)]), value, literal) <==>
      exists i :: 0 <= i < |schemas| && Accepts(fuel, defs, schemas[i], value, literal)
  {
    OneKeyword(fuel, defs, "anyOf", Arr(schemas), value, literal);
  }

  lemma {:induction false} NotAccepts(
    fuel: nat, defs: Definitions, schema: Json, value: Json, literal: LiteralMeaning)
    ensures Accepts(fuel, defs, Obj(map["not" := schema]), value, literal) <==>
      !Accepts(fuel, defs, schema, value, literal)
  {
    OneKeyword(fuel, defs, "not", schema, value, literal);
  }

  /** The places at which the verdict is true. */
  function TrueAt(verdicts: seq<bool>): set<int> {
    set i | 0 <= i < |verdicts| && verdicts[i]
  }

  /** `oneOf`: as many of the schemas as one accept. */
  lemma {:induction false} OneOfAccepts(
    fuel: nat, defs: Definitions, schemas: seq<Json>, value: Json, literal: LiteralMeaning, verdicts: seq<bool>)
    requires |verdicts| == |schemas|
    requires forall i :: 0 <= i < |schemas| ==> verdicts[i] == Accepts(fuel, defs, schemas[i], value, literal)
    ensures Accepts(fuel, defs, Obj(map["oneOf" := Arr(schemas)]), value, literal) <==> |TrueAt(verdicts)| == 1
  {
    OneOfMeansOne(fuel, defs, schemas, value, literal);
    OneAcceptsCount(fuel, defs, schemas, value, literal, verdicts);
  }

  lemma {:induction false} OneAcceptsCount(
    fuel: nat, defs: Definitions, schemas: seq<Json>, value: Json, literal: LiteralMeaning, verdicts: seq<bool>)
    requires |verdicts| == |schemas|
    requires forall i :: 0 <= i < |schemas| ==> verdicts[i] == Accepts(fuel, defs, schemas[i], value, literal)
    ensures OneAccepts(fuel, defs, schemas, value, literal) <==> |TrueAt(verdicts)| == 1
  {
    OneAcceptsIff(fuel, defs, schemas, value, literal, verdicts);
    OneTrue(verdicts);
  }

  lemma {:induction false} OneOfMeansOne(
    fuel: nat, defs: Definitions, schemas: seq<Json>, value: Json, literal: LiteralMeaning)
    ensures Accepts(fuel, defs, Obj(map["oneOf" := Arr(schemas)]), value, literal) <==>
      OneAccepts(fuel, defs, schemas, value, literal)
  {
    OneKeyword(fuel, defs, "oneOf", Arr(schemas), value, literal);
  }

  ghost predicate OnlyAt(verdicts: seq<bool>, i: int) {
    0 <= i < |verdicts| && verdicts[i] && forall j :: 0 <= j < |verdicts| && verdicts[j] ==> j == i
  }

  lemma {:induction false} OneAcceptsIff(
    fuel: nat, defs: Definitions, schemas: seq<Json>, value: Json, literal: LiteralMeaning, verdicts: seq<bool>)
    requires |verdicts| == |schemas|
    requires forall i :: 0 <= i < |schemas| ==> verdicts[i] == Accepts(fuel, defs, schemas[i], value, literal)
    ensures OneAccepts(fuel, defs, schemas, value, literal) <==> exists i :: OnlyAt(verdicts, i)
  {
    if i :| OnlyAt(verdicts, i) {
      assert Accepts(fuel, defs, schemas[i], value, literal);
    }
    if OneAccepts(fuel, defs, schemas, value, literal) {
      var i :| 0 <= i < |schemas| && Accepts(fuel, defs, schemas[i], value, literal) &&
        forall j :: 0 <= j < |schemas| && Accepts(fuel, defs, schemas[j], value, literal) ==> j == i;
      assert OnlyAt(verdicts, i);
    }
  }

  lemma {:induction false} OneTrue(verdicts: seq<bool>)
    ensures |TrueAt(verdicts)| == 1 <==> exists i :: OnlyAt(verdicts, i)
  {
    var places := TrueAt(verdicts);
    if i :| OnlyAt(verdicts, i) {
      assert places == {i};
    }
    if |places| == 1 {
      assert places != {};
      var i :| i in places;
      assert |places - {i}| == 0;
      assert places == {i};
      assert forall j :: 0 <= j < |verdicts| && verdicts[j] ==> j in places;
      assert OnlyAt(verdicts, i);
    }
  }

  /** `properties` and `additionalProperties`: a declared property is held to its own schema, any
      other to the common one. */
  lemma {:induction false} ObjectsAccept(
    fuel: nat, defs: Definitions, declared: map<string, Json>, others: Json, members: map<string, Json>,
    literal: LiteralMeaning)
    ensures Accepts(fuel, defs, Obj(map["properties" := Obj(declared), "additionalProperties" := others]),
                    Obj(members), literal) <==>
      forall p :: p in members ==>
        Accepts(fuel, defs, if p in declared then declared[p] else others, members[p], literal)
  {
    var schema := Obj(map["properties" := Obj(declared), "additionalProperties" := others]);
    assert schema.members["properties"] == Obj(declared) && schema.members["additionalProperties"] == others;
    assert DeclaredProperties(schema) == declared.Keys;
    TwoKeywords(fuel, defs, "properties", Obj(declared), "additionalProperties", others, Obj(members), literal);
  }

  /** Without declared properties and leading items every one is held to the common schema. */
  lemma {:induction false} OthersAccept(
    fuel: nat, defs: Definitions, others: Json, members: map<string, Json>, items: seq<Json>, literal: LiteralMeaning)
    ensures Accepts(fuel, defs, Obj(map["additionalProperties" := others]), Obj(members), literal) <==>
      forall p :: p in members ==> Accepts(fuel, defs, others, members[p], literal)
    ensures Accepts(fuel, defs, Obj(map["items" := others]), Arr(items), literal) <==>
      forall i :: 0 <= i < |items| ==> Accepts(fuel, defs, others, items[i], literal)
  {
    OneKeyword(fuel, defs, "additionalProperties", others, Obj(members), literal);
    OneKeyword(fuel, defs, "items", others, Arr(items), literal);
  }

  /** `propertyNames`: every name is held to its schema. */
  lemma {:induction false} NamesAccept(
    fuel: nat, defs: Definitions, names: Json, members: map<string, Json>, literal: LiteralMeaning)
    ensures Accepts(fuel, defs, Obj(map["propertyNames" := names]), Obj(members), literal) <==>
      forall p :: p in members ==> Accepts(fuel, defs, names, Str(p), literal)
  {
    OneKeyword(fuel, defs, "propertyNames", names, Obj(members), literal);
  }

  /** `prefixItems` and `items`: the leading items are held to their own schemas, the rest to the
      common one. */
  lemma {:induction false} ArraysAccept(
    fuel: nat, defs: Definitions, leading: seq<Json>, others: Json, items: seq<Json>, literal: LiteralMeaning)
    ensures Accepts(fuel, defs, Obj(map["prefixItems" := Arr(leading), "items" := others]), Arr(items), literal) <==>
      forall i :: 0 <= i < |items| ==>
        Accepts(fuel, defs, if i < |leading| then leading[i] else others, items[i], literal)
  {
    var schema := Obj(map["prefixItems" := Arr(leading), "items" := others]);
    assert schema.members["prefixItems"] == Arr(leading) && schema.members["items"] == others;
    assert PrefixLength(schema) == |leading|;
    TwoKeywords(fuel, defs, "prefixItems", Arr(leading), "items", others, Arr(items), literal);
  }

  lemma {:induction false} TwoKeywords(
    fuel: nat, defs: Definitions, a: string, first: Json, b: string, second: Json, value: Json,
    literal: LiteralMeaning)
    requires a != b
    ensures var schema := Obj(map[a := first, b := second]);
      Accepts(fuel, defs, schema, value, literal) <==>
        && KeywordHolds(fuel, defs, a, first, DeclaredProperties(schema), PrefixLength(schema), value, literal)
        && KeywordHolds(fuel, defs, b, second, DeclaredProperties(schema), PrefixLength(schema), value, literal)
  {
    var schema := Obj(map[a := first, b := second]);
    assert forall k :: k in schema.members <==> k == a || k == b;
    assert schema.members[a] == first && schema.members[b] == second;
  }
}
