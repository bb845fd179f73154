/** JSON values, the schemas written in them, and what a schema accepts.

    A definition refers to another through `$ref` (JSON Schema Core draft 2020-12,
    section 8.2.3.1) into the shared `$defs` (section 8.2.4).  Following a reference
    costs one unit of fuel, so recursive definitions have a meaning at every depth. */
module JsonSchema {

  /** A parsed JSON value.  A Python dictionary compares without regard to the order of
      its keys, as `map` does. */
  datatype Json =
    | Null
    | Bool(b: bool)
    | Num(n: real)
    | Str(s: string)
    | Arr(items: seq<Json>)
    | Obj(members: map<string, Json>)

  type Definitions = map<string, Json>

  const REF_PREFIX := "#/$defs/"

  predicate IsLocalRef(key: string, item: Json) {
    key == "$ref" && item.Str? && REF_PREFIX <= item.s
  }

  function RefName(item: Json): string
    requires item.Str? && REF_PREFIX <= item.s
  {
    item.s[|REF_PREFIX|..]
  }

  /** The names of the definitions a value refers to. */
  function LocalReferences(value: Json): set<string>
    decreases value, 0
  {
    match value
    case Obj(members) => set k, n | k in members && n in MemberReferences(k, members[k]) :: n
    case Arr(items) => set i, n | 0 <= i < |items| && n in LocalReferences(items[i]) :: n
    case _ => {}
  }

  function MemberReferences(key: string, item: Json): set<string>
    decreases item, 1
  {
    if IsLocalRef(key, item) then {RefName(item)} else LocalReferences(item)
  }

  /** Every reference of every definition is answered by a definition. */
  ghost predicate Closed(defs: Definitions) {
    forall name :: name in defs ==> LocalReferences(defs[name]) <= defs.Keys
  }

  // ---------------------------------------------------------------- meaning

  /** The keywords whose value holds schemas, references or an annotation; every other
      keyword is a literal constraint (`type`, `const`, `enum`, `required`, `minimum`, ...). */
  datatype Keyword =
    | Ref | Title | Properties | AdditionalProperties | PropertyNames
    | PrefixItems | Items | AllOf | AnyOf | OneOf | Not | Literal

  function KeywordOf(key: string): Keyword {
    match key
    case "$ref" => Ref
    case "title" => Title
    case "properties" => Properties
    case "additionalProperties" => AdditionalProperties
    case "propertyNames" => PropertyNames
    case "prefixItems" => PrefixItems
    case "items" => Items
    case "allOf" => AllOf
    case "anyOf" => AnyOf
    case "oneOf" => OneOf
    case "not" => Not
    case _ => Literal
  }

  /** What a literal keyword with a given value demands of an instance.  The theorems hold
      for every choice, so for every literal keyword of the dialect. */
  type LiteralMeaning = (string, Json, Json) -> bool

  /** Whether a schema accepts a value when references may be followed `fuel` deep. */
  ghost predicate Accepts(fuel: nat, defs: Definitions, schema: Json, value: Json, literal: LiteralMeaning)
    decreases fuel, schema, 0
  {
    match schema
    case Bool(b) => b
    case Obj(members) =>
      forall k :: k in members ==>
        KeywordHolds(fuel, defs, k, members[k], DeclaredProperties(schema), PrefixLength(schema), value, literal)
    case _ => false
  }

  /** Whether one keyword of a schema holds of a value.  Two keywords look at a sibling:
      `additionalProperties` at the declared properties, `items` at the prefix's length. */
  ghost predicate KeywordHolds(
    fuel: nat, defs: Definitions, key: string, item: Json, declared: set<string>, prefix: nat,
    value: Json, literal: LiteralMeaning)
    decreases fuel, item, 1
  {
    match KeywordOf(key)
    case Ref =>
      if !IsLocalRef(key, item) then literal(key, item, value)
      else if fuel == 0 then true
      else RefName(item) in defs && Accepts(fuel - 1, defs, defs[RefName(item)], value, literal)
    case Title => true
    case Properties =>
      item.Obj? && (value.Obj? ==>
        forall p :: p in item.members && p in value.members ==>
          Accepts(fuel, defs, item.members[p], value.members[p], literal))
    case AdditionalProperties =>
      value.Obj? ==>
        forall p :: p in value.members && p !in declared ==>
          Accepts(fuel, defs, item, value.members[p], literal)
    case PropertyNames =>
      value.Obj? ==> forall p :: p in value.members ==> Accepts(fuel, defs, item, Str(p), literal)
    case PrefixItems =>
      item.Arr? && (value.Arr? ==>
        forall i :: 0 <= i < |item.items| && i < |value.items| ==>
          Accepts(fuel, defs, item.items[i], value.items[i], literal))
    case Items =>
      value.Arr? ==>
        forall i :: prefix <= i < |value.items| ==> Accepts(fuel, defs, item, value.items[i], literal)
    case AllOf =>
      item.Arr? && forall i :: 0 <= i < |item.items| ==> Accepts(fuel, defs, item.items[i], value, literal)
    case AnyOf =>
      item.Arr? && exists i :: 0 <= i < |item.items| && Accepts(fuel, defs, item.items[i], value, literal)
    case OneOf =>
      item.Arr? && OneAccepts(fuel, defs, item.items, value, literal)
    case Not => !Accepts(fuel, defs, item, value, literal)
    case Literal => literal(key, item, value)
  }

  /** Exactly one of the schemas accepts the value. */
  ghost predicate OneAccepts(
    fuel: nat, defs: Definitions, schemas: seq<Json>, value: Json, literal: LiteralMeaning)
    decreases fuel, schemas, 0
  {
    exists i :: 0 <= i < |schemas| && Accepts(fuel, defs, schemas[i], value, literal) &&
      forall j :: 0 <= j < |schemas| && Accepts(fuel, defs, schemas[j], value, literal) ==> j == i
  }

  /** The properties a schema names, which its `additionalProperties` does not constrain. */
  function DeclaredProperties(schema: Json): set<string> {
    if schema.Obj? && "properties" in schema.members && schema.members["properties"].Obj?
    then schema.members["properties"].members.Keys else {}
  }

  /** How many leading items `prefixItems` takes, which `items` does not constrain. */
  function PrefixLength(schema: Json): nat {
    if schema.Obj? && "prefixItems" in schema.members && schema.members["prefixItems"].Arr?
    then |schema.members["prefixItems"].items| else 0
  }

  /** A value in schema position that is a schema: its keywords hold what the dialect says
      they hold, and a literal holds no member that merely looks like a reference. */
  ghost predicate SchemaShaped(schema: Json)
    decreases schema, 0
  {
    match schema
    case Bool(_) => true
    case Obj(members) => forall k :: k in members ==> KeywordShaped(k, members[k])
    case _ => false
  }

  ghost predicate KeywordShaped(key: string, item: Json)
    decreases item, 1
  {
    match KeywordOf(key)
    case Ref => item.Str?
    case Title => item.Str?
    case Properties => item.Obj? && forall p :: p in item.members ==> SchemaShaped(item.members[p])
    case PrefixItems | AllOf | AnyOf | OneOf =>
      item.Arr? && forall i :: 0 <= i < |item.items| ==> SchemaShaped(item.items[i])
    case AdditionalProperties | PropertyNames | Items | Not => SchemaShaped(item)
    case Literal => LocalReferences(item) == {}
  }

  /** A set of definitions as the schema generator hands it over. */
  ghost predicate WellFormed(defs: Definitions) {
    Closed(defs) && forall name :: name in defs ==> SchemaShaped(defs[name])
  }

  // ------------------------------------------------------ titles are annotations

  /** A definition without its title. */
  function Untitled(schema: Json): Json {
    if schema.Obj? then Obj(schema.members - {"title"}) else schema
  }

  lemma {:induction false} TitleIsAnnotation(
    fuel: nat, defs: Definitions, s: Json, t: Json, value: Json, literal: LiteralMeaning)
    requires Untitled(s) == Untitled(t)
    ensures Accepts(fuel, defs, s, value, literal) == Accepts(fuel, defs, t, value, literal)
  {
    if s.Obj? && t.Obj? {
      UntitledSiblings(s, t);
      forall k | k != "title" && (k in s.members || k in t.members)
        ensures k in s.members && k in t.members && s.members[k] == t.members[k]
      {
        if k in s.members { UntitledMember(s, t, k); } else { UntitledMember(t, s, k); }
      }
    }
  }

  lemma {:induction false} UntitledMember(s: Json, t: Json, k: string)
    requires s.Obj? && t.Obj? && Untitled(s) == Untitled(t)
    requires k in s.members && k != "title"
    ensures k in t.members && t.members[k] == s.members[k]
  {
    assert k in Untitled(s).members && Untitled(s).members[k] == s.members[k];
    assert k in Untitled(t).members && Untitled(t).members[k] == t.members[k];
  }

  lemma {:induction false} UntitledSiblings(s: Json, t: Json)
    requires s.Obj? && t.Obj? && Untitled(s) == Untitled(t)
    ensures DeclaredProperties(s) == DeclaredProperties(t)
    ensures PrefixLength(s) == PrefixLength(t)
  {
    forall k | k in {"properties", "prefixItems"}
      ensures k in s.members <==> k in t.members
      ensures k in s.members ==> s.members[k] == t.members[k]
    {
      if k in s.members { UntitledMember(s, t, k); }
      if k in t.members { UntitledMember(t, s, k); }
    }
  }
}
