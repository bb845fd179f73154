/** Naming a response's serialization-mode definitions apart from the bundle's
    (`_with_renamed_refs`, `_serialized_definitions` and `_merge_definition`). */
module ContractRenaming {
  import opened Wrappers
  import opened JsonSchema

  const SERIALIZED_SUFFIX := "Output"

  type Renames = map<string, string>

  function NewName(name: string, renames: Renames): string {
    if name in renames then renames[name] else name
  }

  /** A value with its references renamed; nothing else of it changes. */
  function WithRenamedRefs(value: Json, renames: Renames): Json
    decreases value, 0
  {
    match value
    case Obj(members) => Obj(map k | k in members :: RenamedMember(k, members[k], renames))
    case Arr(items) => Arr(seq(|items|, i requires 0 <= i < |items| => WithRenamedRefs(items[i], renames)))
    case _ => value
  }

  function RenamedMember(key: string, item: Json, renames: Renames): Json
    decreases item, 1
  {
    if IsLocalRef(key, item) then Str(REF_PREFIX + NewName(RefName(item), renames))
    else WithRenamedRefs(item, renames)
  }

  // ------------------------------------------------------ place by place

  /** One step into a value: to a member, or to an item. */
  datatype Place = Key(key: string) | Index(i: nat)

  /** What a value holds at a path. */
  function At(value: Json, path: seq<Place>): Option<Json>
    decreases |path|
  {
    if path == [] then Some(value)
    else match (value, path[0])
      case (Obj(members), Key(key)) => if key in members then At(members[key], path[1..]) else None
      case (Arr(items), Index(i)) => if i < |items| then At(items[i], path[1..]) else None
      case _ => None
  }

  /** A `$ref` member at this path names a definition. */
  predicate RefersAt(value: Json, path: seq<Place>, name: string) {
    path != [] && path[|path| - 1] == Key("$ref") && At(value, path) == Some(Str("#/$defs/" + name))
  }

  /** Rewriting changes what a value holds at the paths of references, and there only the name. */
  lemma {:induction false} RewrittenAt(value: Json, path: seq<Place>, name: string, renames: Renames)
    requires RefersAt(value, path, name)
    ensures At(WithRenamedRefs(value, renames), path)
         == Some(Str("#/$defs/" + if name in renames then renames[name] else name))
    decreases |path|
  {
    var rest := path[1..];
    match value
    case Obj(members) =>
      var item := members[path[0].key];
      if rest == [] {
        assert At(item, rest) == Some(item);
        assert path[0] == Key("$ref") && item == Str("#/$defs/" + name);
        assert item.s[|REF_PREFIX|..] == name;
      } else {
        assert rest[|rest| - 1] == path[|path| - 1];
        RewrittenAt(item, rest, name, renames);
      }
    case Arr(items) =>
      assert rest != [] && rest[|rest| - 1] == path[|path| - 1];
      RewrittenAt(items[path[0].i], rest, name, renames);
  }

  /** The same scalar, the same names of members, as many items, or nothing in both. */
  predicate Alike(was: Option<Json>, now: Option<Json>) {
    && (was.None? <==> now.None?)
    && (was.Some? && was.value.Obj? ==> now.value.Obj? && now.value.members.Keys == was.value.members.Keys)
    && (was.Some? && was.value.Arr? ==> now.value.Arr? && |now.value.items| == |was.value.items|)
    && (was.Some? && !was.value.Obj? && !was.value.Arr? ==> now == was)
  }

  /** Everywhere else it keeps what is there: the same scalar, the same names of members, as many
      items, and nothing where there was nothing. */
  lemma {:induction false} KeptAt(value: Json, path: seq<Place>, renames: Renames)
    requires forall name :: !RefersAt(value, path, name)
    ensures Alike(At(value, path), At(WithRenamedRefs(value, renames), path))
    ensures At(value, path).Some? && !At(value, path).value.Obj? && !At(value, path).value.Arr? ==>
      At(WithRenamedRefs(value, renames), path) == At(value, path)
    decreases |path|
  {
    if path != [] {
      var rest := path[1..];
      if value.Obj? && path[0].Key? && path[0].key in value.members {
        KeptAtMember(value.members, path, renames);
      } else if value.Arr? && path[0].Index? && path[0].i < |value.items| {
        forall name
          ensures !RefersAt(value.items[path[0].i], rest, name)
        {
          assert !RefersAt(value, path, name);
        }
        KeptAt(value.items[path[0].i], rest, renames);
      }
    }
  }

  lemma {:induction false} KeptAtMember(members: map<string, Json>, path: seq<Place>, renames: Renames)
    requires path != [] && path[0].Key? && path[0].key in members
    requires forall name :: !RefersAt(Obj(members), path, name)
    ensures Alike(At(Obj(members), path), At(WithRenamedRefs(Obj(members), renames), path))
    decreases |path|, 0
  {
    var key, rest := path[0].key, path[1..];
    var item := members[key];
    if IsLocalRef(key, item) {
      assert item.s == "#/$defs/" + RefName(item);
      assert !RefersAt(Obj(members), path, RefName(item));
    } else {
      forall name
        ensures !RefersAt(item, rest, name)
      {
        assert !RefersAt(Obj(members), path, name);
      }
      KeptAt(item, rest, renames);
    }
  }

  /** The references of a value are the names that some `$ref` member of it names. */
  lemma {:induction false} ReferredToSomewhere(value: Json, name: string)
    ensures name in LocalReferences(value) <==> exists path :: RefersAt(value, path, name)
  {
    if name in LocalReferences(value) {
      var path := PathOfReference(value, name);
    }
    forall path | RefersAt(value, path, name)
      ensures name in LocalReferences(value)
    {
      ReferredToAt(value, path, name);
    }
  }

  lemma {:induction false} PathOfReference(value: Json, name: string) returns (path: seq<Place>)
    requires name in LocalReferences(value)
    ensures RefersAt(value, path, name)
    decreases value
  {
    match value
    case Obj(members) =>
      var key :| key in members && name in MemberReferences(key, members[key]);
      if IsLocalRef(key, members[key]) {
        assert members[key].s == "#/$defs/" + name;
        path := [Key("$ref")];
        assert path[1..] == [];
      } else {
        var rest := PathOfReference(members[key], name);
        path := [Key(key)] + rest;
        assert path[1..] == rest;
      }
    case Arr(items) =>
      var i :| 0 <= i < |items| && name in LocalReferences(items[i]);
      var rest := PathOfReference(items[i], name);
      path := [Index(i)] + rest;
      assert path[1..] == rest;
  }

  lemma {:induction false} ReferredToAt(value: Json, path: seq<Place>, name: string)
    requires RefersAt(value, path, name)
    ensures name in LocalReferences(value)
    decreases |path|
  {
    var rest := path[1..];
    match value
    case Obj(members) =>
      var key := path[0].key;
      if rest == [] {
        assert At(members[key], rest) == Some(members[key]);
        assert members[key].s[|REF_PREFIX|..] == name;
      } else {
        assert rest[|rest| - 1] == path[|path| - 1];
        assert At(members[key], rest) == At(value, path);
        ReferredToAt(members[key], rest, name);
      }
      assert name in MemberReferences(key, members[key]);
    case Arr(items) =>
      assert rest != [] && rest[|rest| - 1] == path[|path| - 1];
      ReferredToAt(items[path[0].i], rest, name);
  }

  // ------------------------------------------------------ how renaming acts on references

  /** What a value is renamed to depends only on the names it refers to. */
  lemma {:induction false} RenamingReadsOnlyReferences(value: Json, r1: Renames, r2: Renames)
    requires forall n :: n in LocalReferences(value) ==> NewName(n, r1) == NewName(n, r2)
    ensures WithRenamedRefs(value, r1) == WithRenamedRefs(value, r2)
  {
    match value
    case Obj(members) =>
      forall k | k in members
        ensures RenamedMember(k, members[k], r1) == RenamedMember(k, members[k], r2)
      {
        assert MemberReferences(k, members[k]) <= LocalReferences(value);
        if IsLocalRef(k, members[k]) {
          assert RefName(members[k]) in LocalReferences(value);
        } else {
          RenamingReadsOnlyReferences(members[k], r1, r2);
        }
      }
    case Arr(items) =>
      forall i | 0 <= i < |items|
        ensures WithRenamedRefs(items[i], r1) == WithRenamedRefs(items[i], r2)
      {
        assert LocalReferences(items[i]) <= LocalReferences(value);
        RenamingReadsOnlyReferences(items[i], r1, r2);
      }
    case _ =>
  }

  lemma {:induction false} RenamingNothing(value: Json)
    ensures WithRenamedRefs(value, map[]) == value
  {
    match value
    case Obj(members) =>
      forall k | k in members
        ensures RenamedMember(k, members[k], map[]) == members[k]
      {
        if !IsLocalRef(k, members[k]) {
          RenamingNothing(members[k]);
        }
      }
    case Arr(items) =>
      forall i | 0 <= i < |items|
        ensures WithRenamedRefs(items[i], map[]) == items[i]
      {
        RenamingNothing(items[i]);
      }
      assert WithRenamedRefs(value, map[]).items == items;
    case _ =>
  }

  /** A value is left as it is exactly when none of the names it refers to is renamed: a literal
      that merely looks like a reference is rewritten like one. */
  lemma {:induction false} UnchangedIffNoReferenceRenamed(value: Json, renames: Renames)
    ensures WithRenamedRefs(value, renames) == value
       <==> forall n :: n in LocalReferences(value) ==> NewName(n, renames) == n
    decreases value, 0
  {
    var renamed := WithRenamedRefs(value, renames);
    if forall n :: n in LocalReferences(value) ==> NewName(n, renames) == n {
      RenamingReadsOnlyReferences(value, renames, map[]);
      RenamingNothing(value);
    } else {
      var n :| n in LocalReferences(value) && NewName(n, renames) != n;
      match value
      case Obj(members) =>
        var k :| k in members && n in MemberReferences(k, members[k]);
        RenamedMemberDiffers(k, members[k], renames, n);
        assert renamed.members[k] == RenamedMember(k, members[k], renames);
      case Arr(items) =>
        var i :| 0 <= i < |items| && n in LocalReferences(items[i]);
        UnchangedIffNoReferenceRenamed(items[i], renames);
        assert renamed.items[i] != items[i];
    }
  }

  lemma {:induction false} RenamedMemberDiffers(key: string, item: Json, renames: Renames, name: string)
    requires name in MemberReferences(key, item) && NewName(name, renames) != name
    ensures RenamedMember(key, item, renames) != item
    decreases item, 1
  {
    if IsLocalRef(key, item) {
      var renamed := RenamedMember(key, item, renames);
      assert RefName(renamed) == NewName(name, renames);
    } else {
      UnchangedIffNoReferenceRenamed(item, renames);
    }
  }

  /** A renamed value refers to exactly the new names of what it referred to. */
  lemma {:induction false} RenamedReferences(value: Json, renames: Renames)
    ensures LocalReferences(WithRenamedRefs(value, renames))
         == set n | n in LocalReferences(value) :: NewName(n, renames)
    decreases value, 0
  {
    var image := set n | n in LocalReferences(value) :: NewName(n, renames);
    var renamed := WithRenamedRefs(value, renames);
    match value
    case Obj(members) =>
      forall k | k in members
        ensures MemberReferences(k, renamed.members[k])
             == set n | n in MemberReferences(k, members[k]) :: NewName(n, renames)
      {
        RenamedMemberReferences(k, members[k], renames);
      }
      forall n | n in LocalReferences(value)
        ensures NewName(n, renames) in LocalReferences(renamed)
      {
        var k :| k in members && n in MemberReferences(k, members[k]);
        assert k in renamed.members && NewName(n, renames) in MemberReferences(k, renamed.members[k]);
      }
      forall n | n in LocalReferences(renamed)
        ensures n in image
      {
        var k :| k in renamed.members && n in MemberReferences(k, renamed.members[k]);
        var source :| source in MemberReferences(k, members[k]) && n == NewName(source, renames);
        assert source in LocalReferences(value);
      }
    case Arr(items) =>
      forall i | 0 <= i < |items|
        ensures LocalReferences(renamed.items[i])
             == set n | n in LocalReferences(items[i]) :: NewName(n, renames)
      {
        RenamedReferences(items[i], renames);
      }
      forall n | n in LocalReferences(value)
        ensures NewName(n, renames) in LocalReferences(renamed)
      {
        var i :| 0 <= i < |items| && n in LocalReferences(items[i]);
        assert NewName(n, renames) in LocalReferences(renamed.items[i]);
      }
      forall n | n in LocalReferences(renamed)
        ensures n in image
      {
        var i :| 0 <= i < |renamed.items| && n in LocalReferences(renamed.items[i]);
        var source :| source in LocalReferences(items[i]) && n == NewName(source, renames);
        assert source in LocalReferences(value);
      }
    case _ =>
  }

  lemma {:induction false} RenamedMemberReferences(key: string, item: Json, renames: Renames)
    ensures MemberReferences(key, RenamedMember(key, item, renames))
         == set n | n in MemberReferences(key, item) :: NewName(n, renames)
    decreases item, 1
  {
    if IsLocalRef(key, item) {
      var renamed := RenamedMember(key, item, renames);
      assert RefName(renamed) == NewName(RefName(item), renames);
    } else {
      RenamedReferences(item, renames);
      assert !IsLocalRef(key, WithRenamedRefs(item, renames));
    }
  }

  // ------------------------------------------------------ renaming preserves meaning

  /** `image` holds every definition of `defs` under its new name, title apart. */
  ghost predicate Carries(defs: Definitions, renames: Renames, image: Definitions) {
    forall n :: n in defs ==>
      NewName(n, renames) in image &&
      Untitled(image[NewName(n, renames)]) == Untitled(WithRenamedRefs(defs[n], renames))
  }

  /** A schema accepts, over `image` and renamed, exactly the values it accepted over `defs`. */
  lemma {:induction false} RenamedAccepts(
    fuel: nat, defs: Definitions, renames: Renames, image: Definitions,
    schema: Json, value: Json, literal: LiteralMeaning)
    requires WellFormed(defs) && Carries(defs, renames, image)
    requires SchemaShaped(schema) && LocalReferences(schema) <= defs.Keys
    ensures Accepts(fuel, defs, schema, value, literal)
        <==> Accepts(fuel, image, WithRenamedRefs(schema, renames), value, literal)
    decreases fuel, schema, 0
  {
    if schema.Obj? {
      var renamed := WithRenamedRefs(schema, renames);
      RenamedSiblings(schema, renames);
      forall k | k in schema.members
        ensures KeywordHolds(fuel, defs, k, schema.members[k], DeclaredProperties(schema), PrefixLength(schema),
                             value, literal)
            <==> KeywordHolds(fuel, image, k, renamed.members[k], DeclaredProperties(schema), PrefixLength(schema),
                              value, literal)
      {
        assert MemberReferences(k, schema.members[k]) <= LocalReferences(schema);
        RenamedKeywordHolds(fuel, defs, renames, image, k, schema.members[k],
                            DeclaredProperties(schema), PrefixLength(schema), value, literal);
      }
    }
  }

  lemma {:induction false} RenamedSiblings(schema: Json, renames: Renames)
    requires SchemaShaped(schema)
    ensures DeclaredProperties(WithRenamedRefs(schema, renames)) == DeclaredProperties(schema)
    ensures PrefixLength(WithRenamedRefs(schema, renames)) == PrefixLength(schema)
  {
    if schema.Obj? && "properties" in schema.members {
      RenamedSibling(schema, "properties", renames);
    }
    if schema.Obj? && "prefixItems" in schema.members {
      RenamedSibling(schema, "prefixItems", renames);
    }
  }

  lemma {:induction false} RenamedSibling(schema: Json, key: string, renames: Renames)
    requires schema.Obj? && key in schema.members && key != "$ref"
    ensures var item, renamed := schema.members[key], WithRenamedRefs(schema, renames).members[key];
      && (item.Obj? <==> renamed.Obj?) && (item.Obj? ==> renamed.members.Keys == item.members.Keys)
      && (item.Arr? <==> renamed.Arr?) && (item.Arr? ==> |renamed.items| == |item.items|)
  {
    var item := schema.members[key];
    var renamed := WithRenamedRefs(item, renames);
    assert item.Obj? ==> renamed.members.Keys == item.members.Keys;
    assert RenamedMember(key, item, renames) == renamed;
  }

  lemma {:induction false} RenamedKeywordHolds(
    fuel: nat, defs: Definitions, renames: Renames, image: Definitions,
    key: string, item: Json, declared: set<string>, prefix: nat, value: Json, literal: LiteralMeaning)
    requires WellFormed(defs) && Carries(defs, renames, image)
    requires KeywordShaped(key, item) && MemberReferences(key, item) <= defs.Keys
    ensures KeywordHolds(fuel, defs, key, item, declared, prefix, value, literal)
        <==> KeywordHolds(fuel, image, key, RenamedMember(key, item, renames), declared, prefix, value, literal)
    decreases fuel, item, 2
  {
    match KeywordOf(key)
    case Ref =>
      RenamedReferenceHolds(fuel, defs, renames, image, key, item, declared, prefix, value, literal);
    case Title =>
    case Properties =>
      RenamedPropertiesHold(fuel, defs, renames, image, key, item, declared, prefix, value, literal);
    case PrefixItems | AllOf | AnyOf | OneOf =>
      RenamedListHolds(fuel, defs, renames, image, key, item, declared, prefix, value, literal);
    case AdditionalProperties | PropertyNames | Items | Not =>
      RenamedSubschemaHolds(fuel, defs, renames, image, key, item, declared, prefix, value, literal);
    case Literal =>
      RenamingReadsOnlyReferences(item, renames, map[]);
      RenamingNothing(item);
  }

  lemma {:induction false} RenamedPropertiesHold(
    fuel: nat, defs: Definitions, renames: Renames, image: Definitions,
    key: string, item: Json, declared: set<string>, prefix: nat, value: Json, literal: LiteralMeaning)
    requires WellFormed(defs) && Carries(defs, renames, image)
    requires KeywordOf(key) == Properties && KeywordShaped(key, item) && MemberReferences(key, item) <= defs.Keys
    ensures KeywordHolds(fuel, defs, key, item, declared, prefix, value, literal)
        <==> KeywordHolds(fuel, image, key, RenamedMember(key, item, renames), declared, prefix, value, literal)
    decreases fuel, item, 1
  {
    var renamed := WithRenamedRefs(item, renames);
    assert RenamedMember(key, item, renames) == renamed;
    assert renamed.members.Keys == item.members.Keys;
    if value.Obj? {
      forall p | p in item.members && p in value.members
        ensures Accepts(fuel, defs, item.members[p], value.members[p], literal)
            <==> Accepts(fuel, image, renamed.members[p], value.members[p], literal)
      {
        RenamedPart(item, p, renames);
        RenamedAccepts(fuel, defs, renames, image, item.members[p], value.members[p], literal);
      }
    }
  }

  lemma {:induction false} RenamedSubschemaHolds(
    fuel: nat, defs: Definitions, renames: Renames, image: Definitions,
    key: string, item: Json, declared: set<string>, prefix: nat, value: Json, literal: LiteralMeaning)
    requires WellFormed(defs) && Carries(defs, renames, image)
    requires KeywordOf(key) in {AdditionalProperties, PropertyNames, Items, Not}
    requires KeywordShaped(key, item) && MemberReferences(key, item) <= defs.Keys
    ensures KeywordHolds(fuel, defs, key, item, declared, prefix, value, literal)
        <==> KeywordHolds(fuel, image, key, RenamedMember(key, item, renames), declared, prefix, value, literal)
    decreases fuel, item, 1
  {
    var renamed := WithRenamedRefs(item, renames);
    assert RenamedMember(key, item, renames) == renamed;
    forall v
      ensures Accepts(fuel, defs, item, v, literal) <==> Accepts(fuel, image, renamed, v, literal)
    {
      RenamedAccepts(fuel, defs, renames, image, item, v, literal);
    }
  }

  /** A member of a schema's `properties` is renamed as a schema, whatever its name. */
  lemma {:induction false} RenamedPart(item: Json, p: string, renames: Renames)
    requires item.Obj? && p in item.members && SchemaShaped(item.members[p])
    ensures RenamedMember(p, item.members[p], renames) == WithRenamedRefs(item.members[p], renames)
    ensures LocalReferences(item.members[p]) <= LocalReferences(item)
  {
    assert MemberReferences(p, item.members[p]) <= LocalReferences(item);
  }

  lemma {:induction false} RenamedListHolds(
    fuel: nat, defs: Definitions, renames: Renames, image: Definitions,
    key: string, item: Json, declared: set<string>, prefix: nat, value: Json, literal: LiteralMeaning)
    requires WellFormed(defs) && Carries(defs, renames, image)
    requires KeywordShaped(key, item) && MemberReferences(key, item) <= defs.Keys
    requires KeywordOf(key) in {PrefixItems, AllOf, AnyOf, OneOf}
    ensures KeywordHolds(fuel, defs, key, item, declared, prefix, value, literal)
        <==> KeywordHolds(fuel, image, key, RenamedMember(key, item, renames), declared, prefix, value, literal)
    decreases fuel, item, 1
  {
    var renamed := WithRenamedRefs(item, renames);
    assert RenamedMember(key, item, renames) == renamed && |renamed.items| == |item.items|;
    forall i, v | 0 <= i < |item.items|
      ensures Accepts(fuel, defs, item.items[i], v, literal) <==> Accepts(fuel, image, renamed.items[i], v, literal)
    {
      assert LocalReferences(item.items[i]) <= LocalReferences(item);
      RenamedAccepts(fuel, defs, renames, image, item.items[i], v, literal);
    }
    SameVerdicts(fuel, defs, image, key, item, renamed, declared, prefix, value, literal);
  }

  lemma {:induction false} RenamedReferenceName(key: string, item: Json, renames: Renames)
    requires IsLocalRef(key, item)
    ensures var renamed := RenamedMember(key, item, renames);
      IsLocalRef(key, renamed) && RefName(renamed) == NewName(RefName(item), renames)
  {
  }

  lemma {:induction false} RenamedReferenceHolds(
    fuel: nat, defs: Definitions, renames: Renames, image: Definitions,
    key: string, item: Json, declared: set<string>, prefix: nat, value: Json, literal: LiteralMeaning)
    requires WellFormed(defs) && Carries(defs, renames, image)
    requires KeywordOf(key) == Ref && item.Str? && MemberReferences(key, item) <= defs.Keys
    ensures KeywordHolds(fuel, defs, key, item, declared, prefix, value, literal)
        <==> KeywordHolds(fuel, image, key, RenamedMember(key, item, renames), declared, prefix, value, literal)
    decreases fuel, item, 1
  {
    if IsLocalRef(key, item) && fuel > 0 {
      var name := RefName(item);
      var renamed := RenamedMember(key, item, renames);
      assert name in MemberReferences(key, item);
      RenamedReferenceName(key, item, renames);
      RenamedTargetAccepts(fuel - 1, defs, renames, image, name, value, literal);
    }
  }

  /** A definition under its new name accepts, over `image`, what it accepted over `defs`. */
  lemma {:induction false} RenamedTargetAccepts(
    fuel: nat, defs: Definitions, renames: Renames, image: Definitions, name: string, value: Json,
    literal: LiteralMeaning)
    requires WellFormed(defs) && Carries(defs, renames, image) && name in defs
    ensures Accepts(fuel, defs, defs[name], value, literal)
        <==> Accepts(fuel, image, image[NewName(name, renames)], value, literal)
    decreases fuel, defs[name], 9
  {
    RenamedAccepts(fuel, defs, renames, image, defs[name], value, literal);
    TitleIsAnnotation(fuel, image, image[NewName(name, renames)], WithRenamedRefs(defs[name], renames), value, literal);
  }

  /** A list keyword holds alike of two lists of schemas that accept alike, place by place. */
  lemma {:induction false} SameVerdicts(
    fuel: nat, defs: Definitions, image: Definitions, key: string, item: Json, renamed: Json,
    declared: set<string>, prefix: nat, value: Json, literal: LiteralMeaning)
    requires KeywordOf(key) in {PrefixItems, AllOf, AnyOf, OneOf}
    requires item.Arr? && renamed.Arr? && |item.items| == |renamed.items|
    requires forall i, v :: 0 <= i < |item.items| ==>
      (Accepts(fuel, defs, item.items[i], v, literal) <==> Accepts(fuel, image, renamed.items[i], v, literal))
    ensures KeywordHolds(fuel, defs, key, item, declared, prefix, value, literal)
        <==> KeywordHolds(fuel, image, key, renamed, declared, prefix, value, literal)
  {
    if KeywordOf(key) == OneOf {
      SameOneVerdict(fuel, defs, image, item.items, renamed.items, value, literal);
    }
  }

  /** Of schemas that accept alike, exactly one accepts a value alike. */
  lemma {:induction false} SameOneVerdict(
    fuel: nat, defs: Definitions, image: Definitions, schemas: seq<Json>, renamed: seq<Json>,
    value: Json, literal: LiteralMeaning)
    requires |schemas| == |renamed|
    requires forall i :: 0 <= i < |schemas| ==>
      (Accepts(fuel, defs, schemas[i], value, literal) <==> Accepts(fuel, image, renamed[i], value, literal))
    ensures OneAccepts(fuel, defs, schemas, value, literal) <==> OneAccepts(fuel, image, renamed, value, literal)
  {
  }
}
