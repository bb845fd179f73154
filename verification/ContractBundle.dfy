/** Storing a contract's definitions into the shared bundle (`_serialized_definitions`
    and `_merge_definition`): what a merge does to meanings, and to names decided before. */
module ContractBundle {
  import opened JsonSchema
  import opened ContractRenaming
  import opened ResponseNaming

  // ------------------------------------------------------------ a response's serialized definitions

  /** The definition stored for a name: its references renamed, and its title with its name. */
  function FinalDefinition(response: Definitions, renames: Renames, name: string): (definition: Json)
    requires name in response
    ensures Untitled(definition) == Untitled(WithRenamedRefs(response[name], renames))
  {
    var rewritten := WithRenamedRefs(response[name], renames);
    if NewName(name, renames) != name && rewritten.Obj? && "title" in rewritten.members
       && rewritten.members["title"] == Str(name)
    then
      assert rewritten.members["title" := Str(NewName(name, renames))] - {"title"} == rewritten.members - {"title"};
      Obj(rewritten.members["title" := Str(NewName(name, renames))])
    else rewritten
  }

  /** A definition titled with its own name is titled with its new one; no other title changes. */
  lemma {:induction false} TitleFollowsName(response: Definitions, renames: Renames, name: string)
    requires name in response && response[name].Obj? && "title" in response[name].members
    requires response[name].members["title"].Str?
    ensures var definition, title := FinalDefinition(response, renames, name), response[name].members["title"].s;
      && definition.Obj? && "title" in definition.members
      && definition.members["title"] == Str(if title == name then NewName(name, renames) else title)
  {
    var rewritten, title := WithRenamedRefs(response[name], renames), response[name].members["title"];
    assert "title" != "$ref" && RenamedMember("title", title, renames) == WithRenamedRefs(title, renames) == title;
    assert rewritten.members["title"] == RenamedMember("title", title, renames);
  }

  /** One entry for each new name, holding a definition of that new name. */
  ghost predicate IsSerialized(response: Definitions, renames: Renames, serialized: Definitions) {
    && (forall n {:trigger NewName(n, renames)} :: n in response ==> NewName(n, renames) in serialized)
    && (forall k {:trigger serialized[k]} :: k in serialized ==>
          exists n :: n in response && NewName(n, renames) == k && serialized[k] == FinalDefinition(response, renames, n))
  }

  /** A response's definitions under their names apart from the bundle's. */
  method SerializedDefinitions(response: Definitions, bundle: Definitions)
    returns (serialized: Definitions, renamed: set<string>)
    ensures Outcome(response, bundle, renamed)
    ensures Settled(response, bundle, renamed) && Justified(response, bundle, renamed)
    ensures OnlySelfCycles(response) ==> Solves(response, bundle, renamed)
    ensures IsSerialized(response, OutputNames(renamed), serialized)
  {
    renamed := DecideRenames(response, bundle);
    var renames := OutputNames(renamed);
    serialized := map[];
    var waiting := response.Keys;
    while waiting != {}
      invariant waiting <= response.Keys
      invariant forall n :: n in response && n !in waiting ==> NewName(n, renames) in serialized
      invariant forall k :: k in serialized ==>
        exists n :: n in response && NewName(n, renames) == k && serialized[k] == FinalDefinition(response, renames, n)
    {
      var name :| name in waiting;
      var definition := FinalDefinition(response, renames, name);
      serialized := serialized[NewName(name, renames) := definition];
      waiting := waiting - {name};
    }
  }

  /** No name has two different bodies. */
  ghost predicate Agree(a: Definitions, b: Definitions) {
    forall n :: n in a && n in b ==> a[n] == b[n]
  }

  // ------------------------------------------------------------ when no definition is lost

  /** No name of the response is another name of it with the suffix. */
  ghost predicate SuffixFree(response: Definitions) {
    forall n :: n in response ==> n + SERIALIZED_SUFFIX !in response
  }

  /** No renamed definition takes the name of one that keeps its own. */
  ghost predicate NoNameTaken(response: Definitions, renamed: set<string>) {
    && renamed <= response.Keys
    && forall n :: n in renamed && n + SERIALIZED_SUFFIX in response ==> n + SERIALIZED_SUFFIX in renamed
  }

  /** Different definitions get different names exactly when no name is taken. */
  lemma {:induction false} NamesStayApart(response: Definitions, renamed: set<string>)
    requires renamed <= response.Keys
    ensures var renames := OutputNames(renamed);
      (forall a, b :: a in response && b in response && NewName(a, renames) == NewName(b, renames) ==> a == b)
       <==> NoNameTaken(response, renamed)
  {
    var renames := OutputNames(renamed);
    if n :| n in renamed && n + SERIALIZED_SUFFIX in response && n + SERIALIZED_SUFFIX !in renamed {
      var taken := n + SERIALIZED_SUFFIX;
      assert NewName(n, renames) == NewName(taken, renames) && |n| < |taken|;
    }
    forall a, b | a in renamed && b in renamed && a + SERIALIZED_SUFFIX == b + SERIALIZED_SUFFIX
      ensures a == b
    {
      assert a == (a + SERIALIZED_SUFFIX)[..|a|] && b == (b + SERIALIZED_SUFFIX)[..|b|];
    }
  }

  /** A bundle that holds one name, with another body than the response's. */
  function Clashing(response: Definitions, name: string): Definitions
    requires name in response
  {
    map[name := if response[name] == Obj(map[]) then Obj(map["type" := Str("null")]) else Obj(map[])]
  }

  lemma {:induction false} ClashDiffers(response: Definitions, name: string)
    requires name in response
    ensures Clashing(response, name)[name] != response[name]
  {
    assert "type" in Obj(map["type" := Str("null")]).members;
  }

  /** Against it exactly that name is renamed. */
  lemma {:induction false} ClashRenamesOneName(response: Definitions, name: string, renamed: set<string>)
    requires name in response
    ensures WellFormed(Clashing(response, name))
    ensures Settled(response, Clashing(response, name), renamed) && Justified(response, Clashing(response, name), renamed)
       <==> renamed == {name}
  {
    var bundle := Clashing(response, name);
    assert OutputNames({}) == map[];
    RenamingNothing(response[name]);
    ClashDiffers(response, name);
    assert Conflicts(response, bundle, {}, name);
    if Settled(response, bundle, renamed) && Justified(response, bundle, renamed) {
      forall n | n in renamed
        ensures n == name
      {
        assert ConflictedOnce(response, bundle, renamed, n);
      }
      assert name !in renamed ==> renamed == {};
    }
    if renamed == {name} {
      assert {} <= renamed - {name};
      assert ConflictedOnce(response, bundle, renamed, name);
    }
  }

  /** A response's definitions get names of their own against every bundle exactly when none of
      its names is another one with the suffix. */
  lemma {:induction false} SuffixFreeIffNamesStayApart(response: Definitions)
    ensures SuffixFree(response) <==>
      forall bundle, renamed ::
        WellFormed(bundle) && Settled(response, bundle, renamed) && Justified(response, bundle, renamed) ==>
          NoNameTaken(response, renamed)
  {
    if n :| n in response && n + SERIALIZED_SUFFIX in response {
      var bundle := Clashing(response, n);
      ClashRenamesOneName(response, n, {n});
      assert |n + SERIALIZED_SUFFIX| > |n|;
      assert n in {n} && n + SERIALIZED_SUFFIX !in {n};
      assert !NoNameTaken(response, {n});
    }
  }

  /** Under the condition every definition is stored, under its new name. */
  lemma {:induction false} EveryDefinitionStored(
    response: Definitions, renamed: set<string>, serialized: Definitions, name: string)
    requires NoNameTaken(response, renamed) && name in response
    requires IsSerialized(response, OutputNames(renamed), serialized)
    ensures var renames := OutputNames(renamed);
      NewName(name, renames) in serialized
      && serialized[NewName(name, renames)] == FinalDefinition(response, renames, name)
  {
    NamesStayApart(response, renamed);
  }

  // ------------------------------------------------------------ meaning preservation

  /** Two schemas accept the same values at every depth, whatever the literal keywords mean. */
  ghost predicate SameMeaning(defs: Definitions, schema: Json, defs': Definitions, schema': Json) {
    forall fuel: nat, value, literal ::
      Accepts(fuel, defs, schema, value, literal) <==> Accepts(fuel, defs', schema', value, literal)
  }

  /** Schemas that tell some value apart have another meaning. */
  lemma {:induction false} MeaningTells(
    defs: Definitions, schema: Json, defs': Definitions, schema': Json, fuel: nat, value: Json, literal: LiteralMeaning)
    requires Accepts(fuel, defs, schema, value, literal) != Accepts(fuel, defs', schema', value, literal)
    ensures !SameMeaning(defs, schema, defs', schema')
  {
  }

  lemma {:induction false} CarriedDefinitionKeepsMeaning(
    defs: Definitions, renames: Renames, image: Definitions, name: string)
    requires WellFormed(defs) && Carries(defs, renames, image) && name in defs
    ensures SameMeaning(defs, defs[name], image, image[NewName(name, renames)])
  {
    forall fuel: nat, value, literal
      ensures Accepts(fuel, defs, defs[name], value, literal)
          <==> Accepts(fuel, image, image[NewName(name, renames)], value, literal)
    {
      RenamedTargetAccepts(fuel, defs, renames, image, name, value, literal);
    }
  }

  /** Storing a response changes the meaning of none of its definitions. */
  lemma {:induction false} ResponseKeepsMeaning(
    response: Definitions, bundle: Definitions, renamed: set<string>, serialized: Definitions, name: string)
    requires WellFormed(response) && NoNameTaken(response, renamed) && name in response
    requires IsSerialized(response, OutputNames(renamed), serialized) && Agree(bundle, serialized)
    ensures var stored := NewName(name, OutputNames(renamed));
      stored in bundle + serialized
      && SameMeaning(response, response[name], bundle + serialized, (bundle + serialized)[stored])
  {
    var renames := OutputNames(renamed);
    forall n | n in response
      ensures NewName(n, renames) in serialized && serialized[NewName(n, renames)] == FinalDefinition(response, renames, n)
    {
      EveryDefinitionStored(response, renamed, serialized, n);
    }
    CarriedDefinitionKeepsMeaning(response, renames, bundle + serialized, name);
  }

  /** Adding definitions that agree with a closed bundle's changes the meaning of none of its names. */
  lemma {:induction false} BundleKeepsMeaning(bundle: Definitions, additions: Definitions, name: string)
    requires WellFormed(bundle) && Agree(bundle, additions) && name in bundle
    ensures SameMeaning(bundle, bundle[name], bundle + additions, (bundle + additions)[name])
  {
    forall n | n in bundle
      ensures WithRenamedRefs(bundle[n], map[]) == bundle[n]
    {
      RenamingNothing(bundle[n]);
    }
    CarriedDefinitionKeepsMeaning(bundle, map[], bundle + additions, name);
  }

  // ------------------------------------------------------------ the new bundle is well formed

  lemma {:induction false} RenamedShape(schema: Json, renames: Renames)
    requires SchemaShaped(schema)
    ensures SchemaShaped(WithRenamedRefs(schema, renames))
    decreases schema, 0
  {
    if schema.Obj? {
      forall k | k in schema.members
        ensures KeywordShaped(k, RenamedMember(k, schema.members[k], renames))
      {
        RenamedKeywordShape(k, schema.members[k], renames);
      }
    }
  }

  lemma {:induction false} RenamedKeywordShape(key: string, item: Json, renames: Renames)
    requires KeywordShaped(key, item)
    ensures KeywordShaped(key, RenamedMember(key, item, renames))
    decreases item, 1
  {
    var renamed := WithRenamedRefs(item, renames);
    match KeywordOf(key)
    case Ref =>
    case Title =>
    case Properties =>
      assert renamed.members.Keys == item.members.Keys;
      forall p | p in item.members
        ensures SchemaShaped(renamed.members[p])
      {
        RenamedPart(item, p, renames);
        RenamedShape(item.members[p], renames);
      }
    case PrefixItems | AllOf | AnyOf | OneOf =>
      forall i | 0 <= i < |item.items|
        ensures SchemaShaped(renamed.items[i])
      {
        RenamedShape(item.items[i], renames);
      }
    case AdditionalProperties | PropertyNames | Items | Not =>
      RenamedShape(item, renames);
    case Literal =>
      RenamedReferences(item, renames);
  }

  lemma {:induction false} FinalDefinitionShape(response: Definitions, renames: Renames, name: string)
    requires WellFormed(response) && name in response
    ensures SchemaShaped(FinalDefinition(response, renames, name))
    ensures LocalReferences(FinalDefinition(response, renames, name))
         == set n | n in LocalReferences(response[name]) :: NewName(n, renames)
  {
    var rewritten := WithRenamedRefs(response[name], renames);
    RenamedShape(response[name], renames);
    RenamedReferences(response[name], renames);
    if rewritten.Obj? && "title" in rewritten.members {
      assert KeywordShaped("title", rewritten.members["title"]);
      Retitled(rewritten, NewName(name, renames));
    }
  }

  lemma {:induction false} Retitled(definition: Json, title: string)
    requires SchemaShaped(definition) && definition.Obj?
    requires "title" in definition.members && definition.members["title"].Str?
    ensures var retitled := Obj(definition.members["title" := Str(title)]);
      SchemaShaped(retitled) && LocalReferences(retitled) == LocalReferences(definition)
  {
    var retitled := Obj(definition.members["title" := Str(title)]);
    assert KeywordShaped("title", Str(title));
    assert "title" != "$ref";
    forall k | k in definition.members
      ensures MemberReferences(k, retitled.members[k]) == MemberReferences(k, definition.members[k])
    {
    }
    assert forall n :: n in LocalReferences(retitled) ==>
      exists k :: k in retitled.members && n in MemberReferences(k, retitled.members[k]);
  }

  /** Merging a response into a well-formed bundle leaves a well-formed bundle. */
  lemma {:induction false} MergedIsWellFormed(
    response: Definitions, bundle: Definitions, renamed: set<string>, serialized: Definitions)
    requires WellFormed(response) && WellFormed(bundle)
    requires IsSerialized(response, OutputNames(renamed), serialized) && Agree(bundle, serialized)
    ensures WellFormed(bundle + serialized)
  {
    var renames := OutputNames(renamed);
    forall k | k in serialized
      ensures SchemaShaped(serialized[k]) && LocalReferences(serialized[k]) <= serialized.Keys
    {
      var n :| n in response && NewName(n, renames) == k && serialized[k] == FinalDefinition(response, renames, n);
      FinalDefinitionShape(response, renames, n);
    }
  }

  // ------------------------------------------------------------ decisions made early stay right

  /** Every name a response keeps that the bundle already holds is stored there as the same
      definition, so a merge can be refused only over a name the suffix made. */
  lemma {:induction false} RefusedOnlyOverOutputName(
    response: Definitions, bundle: Definitions, renamed: set<string>, serialized: Definitions, name: string)
    requires Settled(response, bundle, renamed)
    requires IsSerialized(response, OutputNames(renamed), serialized)
    requires name in bundle && name in serialized && bundle[name] != serialized[name]
    ensures exists n :: n in renamed && name == n + SERIALIZED_SUFFIX
  {
    var renames := OutputNames(renamed);
    var n :| n in response && NewName(n, renames) == name && serialized[name] == FinalDefinition(response, renames, n);
    assert n in renamed;
  }

  /** A response already stored resolves identically against any later bundle, and merges into
      it without conflict and without change. */
  lemma {:induction false} LaterResponsesResolveIdentically(
    response: Definitions, bundle: Definitions, renamed: set<string>, serialized: Definitions,
    later: Definitions, renamed': set<string>, serialized': Definitions)
    requires OnlySelfCycles(response) && NoNameTaken(response, renamed)
    requires Solves(response, bundle, renamed) && IsSerialized(response, OutputNames(renamed), serialized)
    requires Extends(later, bundle) && Extends(later, serialized)
    requires Solves(response, later, renamed') && IsSerialized(response, OutputNames(renamed'), serialized')
    ensures renamed' == renamed && serialized' == serialized
    ensures Agree(later, serialized') && later + serialized' == later
  {
    StillSolves(response, bundle, renamed, serialized, later);
    SolutionIsUnique(response, later, renamed, renamed');
    SerializedIsDetermined(response, renamed, serialized, serialized');
  }

  ghost predicate Extends(later: Definitions, earlier: Definitions) {
    forall n :: n in earlier ==> n in later && later[n] == earlier[n]
  }

  lemma {:induction false} StillSolves(
    response: Definitions, bundle: Definitions, renamed: set<string>, serialized: Definitions, later: Definitions)
    requires NoNameTaken(response, renamed)
    requires Solves(response, bundle, renamed) && IsSerialized(response, OutputNames(renamed), serialized)
    requires Extends(later, bundle) && Extends(later, serialized)
    ensures Solves(response, later, renamed)
  {
    forall n | n in response
      ensures n in renamed <==> Conflicts(response, later, renamed - {n}, n)
    {
      if n in renamed {
        assert Conflicts(response, bundle, renamed - {n}, n);
      } else {
        StoredAsItself(response, renamed, serialized, later, n);
      }
    }
  }

  /** A definition that kept its name is stored as itself, and conflicts with no later bundle. */
  lemma {:induction false} StoredAsItself(
    response: Definitions, renamed: set<string>, serialized: Definitions, later: Definitions, name: string)
    requires NoNameTaken(response, renamed) && name in response && name !in renamed
    requires IsSerialized(response, OutputNames(renamed), serialized) && Extends(later, serialized)
    ensures !Conflicts(response, later, renamed - {name}, name)
  {
    EveryDefinitionStored(response, renamed, serialized, name);
    assert renamed - {name} == renamed;
  }

  lemma {:induction false} SerializedIsDetermined(
    response: Definitions, renamed: set<string>, serialized: Definitions, serialized': Definitions)
    requires NoNameTaken(response, renamed)
    requires IsSerialized(response, OutputNames(renamed), serialized)
    requires IsSerialized(response, OutputNames(renamed), serialized')
    ensures serialized' == serialized
  {
    forall k | k in serialized || k in serialized'
      ensures k in serialized && k in serialized' && serialized[k] == serialized'[k]
    {
      var n :| n in response && NewName(n, OutputNames(renamed)) == k;
      EveryDefinitionStored(response, renamed, serialized, n);
      EveryDefinitionStored(response, renamed, serialized', n);
    }
  }
}
