/** Responses that show where the laws of storing end: a name that is another one with the suffix,
    and definitions that refer to one another (`_serialized_definitions`). */
module ContractBundleLimits {
  import opened JsonSchema
  import opened ContractRenaming
  import opened ResponseNaming
  import opened ContractBundle
  import opened ContractRerun

  lemma {:induction false} OneMember(key: string, item: Json, renames: Renames)
    ensures WithRenamedRefs(Obj(map[key := item]), renames) == Obj(map[key := RenamedMember(key, item, renames)])
    ensures LocalReferences(Obj(map[key := item])) == MemberReferences(key, item)
  {
    var value := Obj(map[key := item]);
    assert value.members[key] == item;
    assert forall n :: n in MemberReferences(key, item) ==> n in LocalReferences(value);
  }

  // ------------------------------------------------------------ a name with the suffix

  function OfType(name: string): Json {
    Obj(map["type" := Str(name)])
  }

  const COLLIDING: Definitions := map["A" := OfType("object"), "AOutput" := OfType("string")]
  const HOLDING: Definitions := map["A" := OfType("null")]

  /** Without the condition a definition can be lost: `A` is renamed onto `AOutput`, which the
      response holds as well, and two definitions share one entry. */
  lemma {:induction false} SuffixCollisionLosesADefinition()
    ensures WellFormed(COLLIDING) && WellFormed(HOLDING) && Solves(COLLIDING, HOLDING, {"A"})
    ensures forall serialized :: IsSerialized(COLLIDING, OutputNames({"A"}), serialized) ==>
      serialized.Keys == {"AOutput"}
  {
    CollisionIsResolved();
    CollidingNames();
    forall serialized | IsSerialized(COLLIDING, OutputNames({"A"}), serialized)
      ensures serialized.Keys == {"AOutput"}
    {
      OneNameForAll(COLLIDING, OutputNames({"A"}), serialized, "A", "AOutput");
    }
  }

  lemma {:induction false} CollisionIsResolved()
    ensures WellFormed(COLLIDING) && WellFormed(HOLDING) && Solves(COLLIDING, HOLDING, {"A"})
  {
    PlainType("object", OutputNames({"A"} - {"A"}));
    PlainType("string", OutputNames({"A"}));
    PlainType("null", map[]);
    assert OfType("object").members["type"] != OfType("null").members["type"];
  }

  lemma {:induction false} CollidingNames()
    ensures "A" in COLLIDING && forall n :: n in COLLIDING ==> NewName(n, OutputNames({"A"})) == "AOutput"
  {
    assert NewName("A", OutputNames({"A"})) == "AOutput" == NewName("AOutput", OutputNames({"A"}));
  }

  lemma {:induction false} OneNameForAll(
    response: Definitions, renames: Renames, serialized: Definitions, name: string, stored: string)
    requires IsSerialized(response, renames, serialized) && name in response
    requires forall n :: n in response ==> NewName(n, renames) == stored
    ensures serialized.Keys == {stored}
  {
  }

  lemma {:induction false} PlainType(name: string, renames: Renames)
    ensures SchemaShaped(OfType(name)) && LocalReferences(OfType(name)) == {}
    ensures WithRenamedRefs(OfType(name), renames) == OfType(name)
  {
    OneMember("type", Str(name), renames);
    assert KeywordOf("type") == Literal && !IsLocalRef("type", Str(name));
  }

  // ------------------------------------------------------------ mutual recursion

  /** A schema of lists of what another definition accepts. */
  function ListOf(name: string): Json {
    Obj(map["items" := Obj(map["$ref" := Str(REF_PREFIX + name)])])
  }

  lemma {:induction false} ListOfRenamed(name: string, renames: Renames)
    ensures WithRenamedRefs(ListOf(name), renames) == ListOf(NewName(name, renames))
    ensures LocalReferences(ListOf(name)) == {name} && SchemaShaped(ListOf(name))
  {
    var reference := Str(REF_PREFIX + name);
    var inner := Obj(map["$ref" := reference]);
    assert IsLocalRef("$ref", reference) && RefName(reference) == name;
    OneMember("$ref", reference, renames);
    OneMember("items", inner, renames);
    assert !IsLocalRef("items", inner);
    assert KeywordShaped("$ref", reference) && SchemaShaped(inner);
  }

  lemma {:induction false} ListOfTellsName(a: string, b: string)
    ensures ListOf(a) == ListOf(b) ==> a == b
  {
    ListOfRenamed(a, map[]);
    ListOfRenamed(b, map[]);
    assert ListOf(a) == ListOf(b) ==> a in LocalReferences(ListOf(b));
  }

  /** Two mutually recursive definitions. */
  function Mutual(a: string, b: string): Definitions {
    map[a := ListOf(b), b := ListOf(a)]
  }

  lemma {:induction false} MutualConflicts(a: string, b: string, bundle: Definitions, renamed: set<string>)
    requires a != b
    ensures Conflicts(Mutual(a, b), bundle, renamed, a) <==>
      a in bundle && bundle[a] != ListOf(NewName(b, OutputNames(renamed)))
    ensures Conflicts(Mutual(a, b), bundle, renamed, b) <==>
      b in bundle && bundle[b] != ListOf(NewName(a, OutputNames(renamed)))
  {
    ListOfRenamed(b, OutputNames(renamed));
    ListOfRenamed(a, OutputNames(renamed));
  }

  lemma {:induction false} MutualFinal(a: string, b: string, renames: Renames)
    requires a != b
    ensures FinalDefinition(Mutual(a, b), renames, a) == ListOf(NewName(b, renames))
    ensures FinalDefinition(Mutual(a, b), renames, b) == ListOf(NewName(a, renames))
  {
    ListOfRenamed(b, renames);
    ListOfRenamed(a, renames);
    assert "title" !in ListOf(NewName(b, renames)).members && "title" !in ListOf(NewName(a, renames)).members;
  }

  lemma {:induction false} MutualStored(
    a: string, b: string, renames: Renames, serialized: Definitions, newA: string, newB: string)
    requires a != b && newA == NewName(a, renames) && newB == NewName(b, renames)
    requires newA != newB && IsSerialized(Mutual(a, b), renames, serialized)
    ensures newA in serialized && serialized[newA] == ListOf(newB)
    ensures newB in serialized && serialized[newB] == ListOf(newA)
    ensures serialized.Keys == {newA, newB}
  {
    MutualFinal(a, b, renames);
    StoredForOne(Mutual(a, b), renames, serialized, a);
    StoredForOne(Mutual(a, b), renames, serialized, b);
    assert serialized.Keys <= {newA, newB};
  }

  lemma {:induction false} StoredForOne(
    response: Definitions, renames: Renames, serialized: Definitions, name: string)
    requires IsSerialized(response, renames, serialized) && name in response
    requires forall n :: n in response && NewName(n, renames) == NewName(name, renames) ==> n == name
    ensures NewName(name, renames) in serialized
    ensures serialized[NewName(name, renames)] == FinalDefinition(response, renames, name)
  {
  }

  lemma {:induction false} MutualIsStuck(a: string, b: string)
    requires a != b
    ensures Stuck(Mutual(a, b), Mutual(a, b).Keys)
  {
    ListOfRenamed(a, map[]);
    ListOfRenamed(b, map[]);
    assert b in OtherReferences(Mutual(a, b), a) && a in OtherReferences(Mutual(a, b), b);
  }

  /** The pair waits for the fallback, whose rounds end with the first one when it leaves nothing in
      conflict. */
  lemma {:induction false} PairDecides(a: string, b: string, bundle: Definitions, first: set<string>)
    requires a != b && first == set n | n in {a, b} && Conflicts(Mutual(a, b), bundle, {}, n)
    requires forall n :: n in {a, b} - first ==> !Conflicts(Mutual(a, b), bundle, first, n)
    ensures Decides(Mutual(a, b), bundle, first)
  {
    var response := Mutual(a, b);
    MutualIsStuck(a, b);
    assert response.Keys == {a, b};
    assert LargestStuck(response, {a, b});
    RoundsOnce(response, bundle, {a, b}, first);
    OnlyRounds(response, bundle, {a, b});
    OutcomeDecides(response, bundle, first);
  }

  lemma {:induction false} MutualIsGenerated(a: string, b: string)
    requires a != b && a + SERIALIZED_SUFFIX != b && b + SERIALIZED_SUFFIX != a
    ensures SuffixFree(Mutual(a, b)) && WellFormed(Mutual(a, b)) && !OnlySelfCycles(Mutual(a, b))
  {
    MutualIsStuck(a, b);
    assert |a + SERIALIZED_SUFFIX| > |a| && |b + SERIALIZED_SUFFIX| > |b|;
    ListOfRenamed(a, map[]);
    ListOfRenamed(b, map[]);
  }

  /** A bundle in which such a response was stored while the bundle held the first name with an
      empty body. */
  ghost predicate HoldsMutual(a: string, b: string, later: Definitions) {
    && a in later && later[a] == Obj(map[])
    && a + SERIALIZED_SUFFIX in later && later[a + SERIALIZED_SUFFIX] == ListOf(b)
    && b in later && later[b] == ListOf(a + SERIALIZED_SUFFIX)
  }

  /** A generated response of two mutually recursive definitions, over a bundle that holds the first
      with another body: every run renames only the first, and the response is stored. */
  lemma {:induction false} MutualPairIsStored(a: string, b: string, serialized: Definitions)
    requires a != b && a + SERIALIZED_SUFFIX != b && b + SERIALIZED_SUFFIX != a
    requires IsSerialized(Mutual(a, b), OutputNames({a}), serialized)
    ensures SuffixFree(Mutual(a, b)) && WellFormed(Mutual(a, b)) && !OnlySelfCycles(Mutual(a, b))
    ensures var bundle: Definitions := map[a := Obj(map[])];
      && Decides(Mutual(a, b), bundle, {a}) && Agree(bundle, serialized) && HoldsMutual(a, b, bundle + serialized)
  {
    MutualIsGenerated(a, b);
    OnlyFirstConflicts(a, b, map[a := Obj(map[])]);
    PairStored(a, b, serialized);
  }

  lemma {:induction false} PairStored(a: string, b: string, serialized: Definitions)
    requires a != b && a + SERIALIZED_SUFFIX != b
    requires IsSerialized(Mutual(a, b), OutputNames({a}), serialized)
    ensures var bundle: Definitions := map[a := Obj(map[])];
      Agree(bundle, serialized) && HoldsMutual(a, b, bundle + serialized)
  {
    assert |a + SERIALIZED_SUFFIX| > |a|;
    MutualStored(a, b, OutputNames({a}), serialized, a + SERIALIZED_SUFFIX, b);
  }

  lemma {:induction false} OnlyFirstConflicts(a: string, b: string, bundle: Definitions)
    requires a != b && bundle == map[a := Obj(map[])]
    ensures Decides(Mutual(a, b), bundle, {a})
  {
    MutualConflicts(a, b, bundle, {});
    MutualConflicts(a, b, bundle, {a});
    assert "items" in ListOf(b).members && bundle[a] != ListOf(b);
    PairDecides(a, b, bundle, {a});
  }

  /** When that response comes again every run renames both its definitions, and merging it is
      refused. */
  lemma {:induction false} MutualPairIsRefused(a: string, b: string, later: Definitions, serialized: Definitions)
    requires a != b && HoldsMutual(a, b, later)
    requires IsSerialized(Mutual(a, b), OutputNames({a, b}), serialized)
    ensures Decides(Mutual(a, b), later, {a, b}) && !Agree(later, serialized)
  {
    BothConflict(a, b, later);
    var newA, newB := a + SERIALIZED_SUFFIX, b + SERIALIZED_SUFFIX;
    assert newA[..|a|] == a && newB[..|b|] == b && |newB| > |b|;
    MutualStored(a, b, OutputNames({a, b}), serialized, newA, newB);
    ListOfTellsName(b, newB);
    assert newA in later && later[newA] != serialized[newA];
  }

  lemma {:induction false} BothConflict(a: string, b: string, later: Definitions)
    requires a != b && HoldsMutual(a, b, later)
    ensures Decides(Mutual(a, b), later, {a, b})
  {
    assert |a + SERIALIZED_SUFFIX| > |a|;
    ListOfTellsName(a, a + SERIALIZED_SUFFIX);
    MutualConflicts(a, b, later, {});
    assert "items" in ListOf(b).members && later[a] != ListOf(b);
    PairDecides(a, b, later, {a, b});
  }
}
