/** Running a stored response again: when it is named as it was, and when not
    (`_serialized_definitions`). */
module ContractRerun {
  import opened JsonSchema
  import opened ContractRenaming
  import opened ResponseNaming
  import opened ContractBundle

  /** A response named and stored. */
  ghost predicate StoredRun(response: Definitions, bundle: Definitions, renamed: set<string>, serialized: Definitions) {
    && Outcome(response, bundle, renamed) && IsSerialized(response, OutputNames(renamed), serialized)
    && Agree(bundle, serialized)
  }

  /** Over whatever bundle a response was stored, and whatever was stored after it, running it
      again decides the same renames. */
  ghost predicate ResolvesIdentically(response: Definitions) {
    forall bundle, renamed, serialized, later, renamed' ::
      WellFormed(bundle) && StoredRun(response, bundle, renamed, serialized)
      && Extends(later, bundle + serialized) && Outcome(response, later, renamed') ==>
        renamed' == renamed
  }

  lemma {:induction false} SuffixFreeTakesNoName(response: Definitions, renamed: set<string>)
    requires SuffixFree(response) && renamed <= response.Keys
    ensures NoNameTaken(response, renamed)
  {
  }

  // ------------------------------------------------------------ without mutual recursion

  lemma {:induction false} SelfCyclesResolveIdentically(
    response: Definitions, bundle: Definitions, renamed: set<string>, serialized: Definitions,
    later: Definitions, renamed': set<string>)
    requires SuffixFree(response) && OnlySelfCycles(response)
    requires StoredRun(response, bundle, renamed, serialized)
    requires Extends(later, bundle + serialized) && Outcome(response, later, renamed')
    ensures renamed' == renamed
  {
    OutcomeIsSettled(response, bundle, renamed);
    OutcomeIsSettled(response, later, renamed');
    SuffixFreeTakesNoName(response, renamed);
    ExtendsBoth(later, bundle, serialized);
    StillSolves(response, bundle, renamed, serialized, later);
    SolutionIsUnique(response, later, renamed, renamed');
  }

  /** It then stores what it stored. */
  lemma {:induction false} SelfCyclesStoreIdentically(
    response: Definitions, bundle: Definitions, renamed: set<string>, serialized: Definitions,
    later: Definitions, renamed': set<string>, serialized': Definitions)
    requires SuffixFree(response) && OnlySelfCycles(response)
    requires StoredRun(response, bundle, renamed, serialized)
    requires Extends(later, bundle + serialized) && Outcome(response, later, renamed')
    requires IsSerialized(response, OutputNames(renamed'), serialized')
    ensures serialized' == serialized
  {
    SelfCyclesResolveIdentically(response, bundle, renamed, serialized, later, renamed');
    SerializedOnce(response, bundle, renamed, serialized, serialized');
  }

  lemma {:induction false} SerializedOnce(
    response: Definitions, bundle: Definitions, renamed: set<string>, serialized: Definitions, serialized': Definitions)
    requires SuffixFree(response) && Outcome(response, bundle, renamed)
    requires IsSerialized(response, OutputNames(renamed), serialized)
    requires IsSerialized(response, OutputNames(renamed), serialized')
    ensures serialized' == serialized
  {
    OutcomeIsSettled(response, bundle, renamed);
    SuffixFreeTakesNoName(response, renamed);
    SerializedIsDetermined(response, renamed, serialized, serialized');
  }

  lemma {:induction false} ExtendsBoth(later: Definitions, bundle: Definitions, serialized: Definitions)
    requires Agree(bundle, serialized) && Extends(later, bundle + serialized)
    ensures Extends(later, bundle) && Extends(later, serialized)
  {
    forall n | n in bundle || n in serialized
      ensures n in later && later[n] == (bundle + serialized)[n]
    {
      assert n in bundle + serialized;
    }
  }

  // ------------------------------------------------------------ with it

  /** Against a bundle that holds one stuck name with another body, the run renames that name and
      no other. */
  lemma {:induction false} ClashingRun(response: Definitions, pending: set<string>, name: string)
    requires LargestStuck(response, pending) && name in pending
    ensures Outcome(response, Clashing(response, name), {name})
  {
    var bundle := Clashing(response, name);
    ClashConflicts(response, name, bundle);
    assert forall n :: n in response && n != name ==> !Conflicts(response, bundle, {}, n);
    RoundsOnce(response, bundle, pending, {name});
    OnlyRounds(response, bundle, pending);
  }

  lemma {:induction false} ClashConflicts(response: Definitions, name: string, bundle: Definitions)
    requires name in response && name in bundle && bundle[name] == Clashing(response, name)[name]
    ensures Conflicts(response, bundle, {}, name)
  {
    assert OutputNames({}) == map[];
    RenamingNothing(response[name]);
    ClashDiffers(response, name);
  }

  /** Every other definition is stored under its own name, changed exactly when it refers to the
      renamed one. */
  lemma {:induction false} OthersStored(response: Definitions, name: string, serialized: Definitions, other: string)
    requires SuffixFree(response) && name in response && other in response && other != name
    requires IsSerialized(response, OutputNames({name}), serialized)
    ensures other in serialized
    ensures serialized[other] == response[other] <==> name !in OtherReferences(response, other)
  {
    var renames := OutputNames({name});
    assert |name + SERIALIZED_SUFFIX| > |name|;
    SuffixFreeTakesNoName(response, {name});
    EveryDefinitionStored(response, {name}, serialized, other);
    UnchangedIffNoReferenceRenamed(response[other], renames);
    assert forall r :: NewName(r, renames) == r <==> r != name;
  }

  lemma {:induction false} NotStored(response: Definitions, name: string, serialized: Definitions)
    requires SuffixFree(response) && name in response && IsSerialized(response, OutputNames({name}), serialized)
    ensures name !in serialized && Agree(Clashing(response, name), serialized)
  {
    assert |name + SERIALIZED_SUFFIX| > |name|;
    assert forall n :: n in response ==> NewName(n, OutputNames({name})) != name;
  }

  /** A bundle that holds what such a run stored, and the clashing body. */
  ghost predicate HoldsRun(response: Definitions, name: string, serialized: Definitions, later: Definitions)
    requires name in response
  {
    && IsSerialized(response, OutputNames({name}), serialized) && Extends(later, serialized)
    && name in later && later[name] == Clashing(response, name)[name]
  }

  /** Over it, of the others exactly those conflict at first that refer to the name. */
  lemma {:induction false} ReferrersConflict(
    response: Definitions, name: string, serialized: Definitions, later: Definitions, other: string)
    requires SuffixFree(response) && name in response && HoldsRun(response, name, serialized, later)
    requires other in response && other != name
    ensures Conflicts(response, later, {}, other) <==> name in OtherReferences(response, other)
  {
    OthersStored(response, name, serialized, other);
    assert OutputNames({}) == map[];
    RenamingNothing(response[other]);
  }

  /** Run again, a definition that refers to the name is renamed as well. */
  lemma {:induction false} RunAgain(
    response: Definitions, pending: set<string>, name: string, referrer: string, serialized: Definitions,
    later: Definitions)
    requires SuffixFree(response) && LargestStuck(response, pending) && name in pending && referrer in pending
    requires name in OtherReferences(response, referrer) && HoldsRun(response, name, serialized, later)
    ensures var renamed := Rounds(response, later, pending, {});
      Outcome(response, later, renamed) && name in renamed && referrer in renamed
  {
    ClashConflicts(response, name, later);
    RoundsKeepFirst(response, later, pending, name);
    ReferrersConflict(response, name, serialized, later, referrer);
    RoundsKeepFirst(response, later, pending, referrer);
    forall n | n in response && n !in pending
      ensures !Conflicts(response, later, {}, n)
    {
      RefersOutside(response, pending, n);
      ReferrersConflict(response, name, serialized, later, n);
    }
    OnlyRounds(response, later, pending);
  }

  /** What a run that renames a name stores. */
  lemma {:induction false} SomethingIsStored(response: Definitions, renames: Renames) returns (serialized: Definitions)
    ensures IsSerialized(response, renames, serialized)
  {
    var names := set n | n in response.Keys :: NewName(n, renames);
    serialized := map k | k in names :: FinalDefinition(response, renames, Origin(response, renames, k));
  }

  ghost function Origin(response: Definitions, renames: Renames, stored: string): (name: string)
    requires exists n :: n in response && NewName(n, renames) == stored
    ensures name in response && NewName(name, renames) == stored
  {
    var n :| n in response && NewName(n, renames) == stored;
    n
  }

  /** What every run decides. */
  ghost predicate Decides(response: Definitions, bundle: Definitions, renamed: set<string>) {
    Outcome(response, bundle, renamed) && forall other :: Outcome(response, bundle, other) ==> other == renamed
  }

  lemma {:induction false} OutcomeDecides(response: Definitions, bundle: Definitions, renamed: set<string>)
    requires Outcome(response, bundle, renamed)
    ensures Decides(response, bundle, renamed)
  {
    forall other | Outcome(response, bundle, other)
      ensures other == renamed
    {
      OutcomeIsUnique(response, bundle, other, renamed);
    }
  }

  /** A response with mutual recursion has some `name` and one that refers to it such that against
      a bundle that holds `name` with another body every run renames exactly `name` and is
      stored, and over the bundle that stored it every run renames the other as well. */
  lemma {:induction false} MutualRecursionResolvesAnew(response: Definitions)
    returns (name: string, referrer: string, serialized: Definitions, again: set<string>)
    requires SuffixFree(response) && !OnlySelfCycles(response)
    ensures name in response && name in again && referrer in again && referrer != name
    ensures ResolvedAnew(response, Clashing(response, name), {name}, serialized, again)
  {
    var names :| Stuck(response, names);
    var pending := LargestStuckExists(response);
    referrer :| referrer in names;
    name :| name in OtherReferences(response, referrer) * names;
    serialized := SomethingIsStored(response, OutputNames({name}));
    again := Rounds(response, Clashing(response, name) + serialized, pending, {});
    ClashRenamesOneName(response, name, {name});
    StoredOnce(response, pending, name, serialized);
    StoredAgain(response, pending, name, referrer, serialized);
  }

  /** Every run over the bundle decides the first renames and is stored; every run over the bundle
      that stored it decides the second. */
  ghost predicate ResolvedAnew(
    response: Definitions, bundle: Definitions, first: set<string>, serialized: Definitions, again: set<string>)
  {
    && WellFormed(bundle) && Decides(response, bundle, first) && StoredRun(response, bundle, first, serialized)
    && Decides(response, bundle + serialized, again)
  }

  lemma {:induction false} StoredOnce(
    response: Definitions, pending: set<string>, name: string, serialized: Definitions)
    requires SuffixFree(response) && LargestStuck(response, pending) && name in pending
    requires IsSerialized(response, OutputNames({name}), serialized)
    ensures Decides(response, Clashing(response, name), {name})
    ensures StoredRun(response, Clashing(response, name), {name}, serialized)
  {
    ClashingRun(response, pending, name);
    OutcomeDecides(response, Clashing(response, name), {name});
    NotStored(response, name, serialized);
  }

  lemma {:induction false} StoredAgain(
    response: Definitions, pending: set<string>, name: string, referrer: string, serialized: Definitions)
    requires SuffixFree(response) && LargestStuck(response, pending) && name in pending && referrer in pending
    requires name in OtherReferences(response, referrer)
    requires IsSerialized(response, OutputNames({name}), serialized)
    ensures var later := Clashing(response, name) + serialized;
      var again := Rounds(response, later, pending, {});
      Decides(response, later, again) && name in again && referrer in again
  {
    var later := Clashing(response, name) + serialized;
    NotStored(response, name, serialized);
    assert HoldsRun(response, name, serialized, later);
    RunAgain(response, pending, name, referrer, serialized, later);
    OutcomeDecides(response, later, Rounds(response, later, pending, {}));
  }

  /** A response is named as it was whenever it is run again exactly when its only reference
      cycles are self-references. */
  lemma {:induction false} ResolvesIdenticallyIffOnlySelfCycles(response: Definitions)
    requires SuffixFree(response)
    ensures ResolvesIdentically(response) <==> OnlySelfCycles(response)
  {
    if OnlySelfCycles(response) {
      forall bundle, renamed, serialized, later, renamed' |
        WellFormed(bundle) && StoredRun(response, bundle, renamed, serialized)
        && Extends(later, bundle + serialized) && Outcome(response, later, renamed')
        ensures renamed' == renamed
      {
        SelfCyclesResolveIdentically(response, bundle, renamed, serialized, later, renamed');
      }
    } else {
      var name, referrer, serialized, again := MutualRecursionResolvesAnew(response);
      NotIdentical(response, Clashing(response, name), {name}, serialized, again);
    }
  }

  lemma {:induction false} NotIdentical(
    response: Definitions, bundle: Definitions, first: set<string>, serialized: Definitions, again: set<string>)
    requires ResolvedAnew(response, bundle, first, serialized, again) && again != first
    ensures !ResolvesIdentically(response)
  {
    assert Extends(bundle + serialized, bundle + serialized);
  }
}
