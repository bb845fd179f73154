/** The whole bundle, contract by contract (`_merge_definition` and the merging loops of
    `build_contract_bundle`). */
module ContractBuild {
  import opened Wrappers
  import opened JsonSchema
  import opened ContractRenaming
  import opened ResponseNaming
  import opened ContractBundle
  import opened ContractRerun

  // ------------------------------------------------------------ contracts

  datatype Mode = Validation | Serialization

  /** A contract: the bundle property it is listed under, its root model and the definitions
      generated for it. */
  datatype Contract = Contract(property: string, root: string, definitions: Definitions, mode: Mode)

  datatype Bundle = Bundle(definitions: Definitions, properties: map<string, string>)

  datatype BundleError =
    | ConflictingDefinition(name: string, mode: Mode)
    | RootRenamed(root: string)
    | ListedTwice(property: string)

  /** What the schema generator hands over for a contract. */
  ghost predicate Generated(contract: Contract) {
    && WellFormed(contract.definitions) && contract.root in contract.definitions
    && (contract.mode == Serialization ==> SuffixFree(contract.definitions))
  }

  /** A contract's property of the bundle accepts what the contract's own schema accepts. */
  ghost predicate Honours(bundle: Bundle, contract: Contract) {
    && contract.property in bundle.properties && bundle.properties[contract.property] == contract.root
    && contract.root in bundle.definitions && contract.root in contract.definitions
    && SameMeaning(contract.definitions, contract.definitions[contract.root],
                   bundle.definitions, bundle.definitions[contract.root])
  }

  /** Every name of the earlier definitions is still there and accepts the same values. */
  ghost predicate KeepsMeanings(earlier: Definitions, later: Definitions) {
    forall n :: n in earlier ==> n in later && SameMeaning(earlier, earlier[n], later, later[n])
  }

  /** A root found among the stored names is there as itself: no other definition was renamed
      onto it. */
  lemma {:induction false} RootKeptMeansRootStored(
    response: Definitions, renamed: set<string>, serialized: Definitions, root: string)
    requires SuffixFree(response) && renamed <= response.Keys && root in response
    requires IsSerialized(response, OutputNames(renamed), serialized) && root in serialized
    ensures root !in renamed
  {
    var n :| n in response && NewName(n, OutputNames(renamed)) == root;
  }

  /** The bundle lists exactly these contracts, each property once, and honours each. */
  ghost predicate Built(bundle: Bundle, contracts: seq<Contract>) {
    && WellFormed(bundle.definitions)
    && (forall i :: 0 <= i < |contracts| ==> Honours(bundle, contracts[i]))
    && bundle.properties.Keys == (set i | 0 <= i < |contracts| :: contracts[i].property)
    && forall i, j :: 0 <= i < j < |contracts| ==> contracts[i].property != contracts[j].property
  }

  /** What was honoured stays honoured when the definitions a bundle holds keep their meaning. */
  lemma {:induction false} StillHonoured(bundle: Bundle, next: Bundle, contract: Contract)
    requires Honours(bundle, contract)
    requires KeepsMeanings(bundle.definitions, next.definitions)
    requires contract.property in next.properties
    requires next.properties[contract.property] == bundle.properties[contract.property]
    ensures Honours(next, contract)
  {
    assert SameMeaning(bundle.definitions, bundle.definitions[contract.root],
                       next.definitions, next.definitions[contract.root]);
  }

  lemma {:induction false} BuiltFurther(
    bundle: Bundle, contracts: seq<Contract>, contract: Contract, definitions: Definitions)
    requires Built(bundle, contracts) && contract.property !in bundle.properties
    requires WellFormed(definitions) && KeepsMeanings(bundle.definitions, definitions)
    requires contract.root in definitions && contract.root in contract.definitions
    requires SameMeaning(contract.definitions, contract.definitions[contract.root],
                         definitions, definitions[contract.root])
    ensures Built(Bundle(definitions, bundle.properties[contract.property := contract.root]), contracts + [contract])
  {
    var next := Bundle(definitions, bundle.properties[contract.property := contract.root]);
    var listed := contracts + [contract];
    forall i | 0 <= i < |contracts|
      ensures Honours(next, listed[i]) && listed[i].property != contract.property
    {
      assert contracts[i].property in bundle.properties;
      StillHonoured(bundle, next, contracts[i]);
    }
    forall p | p in next.properties
      ensures exists i :: 0 <= i < |listed| && listed[i].property == p
    {
      if p == contract.property {
        assert listed[|contracts|].property == p;
      } else {
        var i :| 0 <= i < |contracts| && contracts[i].property == p;
        assert listed[i].property == p;
      }
    }
  }

  // ------------------------------------------------------------ what is merged, and what refused

  /** What merging a contract adds: its definitions, or a response's as named and stored. */
  ghost predicate Additions(contract: Contract, definitions: Definitions, additions: Definitions) {
    if contract.mode == Validation then additions == contract.definitions
    else exists renamed :: Serialized(contract, definitions, renamed, additions)
  }

  ghost predicate Serialized(
    contract: Contract, definitions: Definitions, renamed: set<string>, additions: Definitions)
  {
    && Outcome(contract.definitions, definitions, renamed)
    && IsSerialized(contract.definitions, OutputNames(renamed), additions)
  }

  lemma {:induction false} AdditionsAreUnique(
    contract: Contract, definitions: Definitions, additions: Definitions, additions': Definitions)
    requires Generated(contract)
    requires Additions(contract, definitions, additions) && Additions(contract, definitions, additions')
    ensures additions' == additions
  {
    if contract.mode == Serialization {
      var renamed :| Serialized(contract, definitions, renamed, additions);
      var renamed' :| Serialized(contract, definitions, renamed', additions');
      OutcomeIsUnique(contract.definitions, definitions, renamed, renamed');
      SerializedOnce(contract.definitions, definitions, renamed, additions, additions');
    }
  }

  /** A contract that was merged is merged again without refusal and without change, whatever was
      merged in between, if a response's only reference cycles are self-references. */
  lemma {:induction false} MergedAgain(
    contract: Contract, definitions: Definitions, additions: Definitions, later: Definitions, again: Definitions)
    requires Generated(contract) && (contract.mode == Serialization ==> OnlySelfCycles(contract.definitions))
    requires Additions(contract, definitions, additions) && Agree(definitions, additions)
    requires Extends(later, definitions + additions) && Additions(contract, later, again)
    ensures again == additions && Agree(later, again) && later + again == later
  {
    ExtendsBoth(later, definitions, additions);
    if contract.mode == Serialization {
      SerializedAgain(contract, definitions, additions, later, again);
    }
    AddsNothing(later, additions);
  }

  lemma {:induction false} SerializedAgain(
    contract: Contract, definitions: Definitions, additions: Definitions, later: Definitions, again: Definitions)
    requires Generated(contract) && contract.mode == Serialization && OnlySelfCycles(contract.definitions)
    requires Additions(contract, definitions, additions) && Agree(definitions, additions)
    requires Extends(later, definitions + additions) && Additions(contract, later, again)
    ensures again == additions
  {
    var renamed :| Serialized(contract, definitions, renamed, additions);
    var renamed' :| Serialized(contract, later, renamed', again);
    SelfCyclesStoreIdentically(contract.definitions, definitions, renamed, additions, later, renamed', again);
  }

  lemma {:induction false} AddsNothing(later: Definitions, additions: Definitions)
    requires Extends(later, additions)
    ensures Agree(later, additions) && later + additions == later
  {
  }

  /** Why a contract is refused, given what merging it would add. */
  ghost predicate RefusedFor(bundle: Bundle, contract: Contract, additions: Definitions, error: BundleError) {
    if contract.root !in additions then error == RootRenamed(contract.root)
    else if !Agree(bundle.definitions, additions) then
      && error.ConflictingDefinition? && error.mode == contract.mode
      && error.name in bundle.definitions && error.name in additions
      && bundle.definitions[error.name] != additions[error.name]
    else contract.property in bundle.properties && error == ListedTwice(contract.property)
  }

  ghost predicate Refuses(bundle: Bundle, contract: Contract, error: BundleError) {
    exists additions ::
      Additions(contract, bundle.definitions, additions) && RefusedFor(bundle, contract, additions, error)
  }

  /** The bundle behind a contract that is not refused. */
  ghost predicate Admits(bundle: Bundle, contract: Contract, next: Bundle) {
    exists additions :: Additions(contract, bundle.definitions, additions) && AdmittedAs(bundle, contract, additions, next)
  }

  ghost predicate AdmittedAs(bundle: Bundle, contract: Contract, additions: Definitions, next: Bundle) {
    && contract.root in additions && Agree(bundle.definitions, additions) && contract.property !in bundle.properties
    && next == Bundle(bundle.definitions + additions, bundle.properties[contract.property := contract.root])
  }

  /** The bundle behind contracts none of which is refused. */
  ghost predicate Reaches(contracts: seq<Contract>, bundle: Bundle)
    decreases |contracts|, 1
  {
    if contracts == [] then bundle == Bundle(map[], map[]) else exists before :: Leads(contracts, before, bundle)
  }

  ghost predicate Leads(contracts: seq<Contract>, before: Bundle, bundle: Bundle)
    requires contracts != []
    decreases |contracts|, 0
  {
    Reaches(contracts[..|contracts| - 1], before) && Admits(before, contracts[|contracts| - 1], bundle)
  }

  ghost predicate AllGenerated(contracts: seq<Contract>) {
    forall i :: 0 <= i < |contracts| ==> Generated(contracts[i])
  }

  lemma {:induction false} ReachedIsUnique(contracts: seq<Contract>, b1: Bundle, b2: Bundle)
    requires AllGenerated(contracts) && Reaches(contracts, b1) && Reaches(contracts, b2)
    ensures b1 == b2
  {
    if contracts != [] {
      var rest, contract := contracts[..|contracts| - 1], contracts[|contracts| - 1];
      var a1 :| Leads(contracts, a1, b1);
      var a2 :| Leads(contracts, a2, b2);
      ReachedIsUnique(rest, a1, a2);
      AdmittedIsUnique(a1, contract, b1, b2);
    }
  }

  lemma {:induction false} AdmittedIsUnique(bundle: Bundle, contract: Contract, b1: Bundle, b2: Bundle)
    requires Generated(contract) && Admits(bundle, contract, b1) && Admits(bundle, contract, b2)
    ensures b1 == b2
  {
    var n1 :| Additions(contract, bundle.definitions, n1) && AdmittedAs(bundle, contract, n1, b1);
    var n2 :| Additions(contract, bundle.definitions, n2) && AdmittedAs(bundle, contract, n2, b2);
    AdditionsAreUnique(contract, bundle.definitions, n1, n2);
  }

  /** A contract is not both refused and admitted. */
  lemma {:induction false} RefusedIsNotAdmitted(bundle: Bundle, contract: Contract, error: BundleError, next: Bundle)
    requires Generated(contract) && Refuses(bundle, contract, error)
    ensures !Admits(bundle, contract, next)
  {
    if Admits(bundle, contract, next) {
      var n1 :| Additions(contract, bundle.definitions, n1) && AdmittedAs(bundle, contract, n1, next);
      var n2 :| Additions(contract, bundle.definitions, n2) && RefusedFor(bundle, contract, n2, error);
      AdditionsAreUnique(contract, bundle.definitions, n1, n2);
    }
  }

  lemma {:induction false} LastStep(contracts: seq<Contract>, bundle: Bundle) returns (before: Bundle)
    requires contracts != [] && Reaches(contracts, bundle)
    ensures Leads(contracts, before, bundle)
  {
    before :| Leads(contracts, before, bundle);
  }

  /** Once a contract is refused no bundle of all of them is reached. */
  lemma {:induction false} RefusedIsNotReached(
    contracts: seq<Contract>, i: nat, before: Bundle, error: BundleError, bundle: Bundle)
    requires AllGenerated(contracts) && i < |contracts|
    requires Reaches(contracts[..i], before) && Refuses(before, contracts[i], error)
    ensures !Reaches(contracts, bundle)
  {
    if Reaches(contracts, bundle) {
      var last := |contracts| - 1;
      var rest := contracts[..last];
      var middle := LastStep(contracts, bundle);
      if i == last {
        ReachedIsUnique(rest, before, middle);
        RefusedIsNotAdmitted(before, contracts[last], error, bundle);
      } else {
        assert rest[..i] == contracts[..i];
        RefusedIsNotReached(rest, i, before, error, middle);
      }
    }
  }

  lemma {:induction false} ReachesFurther(contracts: seq<Contract>, contract: Contract, before: Bundle, bundle: Bundle)
    requires Reaches(contracts, before) && Admits(before, contract, bundle)
    ensures Reaches(contracts + [contract], bundle)
  {
    assert (contracts + [contract])[..|contracts|] == contracts;
    assert Leads(contracts + [contract], before, bundle);
  }

  /** The contracts before one of them reach a bundle that refuses it. */
  ghost predicate RefusedAt(contracts: seq<Contract>, i: nat, before: Bundle, error: BundleError) {
    i < |contracts| && Reaches(contracts[..i], before) && Refuses(before, contracts[i], error)
  }

  ghost predicate RefusedSomewhere(contracts: seq<Contract>, error: BundleError) {
    exists i, before :: RefusedAt(contracts, i, before, error)
  }

  lemma {:induction false} RefusedMeansUnreached(contracts: seq<Contract>, i: nat, before: Bundle, error: BundleError)
    requires AllGenerated(contracts) && RefusedAt(contracts, i, before, error)
    ensures !exists bundle :: Reaches(contracts, bundle)
  {
    forall bundle
      ensures !Reaches(contracts, bundle)
    {
      RefusedIsNotReached(contracts, i, before, error, bundle);
    }
  }

  // ------------------------------------------------------------ the build

  /** The bundle as it grows: the definitions and the properties, filled in place. */
  class BundleBuilder {
    var definitions: Definitions
    var properties: map<string, string>

    constructor ()
      ensures definitions == map[] && properties == map[]
    {
      definitions, properties := map[], map[];
    }

    ghost function Contents(): Bundle
      reads this
    {
      Bundle(definitions, properties)
    }

    /** Stores a definition unless another body is already stored under its name. */
    method MergeDefinition(name: string, value: Json) returns (conflict: bool)
      modifies this`definitions
      ensures conflict <==> name in old(definitions) && old(definitions)[name] != value
      ensures definitions == if conflict then old(definitions) else old(definitions)[name := value]
    {
      if name !in definitions {
        definitions := definitions[name := value];
      }
      conflict := definitions[name] != value;
    }

    /** Stores every addition, or stops at one that conflicts. */
    method MergeAll(additions: Definitions) returns (conflict: Option<string>)
      modifies this`definitions
      ensures conflict.None? <==> Agree(old(definitions), additions)
      ensures conflict.None? ==> definitions == old(definitions) + additions
      ensures conflict.Some? ==>
        conflict.value in old(definitions) && conflict.value in additions
        && old(definitions)[conflict.value] != additions[conflict.value]
    {
      var waiting := additions.Keys;
      while waiting != {}
        invariant waiting <= additions.Keys
        invariant forall n :: n in old(definitions) && n in additions && n !in waiting ==>
          old(definitions)[n] == additions[n]
        invariant definitions == old(definitions) + map n | n in additions.Keys - waiting :: additions[n]
      {
        var name :| name in waiting;
        var refused := MergeDefinition(name, additions[name]);
        if refused {
          return Some(name);
        }
        waiting := waiting - {name};
      }
      assert (map n | n in additions.Keys - waiting :: additions[n]) == additions;
      return None;
    }

    /** One contract merged: its root is stored as itself and means what it meant, and so does
        every definition that was already there. */
    method MergeContract(contract: Contract) returns (refused: Option<BundleError>, ghost added: Definitions)
      requires WellFormed(definitions) && Generated(contract)
      modifies this`definitions
      ensures Additions(contract, old(definitions), added)
      ensures refused.None? <==> contract.root in added && Agree(old(definitions), added)
      ensures refused.None? ==> definitions == old(definitions) + added
      ensures refused.Some? ==> RefusedFor(old(Contents()), contract, added, refused.value)
      ensures refused.None? ==>
        && WellFormed(definitions) && contract.root in definitions
        && SameMeaning(contract.definitions, contract.definitions[contract.root],
                       definitions, definitions[contract.root])
        && KeepsMeanings(old(definitions), definitions)
      ensures refused.Some? && refused.value.ConflictingDefinition? && refused.value.mode == Serialization ==>
        exists n :: n in contract.definitions && refused.value.name == n + SERIALIZED_SUFFIX
      ensures refused.Some? && refused.value.RootRenamed? ==>
        contract.mode == Serialization && contract.root in old(definitions)
    {
      var additions := contract.definitions;
      var renamed := {};
      if contract.mode == Serialization {
        additions, renamed := SerializedDefinitions(contract.definitions, definitions);
        assert Serialized(contract, definitions, renamed, additions);
        added := additions;
        if contract.root !in additions {
          assert NewName(contract.root, OutputNames(renamed)) in additions;
          assert contract.root in renamed;
          assert ConflictedOnce(contract.definitions, definitions, renamed, contract.root);
          return Some(RootRenamed(contract.root)), added;
        }
      }
      added := additions;
      ghost var before := definitions;
      var conflict := MergeAll(additions);
      if conflict.Some? {
        if contract.mode == Serialization {
          RefusedOnlyOverOutputName(contract.definitions, before, renamed, additions, conflict.value);
        }
        return Some(ConflictingDefinition(conflict.value, contract.mode)), added;
      }
      forall n | n in before
        ensures SameMeaning(before, before[n], definitions, definitions[n])
      {
        BundleKeepsMeaning(before, additions, n);
      }
      if contract.mode == Serialization {
        RootKeptMeansRootStored(contract.definitions, renamed, additions, contract.root);
        ResponseKeepsMeaning(contract.definitions, before, renamed, additions, contract.root);
        MergedIsWellFormed(contract.definitions, before, renamed, additions);
      } else {
        assert additions + before == before + additions;
        BundleKeepsMeaning(additions, before, contract.root);
      }
      return None, added;
    }

    /** The bundle of all contracts, in order.  When it is built, every contract's property
        accepts exactly what the contract's own schema accepts, whatever was merged after it; and
        it is built exactly when no contract has to be refused. */
    method Build(contracts: seq<Contract>) returns (refused: Option<BundleError>)
      requires definitions == map[] && properties == map[]
      requires AllGenerated(contracts)
      modifies this
      ensures refused.None? ==> Built(Contents(), contracts) && Reaches(contracts, Contents())
      ensures refused.None? <==> exists bundle :: Reaches(contracts, bundle)
      ensures refused.Some? ==> RefusedSomewhere(contracts, refused.value)
    {
      for i := 0 to |contracts|
        invariant Built(Contents(), contracts[..i]) && Reaches(contracts[..i], Contents())
      {
        refused := BuildNext(contracts, i);
        if refused.Some? {
          return;
        }
      }
      assert contracts[..|contracts|] == contracts;
      assert Reaches(contracts, Contents());
      return None;
    }

    /** The next contract merged behind those before it. */
    method BuildNext(contracts: seq<Contract>, i: nat) returns (refused: Option<BundleError>)
      requires AllGenerated(contracts) && i < |contracts|
      requires Built(Contents(), contracts[..i]) && Reaches(contracts[..i], Contents())
      modifies this
      ensures refused.None? ==> Built(Contents(), contracts[..i + 1]) && Reaches(contracts[..i + 1], Contents())
      ensures refused.Some? ==> RefusedSomewhere(contracts, refused.value) && !exists bundle :: Reaches(contracts, bundle)
    {
      ghost var before := Contents();
      assert contracts[..i + 1] == contracts[..i] + [contracts[i]];
      refused := MergeAndList(contracts[i], contracts[..i]);
      if refused.Some? {
        assert RefusedAt(contracts, i, before, refused.value);
        RefusedMeansUnreached(contracts, i, before, refused.value);
      } else {
        ReachesFurther(contracts[..i], contracts[i], before, Contents());
      }
    }

    /** One more contract merged, and its property listed. */
    method MergeAndList(contract: Contract, ghost listed: seq<Contract>) returns (refused: Option<BundleError>)
      requires Built(Contents(), listed) && Generated(contract)
      modifies this
      ensures refused.None? ==> Built(Contents(), listed + [contract]) && Admits(old(Contents()), contract, Contents())
      ensures refused.Some? ==> Refuses(old(Contents()), contract, refused.value)
    {
      ghost var before := Contents();
      ghost var added;
      refused, added := MergeContract(contract);
      if refused.Some? {
        return;
      }
      if contract.property in properties {
        return Some(ListedTwice(contract.property));
      }
      BuiltFurther(before, listed, contract, definitions);
      properties := properties[contract.property := contract.root];
      assert AdmittedAs(before, contract, added, Contents());
    }
  }
}
