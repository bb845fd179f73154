/** Which of a response's definitions are renamed, and what is stored for them
    (`_serialized_definitions`). */
module ResponseNaming {
  import opened JsonSchema
  import opened ContractRenaming

  function OutputNames(names: set<string>): Renames {
    map n | n in names :: n + SERIALIZED_SUFFIX
  }

  /** The bundle holds this name with another body than the response's, renamed so far. */
  predicate Conflicts(response: Definitions, bundle: Definitions, renamed: set<string>, name: string)
    requires name in response
  {
    name in bundle && bundle[name] != WithRenamedRefs(response[name], OutputNames(renamed))
  }

  /** The definitions a definition refers to, itself apart. */
  function OtherReferences(response: Definitions, name: string): set<string>
    requires name in response
  {
    LocalReferences(response[name]) - {name}
  }

  // ------------------------------------------------------------ what the renames must be

  /** Whatever keeps its name and is already in the bundle is the bundle's own definition. */
  ghost predicate Settled(response: Definitions, bundle: Definitions, renamed: set<string>) {
    && renamed <= response.Keys
    && forall n :: n in response && n !in renamed ==> !Conflicts(response, bundle, renamed, n)
  }

  /** No name is changed without cause: each conflicted while some of the others were renamed. */
  ghost predicate Justified(response: Definitions, bundle: Definitions, renamed: set<string>) {
    forall n :: n in renamed && n in response ==> ConflictedOnce(response, bundle, renamed, n)
  }

  ghost predicate ConflictedOnce(response: Definitions, bundle: Definitions, renamed: set<string>, name: string)
    requires name in response
  {
    exists part :: part <= renamed - {name} && Conflicts(response, bundle, part, name)
  }

  /** A name is renamed exactly when the bundle's copy differs from the rewritten copy. */
  ghost predicate Solves(response: Definitions, bundle: Definitions, renamed: set<string>) {
    && renamed <= response.Keys
    && forall n :: n in response ==> (n in renamed <==> Conflicts(response, bundle, renamed - {n}, n))
  }

  // ------------------------------------------------------------ recursion among definitions

  /** Each name of a stuck set refers to another name of it, so none can be decided first. */
  ghost predicate Stuck(response: Definitions, names: set<string>) {
    && names != {} && names <= response.Keys
    && forall n {:trigger OtherReferences(response, n)} :: n in names ==> OtherReferences(response, n) * names != {}
  }

  ghost predicate OnlySelfCycles(response: Definitions) {
    forall names :: !Stuck(response, names)
  }

  /** A walk from definition to definition that never steps from a name to itself. */
  ghost predicate IsWalk(response: Definitions, walk: seq<string>) {
    && (forall i :: 0 <= i < |walk| ==> walk[i] in response)
    && (forall i :: 0 < i < |walk| ==> walk[i] in OtherReferences(response, walk[i - 1]))
  }

  ghost predicate IsMutualCycle(response: Definitions, walk: seq<string>) {
    IsWalk(response, walk) && |walk| > 1 && walk[0] == walk[|walk| - 1]
  }

  /** The set condition says what its name says: the only reference cycles are self-references. */
  lemma {:induction false} OnlySelfCyclesMeansNoMutualCycle(response: Definitions)
    ensures OnlySelfCycles(response) <==> !exists walk :: IsMutualCycle(response, walk)
  {
    forall walk | IsMutualCycle(response, walk)
      ensures !OnlySelfCycles(response)
    {
      CycleIsStuck(response, walk);
    }
    forall names | Stuck(response, names)
      ensures exists walk :: IsMutualCycle(response, walk)
    {
      var walk := WalkWithin(response, names, |names| + 1);
      var i, j := Pigeonhole(walk, names);
      assert IsMutualCycle(response, walk[i..j + 1]);
    }
  }

  lemma {:induction false} CycleIsStuck(response: Definitions, walk: seq<string>)
    requires IsMutualCycle(response, walk)
    ensures Stuck(response, set i | 0 <= i < |walk| :: walk[i])
  {
    var names := set i | 0 <= i < |walk| :: walk[i];
    assert walk[0] in names;
    forall n | n in names
      ensures OtherReferences(response, n) * names != {}
    {
      var i :| 0 <= i < |walk| && walk[i] == n;
      var next := if i + 1 < |walk| then i + 1 else 1;
      assert walk[next] in OtherReferences(response, n) && walk[next] in names;
    }
  }

  lemma {:induction false} WalkWithin(
    response: Definitions, names: set<string>, length: nat) returns (walk: seq<string>)
    requires Stuck(response, names) && length > 0
    ensures IsWalkWithin(response, names, walk) && |walk| == length
  {
    if length == 1 {
      var n :| n in names;
      walk := [n];
    } else {
      var shorter := WalkWithin(response, names, length - 1);
      var next := Next(response, names, shorter[length - 2]);
      WalkGrows(response, names, shorter, next);
      walk := shorter + [next];
    }
  }

  ghost predicate IsWalkWithin(response: Definitions, names: set<string>, walk: seq<string>) {
    IsWalk(response, walk) && forall i :: 0 <= i < |walk| ==> walk[i] in names
  }

  ghost function Next(response: Definitions, names: set<string>, name: string): (next: string)
    requires Stuck(response, names) && name in names && name in response
    ensures next in names && next in response && next in OtherReferences(response, name)
  {
    var next :| next in OtherReferences(response, name) * names;
    next
  }

  lemma {:induction false} WalkGrows(response: Definitions, names: set<string>, walk: seq<string>, next: string)
    requires IsWalkWithin(response, names, walk) && walk != [] && next in response && next in names
    requires next in OtherReferences(response, walk[|walk| - 1])
    ensures IsWalkWithin(response, names, walk + [next])
  {
  }

  lemma {:induction false} Pigeonhole(walk: seq<string>, names: set<string>) returns (i: nat, j: nat)
    requires |walk| > |names|
    requires forall k :: 0 <= k < |walk| ==> walk[k] in names
    ensures i < j < |walk| && walk[i] == walk[j]
  {
    var last := |walk| - 1;
    if k :| 0 <= k < last && walk[k] == walk[last] {
      i, j := k, last;
    } else {
      i, j := Pigeonhole(walk[..last], names - {walk[last]});
    }
  }

  // ------------------------------------------------------------ deciding the renames

  /** A definition's check is not disturbed by renaming names it does not refer to. */
  lemma {:induction false} CheckUndisturbed(
    response: Definitions, bundle: Definitions, before: set<string>, after: set<string>, name: string)
    requires name in response
    requires forall r :: r in LocalReferences(response[name]) ==> (r in before <==> r in after)
    ensures Conflicts(response, bundle, before, name) == Conflicts(response, bundle, after, name)
  {
    RenamingReadsOnlyReferences(response[name], OutputNames(before), OutputNames(after));
  }

  /** Every name outside `pending` refers only outside `pending`, and is decided for good. */
  ghost predicate Decided(response: Definitions, bundle: Definitions, pending: set<string>, renamed: set<string>) {
    forall n :: n in response && n !in pending ==>
      OtherReferences(response, n) !! pending &&
      (n in renamed <==> Conflicts(response, bundle, renamed - {n}, n))
  }

  lemma {:induction false} DecidedForGood(
    response: Definitions, bundle: Definitions, pending: set<string>, before: set<string>, after: set<string>)
    requires Decided(response, bundle, pending, before)
    requires before <= after && after - before <= pending
    ensures Decided(response, bundle, pending, after)
  {
    forall n | n in response && n !in pending
      ensures n in after <==> Conflicts(response, bundle, after - {n}, n)
    {
      forall r | r in LocalReferences(response[n])
        ensures r in before - {n} <==> r in after - {n}
      {
        assert r == n || r in OtherReferences(response, n);
      }
      CheckUndisturbed(response, bundle, before - {n}, after - {n}, n);
    }
  }

  // ------------------------------------------------------------ mutually recursive definitions

  /** Round after round, everything pending that conflicts is renamed at once. */
  function Rounds(response: Definitions, bundle: Definitions, pending: set<string>, renamed: set<string>): set<string>
    requires pending <= response.Keys
    decreases pending - renamed
  {
    var conflicting := set n | n in pending - renamed && Conflicts(response, bundle, renamed, n);
    if conflicting == {} then renamed
    else
      assert conflicting <= pending - renamed;
      Rounds(response, bundle, pending, renamed + conflicting)
  }

  /** The rounds end with the first one when it leaves nothing in conflict. */
  lemma {:induction false} RoundsOnce(
    response: Definitions, bundle: Definitions, pending: set<string>, first: set<string>)
    requires pending <= response.Keys
    requires first == set n | n in pending && Conflicts(response, bundle, {}, n)
    requires forall n :: n in pending - first ==> !Conflicts(response, bundle, first, n)
    ensures Rounds(response, bundle, pending, {}) == first
  {
    assert (set n | n in pending - {} && Conflicts(response, bundle, {}, n)) == first;
    assert (set n | n in pending - first && Conflicts(response, bundle, first, n)) == {};
    assert {} + first == first;
    assert Rounds(response, bundle, pending, first) == first;
  }

  /** What conflicts at first is renamed in the end. */
  lemma {:induction false} RoundsKeepFirst(
    response: Definitions, bundle: Definitions, pending: set<string>, name: string)
    requires pending <= response.Keys && name in pending && Conflicts(response, bundle, {}, name)
    ensures name in Rounds(response, bundle, pending, {})
  {
    var conflicting := set n | n in pending - {} && Conflicts(response, bundle, {}, n);
    assert name in conflicting;
    RoundsGrow(response, bundle, pending, {} + conflicting);
  }

  lemma {:induction false} RoundsGrow(
    response: Definitions, bundle: Definitions, pending: set<string>, renamed: set<string>)
    requires pending <= response.Keys
    ensures renamed <= Rounds(response, bundle, pending, renamed)
    decreases pending - renamed
  {
    var conflicting := set n | n in pending - renamed && Conflicts(response, bundle, renamed, n);
    if conflicting != {} {
      assert conflicting <= pending - renamed;
      RoundsGrow(response, bundle, pending, renamed + conflicting);
    }
  }

  /** The rounds add only pending names, and end with nothing in conflict and nothing renamed
      without cause. */
  lemma {:induction false} RoundsSettle(
    response: Definitions, bundle: Definitions, pending: set<string>, renamed: set<string>)
    requires pending <= response.Keys && renamed <= response.Keys
    requires Decided(response, bundle, pending, renamed) && Justified(response, bundle, renamed)
    ensures var last := Rounds(response, bundle, pending, renamed);
      && renamed <= last <= renamed + pending
      && Settled(response, bundle, last) && Justified(response, bundle, last)
    decreases pending - renamed
  {
    var conflicting := set n | n in pending - renamed && Conflicts(response, bundle, renamed, n);
    if conflicting == {} {
      forall n | n in response && n !in renamed
        ensures !Conflicts(response, bundle, renamed, n)
      {
        assert renamed - {n} == renamed;
        if n in pending {
          assert n !in conflicting;
        }
      }
    } else {
      var next := renamed + conflicting;
      assert conflicting <= pending - renamed;
      DecidedForGood(response, bundle, pending, renamed, next);
      StillJustified(response, bundle, renamed, conflicting);
      RoundsSettle(response, bundle, pending, next);
    }
  }

  lemma {:induction false} StillJustified(
    response: Definitions, bundle: Definitions, renamed: set<string>, conflicting: set<string>)
    requires Justified(response, bundle, renamed) && renamed !! conflicting
    requires forall n :: n in conflicting ==> n in response && Conflicts(response, bundle, renamed, n)
    ensures Justified(response, bundle, renamed + conflicting)
  {
    var next := renamed + conflicting;
    forall n | n in next && n in response
      ensures ConflictedOnce(response, bundle, next, n)
    {
      if n in renamed {
        var part :| part <= renamed - {n} && Conflicts(response, bundle, part, n);
        assert part <= next - {n};
      } else {
        assert renamed <= next - {n} && Conflicts(response, bundle, renamed, n);
      }
    }
  }

  /** The mutually recursive definitions left in `pending`: rename until nothing conflicts. */
  method RenameUntilSettled(
    response: Definitions, bundle: Definitions, pending: set<string>, decided: set<string>)
    returns (renamed: set<string>)
    requires pending <= response.Keys
    ensures renamed == Rounds(response, bundle, pending, decided)
  {
    renamed := decided;
    var conflicting := set n | n in pending - renamed && Conflicts(response, bundle, renamed, n);
    while conflicting != {}
      invariant conflicting == set n | n in pending - renamed && Conflicts(response, bundle, renamed, n)
      invariant Rounds(response, bundle, pending, renamed) == Rounds(response, bundle, pending, decided)
      decreases pending - renamed
    {
      assert conflicting <= pending - renamed;
      renamed := renamed + conflicting;
      conflicting := set n | n in pending - renamed && Conflicts(response, bundle, renamed, n);
    }
  }

  // ------------------------------------------------------------ the worklist

  /** Everything no processing order can decide: all that is stuck. */
  ghost predicate LargestStuck(response: Definitions, pending: set<string>) {
    pending <= response.Keys && (pending == {} || Stuck(response, pending)) && StuckWithin(response, pending)
  }

  ghost predicate StuckWithin(response: Definitions, pending: set<string>) {
    forall names :: Stuck(response, names) ==> names <= pending
  }

  lemma {:induction false} LargestStuckIsUnique(response: Definitions, p1: set<string>, p2: set<string>)
    requires LargestStuck(response, p1) && LargestStuck(response, p2)
    ensures p1 == p2
  {
    assert p1 <= p2 && p2 <= p1;
  }

  /** What the worklist and its fallback decide: the names that are not stuck, each for good, and
      the rounds over the others. */
  ghost predicate Outcome(response: Definitions, bundle: Definitions, renamed: set<string>) {
    exists pending, decided :: OutcomeOf(response, bundle, pending, decided, renamed)
  }

  ghost predicate OutcomeOf(
    response: Definitions, bundle: Definitions, pending: set<string>, decided: set<string>, renamed: set<string>)
  {
    && LargestStuck(response, pending) && decided <= response.Keys - pending
    && Decided(response, bundle, pending, decided) && renamed == Rounds(response, bundle, pending, decided)
  }

  lemma {:induction false} OutcomeIsSettled(response: Definitions, bundle: Definitions, renamed: set<string>)
    requires Outcome(response, bundle, renamed)
    ensures Settled(response, bundle, renamed) && Justified(response, bundle, renamed)
    ensures OnlySelfCycles(response) ==> Solves(response, bundle, renamed)
  {
    var pending, decided :| OutcomeOf(response, bundle, pending, decided, renamed);
    JustifiedSoFar(response, bundle, pending, decided);
    RoundsSettle(response, bundle, pending, decided);
    if OnlySelfCycles(response) {
      assert pending == {};
    }
  }

  lemma {:induction false} JustifiedSoFar(
    response: Definitions, bundle: Definitions, pending: set<string>, decided: set<string>)
    requires decided <= response.Keys - pending && Decided(response, bundle, pending, decided)
    ensures Justified(response, bundle, decided)
  {
    forall n | n in decided
      ensures ConflictedOnce(response, bundle, decided, n)
    {
      assert Conflicts(response, bundle, decided - {n}, n);
    }
  }

  /** The names that can be compared next. */
  predicate IsReady(response: Definitions, pending: set<string>, ready: set<string>)
    requires pending <= response.Keys
  {
    ready == set n | n in pending && OtherReferences(response, n) !! pending
  }

  /** A name that is ready is in no stuck set. */
  lemma {:induction false} ReadyIsNotStuck(response: Definitions, pending: set<string>, ready: set<string>)
    requires pending <= response.Keys && IsReady(response, pending, ready)
    requires StuckWithin(response, pending)
    ensures StuckWithin(response, pending - ready)
    ensures ready == {} ==> LargestStuck(response, pending)
  {
    forall names, n | Stuck(response, names) && n in names
      ensures n !in ready
    {
      assert OtherReferences(response, n) * names != {};
    }
  }

  /** The renames of a response's definitions: each is compared once the ones it refers to
      are named, and mutually recursive ones are renamed until nothing conflicts.  The names
      that are ready together are compared in any order. */
  method DecideRenames(response: Definitions, bundle: Definitions) returns (renamed: set<string>)
    ensures Outcome(response, bundle, renamed)
    ensures Settled(response, bundle, renamed) && Justified(response, bundle, renamed)
    ensures OnlySelfCycles(response) ==> Solves(response, bundle, renamed)
  {
    renamed := {};
    var pending := response.Keys;
    while pending != {}
      invariant pending <= response.Keys && renamed <= response.Keys - pending
      invariant Decided(response, bundle, pending, renamed)
      invariant StuckWithin(response, pending)
      decreases pending
    {
      var ready := set n | n in pending && OtherReferences(response, n) !! pending;
      ReadyIsNotStuck(response, pending, ready);
      if ready == {} {
        ghost var decided := renamed;
        renamed := RenameUntilSettled(response, bundle, pending, renamed);
        OutcomeReached(response, bundle, pending, decided, renamed);
        return;
      }
      renamed := CompareReady(response, bundle, pending, ready, renamed);
      pending := pending - ready;
    }
    OutcomeReached(response, bundle, pending, renamed, renamed);
  }

  lemma {:induction false} OutcomeReached(
    response: Definitions, bundle: Definitions, pending: set<string>, decided: set<string>, renamed: set<string>)
    requires OutcomeOf(response, bundle, pending, decided, renamed)
    ensures Outcome(response, bundle, renamed)
    ensures Settled(response, bundle, renamed) && Justified(response, bundle, renamed)
    ensures OnlySelfCycles(response) ==> Solves(response, bundle, renamed)
  {
    OutcomeIsSettled(response, bundle, renamed);
  }

  /** Renames those of the ready names that conflict. */
  method CompareReady(
    response: Definitions, bundle: Definitions, pending: set<string>, ready: set<string>, decided: set<string>)
    returns (renamed: set<string>)
    requires pending <= response.Keys && decided <= response.Keys - pending
    requires IsReady(response, pending, ready) && Decided(response, bundle, pending, decided)
    ensures decided <= renamed <= decided + ready
    ensures Decided(response, bundle, pending - ready, renamed)
  {
    renamed := decided;
    var waiting := ready;
    ghost var undecided := pending;
    while waiting != {}
      invariant waiting <= ready && undecided == pending - (ready - waiting)
      invariant decided <= renamed <= decided + (ready - waiting)
      invariant Decided(response, bundle, undecided, renamed)
    {
      var name :| name in waiting;
      ghost var before := renamed;
      if Conflicts(response, bundle, renamed, name) {
        renamed := renamed + {name};
      }
      DecideOne(response, bundle, undecided, before, renamed, name);
      waiting := waiting - {name};
      undecided := undecided - {name};
    }
  }

  lemma {:induction false} DecideOne(
    response: Definitions, bundle: Definitions, pending: set<string>, before: set<string>, after: set<string>,
    name: string)
    requires Decided(response, bundle, pending, before) && name in pending && name in response
    requires name !in before && OtherReferences(response, name) !! pending
    requires after == if Conflicts(response, bundle, before, name) then before + {name} else before
    ensures Decided(response, bundle, pending - {name}, after)
  {
    DecidedForGood(response, bundle, pending, before, after);
    assert after - {name} == before;
  }

  // ------------------------------------------------------------ one answer, whatever the order

  /** Without mutual recursion the condition has one solution, so the order of the comparisons
      and the iteration order of the definitions decide nothing. */
  lemma {:induction false} SolutionIsUnique(
    response: Definitions, bundle: Definitions, r1: set<string>, r2: set<string>)
    requires OnlySelfCycles(response)
    requires Solves(response, bundle, r1) && Solves(response, bundle, r2)
    ensures r1 == r2
  {
    var differing := (r1 - r2) + (r2 - r1);
    if differing != {} {
      assert !Stuck(response, differing);
      var n :| n in differing && OtherReferences(response, n) !! differing;
      CheckUndisturbed(response, bundle, r1 - {n}, r2 - {n}, n);
      assert false;
    }
  }

  /** What is decided is unique for every response: no order of the comparisons shows in it. */
  lemma {:induction false} OutcomeIsUnique(
    response: Definitions, bundle: Definitions, r1: set<string>, r2: set<string>)
    requires Outcome(response, bundle, r1) && Outcome(response, bundle, r2)
    ensures r1 == r2
  {
    var pending, d1 :| OutcomeOf(response, bundle, pending, d1, r1);
    var pending', d2 :| OutcomeOf(response, bundle, pending', d2, r2);
    LargestStuckIsUnique(response, pending, pending');
    DecidedIsUnique(response, bundle, pending, d1, d2);
  }

  lemma {:induction false} DecidedIsUnique(
    response: Definitions, bundle: Definitions, pending: set<string>, d1: set<string>, d2: set<string>)
    requires LargestStuck(response, pending)
    requires d1 <= response.Keys - pending && d2 <= response.Keys - pending
    requires Decided(response, bundle, pending, d1) && Decided(response, bundle, pending, d2)
    ensures d1 == d2
  {
    var differing := (d1 - d2) + (d2 - d1);
    forall n | n in differing
      ensures OtherReferences(response, n) * differing != {}
    {
      if OtherReferences(response, n) !! differing {
        DecidedAlike(response, bundle, pending, d1, d2, n);
      }
    }
    assert differing != {} ==> Stuck(response, differing);
  }

  /** A name none of whose references tells two decisions apart is decided alike. */
  lemma {:induction false} DecidedAlike(
    response: Definitions, bundle: Definitions, pending: set<string>, d1: set<string>, d2: set<string>, name: string)
    requires Decided(response, bundle, pending, d1) && Decided(response, bundle, pending, d2)
    requires name in response && name !in pending
    requires OtherReferences(response, name) !! (d1 - d2) + (d2 - d1)
    ensures name in d1 <==> name in d2
  {
    forall r | r in LocalReferences(response[name])
      ensures r in d1 - {name} <==> r in d2 - {name}
    {
      assert r == name || r in OtherReferences(response, name);
    }
    CheckUndisturbed(response, bundle, d1 - {name}, d2 - {name}, name);
  }

  /** The largest stuck set is there. */
  lemma {:induction false} LargestStuckExists(response: Definitions) returns (pending: set<string>)
    ensures LargestStuck(response, pending)
  {
    pending := set n | n in response.Keys && InStuck(response, n);
    forall n | n in pending
      ensures OtherReferences(response, n) * pending != {}
    {
      var names :| Stuck(response, names) && n in names;
      var next :| next in OtherReferences(response, n) * names;
      assert InStuck(response, next);
    }
    forall names, n | Stuck(response, names) && n in names
      ensures n in pending
    {
      assert InStuck(response, n);
    }
  }

  /** What can be decided refers to nothing that is stuck. */
  lemma {:induction false} RefersOutside(response: Definitions, pending: set<string>, name: string)
    requires LargestStuck(response, pending) && name in response && name !in pending
    ensures OtherReferences(response, name) !! pending
  {
    if OtherReferences(response, name) * pending != {} {
      ReferrerIsStuck(response, pending, name);
    }
  }

  lemma {:induction false} ReferrerIsStuck(response: Definitions, pending: set<string>, name: string)
    requires Stuck(response, pending) && name in response && OtherReferences(response, name) * pending != {}
    ensures Stuck(response, pending + {name})
  {
    var more := pending + {name};
    assert pending <= more && more <= response.Keys;
    forall n {:trigger OtherReferences(response, n)} | n in more
      ensures OtherReferences(response, n) * more != {}
    {
      assert n in pending || n == name;
      MeetsMore(OtherReferences(response, n), pending, more);
    }
  }

  lemma {:induction false} MeetsMore(references: set<string>, names: set<string>, more: set<string>)
    requires references * names != {} && names <= more
    ensures references * more != {}
  {
    var next :| next in references * names;
    assert next in references * more;
  }

  /** When nothing can be decided in conflict, only the rounds rename. */
  lemma {:induction false} OnlyRounds(response: Definitions, bundle: Definitions, pending: set<string>)
    requires LargestStuck(response, pending)
    requires forall n :: n in response && n !in pending ==> !Conflicts(response, bundle, {}, n)
    ensures Outcome(response, bundle, Rounds(response, bundle, pending, {}))
  {
    forall n | n in response && n !in pending
      ensures OtherReferences(response, n) !! pending && !Conflicts(response, bundle, {} - {n}, n)
    {
      RefersOutside(response, pending, n);
      assert {} - {n} == {};
    }
    assert OutcomeOf(response, bundle, pending, {}, Rounds(response, bundle, pending, {}));
  }

  ghost predicate InStuck(response: Definitions, name: string) {
    exists names :: Stuck(response, names) && name in names
  }
}
