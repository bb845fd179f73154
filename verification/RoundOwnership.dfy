/** Whose object a round removes when others use its path between the lookup and the removal
    (`run_round`, `_remove_round_object`, `qualify`). */
module RoundOwnership {

  /** Whose object the path holds. */
  datatype Holder = Nobody | Writer(w: nat) | Other

  /** The steps at one path, the round's own and those of others, in the order the store serves them. */
  datatype Step = LookUp | Upload(w: nat) | Read | Remove | OtherPuts | OtherRemoves

  /** An upload of the round creates or is refused; others may replace what is there. */
  function After(holder: Holder, step: Step): Holder {
    match step
    case LookUp | Read => holder
    case Upload(w) => if holder.Nobody? then Writer(w) else holder
    case Remove | OtherRemoves => Nobody
    case OtherPuts => Other
  }

  /** A round that found the path empty: the lookup, every writer's upload and perhaps a read, and the
      removal, with any steps of others in between. */
  ghost predicate IsRound(holders: seq<Holder>, steps: seq<Step>, writers: nat) {
    && writers > 0 && |steps| > 1 && |holders| == |steps| + 1
    && (forall n :: 0 <= n < |steps| ==> holders[n + 1] == After(holders[n], steps[n]))
    && steps[0] == LookUp && holders[0] == Nobody && steps[|steps| - 1] == Remove
    && (forall n :: 0 < n < |steps| - 1 ==> !steps[n].LookUp? && !steps[n].Remove?)
    && forall w: nat :: w < writers ==> Uploads(steps, w)
  }

  /** The writer's upload is among the steps between the lookup and the removal. */
  ghost predicate Uploads(steps: seq<Step>, w: nat) {
    exists n: nat :: 0 < n < |steps| - 1 && steps[n] == Upload(w)
  }

  /** What the removal removes. */
  function Removed(holders: seq<Holder>, steps: seq<Step>): Holder
    requires |holders| == |steps| + 1 > 1
  {
    holders[|steps| - 1]
  }

  /** Another put its object there at this step, and none removed it before step `n`. */
  predicate PutSince(steps: seq<Step>, k: nat, n: nat)
    requires k < n <= |steps|
  {
    steps[k] == OtherPuts && forall l :: k < l < n ==> steps[l] != OtherRemoves
  }

  ghost predicate PutBefore(steps: seq<Step>, n: nat)
    requires n <= |steps|
  {
    exists k: nat :: k < n && PutSince(steps, k, n)
  }

  lemma {:induction false} OthersIffPut(holders: seq<Holder>, steps: seq<Step>, writers: nat, n: nat)
    requires IsRound(holders, steps, writers) && n < |steps|
    ensures holders[n] == Other <==> PutBefore(steps, n)
  {
    if n > 0 {
      var last := n - 1;
      OthersIffPut(holders, steps, writers, last);
      PutOneStepLonger(steps, last);
      assert holders[n] == After(holders[last], steps[last]) && steps[last] != Remove;
    }
  }

  lemma {:induction false} PutOneStepLonger(steps: seq<Step>, n: nat)
    requires n < |steps|
    ensures PutBefore(steps, n + 1) <==>
      steps[n] == OtherPuts || (steps[n] != OtherRemoves && PutBefore(steps, n))
  {
    if steps[n] == OtherPuts {
      assert PutSince(steps, n, n + 1);
    }
    if steps[n] != OtherRemoves && PutBefore(steps, n) {
      var k: nat :| k < n && PutSince(steps, k, n);
      assert PutSince(steps, k, n + 1);
    }
    if PutBefore(steps, n + 1) {
      var k: nat :| k < n + 1 && PutSince(steps, k, n + 1);
      if k < n {
        assert PutSince(steps, k, n);
      }
    }
  }

  /** A round removes another's object exactly when someone put one there after the round's lookup
      and nobody removed it before the round did. */
  lemma {:induction false} RemovesAnothersIffPut(holders: seq<Holder>, steps: seq<Step>, writers: nat)
    requires IsRound(holders, steps, writers)
    ensures Removed(holders, steps) == Other <==> PutBefore(steps, |steps| - 1)
  {
    OthersIffPut(holders, steps, writers, |steps| - 1);
  }

  // ------------------------------------------------------------ when others only create

  /** Others only create as well: they replace and remove nothing. */
  ghost predicate OthersOnlyCreate(holders: seq<Holder>, steps: seq<Step>)
    requires |holders| == |steps| + 1
  {
    forall n :: 0 <= n < |steps| ==>
      steps[n] != OtherRemoves && (steps[n] == OtherPuts ==> holders[n] == Nobody)
  }

  /** This step is an upload that stored its object. */
  predicate Stores(holders: seq<Holder>, steps: seq<Step>, n: nat)
    requires |holders| == |steps| + 1 && n < |steps|
  {
    steps[n].Upload? && holders[n] == Nobody
  }

  /** Some writer stored its object. */
  ghost predicate SomeStored(holders: seq<Holder>, steps: seq<Step>)
    requires |holders| == |steps| + 1
  {
    exists n: nat :: n < |steps| && Stores(holders, steps, n)
  }

  lemma {:induction false} FirstStays(holders: seq<Holder>, steps: seq<Step>, writers: nat, m: nat, n: nat)
    requires IsRound(holders, steps, writers) && OthersOnlyCreate(holders, steps)
    requires m <= n < |steps| && holders[m] != Nobody
    ensures holders[n] == holders[m]
    decreases n
  {
    if m < n {
      FirstStays(holders, steps, writers, m, n - 1);
      assert holders[n] == After(holders[n - 1], steps[n - 1]) && steps[n - 1] != Remove;
    }
  }

  /** Then a round removes another's object exactly when every one of its writers was refused, which
      it knows before it removes; and otherwise the object of the one writer that stored. */
  lemma {:induction false} RemovesAnothersIffAllRefused(holders: seq<Holder>, steps: seq<Step>, writers: nat)
    requires IsRound(holders, steps, writers) && OthersOnlyCreate(holders, steps)
    ensures Removed(holders, steps) == Other <==> !SomeStored(holders, steps)
    ensures forall n: nat :: n < |steps| && Stores(holders, steps, n) ==> Removed(holders, steps) == Writer(steps[n].w)
  {
    var last := |steps| - 1;
    forall n: nat | n < |steps| && Stores(holders, steps, n)
      ensures holders[last] == Writer(steps[n].w)
    {
      assert n < last && holders[n + 1] == After(holders[n], steps[n]);
      FirstStays(holders, steps, writers, n + 1, last);
    }
    assert Uploads(steps, 0);
    var first: nat :| 0 < first < |steps| - 1 && steps[first] == Upload(0);
    assert holders[first + 1] == After(holders[first], steps[first]) != Nobody;
    FirstStays(holders, steps, writers, first + 1, last);
    HeldByWriterMeansStored(holders, steps, writers, last);
  }

  lemma {:induction false} HeldByWriterMeansStored(holders: seq<Holder>, steps: seq<Step>, writers: nat, n: nat)
    requires IsRound(holders, steps, writers) && n < |steps|
    ensures holders[n].Writer? ==> SomeStored(holders, steps)
  {
    if n > 0 {
      HeldByWriterMeansStored(holders, steps, writers, n - 1);
      assert holders[n] == After(holders[n - 1], steps[n - 1]);
      if steps[n - 1].Upload? && holders[n - 1] == Nobody {
        assert Stores(holders, steps, n - 1);
      }
    }
  }

  /** Such a round: another creates the object between the lookup and the race, both writers are
      refused, and the object is removed all the same. */
  lemma {:induction false} RefusedRoundRemovesAnothers() returns (holders: seq<Holder>, steps: seq<Step>)
    ensures IsRound(holders, steps, 2) && OthersOnlyCreate(holders, steps)
    ensures !SomeStored(holders, steps) && Removed(holders, steps) == Other
  {
    steps := [LookUp, OtherPuts, Upload(0), Upload(1), Remove];
    holders := [Nobody, Nobody, Other, Other, Other, Nobody];
    assert steps[2] == Upload(0) && steps[3] == Upload(1);
    assert Uploads(steps, 0) && Uploads(steps, 1);
  }
}
