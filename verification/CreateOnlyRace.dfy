/** Qualifying create-only uploads: writers racing to create one object, the judge of a round
    and the run over its rounds (`_race`, `_judge`, `run_round`, `_remove_round_object`,
    `qualify`). */
module CreateOnlyRace {
  import opened Decimals
  import opened Wrappers

  type Path = string
  type Bytes = string
  type Store = map<Path, Bytes>

  datatype WriterKind = Stored | Conflict | Failed(reason: string)

  /** The bytes a writer uploads. */
  function Payload(writer: nat): Bytes {
    "{\"writer\": " + Numeral(writer) + "}"
  }

  lemma {:induction false} PayloadTellsWriter(a: nat, b: nat)
    ensures Payload(a) == Payload(b) ==> a == b
  {
    var prefix := "{\"writer\": ";
    if Payload(a) == Payload(b) {
      assert Payload(a)[|prefix|..|Payload(a)| - 1] == Numeral(a);
      assert Payload(b)[|prefix|..|Payload(b)| - 1] == Numeral(b);
      NumeralInjective(a, b);
    }
  }

  // ------------------------------------------------------------ the judge

  predicate Did(outcome: WriterKind, stored: bool) {
    if stored then outcome.Stored? else outcome.Failed?
  }

  function WritersWith(outcomes: seq<WriterKind>, stored: bool): seq<nat> {
    if outcomes == [] then []
    else
      var last := |outcomes| - 1;
      WritersWith(outcomes[..last], stored) + if Did(outcomes[last], stored) then [last] else []
  }

  lemma {:induction false} WritersWithAre(outcomes: seq<WriterKind>, stored: bool)
    ensures forall w: nat :: w in WritersWith(outcomes, stored) <==> w < |outcomes| && Did(outcomes[w], stored)
  {
    if outcomes != [] {
      var last := |outcomes| - 1;
      WritersWithAre(outcomes[..last], stored);
      forall w: nat
        ensures w in WritersWith(outcomes, stored) <==> w < |outcomes| && Did(outcomes[w], stored)
      {
        assert w in WritersWith(outcomes, stored) <==>
          w in WritersWith(outcomes[..last], stored) || (w == last && Did(outcomes[last], stored));
        if w < last {
          assert outcomes[..last][w] == outcomes[w];
        }
      }
    }
  }

  lemma {:induction false} NoWriterDid(outcomes: seq<WriterKind>, stored: bool)
    requires forall w: nat :: w < |outcomes| ==> !Did(outcomes[w], stored)
    ensures WritersWith(outcomes, stored) == []
  {
    if outcomes != [] {
      NoWriterDid(outcomes[..|outcomes| - 1], stored);
    }
  }

  lemma {:induction false} OneWriterDid(outcomes: seq<WriterKind>, stored: bool, w: nat)
    requires w < |outcomes| && Did(outcomes[w], stored)
    requires forall i: nat :: i < |outcomes| && i != w ==> !Did(outcomes[i], stored)
    ensures WritersWith(outcomes, stored) == [w]
  {
    var last := |outcomes| - 1;
    if w == last {
      NoWriterDid(outcomes[..last], stored);
    } else {
      OneWriterDid(outcomes[..last], stored, w);
    }
  }

  datatype Verdict =
    | Qualified(winner: nat)
    | WritersFailed(count: nat)
    | WrongWinners(winners: seq<nat>)
    | Unreadable
    | NotWinnersBytes(winner: nat)

  /** The verdict on a round from what its writers did and what the path then held; the object
      is read only when there is one winner. */
  function Judge(outcomes: seq<WriterKind>, stored: Option<Bytes>): Verdict {
    var failed := WritersWith(outcomes, false);
    var winners := WritersWith(outcomes, true);
    if failed != [] then WritersFailed(|failed|)
    else if |winners| != 1 then WrongWinners(winners)
    else if stored.None? then Unreadable
    else if stored.value != Payload(winners[0]) then NotWinnersBytes(winners[0])
    else Qualified(winners[0])
  }

  /** Exactly one writer stored, and every other was refused as already existing. */
  predicate OneWinner(outcomes: seq<WriterKind>, w: nat) {
    && w < |outcomes| && outcomes[w] == Stored
    && forall i :: 0 <= i < |outcomes| && i != w ==> outcomes[i] == Conflict
  }

  /** For any store at all, a round qualifies exactly when one writer stored, every other was
      refused as already existing, and the path holds the winner's bytes. */
  lemma {:induction false} QualifiedIffOneWinner(outcomes: seq<WriterKind>, stored: Option<Bytes>, w: nat)
    ensures Judge(outcomes, stored) == Qualified(w) <==> OneWinner(outcomes, w) && stored == Some(Payload(w))
  {
    WritersWithAre(outcomes, true);
    WritersWithAre(outcomes, false);
    var failed := WritersWith(outcomes, false);
    var winners := WritersWith(outcomes, true);
    if Judge(outcomes, stored) == Qualified(w) {
      assert w in winners;
      forall i | 0 <= i < |outcomes| && i != w
        ensures outcomes[i] == Conflict
      {
        assert i !in winners && i !in failed;
      }
    }
    if OneWinner(outcomes, w) && stored == Some(Payload(w)) {
      NoWriterDid(outcomes, false);
      OneWriterDid(outcomes, true, w);
    }
  }

  // ------------------------------------------------------------ every interleaving of a race

  /** A writer thread: at the barrier once it has arrived, through it once all have, answered
      by the store, and with its slot filled. */
  datatype Thread = Arriving | AtBarrier | Released | Answered(kind: WriterKind) | Recorded(kind: WriterKind)

  datatype RaceState = RaceState(store: Store, threads: seq<Thread>)

  predicate CanStep(s: RaceState, i: nat) {
    && i < |s.threads| && !s.threads[i].Recorded?
    && (s.threads[i].AtBarrier? ==> forall j :: 0 <= j < |s.threads| ==> !s.threads[j].Arriving?)
  }

  /** One step of one thread; an upload creates the object at once, or is refused. */
  function RaceStep(s: RaceState, path: Path, i: nat): RaceState
    requires CanStep(s, i)
  {
    match s.threads[i]
    case Arriving => s.(threads := s.threads[i := AtBarrier])
    case AtBarrier => s.(threads := s.threads[i := Released])
    case Released =>
      if path in s.store then s.(threads := s.threads[i := Answered(Conflict)])
      else RaceState(s.store[path := Payload(i)], s.threads[i := Answered(Stored)])
    case Answered(kind) => s.(threads := s.threads[i := Recorded(kind)])
  }

  ghost predicate IsRace(path: Path, states: seq<RaceState>, schedule: seq<nat>) {
    && |states| == |schedule| + 1
    && (forall i :: 0 <= i < |states[0].threads| ==> states[0].threads[i] == Arriving)
    && forall n :: 0 <= n < |schedule| ==>
         CanStep(states[n], schedule[n]) && states[n + 1] == RaceStep(states[n], path, schedule[n])
  }

  predicate Finished(s: RaceState) {
    forall i :: 0 <= i < |s.threads| ==> s.threads[i].Recorded?
  }

  function Outcomes(s: RaceState): seq<WriterKind>
    requires Finished(s)
  {
    seq(|s.threads|, i requires 0 <= i < |s.threads| => s.threads[i].kind)
  }

  predicate Has(thread: Thread, kind: WriterKind) {
    (thread.Answered? || thread.Recorded?) && thread.kind == kind
  }

  predicate Undecided(thread: Thread) {
    thread.Arriving? || thread.AtBarrier? || thread.Released?
  }

  /** The path holds what the one winner so far wrote; without a winner the store is as it was. */
  ghost predicate RaceInvariant(before: Store, path: Path, s: RaceState) {
    || (s.store == before && forall i :: 0 <= i < |s.threads| ==> Undecided(s.threads[i]))
    || exists w :: 0 <= w < |s.threads| && WonBy(before, path, s, w)
  }

  ghost predicate WonBy(before: Store, path: Path, s: RaceState, w: nat)
    requires w < |s.threads|
  {
    && Has(s.threads[w], Stored) && s.store == before[path := Payload(w)]
    && forall i :: 0 <= i < |s.threads| && i != w ==> Undecided(s.threads[i]) || Has(s.threads[i], Conflict)
  }

  lemma {:induction false} RaceKeepsInvariant(path: Path, states: seq<RaceState>, schedule: seq<nat>, n: nat)
    requires IsRace(path, states, schedule) && n < |states| && path !in states[0].store
    ensures |states[n].threads| == |states[0].threads|
    ensures RaceInvariant(states[0].store, path, states[n])
  {
    if n > 0 {
      RaceKeepsInvariant(path, states, schedule, n - 1);
      var s, i := states[n - 1], schedule[n - 1];
      if s.threads[i].Released? && path !in s.store {
        assert WonBy(states[0].store, path, states[n], i);
      } else if w :| 0 <= w < |s.threads| && WonBy(states[0].store, path, s, w) {
        assert WonBy(states[0].store, path, states[n], w);
      }
    }
  }

  /** However many writers race on an empty path, and however their steps interleave, a finished
      race has one winner, its bytes are stored, every other writer was refused, nothing else
      of the store changed, and the judge qualifies the round. */
  lemma {:induction false} EveryInterleavingQualifies(path: Path, states: seq<RaceState>, schedule: seq<nat>)
    requires IsRace(path, states, schedule) && path !in states[0].store && |states[0].threads| > 0
    requires Finished(states[|schedule|])
    ensures var last := states[|schedule|];
      exists w :: OneWinner(Outcomes(last), w) && last.store == states[0].store[path := Payload(w)]
                  && Judge(Outcomes(last), Some(last.store[path])) == Qualified(w)
  {
    var last := states[|schedule|];
    RaceKeepsInvariant(path, states, schedule, |schedule|);
    assert last.threads[0].Recorded?;
    var w :| 0 <= w < |last.threads| && WonBy(states[0].store, path, last, w);
    assert OneWinner(Outcomes(last), w);
    QualifiedIffOneWinner(Outcomes(last), Some(last.store[path]), w);
  }

  /** The barrier: no writer is through it, and so none has uploaded, while one has not arrived. */
  lemma {:induction false} NobodyUploadsEarly(path: Path, states: seq<RaceState>, schedule: seq<nat>, n: nat)
    requires IsRace(path, states, schedule) && n < |states|
    ensures (exists i :: 0 <= i < |states[n].threads| && states[n].threads[i] == Arriving) ==>
      forall j :: 0 <= j < |states[n].threads| ==> states[n].threads[j] == Arriving || states[n].threads[j] == AtBarrier
  {
    if n > 0 {
      NobodyUploadsEarly(path, states, schedule, n - 1);
      var s, i := states[n - 1], schedule[n - 1];
      assert forall j :: 0 <= j < |s.threads| && j != i ==> states[n].threads[j] == s.threads[j];
    }
  }

  /** A race never stalls: until it is finished some thread can step. */
  lemma {:induction false} RaceNeverStalls(s: RaceState)
    requires !Finished(s)
    ensures exists i :: CanStep(s, i)
  {
    var i :| 0 <= i < |s.threads| && !s.threads[i].Recorded?;
    if j :| 0 <= j < |s.threads| && s.threads[j].Arriving? {
      assert CanStep(s, j);
    } else {
      assert CanStep(s, i);
    }
  }

  // ------------------------------------------------------------ the client

  datatype Lookup = Found | NotFound | LookupFailed
  datatype Removal = Removed | NothingThere | RemovalFailed

  /** What a store that promises nothing answers its next call, whichever call that is, and
      what it then holds. */
  datatype Reply = Reply(lookup: Lookup, kind: WriterKind, bytes: Option<Bytes>, removal: Removal, holds: Store)

  datatype Call =
    | LookedUp(path: Path, lookup: Lookup)
    | Uploaded(path: Path, bytes: Bytes, kind: WriterKind)
    | Downloaded(path: Path, content: Option<Bytes>)
    | Deleted(path: Path, removal: Removal)

  /** The Files API client: an atomic create-only store, or one that answers as it likes. */
  class Client {
    const atomic: bool
    const script: nat -> Reply
    var objects: Store
    var calls: seq<Call>

    constructor (atomic: bool, script: nat -> Reply, objects: Store)
      ensures this.atomic == atomic && this.objects == objects && calls == []
    {
      this.atomic, this.script, this.objects, calls := atomic, script, objects, [];
    }

    method GetMetadata(path: Path) returns (lookup: Lookup)
      modifies this
      ensures calls == old(calls) + [LookedUp(path, lookup)]
      ensures !atomic ==> objects == script(|old(calls)|).holds
      ensures atomic ==> objects == old(objects) && lookup == if path in objects then Found else NotFound
    {
      lookup := if !atomic then script(|calls|).lookup else if path in objects then Found else NotFound;
      objects := if atomic then objects else script(|calls|).holds;
      calls := calls + [LookedUp(path, lookup)];
    }

    method Upload(path: Path, bytes: Bytes) returns (kind: WriterKind)
      modifies this
      ensures calls == old(calls) + [Uploaded(path, bytes, kind)]
      ensures !atomic ==> objects == script(|old(calls)|).holds
      ensures atomic && path in old(objects) ==> kind == Conflict && objects == old(objects)
      ensures atomic && path !in old(objects) ==> kind == Stored && objects == old(objects)[path := bytes]
    {
      if !atomic {
        kind, objects := script(|calls|).kind, script(|calls|).holds;
      } else if path in objects {
        kind := Conflict;
      } else {
        kind, objects := Stored, objects[path := bytes];
      }
      calls := calls + [Uploaded(path, bytes, kind)];
    }

    method Download(path: Path) returns (bytes: Option<Bytes>)
      modifies this
      ensures calls == old(calls) + [Downloaded(path, bytes)]
      ensures !atomic ==> objects == script(|old(calls)|).holds
      ensures atomic ==> objects == old(objects) && bytes == if path in objects then Some(objects[path]) else None
    {
      bytes := if !atomic then script(|calls|).bytes else if path in objects then Some(objects[path]) else None;
      objects := if atomic then objects else script(|calls|).holds;
      calls := calls + [Downloaded(path, bytes)];
    }

    method Delete(path: Path) returns (removal: Removal)
      modifies this
      ensures calls == old(calls) + [Deleted(path, removal)]
      ensures !atomic ==> objects == script(|old(calls)|).holds
      ensures atomic ==> objects == old(objects) - {path} && removal == if path in old(objects) then Removed else NothingThere
    {
      removal := if !atomic then script(|calls|).removal else if path in objects then Removed else NothingThere;
      objects := if atomic then objects - {path} else script(|calls|).holds;
      calls := calls + [Deleted(path, removal)];
    }
  }

  // ------------------------------------------------------------ one round

  /** The order in which the store serves the writers: each of them once. */
  predicate IsOrder(order: seq<nat>, writers: nat) {
    && (forall k :: 0 <= k < |order| ==> order[k] < writers)
    && (forall k, l :: 0 <= k < l < |order| ==> order[k] != order[l])
    && forall w: nat :: w < writers ==> w in order
  }

  /** Any number of writers can be served, for one in their own order. */
  lemma {:induction false} WritersInTurn(writers: nat)
    ensures IsOrder(seq(writers, i requires 0 <= i => i), writers)
  {
    var order: seq<nat> := seq(writers, i requires 0 <= i => i);
    forall w: nat | w < writers
      ensures w in order
    {
      assert order[w] == w;
    }
  }

  /** These calls touch one path only, and only to write to it or read it. */
  ghost predicate OnlyAt(calls: seq<Call>, path: Path) {
    forall k :: 0 <= k < |calls| ==> calls[k].path == path && !calls[k].LookedUp?
  }

  /** Every writer's create, in the order served, each recorded in its own slot. */
  method Race(client: Client, path: Path, writers: nat, order: seq<nat>) returns (outcomes: array<WriterKind>)
    requires IsOrder(order, writers) && writers > 0
    modifies client
    ensures fresh(outcomes) && outcomes.Length == writers
    ensures old(client.calls) <= client.calls && OnlyAt(client.calls[|old(client.calls)|..], path)
    ensures NothingRead(client.calls[|old(client.calls)|..])
    ensures forall w: nat :: w < writers ==> Uploaded(path, Payload(w), outcomes[w]) in client.calls
    ensures client.atomic && path !in old(client.objects) ==>
      exists w :: OneWinner(outcomes[..], w) && client.objects == old(client.objects)[path := Payload(w)]
  {
    outcomes := new WriterKind[writers](_ => Failed("no outcome recorded"));
    ghost var before, objects := client.calls, client.objects;
    for k := 0 to |order|
      invariant before <= client.calls && OnlyAt(client.calls[|before|..], path)
      invariant NothingRead(client.calls[|before|..])
      invariant forall l :: 0 <= l < k ==> Uploaded(path, Payload(order[l]), outcomes[order[l]]) in client.calls
      invariant client.atomic && path !in objects && k == 0 ==> client.objects == objects
      invariant client.atomic && path !in objects && k > 0 ==>
        && client.objects == objects[path := Payload(order[0])] && outcomes[order[0]] == Stored
        && forall l :: 0 < l < k ==> outcomes[order[l]] == Conflict
    {
      var writer := order[k];
      var kind := client.Upload(path, Payload(writer));
      outcomes[writer] := kind;
    }
    forall w: nat | w < writers
      ensures Uploaded(path, Payload(w), outcomes[w]) in client.calls
    {
      assert w in order;
    }
    if client.atomic && path !in objects {
      assert 0 in order;
      assert OneWinner(outcomes[..], order[0]) by {
        forall w: nat | w < writers && w != order[0]
          ensures outcomes[w] == Conflict
        {
          assert w in order;
        }
      }
    }
  }

  /** A qualifying verdict rests on what was seen: the winner stored, every other writer refused
      as already existing, and the winner's bytes read back. */
  ghost predicate Evidenced(calls: seq<Call>, path: Path, writers: nat, verdict: Verdict) {
    verdict.Qualified? ==>
      && verdict.winner < writers
      && Uploaded(path, Payload(verdict.winner), Stored) in calls
      && Downloaded(path, Some(Payload(verdict.winner))) in calls
      && forall w: nat :: w < writers && w != verdict.winner ==> Uploaded(path, Payload(w), Conflict) in calls
  }

  ghost predicate NothingRead(calls: seq<Call>) {
    forall k :: 0 <= k < |calls| ==> !calls[k].Downloaded?
  }

  /** A round's writers raced and judged, reading the object only when there is a winner. */
  method RunRound(client: Client, path: Path, writers: nat, order: seq<nat>) returns (verdict: Verdict)
    requires IsOrder(order, writers) && writers > 0
    modifies client
    ensures old(client.calls) <= client.calls && OnlyAt(client.calls[|old(client.calls)|..], path)
    ensures Evidenced(client.calls, path, writers, verdict)
    ensures verdict.WritersFailed? || verdict.WrongWinners? ==> NothingRead(client.calls[|old(client.calls)|..])
    ensures client.atomic && path !in old(client.objects) ==>
      verdict.Qualified? && client.objects == old(client.objects)[path := Payload(verdict.winner)]
  {
    var outcomes := Race(client, path, writers, order);
    ghost var raced := client.calls;
    var stored: Option<Bytes> := None;
    WritersWithAre(outcomes[..], true);
    if WritersWith(outcomes[..], false) == [] && |WritersWith(outcomes[..], true)| == 1 {
      stored := client.Download(path);
    }
    verdict := Judge(outcomes[..], stored);
    if verdict.Qualified? {
      QualifiedIffOneWinner(outcomes[..], stored, verdict.winner);
    }
    if client.atomic && path !in old(client.objects) {
      ghost var w :| OneWinner(outcomes[..], w) && (old(client.objects)[path := Payload(w)])[path] == Payload(w)
                     && client.objects == old(client.objects)[path := Payload(w)];
      QualifiedIffOneWinner(outcomes[..], Some(Payload(w)), w);
    }
  }

  // ------------------------------------------------------------ the run

  const MIN_WRITERS := 2
  const MIN_ROUNDS := 1

  function RoundPath(root: Path, number: nat): Path {
    root + "/round-" + (Numeral(number) + "/pointer.json")
  }

  /** A round's path lies in a directory of its own below the root. */
  lemma {:induction false} RoundPathIsBelowRoot(root: Path, number: nat)
    ensures RoundPath(root, number) == root + "/round-" + Numeral(number) + "/pointer.json"
  {
  }

  lemma {:induction false} RoundPathTellsRound(root: Path, a: nat, b: nat)
    ensures RoundPath(root, a) == RoundPath(root, b) ==> a == b
  {
    var prefix, suffix := root + "/round-", "/pointer.json";
    if RoundPath(root, a) == RoundPath(root, b) {
      assert RoundPath(root, a)[|prefix|..|RoundPath(root, a)| - |suffix|] == Numeral(a);
      assert RoundPath(root, b)[|prefix|..|RoundPath(root, b)| - |suffix|] == Numeral(b);
      NumeralInjective(a, b);
    }
  }

  /** What a run reports of a round. */
  datatype Report =
    | Refused
    | Judged(verdict: Verdict, removal: Removal)

  /** A report that adds no anomaly. */
  predicate Clean(report: Report) {
    report.Judged? && report.verdict.Qualified? && report.removal != RemovalFailed
  }

  predicate AllClean(reports: seq<Report>) {
    forall r :: 0 <= r < |reports| ==> Clean(reports[r])
  }

  lemma {:induction false} OneMoreReport(reports: seq<Report>, report: Report)
    ensures AllClean(reports + [report]) <==> AllClean(reports) && Clean(report)
  {
    assert (reports + [report])[|reports|] == report;
    assert forall r :: 0 <= r < |reports| ==> (reports + [report])[r] == reports[r];
  }

  datatype Exit = Code(code: int) | Raised

  /** Every path written to or deleted was looked up first and found empty, and no path that was
      found to hold an object is written to or deleted. */
  ghost predicate OwnsWhatItTouches(calls: seq<Call>) {
    forall k :: 0 <= k < |calls| && (calls[k].Uploaded? || calls[k].Deleted?) ==>
      LookedUp(calls[k].path, NotFound) in calls[..k] && LookedUp(calls[k].path, Found) !in calls
  }

  /** Calls so far concern the paths of the rounds up to `number` only. */
  ghost predicate WithinRounds(calls: seq<Call>, root: Path, number: nat) {
    forall k :: 0 <= k < |calls| ==> exists m: nat :: 1 <= m <= number && calls[k].path == RoundPath(root, m)
  }

  /** No call so far concerns this path. */
  ghost predicate Untouched(calls: seq<Call>, path: Path) {
    forall k :: 0 <= k < |calls| ==> calls[k].path != path
  }

  ghost predicate AllAt(calls: seq<Call>, path: Path) {
    forall k :: 0 <= k < |calls| ==> calls[k].path == path
  }

  lemma {:induction false} NewRoundIsUntouched(calls: seq<Call>, root: Path, number: nat)
    requires WithinRounds(calls, root, number)
    ensures Untouched(calls, RoundPath(root, number + 1))
  {
    forall k | 0 <= k < |calls|
      ensures calls[k].path != RoundPath(root, number + 1)
    {
      var m: nat :| 1 <= m <= number && calls[k].path == RoundPath(root, m);
      RoundPathTellsRound(root, m, number + 1);
    }
  }

  lemma {:induction false} WithinOneMore(calls: seq<Call>, all: seq<Call>, root: Path, number: nat)
    requires WithinRounds(calls, root, number)
    requires calls <= all && AllAt(all[|calls|..], RoundPath(root, number + 1))
    ensures WithinRounds(all, root, number + 1)
  {
    forall k | 0 <= k < |all|
      ensures exists m: nat :: 1 <= m <= number + 1 && all[k].path == RoundPath(root, m)
    {
      if k < |calls| {
        assert calls[k] == all[k];
        var m: nat :| 1 <= m <= number && calls[k].path == RoundPath(root, m);
        assert 1 <= m <= number + 1 && all[k].path == RoundPath(root, m);
      } else {
        assert all[k] == all[|calls|..][k - |calls|];
        assert all[k].path == RoundPath(root, number + 1);
      }
    }
  }

  /** A lookup on an untouched path, followed, only when it found nothing, by calls on that path. */
  lemma {:induction false} RoundKeepsOwnership(
    calls: seq<Call>, path: Path, lookup: Lookup, more: seq<Call>, all: seq<Call>)
    requires OwnsWhatItTouches(calls) && Untouched(calls, path)
    requires OnlyAt(more, path) && (more != [] ==> lookup == NotFound)
    requires all == calls + [LookedUp(path, lookup)] + more
    ensures OwnsWhatItTouches(all) && AllAt(all[|calls|..], path)
    ensures calls <= all && LookedUp(path, lookup) in all
  {
    var looked := LookedUp(path, lookup);
    assert all[|calls|] == looked;
    assert forall k :: |calls| < k < |all| ==> all[k] == more[k - |calls| - 1];
    forall k | 0 <= k < |all| && (all[k].Uploaded? || all[k].Deleted?)
      ensures LookedUp(all[k].path, NotFound) in all[..k] && LookedUp(all[k].path, Found) !in all
    {
      if k < |calls| {
        assert all[..k] == calls[..k] && all[k] == calls[k];
      } else {
        assert all[..k][|calls|] == looked;
      }
    }
  }

  /** A round that was run is clean exactly when its path was empty. */
  ghost predicate CleanWhereEmpty(reports: seq<Report>, root: Path, objects: Store) {
    forall r :: 0 <= r < |reports| ==> (Clean(reports[r]) <==> RoundPath(root, r + 1) !in objects)
  }

  ghost predicate AllEmpty(root: Path, rounds: nat, objects: Store) {
    forall number: nat :: 1 <= number <= rounds ==> RoundPath(root, number) !in objects
  }

  lemma {:induction false} OneMoreRound(reports: seq<Report>, report: Report, root: Path, objects: Store)
    requires CleanWhereEmpty(reports, root, objects)
    requires Clean(report) <==> RoundPath(root, |reports| + 1) !in objects
    ensures CleanWhereEmpty(reports + [report], root, objects)
  {
  }

  lemma {:induction false} AllCleanIffAllEmpty(reports: seq<Report>, root: Path, objects: Store)
    requires CleanWhereEmpty(reports, root, objects)
    ensures AllClean(reports) <==> AllEmpty(root, |reports|, objects)
  {
    if AllClean(reports) {
      forall number: nat | 1 <= number <= |reports|
        ensures RoundPath(root, number) !in objects
      {
        assert Clean(reports[number - 1]);
      }
    }
  }

  /** A report says what was seen: an object in the way, or the round that was run and the
      object that was removed. */
  ghost predicate Seen(calls: seq<Call>, path: Path, writers: nat, report: Report) {
    if report.Refused? then LookedUp(path, Found) in calls
    else
      && LookedUp(path, NotFound) in calls && Deleted(path, report.removal) in calls
      && Evidenced(calls, path, writers, report.verdict)
  }

  ghost predicate AllSeen(calls: seq<Call>, root: Path, writers: nat, reports: seq<Report>) {
    forall r :: 0 <= r < |reports| ==> Seen(calls, RoundPath(root, r + 1), writers, reports[r])
  }

  /** What was seen stays seen as calls are added. */
  lemma {:induction false} OneMoreSeen(
    calls: seq<Call>, more: seq<Call>, root: Path, writers: nat, reports: seq<Report>, report: Report)
    requires AllSeen(calls, root, writers, reports) && calls <= more
    requires Seen(more, RoundPath(root, |reports| + 1), writers, report)
    ensures AllSeen(more, root, writers, reports + [report])
  {
    var listed := reports + [report];
    forall r | 0 <= r < |listed|
      ensures Seen(more, RoundPath(root, r + 1), writers, listed[r])
    {
      if r < |reports| {
        assert listed[r] == reports[r] && Seen(calls, RoundPath(root, r + 1), writers, reports[r]);
        StillSeen(calls, more, RoundPath(root, r + 1), writers, reports[r]);
      }
    }
  }

  lemma {:induction false} StillAllSeen(
    calls: seq<Call>, more: seq<Call>, root: Path, writers: nat, reports: seq<Report>)
    requires AllSeen(calls, root, writers, reports) && calls <= more
    ensures AllSeen(more, root, writers, reports)
  {
    forall r | 0 <= r < |reports|
      ensures Seen(more, RoundPath(root, r + 1), writers, reports[r])
    {
      StillSeen(calls, more, RoundPath(root, r + 1), writers, reports[r]);
    }
  }

  lemma {:induction false} StillSeen(calls: seq<Call>, more: seq<Call>, path: Path, writers: nat, report: Report)
    requires Seen(calls, path, writers, report) && calls <= more
    ensures Seen(more, path, writers, report)
  {
    assert forall call :: call in calls ==> call in more;
    if report.Judged? {
      StillEvidenced(calls, more, path, writers, report.verdict);
    }
  }

  lemma {:induction false} StillEvidenced(calls: seq<Call>, more: seq<Call>, path: Path, writers: nat, verdict: Verdict)
    requires Evidenced(calls, path, writers, verdict) && calls <= more
    ensures Evidenced(more, path, writers, verdict)
  {
    assert forall call :: call in calls ==> call in more;
  }

  /** One round of a run: looked up, run only on an empty path, and its object removed; nothing
      is reported when the lookup fails. */
  method QualifyRound(client: Client, path: Path, writers: nat, order: seq<nat>) returns (report: Option<Report>)
    requires IsOrder(order, writers) && writers > 0
    requires OwnsWhatItTouches(client.calls) && Untouched(client.calls, path)
    modifies client
    ensures old(client.calls) <= client.calls && AllAt(client.calls[|old(client.calls)|..], path)
    ensures OwnsWhatItTouches(client.calls)
    ensures report.None? ==> LookedUp(path, LookupFailed) in client.calls
    ensures report.Some? ==> Seen(client.calls, path, writers, report.value)
    ensures client.atomic ==> client.objects == old(client.objects) && report.Some?
    ensures client.atomic ==> (Clean(report.value) <==> path !in old(client.objects))
  {
    ghost var calls := client.calls;
    var lookup := client.GetMetadata(path);
    ghost var looked := client.calls;
    if lookup != NotFound {
      RoundKeepsOwnership(calls, path, lookup, [], client.calls);
      return if lookup == LookupFailed then None else Some(Refused);
    }
    var verdict, removal := RunAndRemove(client, path, writers, order);
    RoundKeepsOwnership(calls, path, lookup, client.calls[|looked|..], client.calls);
    return Some(Judged(verdict, removal));
  }

  /** Runs a round and removes its object. */
  method RunAndRemove(client: Client, path: Path, writers: nat, order: seq<nat>)
    returns (verdict: Verdict, removal: Removal)
    requires IsOrder(order, writers) && writers > 0
    modifies client
    ensures old(client.calls) <= client.calls && OnlyAt(client.calls[|old(client.calls)|..], path)
    ensures Evidenced(client.calls, path, writers, verdict) && Deleted(path, removal) in client.calls
    ensures client.atomic && path !in old(client.objects) ==>
      verdict.Qualified? && removal == Removed && client.objects == old(client.objects)
  {
    ghost var calls := client.calls;
    verdict := RunRound(client, path, writers, order);
    ghost var raced := client.calls;
    removal := client.Delete(path);
    assert client.calls[|calls|..] == raced[|calls|..] + [Deleted(path, removal)];
    StillEvidenced(raced, client.calls, path, writers, verdict);
  }

  /** The rounds of a run: 0 when every one qualified and was cleaned up, 1 when not, 2 when
      refused before any.  Whatever the store answers, a path that held an object is neither
      written to nor deleted.  Over an atomic store the run leaves every object as it found it
      and qualifies exactly when all its paths were empty. */
  method Qualify(client: Client, root: Path, writers: int, rounds: int, orders: nat -> seq<nat>)
    returns (exit: Exit, reports: seq<Report>)
    requires client.calls == []
    requires writers >= MIN_WRITERS ==> forall number: nat :: IsOrder(orders(number), writers)
    modifies client
    ensures exit == Code(2) <==> writers < 2 || rounds < 1
    ensures exit == Code(2) ==> client.calls == [] && client.objects == old(client.objects)
    ensures exit == Code(0) ==> |reports| == rounds && AllClean(reports)
    ensures exit == Code(1) ==> |reports| == rounds && !AllClean(reports)
    ensures exit in {Code(0), Code(1), Code(2), Raised}
    ensures exit == Raised ==> LookedUp(RoundPath(root, |reports| + 1), LookupFailed) in client.calls
    ensures writers >= MIN_WRITERS ==> AllSeen(client.calls, root, writers, reports)
    ensures OwnsWhatItTouches(client.calls)
    ensures client.atomic ==> client.objects == old(client.objects) && exit != Raised
    ensures client.atomic && exit != Code(2) ==> (exit == Code(0) <==> AllEmpty(root, rounds, old(client.objects)))
  {
    reports := [];
    if writers < MIN_WRITERS || rounds < MIN_ROUNDS {
      return Code(2), reports;
    }
    var anomalies: nat := 0;
    for number := 1 to rounds + 1
      invariant |reports| == number - 1
      invariant anomalies == 0 <==> AllClean(reports)
      invariant AllSeen(client.calls, root, writers, reports)
      invariant OwnsWhatItTouches(client.calls) && WithinRounds(client.calls, root, number - 1)
      invariant client.atomic ==> client.objects == old(client.objects)
      invariant client.atomic ==> CleanWhereEmpty(reports, root, old(client.objects))
    {
      ghost var calls := client.calls;
      NewRoundIsUntouched(calls, root, number - 1);
      var report := QualifyRound(client, RoundPath(root, number), writers, orders(number));
      WithinOneMore(calls, client.calls, root, number - 1);
      if report.None? {
        StillAllSeen(calls, client.calls, root, writers, reports);
        return Raised, reports;
      }
      OneMoreSeen(calls, client.calls, root, writers, reports, report.value);
      anomalies := anomalies + Anomalies(report.value);
      OneMoreReport(reports, report.value);
      if client.atomic {
        OneMoreRound(reports, report.value, root, old(client.objects));
      }
      reports := reports + [report.value];
    }
    if client.atomic {
      AllCleanIffAllEmpty(reports, root, old(client.objects));
    }
    return Code(if anomalies > 0 then 1 else 0), reports;
  }

  /** The anomalies a round adds: refused, not qualified, not cleaned up. */
  function Anomalies(report: Report): (n: nat)
    ensures n == 0 <==> Clean(report)
  {
    if report.Refused? then 1
    else (if report.verdict.Qualified? then 0 else 1) + if report.removal == RemovalFailed then 1 else 0
  }
}
