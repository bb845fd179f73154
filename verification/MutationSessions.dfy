/** Mutation session databases: what they hold, and the three operations that change them
    (`_slice_session`, `cosmic-ray exec` and `_union_results_into`). */
module MutationSessions {
  import opened Wrappers

  type Job = string

  datatype Spec = Spec(modulePath: string, operatorName: string, occurrence: nat)

  datatype WorkResult = WorkResult(workerOutcome: string, testOutcome: Option<string>, output: string, diff: string)

  /** A session's rows: the work items in `job_id` order, which is the order every query asks
      for, and the mutation specs and results keyed by `job_id`. */
  datatype Rows = Rows(items: seq<Job>, specs: map<Job, Spec>, results: map<Job, WorkResult>)

  /** What executing a job records: the same wherever and whenever it is executed. */
  type Outcomes = Job -> WorkResult

  function JobSet(jobs: seq<Job>): set<Job> {
    set j | j in jobs
  }

  ghost predicate Distinct(jobs: seq<Job>) {
    forall i, j :: 0 <= i < j < |jobs| ==> jobs[i] != jobs[j]
  }

  /** `job_id` is a primary key, and a result belongs to a work item. */
  ghost predicate ValidRows(rows: Rows) {
    Distinct(rows.items) && rows.results.Keys <= JobSet(rows.items)
  }

  // ------------------------------------------------------------ queries

  function Without(jobs: seq<Job>, dropped: set<Job>): (kept: seq<Job>)
    ensures forall j :: j in kept <==> j in jobs && j !in dropped
  {
    if jobs == [] then []
    else (if jobs[0] in dropped then [] else [jobs[0]]) + Without(jobs[1..], dropped)
  }

  lemma {:induction false} WithoutKeepsDistinct(jobs: seq<Job>, dropped: set<Job>)
    requires Distinct(jobs)
    ensures Distinct(Without(jobs, dropped))
  {
    if jobs != [] {
      WithoutKeepsDistinct(jobs[1..], dropped);
    }
  }

  /** The jobs with no recorded result, in order. */
  function Pending(rows: Rows): (pending: seq<Job>)
    ensures forall j :: j in pending <==> j in rows.items && j !in rows.results
  {
    Without(rows.items, rows.results.Keys)
  }

  predicate InOrder(jobs: seq<Job>, before: (Job, Job) -> bool) {
    forall i, j :: 0 <= i < j < |jobs| ==> before(jobs[i], jobs[j])
  }

  lemma {:induction false} WithoutKeepsOrder(jobs: seq<Job>, dropped: set<Job>, before: (Job, Job) -> bool)
    requires InOrder(jobs, before)
    ensures InOrder(Without(jobs, dropped), before)
  {
    if jobs != [] {
      var rest := jobs[1..];
      WithoutKeepsOrder(rest, dropped, before);
      var kept := Without(rest, dropped);
      forall j | 0 <= j < |kept|
        ensures before(jobs[0], kept[j])
      {
        assert kept[j] in kept && kept[j] in rest;
      }
    }
  }

  /** Whatever order the work items are listed in, the pending jobs are listed in it. */
  lemma {:induction false} PendingInOrder(rows: Rows, before: (Job, Job) -> bool)
    requires InOrder(rows.items, before)
    ensures InOrder(Pending(rows), before)
  {
    WithoutKeepsOrder(rows.items, rows.results.Keys, before);
  }

  /** The completeness count the gates use: as many results as work items. */
  predicate CountsMatch(rows: Rows) {
    |rows.results| == |rows.items|
  }

  /** The count test finds every session in which a work item has no result. */
  lemma {:induction false} CountsMatchIffComplete(rows: Rows)
    requires ValidRows(rows)
    ensures CountsMatch(rows) <==> Pending(rows) == []
    ensures CountsMatch(rows) <==> rows.results.Keys == JobSet(rows.items)
  {
    DistinctCount(rows.items);
    assert |rows.results| == |rows.results.Keys|;
    if Pending(rows) != [] {
      var lost := Pending(rows)[0];
      assert lost in Pending(rows);
      ProperSubsetIsSmaller(rows.results.Keys, JobSet(rows.items));
    } else {
      forall j | j in JobSet(rows.items)
        ensures j in rows.results
      {
        assert j !in Pending(rows);
      }
      assert rows.results.Keys == JobSet(rows.items);
    }
  }

  lemma {:induction false} DistinctCount(jobs: seq<Job>)
    requires Distinct(jobs)
    ensures |JobSet(jobs)| == |jobs|
  {
    if jobs != [] {
      DistinctCount(jobs[1..]);
      assert JobSet(jobs) == {jobs[0]} + JobSet(jobs[1..]);
    }
  }

  lemma {:induction false} ProperSubsetIsSmaller(small: set<Job>, large: set<Job>)
    requires small < large
    ensures |small| < |large|
  {
    assert |large - small| + |small| == |large|;
  }

  // ------------------------------------------------------------ what the operations do to rows

  /** Only the kept jobs and their rows. */
  function Sliced(rows: Rows, keep: set<Job>): Rows {
    Rows(Without(rows.items, JobSet(rows.items) - keep),
         map j | j in rows.specs && j in keep :: rows.specs[j],
         map j | j in rows.results && j in keep :: rows.results[j])
  }

  /** The results of an execution that got through these jobs, in whatever order. */
  function Recorded(jobs: set<Job>, outcomes: Outcomes): map<Job, WorkResult> {
    map j | j in jobs :: outcomes(j)
  }

  lemma {:induction false} OneMoreRecorded(
    results: map<Job, WorkResult>, jobs: set<Job>, outcomes: Outcomes, job: Job)
    ensures (results + Recorded(jobs, outcomes))[job := outcomes(job)] == results + Recorded(jobs + {job}, outcomes)
  {
  }

  /** A session executed: of its pending jobs those that are done, any of them if the execution was
      stopped, get their results. */
  function Executed(rows: Rows, outcomes: Outcomes, done: set<Job>): Rows {
    rows.(results := rows.results + Recorded(JobSet(Pending(rows)) * done, outcomes))
  }

  /** An execution that was not stopped: every pending job has its result. */
  function FullyExecuted(rows: Rows, outcomes: Outcomes): Rows {
    Executed(rows, outcomes, JobSet(rows.items))
  }

  /** Row by row, what a slice holds. */
  lemma {:induction false} SlicedHolds(rows: Rows, keep: set<Job>, job: Job)
    ensures job in Sliced(rows, keep).items <==> job in rows.items && job in keep
    ensures job in Sliced(rows, keep).specs <==> job in rows.specs && job in keep
    ensures job in Sliced(rows, keep).results <==> job in rows.results && job in keep
    ensures job in Sliced(rows, keep).specs ==> Sliced(rows, keep).specs[job] == rows.specs[job]
    ensures job in Sliced(rows, keep).results ==> Sliced(rows, keep).results[job] == rows.results[job]
  {
  }

  /** Job by job, what an execution leaves: the work items and every earlier result as they were,
      a result for each pending job that is done, and the other pending jobs pending. */
  lemma {:induction false} ExecutedHolds(rows: Rows, outcomes: Outcomes, done: set<Job>, job: Job)
    ensures var after := Executed(rows, outcomes, done);
      && after.items == rows.items && after.specs == rows.specs
      && (job in after.results <==> job in rows.results || (job in rows.items && job in done))
      && (job in rows.results ==> after.results[job] == rows.results[job])
      && (job in after.results && job !in rows.results ==> after.results[job] == outcomes(job))
      && (job in Pending(after) <==> job in rows.items && job !in rows.results && job !in done)
  {
  }

  lemma {:induction false} ExecutedToTheEnd(rows: Rows, outcomes: Outcomes, done: set<Job>)
    requires JobSet(Pending(rows)) <= done
    ensures Executed(rows, outcomes, done) == FullyExecuted(rows, outcomes)
  {
    assert JobSet(Pending(rows)) * done == JobSet(Pending(rows)) * JobSet(rows.items);
  }

  /** The results of every source inserted in turn, a later one replacing an earlier. */
  function United(rows: Rows, sources: seq<Rows>): Rows {
    if sources == [] then rows
    else var before := United(rows, sources[..|sources| - 1]);
      before.(results := before.results + sources[|sources| - 1].results)
  }

  // ------------------------------------------------------------ the databases

  class Session {
    var items: seq<Job>
    var specs: map<Job, Spec>
    var results: map<Job, WorkResult>

    ghost function State(): Rows
      reads this
    {
      Rows(items, specs, results)
    }

    constructor (rows: Rows)
      ensures State() == rows
    {
      items, specs, results := rows.items, rows.specs, rows.results;
    }

    /** A copy of `src` with the rows of every other job deleted. */
    constructor Slice(src: Session, keep: seq<Job>)
      ensures State() == Sliced(src.State(), JobSet(keep))
    {
      items, specs, results := src.items, src.specs, src.results;
      new;
      var kept := JobSet(keep);
      results := map j | j in results && j in kept :: results[j];
      specs := map j | j in specs && j in kept :: specs[j];
      items := Without(items, JobSet(items) - kept);
    }

    method PendingJobIds() returns (pending: seq<Job>)
      ensures pending == Pending(State())
    {
      pending := Without(items, results.Keys);
    }

    /** Executes pending jobs one at a time, in any order, until these are done. */
    method Exec(outcomes: Outcomes, done: set<Job>)
      modifies this`results
      ensures State() == Executed(old(State()), outcomes, done)
    {
      var pending := PendingJobIds();
      var selected := JobSet(pending) * done;
      var waiting := selected;
      while waiting != {}
        invariant waiting <= selected
        invariant results == old(results) + Recorded(selected - waiting, outcomes)
      {
        var job :| job in waiting;
        OneMoreRecorded(old(results), selected - waiting, outcomes, job);
        assert selected - (waiting - {job}) == selected - waiting + {job};
        results := results[job := outcomes(job)];
        waiting := waiting - {job};
      }
      assert selected - waiting == selected;
    }

    /** Inserts or replaces the results of each source. */
    method UnionResultsInto(sources: seq<Session>)
      requires this !in sources
      modifies this`results
      ensures State() == United(old(State()), RowsOf(sources))
    {
      ghost var all := RowsOf(sources);
      for k := 0 to |sources|
        invariant State() == United(old(State()), all[..k])
        invariant forall i :: 0 <= i < |sources| ==> sources[i].State() == all[i]
      {
        results := results + sources[k].results;
        assert all[..k + 1][..k] == all[..k];
      }
      assert all[..|sources|] == all;
    }
  }

  ghost function RowsOf(sessions: seq<Session>): (rows: seq<Rows>)
    reads sessions
    ensures |rows| == |sessions| && forall i :: 0 <= i < |sessions| ==> rows[i] == sessions[i].State()
  {
    seq(|sessions|, i requires 0 <= i < |sessions| reads sessions => sessions[i].State())
  }
}
