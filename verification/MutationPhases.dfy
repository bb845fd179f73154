/** The runs built from sharding: the local run of one target and the plan, exec-shard and
    merge phases (`_run_target`, `_phase_plan`, `_phase_exec_shard`, `_phase_merge`). */
module MutationPhases {
  import opened Wrappers
  import opened MutationSessions
  import opened MutationSharding

  /** One `cosmic-ray exec`: the jobs it got done before it ended or was stopped, and what it exited
      with. */
  datatype Execution = Execution(done: set<Job>, returncode: int)

  /** The survival rate read from a session's results, when one can be read. */
  type SurvivalRate = map<Job, WorkResult> -> Option<real>

  predicate RateWithin(rows: Rows, rate: SurvivalRate, failOver: real) {
    rate(rows.results).Some? && rate(rows.results).value <= failOver
  }

  datatype Stage = ReportStage | RateStage | HtmlStage

  /** What the stages that report on a session exited with. */
  datatype Reports = Reports(report: int, rate: int, html: int)

  predicate ExitedWith(reports: Reports, stage: Stage, code: int) {
    match stage
    case ReportStage => code == reports.report
    case RateStage => code == reports.rate
    case HtmlStage => code == reports.html
  }

  predicate Reported(reports: Reports) {
    reports.report == 0 && reports.rate == 0 && reports.html == 0
  }

  /** What a run holds against a session when it judges it: a report stage that exited with
      another code than zero, too few results, and the survival rate. */
  datatype Fault =
    | StageFailed(stage: Stage, code: int)
    | SessionIncomplete(results: nat, items: nat)
    | RateUnreadable
    | RateExceeded

  /** The faults of a session, each exactly when there is cause for it. */
  ghost predicate FaultsOf(faults: seq<Fault>, rows: Rows, reports: Reports, rate: SurvivalRate, failOver: real) {
    && (forall stage, code :: StageFailed(stage, code) in faults <==>
          code != 0 && ExitedWith(reports, stage, code))
    && (forall results, items :: SessionIncomplete(results, items) in faults <==>
          results == |rows.results| && items == |rows.items| && results != items)
    && (RateUnreadable in faults <==> rate(rows.results).None?)
    && (RateExceeded in faults <==> rate(rows.results).Some? && rate(rows.results).value > failOver)
  }

  lemma {:induction false} NoFaults(
    faults: seq<Fault>, rows: Rows, reports: Reports, rate: SurvivalRate, failOver: real)
    requires FaultsOf(faults, rows, reports, rate, failOver)
    ensures faults == [] <==> CountsMatch(rows) && Reported(reports) && RateWithin(rows, rate, failOver)
  {
    if faults == [] {
      assert StageFailed(ReportStage, reports.report) !in faults;
      assert StageFailed(RateStage, reports.rate) !in faults && StageFailed(HtmlStage, reports.html) !in faults;
      assert SessionIncomplete(|rows.results|, |rows.items|) !in faults;
    } else {
      match faults[0]
      case StageFailed(stage, code) => assert StageFailed(stage, code) in faults;
      case SessionIncomplete(results, items) => assert SessionIncomplete(results, items) in faults;
      case RateUnreadable => assert RateUnreadable in faults;
      case RateExceeded => assert RateExceeded in faults;
    }
  }

  /** The verdict of a target run in one session to its end, which the others must agree with. */
  ghost predicate UnshardedPasses(base: Rows, outcomes: Outcomes, rate: SurvivalRate, failOver: real) {
    RateWithin(FullyExecuted(base, outcomes), rate, failOver)
  }

  // ------------------------------------------------------------ the local run

  /** As many shards as asked for, but one without asking, no more than there are pending jobs, and
      never none. */
  function LocalShardCount(shards: Option<int>, pending: nat): (count: nat)
    ensures count >= 1
    ensures shards.None? || shards.value < 1 || pending == 0 ==> count == 1
    ensures shards.Some? && 1 <= shards.value <= pending ==> count == shards.value
    ensures shards.Some? && shards.value > pending > 0 ==> count == pending
  {
    var asked := if shards.Some? then shards.value else 1;
    var possible := if pending == 0 then 1 else pending;
    var count := if asked < possible then asked else possible;
    if count > 1 then count else 1
  }

  /** Every execution of the run exits zero and is not stopped before its pending jobs are done. */
  ghost predicate RunsClean(base: Rows, count: nat, executions: nat -> Execution)
    requires count > 0
  {
    && AllExitZero(executions, count)
    && if count == 1 then JobSet(Pending(base)) <= executions(0).done else AllRunToEnd(base, count, executions)
  }

  /** The first executions exit zero. */
  ghost predicate AllExitZero(executions: nat -> Execution, count: nat) {
    forall i: nat :: i < count ==> executions(i).returncode == 0
  }

  /** No shard's execution is stopped before the shard's pending jobs are done. */
  ghost predicate AllRunToEnd(base: Rows, count: nat, executions: nat -> Execution)
    requires count > 0
  {
    forall i: nat :: i < count ==> RunsToItsEnd(base, count, i, executions(i).done)
  }

  /** What a run leaves in its session: results any execution records, complete exactly when
      they are the unsharded run's. */
  ghost predicate LeavesRun(base: Rows, outcomes: Outcomes, rows: Rows) {
    && ValidRows(rows) && AsAnyExecutionRecords(base, outcomes, rows)
    && (CountsMatch(rows) <==> rows == FullyExecuted(base, outcomes))
  }

  /** One target from its initialised session to its verdict, sharded or not. */
  method RunTarget(
    session: Session, outcomes: Outcomes, executions: nat -> Execution, shards: Option<int>,
    reports: Reports, rate: SurvivalRate, failOver: real) returns (passed: bool)
    requires ValidRows(session.State())
    modifies session`results
    ensures LeavesRun(old(session.State()), outcomes, session.State())
    ensures var base := old(session.State());
      passed <==>
        && AllExitZero(executions, LocalShardCount(shards, |Pending(base)|)) && CountsMatch(session.State())
        && Reported(reports) && UnshardedPasses(base, outcomes, rate, failOver)
    ensures var base := old(session.State());
      RunsClean(base, LocalShardCount(shards, |Pending(base)|), executions) ==>
        && session.State() == FullyExecuted(base, outcomes)
        && (passed <==> Reported(reports) && UnshardedPasses(base, outcomes, rate, failOver))
  {
    ghost var base := session.State();
    var pending := session.PendingJobIds();
    var count := LocalShardCount(shards, |pending|);
    var allZero := true;
    if count <= 1 {
      session.Exec(outcomes, executions(0).done);
      allZero := executions(0).returncode == 0;
      UnshardedExecution(base, outcomes, executions(0).done);
    } else {
      allZero := ExecSharded(session, count, outcomes, executions);
    }
    var faults := Judge(session, reports, rate, failOver);
    passed := allZero && faults == [];
  }

  /** The sharded half of the run: slice, execute each slice, unite. */
  method ExecSharded(session: Session, count: nat, outcomes: Outcomes, executions: nat -> Execution)
    returns (allZero: bool)
    requires ValidRows(session.State()) && count > 1
    modifies session`results
    ensures LeavesRun(old(session.State()), outcomes, session.State())
    ensures allZero <==> AllExitZero(executions, count)
    ensures AllRunToEnd(old(session.State()), count, executions) ==>
      session.State() == FullyExecuted(old(session.State()), outcomes)
  {
    ghost var base := session.State();
    var shardSessions;
    shardSessions, allZero := ExecShards(session, count, outcomes, executions);
    ghost var rows := RowsOf(shardSessions);
    ShardedExecution(base, count, outcomes, executions, rows);
    session.UnionResultsInto(shardSessions);
  }

  /** Slices every shard from the session and executes it. */
  method ExecShards(session: Session, count: nat, outcomes: Outcomes, executions: nat -> Execution)
    returns (shardSessions: seq<Session>, allZero: bool)
    requires count > 1
    ensures session !in shardSessions && |shardSessions| == count
    ensures ShardsOfExecutions(session.State(), count, outcomes, executions, RowsOf(shardSessions))
    ensures allZero <==> AllExitZero(executions, count)
  {
    ghost var base := session.State();
    var pending := session.PendingJobIds();
    var buckets := PartitionJobIds(pending, count);
    shardSessions, allZero := [], true;
    ghost var rows: seq<Rows> := [];
    for i := 0 to count
      invariant session !in shardSessions && |shardSessions| == |rows| == i
      invariant RowsOf(shardSessions) == rows
      invariant ShardsOfExecutions(base, count, outcomes, executions, rows)
      invariant allZero <==> AllExitZero(executions, i)
    {
      var shard := ExecShard(session, buckets.value[i], outcomes, executions(i));
      assert RowsOf(shardSessions) == rows;
      OneMoreExecution(base, count, outcomes, executions, rows, shard.State());
      allZero := allZero && executions(i).returncode == 0;
      rows := rows + [shard.State()];
      shardSessions := shardSessions + [shard];
    }
  }

  /** One shard sliced from a session and executed. */
  method ExecShard(session: Session, bucket: seq<Job>, outcomes: Outcomes, execution: Execution) returns (shard: Session)
    ensures fresh(shard)
    ensures shard.State() == Executed(Sliced(session.State(), JobSet(bucket)), outcomes, execution.done)
  {
    shard := new Session.Slice(session, bucket);
    shard.Exec(outcomes, execution.done);
  }

  /** The first shards of the base session, each as its execution left it. */
  ghost predicate ShardsOfExecutions(
    base: Rows, count: nat, outcomes: Outcomes, executions: nat -> Execution, shards: seq<Rows>)
    requires count > 0
  {
    forall k: nat :: k < |shards| ==> shards[k] == ShardRows(base, count, k, outcomes, executions(k).done)
  }

  lemma {:induction false} OneMoreExecution(
    base: Rows, count: nat, outcomes: Outcomes, executions: nat -> Execution, shards: seq<Rows>, shard: Rows)
    requires count > 0 && ShardsOfExecutions(base, count, outcomes, executions, shards)
    requires shard == ShardRows(base, count, |shards|, outcomes, executions(|shards|).done)
    ensures ShardsOfExecutions(base, count, outcomes, executions, shards + [shard])
  {
  }

  lemma {:induction false} UnshardedExecution(base: Rows, outcomes: Outcomes, done: set<Job>)
    requires ValidRows(base)
    ensures LeavesRun(base, outcomes, Executed(base, outcomes, done))
    ensures JobSet(Pending(base)) <= done ==> Executed(base, outcomes, done) == FullyExecuted(base, outcomes)
  {
    CompleteIsFull(base, outcomes, Executed(base, outcomes, done));
    if JobSet(Pending(base)) <= done {
      ExecutedToTheEnd(base, outcomes, done);
    }
  }

  lemma {:induction false} ShardedExecution(
    base: Rows, count: nat, outcomes: Outcomes, executions: nat -> Execution, shards: seq<Rows>)
    requires ValidRows(base) && count > 0 && |shards| == count
    requires ShardsOfExecutions(base, count, outcomes, executions, shards)
    ensures LeavesRun(base, outcomes, United(base, shards))
    ensures AllRunToEnd(base, count, executions) ==> United(base, shards) == FullyExecuted(base, outcomes)
  {
    EachIsShard(base, count, outcomes, executions, shards);
    ShardsLeaveRun(base, count, outcomes, shards);
    if AllRunToEnd(base, count, executions) {
      AllShardsInOrder(base, count, outcomes, executions, shards);
    }
  }

  lemma {:induction false} ShardsLeaveRun(base: Rows, count: nat, outcomes: Outcomes, shards: seq<Rows>)
    requires ValidRows(base) && count > 0 && AllShardsOf(base, count, outcomes, shards)
    ensures LeavesRun(base, outcomes, United(base, shards))
  {
    UnitedResults(base, count, outcomes, shards);
    CompleteMergeIsUnsharded(base, count, outcomes, shards);
  }

  lemma {:induction false} EachIsShard(
    base: Rows, count: nat, outcomes: Outcomes, executions: nat -> Execution, shards: seq<Rows>)
    requires count > 0 && |shards| == count
    requires ShardsOfExecutions(base, count, outcomes, executions, shards)
    ensures AllShardsOf(base, count, outcomes, shards)
  {
    forall k: nat | k < count
      ensures IsShardOf(base, count, outcomes, shards[k])
    {
      var done := executions(k).done;
      assert shards[k] == ShardRows(base, count, k, outcomes, done);
    }
  }

  lemma {:induction false} AllShardsInOrder(
    base: Rows, count: nat, outcomes: Outcomes, executions: nat -> Execution, shards: seq<Rows>)
    requires ValidRows(base) && count > 0 && |shards| == count
    requires ShardsOfExecutions(base, count, outcomes, executions, shards)
    requires AllRunToEnd(base, count, executions)
    ensures United(base, shards) == FullyExecuted(base, outcomes)
  {
    var order: seq<nat> := seq(count, i requires 0 <= i => i);
    var dones: seq<set<Job>> := seq(count, i requires 0 <= i => executions(i).done);
    forall i: nat | i < count
      ensures i in order
    {
      assert order[i] == i;
    }
    ShardedEqualsUnsharded(base, count, outcomes, order, dones, shards);
  }

  // ------------------------------------------------------------ plan

  /** A selected target: its initialised session, unless its initialisation failed, and its cap. */
  datatype Target = Target(name: string, session: Option<Rows>, cap: nat)

  datatype ShardJob = ShardJob(target: string, index: nat, count: nat)

  function PlannedCount(target: Target): nat
    requires target.session.Some? && target.cap > 0
  {
    ShardCountForPending(|Pending(target.session.value)|, target.cap).value
  }

  /** The shard jobs of one target: each index below its count, once. */
  function ShardJobs(target: Target): seq<ShardJob>
    requires target.cap > 0
  {
    if target.session.None? then []
    else seq(PlannedCount(target), i requires 0 <= i => ShardJob(target.name, i, PlannedCount(target)))
  }

  function PlannedShards(targets: seq<Target>): seq<ShardJob>
    requires forall t :: t in targets ==> t.cap > 0
  {
    if targets == [] then []
    else PlannedShards(targets[..|targets| - 1]) + ShardJobs(targets[|targets| - 1])
  }

  /** The job is for a shard of this target's session, sliced into as few shards as keep every one
      of them within the cap. */
  ghost predicate IsShardJobOf(job: ShardJob, target: Target) {
    && target.session.Some? && job.target == target.name && job.index < job.count
    && FitsLeast(Pending(target.session.value), target.cap, job.count)
  }

  lemma {:induction false} ShardJobsAre(target: Target, job: ShardJob)
    requires target.cap > 0
    ensures job in ShardJobs(target) <==> IsShardJobOf(job, target)
  {
    if target.session.Some? {
      var jobs := Pending(target.session.value);
      ShardCountIsLeast(jobs, target.cap);
      if IsShardJobOf(job, target) {
        FitsLeastIsUnique(jobs, target.cap, job.count, PlannedCount(target));
        assert ShardJobs(target)[job.index] == job;
      }
    }
  }

  /** A job is planned exactly when it is for a shard of a target whose session was initialised. */
  lemma {:induction false} PlanHoldsEveryShard(targets: seq<Target>, job: ShardJob)
    requires forall t :: t in targets ==> t.cap > 0
    ensures job in PlannedShards(targets) <==> exists t :: t in targets && IsShardJobOf(job, t)
  {
    if targets != [] {
      var last := targets[|targets| - 1];
      var rest := targets[..|targets| - 1];
      PlanHoldsEveryShard(rest, job);
      ShardJobsAre(last, job);
      assert targets == rest + [last];
    }
  }

  datatype Plan = Plan(shards: seq<ShardJob>, matrix: seq<ShardJob>, overflow: seq<ShardJob>)

  method PhasePlan(targets: seq<Target>) returns (plan: Plan, exit: int)
    requires forall t :: t in targets ==> t.cap > 0
    ensures plan.shards == PlannedShards(targets) && plan.matrix + plan.overflow == plan.shards
    ensures forall job :: job in plan.shards <==> exists t :: t in targets && IsShardJobOf(job, t)
    ensures exit == 0 <==> AllInitialised(targets) && |plan.shards| <= 512
    ensures exit == 0 ==> |plan.matrix| <= 256 && |plan.overflow| <= 256
    ensures exit == 0 || exit == 1
  {
    var shards, failures := PlanTargets(targets);
    var matrices := ShardMatrices(shards);
    if matrices.None? {
      failures := failures + 1;
      plan := Plan(shards, shards[..MAX_MATRIX_SHARDS], shards[MAX_MATRIX_SHARDS..]);
    } else {
      plan := Plan(shards, matrices.value.0, matrices.value.1);
    }
    exit := if failures > 0 then 1 else 0;
    forall job
      ensures job in plan.shards <==> exists t :: t in targets && IsShardJobOf(job, t)
    {
      PlanHoldsEveryShard(targets, job);
    }
  }

  ghost predicate AllInitialised(targets: seq<Target>) {
    forall t :: t in targets ==> t.session.Some?
  }

  /** Initialises every target, plans its shards and counts the failed initialisations. */
  method PlanTargets(targets: seq<Target>) returns (shards: seq<ShardJob>, failures: nat)
    requires forall t :: t in targets ==> t.cap > 0
    ensures shards == PlannedShards(targets)
    ensures failures == 0 <==> AllInitialised(targets)
  {
    shards, failures := [], 0;
    for i := 0 to |targets|
      invariant shards == PlannedShards(targets[..i])
      invariant failures == 0 <==> AllInitialised(targets[..i])
    {
      assert targets[..i + 1] == targets[..i] + [targets[i]];
      assert targets[..i + 1][..i] == targets[..i];
      if targets[i].session.None? {
        failures := failures + 1;
      } else {
        shards := PlanTarget(targets[i], shards);
      }
    }
    assert targets[..|targets|] == targets;
  }

  /** Plans the shards of one initialised target behind those planned so far. */
  method PlanTarget(target: Target, planned: seq<ShardJob>) returns (shards: seq<ShardJob>)
    requires target.session.Some? && target.cap > 0
    ensures shards == planned + ShardJobs(target)
  {
    shards := planned;
    var count := PlannedCount(target);
    for index := 0 to count
      invariant shards == planned + ShardJobs(target)[..index]
    {
      shards := shards + [ShardJob(target.name, index, count)];
    }
  }

  // ------------------------------------------------------------ exec-shard

  /** Slices one shard from the shared session and executes it. */
  method PhaseExecShard(session: Session, count: int, index: int, outcomes: Outcomes, execution: Execution)
    returns (shard: Option<Session>, exit: int)
    ensures shard.None? <==> count < 1 || index < 0 || index >= count
    ensures shard.Some? ==> fresh(shard.value)
    ensures shard.Some? ==>
      shard.value.State() == ShardRows(session.State(), count, index, outcomes, execution.done)
    ensures exit == 0 <==> shard.Some? && CountsMatch(shard.value.State()) && execution.returncode == 0
    ensures exit == 0 || exit == 1
  {
    var pending := session.PendingJobIds();
    var buckets := PartitionJobIds(pending, count);
    if buckets.None? || !(0 <= index < |buckets.value|) {
      return None, 1;
    }
    var sliced := ExecShard(session, buckets.value[index], outcomes, execution);
    var complete := |sliced.results| == |sliced.items|;
    return Some(sliced), if complete && execution.returncode == 0 then 0 else 1;
  }

  // ------------------------------------------------------------ merge

  datatype MergeFailure =
    | MissingInitSession
    | WrongShardCount(expected: nat, found: nat)
    | Faulty(fault: Fault)

  /** A planned target: its initialised session, the shard sessions found for it, how many were
      planned, and what judging its union reads. */
  datatype PlannedMerge = PlannedMerge(
    base: Option<Session>, shards: seq<Session>, count: nat, reports: Reports, rate: SurvivalRate, failOver: real)

  ghost function Merged(target: PlannedMerge): Rows
    requires target.base.Some?
    reads target.base.value, target.shards
  {
    United(target.base.value.State(), RowsOf(target.shards))
  }

  /** The union of a target's shards passes the gate. */
  ghost predicate Passes(target: PlannedMerge)
    reads if target.base.Some? then {target.base.value} else {}, target.shards
  {
    && target.base.Some? && |target.shards| == target.count
    && CountsMatch(Merged(target)) && Reported(target.reports)
    && RateWithin(Merged(target), target.rate, target.failOver)
  }

  /** Unites one target's shard sessions onto a copy of its initialised session and judges it. */
  method PhaseMerge(target: PlannedMerge) returns (merged: Option<Session>, failures: seq<MergeFailure>)
    ensures merged.Some? <==> target.base.Some?
    ensures merged.Some? ==> fresh(merged.value) && merged.value.State() == Merged(target)
    ensures failures == [] <==> Passes(target)
    ensures MissingInitSession in failures <==> target.base.None?
    ensures merged.None? ==> failures == [MissingInitSession]
    ensures merged.Some? ==> forall expected, found :: WrongShardCount(expected, found) in failures <==>
      expected == target.count && found == |target.shards| && found != expected
    ensures merged.Some? ==> exists faults ::
      && FaultsOf(faults, Merged(target), target.reports, target.rate, target.failOver)
      && forall fault :: Faulty(fault) in failures <==> fault in faults
  {
    if target.base.None? {
      return None, [MissingInitSession];
    }
    var base := target.base.value;
    var copy := new Session(Rows(base.items, base.specs, base.results));
    if target.shards != [] {
      copy.UnionResultsInto(target.shards);
    }
    var faults := Judge(copy, target.reports, target.rate, target.failOver);
    return Some(copy), CountFailure(target.count, |target.shards|) + AsFailures(faults);
  }

  function CountFailure(expected: nat, found: nat): (failures: seq<MergeFailure>)
    ensures failures == [] <==> found == expected
    ensures forall failure :: failure in failures <==> found != expected && failure == WrongShardCount(expected, found)
  {
    if found == expected then [] else [WrongShardCount(expected, found)]
  }

  function AsFailures(faults: seq<Fault>): (failures: seq<MergeFailure>)
    ensures |failures| == |faults|
    ensures forall failure :: failure in failures <==> failure.Faulty? && failure.fault in faults
  {
    if faults == [] then [] else AsFailures(faults[..|faults| - 1]) + [Faulty(faults[|faults| - 1])]
  }

  function StageFault(stage: Stage, code: int): seq<Fault> {
    if code == 0 then [] else [StageFailed(stage, code)]
  }

  function StageFaults(reports: Reports): (faults: seq<Fault>)
    ensures forall fault :: fault in faults <==>
      fault.StageFailed? && fault.code != 0 && ExitedWith(reports, fault.stage, fault.code)
  {
    StageFault(ReportStage, reports.report) + StageFault(RateStage, reports.rate) + StageFault(HtmlStage, reports.html)
  }

  /** What the count test, the report stages and the survival gate hold against a session. */
  method Judge(session: Session, reports: Reports, rate: SurvivalRate, failOver: real) returns (faults: seq<Fault>)
    ensures FaultsOf(faults, session.State(), reports, rate, failOver)
    ensures faults == [] <==>
      CountsMatch(session.State()) && Reported(reports) && RateWithin(session.State(), rate, failOver)
  {
    faults := StageFaults(reports);
    if |session.results| != |session.items| {
      faults := [SessionIncomplete(|session.results|, |session.items|)] + faults;
    }
    var survival := rate(session.results);
    if survival.None? {
      faults := faults + [RateUnreadable];
    } else if survival.value > failOver {
      faults := faults + [RateExceeded];
    }
    NoFaults(faults, session.State(), reports, rate, failOver);
  }

  /** The merge phase: 0 exactly when the union of every planned target passes, otherwise 1. */
  method PhaseMergeAll(targets: seq<PlannedMerge>) returns (exit: int)
    ensures exit == 0 <==> forall k :: 0 <= k < |targets| ==> Passes(targets[k])
    ensures exit == 0 || exit == 1
  {
    var failed := false;
    for k := 0 to |targets|
      invariant failed <==> exists l :: 0 <= l < k && !Passes(targets[l])
    {
      var merged, failures := PhaseMerge(targets[k]);
      failed := failed || failures != [];
    }
    return if failed then 1 else 0;
  }

  /** Whatever was lost, stopped, reordered or repeated, the union of one target's shards passes
      the count test and the survival gate exactly when every pending job was recorded by one of
      them and the unsharded run passes; and then it is the unsharded session. */
  lemma {:induction false} MergePassesIffUnshardedPasses(
    base: Rows, count: nat, outcomes: Outcomes, shards: seq<Rows>, rate: SurvivalRate, failOver: real)
    requires count > 0 && ValidRows(base) && AllShardsOf(base, count, outcomes, shards)
    ensures CountsMatch(United(base, shards)) && RateWithin(United(base, shards), rate, failOver) <==>
      (forall j :: j in Pending(base) ==> RecordedBy(shards, j)) && UnshardedPasses(base, outcomes, rate, failOver)
    ensures CountsMatch(United(base, shards)) ==> United(base, shards) == FullyExecuted(base, outcomes)
  {
    CompleteMergeIsUnsharded(base, count, outcomes, shards);
  }

  /** A target all of whose planned shards ran to their ends passes exactly when its unsharded run
      does, once the report stages exited zero. */
  lemma {:induction false} FinishedShardsPassAsUnsharded(
    target: PlannedMerge, outcomes: Outcomes, executions: nat -> Execution)
    requires target.base.Some? && ValidRows(target.base.value.State())
    requires target.count > 0 && |target.shards| == target.count
    requires ShardsOfExecutions(target.base.value.State(), target.count, outcomes, executions, RowsOf(target.shards))
    requires AllRunToEnd(target.base.value.State(), target.count, executions)
    ensures Passes(target) <==>
      Reported(target.reports)
      && UnshardedPasses(target.base.value.State(), outcomes, target.rate, target.failOver)
  {
    var base, rows := target.base.value.State(), RowsOf(target.shards);
    ShardedExecution(base, target.count, outcomes, executions, rows);
  }
}
