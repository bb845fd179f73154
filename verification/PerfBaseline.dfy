/** Performance reports: the one a run writes, the check it must pass to serve as a baseline,
    and the comparison of a run with its baseline (`_build_report`, `_load_baseline_report`,
    `_historical_comparison`, `_wall_time_partitions`).  Seconds are reals. */
module PerfBaseline {
  import opened Wrappers

  datatype TestResult = TestResult(
    nodeid: string, outcome: string, duration: real, phase: string, wasxfail: Option<string>, evidence: string)

  datatype Rss = Rss(sampler: string, peak: Option<int>, sampleCount: int, pollInterval: Option<real>)

  datatype Compatibility = Compatibility(
    pythonMajorMinor: string, platformSystem: string, platformMachine: string, polarsVersion: string)

  datatype Summary = Summary(
    exitCode: int, collected: int, reported: int, totalSeconds: real, outcomes: map<string, nat>,
    slowest: seq<TestResult>)

  datatype WallTime = WallTime(total: real, reported: real, overhead: real, tolerance: real)

  datatype Report = Report(
    schemaVersion: int, scale: string, compatibility: Compatibility, rss: Rss, wallTime: WallTime,
    summary: Summary, tests: seq<TestResult>)

  const TOLERANCE := 0.05

  // ------------------------------------------------------------ sums, tallies and the slowest tests

  function Sum(results: seq<TestResult>): real {
    if results == [] then 0.0 else Sum(results[..|results| - 1]) + results[|results| - 1].duration
  }

  function OutcomeKey(result: TestResult): string {
    if result.wasxfail.Some? && result.wasxfail.value != "" && result.outcome == "skipped" then "xfailed" else result.outcome
  }

  function Tally(results: seq<TestResult>): map<string, nat> {
    if results == [] then map[]
    else
      var before := Tally(results[..|results| - 1]);
      var key := OutcomeKey(results[|results| - 1]);
      before[key := (if key in before then before[key] else 0) + 1]
  }

  /** Seconds add up, test by test. */
  lemma {:induction false} SumAdds(a: seq<TestResult>, b: seq<TestResult>)
    ensures Sum(a + b) == Sum(a) + Sum(b)
    ensures |b| == 1 ==> Sum(b) == b[0].duration
  {
    if b == [] {
      assert a + b == a;
    } else {
      var rest := b[..|b| - 1];
      SumAdds(a, rest);
      assert (a + b)[..|a + b| - 1] == a + rest;
    }
  }

  /** The tally counts, under each outcome, the tests that ended so: an expected failure is a skipped
      test with the reason it was expected to fail. */
  lemma {:induction false} TallyCounts(results: seq<TestResult>, outcome: string)
    ensures (if outcome in Tally(results) then Tally(results)[outcome] else 0)
         == |Ended(results, outcome)|
  {
    if results != [] {
      var last := |results| - 1;
      var rest := results[..last];
      TallyCounts(rest, outcome);
      assert results == rest + [results[last]];
      OneMoreEnded(rest, results[last], outcome);
    }
  }

  lemma {:induction false} OneMoreEnded(results: seq<TestResult>, result: TestResult, outcome: string)
    ensures |Ended(results + [result], outcome)|
         == |Ended(results, outcome)| + if EndedAs(result, outcome) then 1 else 0
  {
    var here := if EndedAs(result, outcome) then {|results|} else {};
    forall i
      ensures i in Ended(results + [result], outcome) <==> i in Ended(results, outcome) + here
    {
      if 0 <= i < |results| {
        assert (results + [result])[i] == results[i];
      }
    }
    assert Ended(results + [result], outcome) == Ended(results, outcome) + here;
  }

  /** The places of the tests that ended so. */
  function Ended(results: seq<TestResult>, outcome: string): set<int> {
    set i | 0 <= i < |results| && EndedAs(results[i], outcome)
  }

  predicate EndedAs(result: TestResult, outcome: string) {
    var expected := result.outcome == "skipped" && match result.wasxfail case None => false case Some(reason) => |reason| > 0;
    (expected && outcome == "xfailed") || (!expected && outcome == result.outcome)
  }

  /** Inserts before the first test that is not slower than it. */
  function Insert(result: TestResult, sorted: seq<TestResult>): seq<TestResult> {
    if sorted == [] || result.duration >= sorted[0].duration then [result] + sorted
    else [sorted[0]] + Insert(result, sorted[1..])
  }

  /** The tests from the slowest on; tests that took equally long keep their order. */
  function BySlowness(results: seq<TestResult>): seq<TestResult> {
    if results == [] then [] else Insert(results[0], BySlowness(results[1..]))
  }

  function Slowest(results: seq<TestResult>): seq<TestResult> {
    var sorted := BySlowness(results);
    if |sorted| > 10 then sorted[..10] else sorted
  }

  predicate Descending(results: seq<TestResult>) {
    forall i, j :: 0 <= i < j < |results| ==> results[i].duration >= results[j].duration
  }

  function Lasting(results: seq<TestResult>, duration: real): seq<TestResult> {
    if results == [] then []
    else (if results[0].duration == duration then [results[0]] else []) + Lasting(results[1..], duration)
  }

  lemma {:induction false} InsertKeepsTests(result: TestResult, sorted: seq<TestResult>)
    ensures multiset(Insert(result, sorted)) == multiset(sorted) + multiset{result}
  {
    if sorted != [] && result.duration < sorted[0].duration {
      InsertKeepsTests(result, sorted[1..]);
      assert sorted == [sorted[0]] + sorted[1..];
    }
  }

  lemma {:induction false} InsertKeepsOrder(result: TestResult, sorted: seq<TestResult>)
    requires Descending(sorted)
    ensures Descending(Insert(result, sorted))
  {
    if sorted != [] && result.duration < sorted[0].duration {
      var rest := Insert(result, sorted[1..]);
      InsertKeepsOrder(result, sorted[1..]);
      InsertAddsOne(result, sorted[1..]);
      assert forall i :: 0 <= i < |rest| ==> rest[i] in rest;
    }
  }

  lemma {:induction false} InsertAddsOne(result: TestResult, sorted: seq<TestResult>)
    ensures forall t :: t in Insert(result, sorted) ==> t == result || t in sorted
  {
    if sorted != [] && result.duration < sorted[0].duration {
      InsertAddsOne(result, sorted[1..]);
    }
  }

  lemma {:induction false} InsertIsStable(result: TestResult, sorted: seq<TestResult>, d: real)
    ensures Lasting(Insert(result, sorted), d) == Lasting([result] + sorted, d)
  {
    assert ([result] + sorted)[1..] == sorted;
    if sorted != [] && result.duration < sorted[0].duration {
      var rest := sorted[1..];
      InsertIsStable(result, rest, d);
      assert ([sorted[0]] + Insert(result, rest))[1..] == Insert(result, rest);
      assert ([result] + rest)[1..] == rest;
    }
  }

  /** The stable sort: descending, of the same tests, equally slow ones in their own order. */
  lemma {:induction false} BySlownessSorts(results: seq<TestResult>, d: real)
    ensures Descending(BySlowness(results)) && multiset(BySlowness(results)) == multiset(results)
    ensures Lasting(BySlowness(results), d) == Lasting(results, d)
  {
    if results != [] {
      var sorted := BySlowness(results[1..]);
      BySlownessSorts(results[1..], d);
      InsertKeepsTests(results[0], sorted);
      InsertKeepsOrder(results[0], sorted);
      InsertIsStable(results[0], sorted, d);
      assert results == [results[0]] + results[1..] && ([results[0]] + sorted)[1..] == sorted;
    }
  }

  /** The tests outside the slowest ten, none of which is slower than one of those. */
  ghost predicate IsRest(results: seq<TestResult>, rest: seq<TestResult>) {
    && multiset(Slowest(results)) + multiset(rest) == multiset(results)
    && forall s, t :: s in Slowest(results) && t in rest ==> s.duration >= t.duration
  }

  /** No test outside the slowest ten is slower than one of them. */
  lemma {:induction false} SlowestAreSlowest(results: seq<TestResult>)
    ensures |Slowest(results)| == if |results| > 10 then 10 else |results|
    ensures exists rest :: IsRest(results, rest)
  {
    BySlownessSorts(results, 0.0);
    var sorted := BySlowness(results);
    assert |multiset(sorted)| == |multiset(results)|;
    var k := if |sorted| > 10 then 10 else |sorted|;
    assert Slowest(results) == sorted[..k];
    SplitDescending(sorted, k);
    assert IsRest(results, sorted[k..]);
  }

  lemma {:induction false} SplitDescending(sorted: seq<TestResult>, k: nat)
    requires Descending(sorted) && k <= |sorted|
    ensures multiset(sorted[..k]) + multiset(sorted[k..]) == multiset(sorted)
    ensures forall s, t :: s in sorted[..k] && t in sorted[k..] ==> s.duration >= t.duration
  {
    assert sorted == sorted[..k] + sorted[k..];
  }

  // ------------------------------------------------------------ the producer

  predicate WallTimePartitions(total: real, reported: real, overhead: real) {
    -TOLERANCE <= (reported + overhead) - total <= TOLERANCE
  }

  /** The report of a run, refused when its tests took longer than the run itself. */
  function BuildReport(
    exitCode: int, collected: int, total: real, results: seq<TestResult>, scale: string,
    compatibility: Compatibility, rss: Rss): (r: Option<Report>)
    ensures r.Some? <==> Sum(results) <= total + 0.05
    ensures r.Some? ==>
      && r.value.scale == scale && r.value.compatibility == compatibility && r.value.rss == rss
      && r.value.summary.exitCode == exitCode && r.value.summary.collected == collected
      && r.value.summary.totalSeconds == total && r.value.tests == results
    ensures r.Some? ==>
      var wall := r.value.wallTime;
      && wall.reported == Sum(results) && wall.overhead >= 0.0
      && (Sum(results) <= total ==> wall.reported + wall.overhead == total)
  {
    var reported := Sum(results);
    var slack := total - reported;
    var overhead := if slack > 0.0 then slack else 0.0;
    if slack < -TOLERANCE || !WallTimePartitions(total, reported, overhead) then None
    else Some(Report(
      4, scale, compatibility, rss, WallTime(total, reported, overhead, TOLERANCE),
      Summary(exitCode, collected, |results|, total, Tally(results), Slowest(results)), results))
  }

  // ------------------------------------------------------------ the consumer

  predicate ValidTest(test: TestResult) {
    && test.nodeid != "" && test.outcome == "passed" && test.phase == "call" && test.wasxfail.None?
    && test.duration >= 0.0
  }

  predicate DistinctTests(tests: seq<TestResult>) {
    forall i, j :: 0 <= i < j < |tests| ==> (tests[i].nodeid, tests[i].phase) != (tests[j].nodeid, tests[j].phase)
  }

  predicate ValidScenario(scale: string, compatibility: Compatibility) {
    && scale in {"ci", "1m", "10m"}
    && compatibility.pythonMajorMinor != "" && compatibility.platformSystem != ""
    && compatibility.platformMachine != "" && compatibility.polarsVersion != ""
  }

  predicate ValidRss(rss: Rss) {
    && rss.sampler != "" && rss.peak.Some? && rss.peak.value > 0 && rss.sampleCount > 0
    && rss.pollInterval.Some? && rss.pollInterval.value > 0.0
  }

  predicate ValidSummary(summary: Summary, tests: seq<TestResult>) {
    && summary.totalSeconds >= 0.0 && summary.exitCode == 0
    && summary.collected > 0 && summary.reported > 0
    && summary.reported == |tests| && summary.collected == summary.reported
    && summary.outcomes == map["passed" := summary.reported as nat]
  }

  predicate ConsistentWallTime(wall: WallTime, total: real, tests: seq<TestResult>) {
    && wall.total >= 0.0 && wall.reported >= 0.0 && wall.overhead >= 0.0
    && wall.tolerance == TOLERANCE && wall.total == total
    && -wall.tolerance <= wall.reported - Sum(tests) <= wall.tolerance
    && WallTimePartitions(wall.total, wall.reported, wall.overhead)
  }

  /** A report of a green run: every collected test passed in its call phase, once. */
  ghost predicate OfGreenRun(summary: Summary, tests: seq<TestResult>) {
    && summary.exitCode == 0 && summary.totalSeconds >= 0.0
    && |tests| > 0 && summary.collected == |tests| && summary.reported == |tests|
    && summary.outcomes == map["passed" := |tests|]
    && (forall i :: 0 <= i < |tests| ==>
          tests[i].nodeid != "" && tests[i].outcome == "passed" && tests[i].phase == "call"
          && tests[i].wasxfail == None && tests[i].duration >= 0.0)
    && forall i, j :: 0 <= i < j < |tests| ==> tests[i].nodeid != tests[j].nodeid
  }

  /** A memory peak was measured. */
  ghost predicate Measured(rss: Rss) {
    && rss.sampler != "" && rss.sampleCount >= 1
    && (exists peak :: rss.peak == Some(peak) && peak >= 1)
    && exists interval :: rss.pollInterval == Some(interval) && interval > 0.0
  }

  /** A known scale and a named environment. */
  ghost predicate Identified(scale: string, compatibility: Compatibility) {
    && (scale == "ci" || scale == "1m" || scale == "10m")
    && |compatibility.pythonMajorMinor| > 0 && |compatibility.platformSystem| > 0
    && |compatibility.platformMachine| > 0 && |compatibility.polarsVersion| > 0
  }

  /** The tests' seconds and what is left over make up the total, within a twentieth of a second. */
  ghost predicate Reconciled(wall: WallTime, total: real, tests: seq<TestResult>) {
    && wall.total == total && wall.total >= 0.0 && wall.reported >= 0.0 && wall.overhead >= 0.0
    && wall.tolerance == 0.05
    && -0.05 <= wall.reported - Sum(tests) <= 0.05
    && -0.05 <= wall.reported + wall.overhead - wall.total <= 0.05
  }

  /** Whether a report would serve as a baseline. */
  ghost predicate Acceptable(report: Report) {
    && report.schemaVersion == 4 && Identified(report.scale, report.compatibility) && Measured(report.rss)
    && OfGreenRun(report.summary, report.tests)
    && report.summary.slowest == Slowest(report.tests)
    && Reconciled(report.wallTime, report.summary.totalSeconds, report.tests)
  }

  /** Accepts a report as a baseline, checking its tests one after another. */
  method LoadBaselineReport(report: Report) returns (accepted: bool)
    ensures accepted <==> Acceptable(report)
  {
    if report.schemaVersion != 4 || !ValidScenario(report.scale, report.compatibility)
       || !ValidSummary(report.summary, report.tests) || !ValidRss(report.rss) {
      return false;
    }
    var identities: set<(string, string)> := {};
    for i := 0 to |report.tests|
      invariant forall j :: 0 <= j < i ==> ValidTest(report.tests[j])
      invariant identities == set j | 0 <= j < i :: (report.tests[j].nodeid, report.tests[j].phase)
      invariant DistinctTests(report.tests[..i])
    {
      var test := report.tests[i];
      if !ValidTest(test) {
        return false;
      }
      var identity := (test.nodeid, test.phase);
      if identity in identities {
        return false;
      }
      identities := identities + {identity};
    }
    assert report.tests[..|report.tests|] == report.tests;
    return report.summary.slowest == Slowest(report.tests)
        && ConsistentWallTime(report.wallTime, report.summary.totalSeconds, report.tests);
  }

  // ------------------------------------------------------------ what is produced is accepted

  lemma {:induction false} TallyOfPassed(results: seq<TestResult>)
    requires results != [] && forall i :: 0 <= i < |results| ==> results[i].outcome == "passed" && results[i].wasxfail == None
    ensures Tally(results) == map["passed" := |results|]
  {
    var rest, last := results[..|results| - 1], results[|results| - 1];
    assert last in results && OutcomeKey(last) == "passed";
    if rest != [] {
      TallyOfPassed(rest);
    }
  }

  lemma {:induction false} SumIsNonnegative(results: seq<TestResult>)
    requires forall i :: 0 <= i < |results| ==> results[i].duration >= 0.0
    ensures Sum(results) >= 0.0
  {
    if results != [] {
      SumIsNonnegative(results[..|results| - 1]);
    }
  }

  /** Every report that a green run builds is accepted as a baseline. */
  lemma {:induction false} GreenReportIsAccepted(
    exitCode: int, collected: int, total: real, results: seq<TestResult>, scale: string,
    compatibility: Compatibility, rss: Rss)
    requires exitCode == 0 && results != [] && collected == |results| && total >= 0.0
    requires forall i :: 0 <= i < |results| ==>
      results[i].nodeid != "" && results[i].outcome == "passed" && results[i].phase == "call"
      && results[i].wasxfail == None && results[i].duration >= 0.0
    requires forall i, j :: 0 <= i < j < |results| ==> results[i].nodeid != results[j].nodeid
    requires Measured(rss) && Identified(scale, compatibility)
    requires BuildReport(exitCode, collected, total, results, scale, compatibility, rss).Some?
    ensures Acceptable(BuildReport(exitCode, collected, total, results, scale, compatibility, rss).value)
  {
    TallyOfPassed(results);
    SumIsNonnegative(results);
  }

  // ------------------------------------------------------------ comparison with a baseline

  datatype Thresholds = Thresholds(total: real, rss: real, test: real, minTestBaseline: real)

  datatype Status = NotRequested | Incompatible | Compared

  datatype Violation = Regressed(name: string, current: real, limit: real) | NothingMaterial

  /** The passed call-phase tests by identity, a later one in place of an earlier. */
  function PassedTests(tests: seq<TestResult>): map<(string, string), TestResult> {
    if tests == [] then map[]
    else
      var last := tests[|tests| - 1];
      var before := PassedTests(tests[..|tests| - 1]);
      if last.outcome == "passed" && last.phase == "call" then before[(last.nodeid, last.phase) := last] else before
  }

  function Limit(prior: real, fraction: real): real {
    prior * (1.0 + fraction)
  }

  /** A limit is what was measured before and the allowed fraction of it. */
  lemma {:induction false} LimitIs(prior: real, fraction: real)
    ensures Limit(prior, fraction) == prior + fraction * prior
  {
  }

  predicate Material(prior: TestResult, t: Thresholds) {
    prior.duration >= t.minTestBaseline
  }

  predicate Compatible(report: Report, baseline: Report) {
    report.scale == baseline.scale && report.compatibility == baseline.compatibility
  }

  /** The regressions of a compared run, and the complaint that no test could be compared. */
  ghost predicate IsViolation(report: Report, baseline: Report, t: Thresholds, v: Violation) {
    var now, before := PassedTests(report.tests), PassedTests(baseline.tests);
    || (now.Keys == before.Keys && report.summary.totalSeconds > Limit(baseline.summary.totalSeconds, t.total)
        && v == Regressed("total_seconds", report.summary.totalSeconds, Limit(baseline.summary.totalSeconds, t.total)))
    || (now.Keys == before.Keys && report.rss.peak.Some? && baseline.rss.peak.Some?
        && report.rss.peak.value as real > Limit(baseline.rss.peak.value as real, t.rss)
        && v == Regressed("peak_rss_bytes", report.rss.peak.value as real, Limit(baseline.rss.peak.value as real, t.rss)))
    || (exists id :: id in now && TestRegressed(now, before, t, id, v))
    || (v == NothingMaterial && !SomethingMaterial(report, baseline, t))
  }

  ghost predicate TestRegressed(
    now: map<(string, string), TestResult>, before: map<(string, string), TestResult>, t: Thresholds,
    id: (string, string), v: Violation)
    requires id in now
  {
    && id in before && before[id].duration >= t.minTestBaseline
    && now[id].duration > Limit(before[id].duration, t.test)
    && v == Regressed("test:" + id.0, now[id].duration, Limit(before[id].duration, t.test))
  }

  ghost predicate SomethingMaterial(report: Report, baseline: Report, t: Thresholds) {
    exists id :: id in PassedTests(report.tests) && MaterialIn(baseline, t, id)
  }

  predicate MaterialIn(baseline: Report, t: Thresholds, id: (string, string)) {
    id in PassedTests(baseline.tests) && PassedTests(baseline.tests)[id].duration >= t.minTestBaseline
  }

  ghost predicate Passes(report: Report, baseline: Report, t: Thresholds) {
    forall v :: !IsViolation(report, baseline, t, v)
  }

  method HistoricalComparison(report: Report, baseline: Option<Report>, t: Thresholds)
    returns (status: Status, violations: seq<Violation>)
    ensures status == NotRequested <==> baseline.None?
    ensures status == Compared <==>
      baseline.Some? && report.scale == baseline.value.scale && report.compatibility == baseline.value.compatibility
    ensures status != Compared ==> violations == []
    ensures status == Compared ==> forall v :: v in violations <==> IsViolation(report, baseline.value, t, v)
  {
    if baseline.None? {
      return NotRequested, [];
    }
    var prior := baseline.value;
    if !Compatible(report, prior) {
      return Incompatible, [];
    }
    violations := [];
    var now, before := PassedTests(report.tests), PassedTests(prior.tests);
    if before.Keys == now.Keys {
      var limit := Limit(prior.summary.totalSeconds, t.total);
      if report.summary.totalSeconds > limit {
        violations := violations + [Regressed("total_seconds", report.summary.totalSeconds, limit)];
      }
      if report.rss.peak.Some? && prior.rss.peak.Some? {
        var peak, rssLimit := report.rss.peak.value as real, Limit(prior.rss.peak.value as real, t.rss);
        if peak > rssLimit {
          violations := violations + [Regressed("peak_rss_bytes", peak, rssLimit)];
        }
      }
    }
    ghost var suite := violations;
    var material := 0;
    var waiting := now.Keys;
    while waiting != {}
      invariant waiting <= now.Keys
      invariant material == 0 <==> forall id :: id in now && id !in waiting ==> !MaterialIn(prior, t, id)
      invariant material >= 0
      invariant forall v :: v in violations <==>
        v in suite || exists id :: id in now && id !in waiting && TestRegressed(now, before, t, id, v)
    {
      var id :| id in waiting;
      waiting := waiting - {id};
      if id in before && Material(before[id], t) {
        material := material + 1;
        var limit := Limit(before[id].duration, t.test);
        if now[id].duration > limit {
          var violation := Regressed("test:" + id.0, now[id].duration, limit);
          assert TestRegressed(now, before, t, id, violation);
          violations := violations + [violation];
        }
      }
    }
    if material == 0 {
      violations := violations + [NothingMaterial];
    }
    status := Compared;
  }

  /** Compared with itself, a report shows no regression, and passes exactly when some test is
      material. */
  lemma {:induction false} SelfComparisonPassesIffMaterial(report: Report, t: Thresholds)
    requires t.total >= 0.0 && t.rss >= 0.0 && t.test >= 0.0 && Acceptable(report)
    ensures Compatible(report, report)
    ensures forall v :: IsViolation(report, report, t, v) ==> v == NothingMaterial
    ensures Passes(report, report, t) <==> SomethingMaterial(report, report, t)
  {
    WithinOwnLimit(report.summary.totalSeconds, t.total);
    WithinOwnLimit(report.rss.peak.value as real, t.rss);
    PassedAreAmongTests(report.tests);
    forall id | id in PassedTests(report.tests)
      ensures PassedTests(report.tests)[id].duration <= Limit(PassedTests(report.tests)[id].duration, t.test)
    {
      WithinOwnLimit(PassedTests(report.tests)[id].duration, t.test);
    }
    if !SomethingMaterial(report, report, t) {
      assert IsViolation(report, report, t, NothingMaterial);
    }
  }

  lemma {:induction false} WithinOwnLimit(value: real, fraction: real)
    requires value >= 0.0 && fraction >= 0.0
    ensures value <= Limit(value, fraction)
  {
    assert value * fraction >= 0.0;
  }

  /** The tests compared: those that passed in the call phase, each as it was last reported. */
  lemma {:induction false} PassedTestsAre(tests: seq<TestResult>, id: (string, string))
    ensures id in PassedTests(tests) <==> exists k :: 0 <= k < |tests| && PassedAs(tests[k], id)
    ensures id in PassedTests(tests) ==>
      exists k :: 0 <= k < |tests| && PassedTests(tests)[id] == tests[k] && PassedAs(tests[k], id)
                  && forall l :: k < l < |tests| ==> !PassedAs(tests[l], id)
  {
    if tests != [] {
      var last := |tests| - 1;
      var rest := tests[..last];
      PassedTestsAre(rest, id);
      assert forall k :: 0 <= k < last ==> tests[k] == rest[k];
      if PassedAs(tests[last], id) {
        assert PassedTests(tests)[id] == tests[last];
      } else if id in PassedTests(rest) {
        var k :| 0 <= k < last && PassedTests(rest)[id] == rest[k] && PassedAs(rest[k], id)
                 && forall l :: k < l < last ==> !PassedAs(rest[l], id);
        assert PassedTests(tests)[id] == tests[k] && PassedAs(tests[k], id);
        assert forall l :: k < l < |tests| ==> !PassedAs(tests[l], id);
      }
    }
  }

  predicate PassedAs(test: TestResult, id: (string, string)) {
    test.outcome == "passed" && test.phase == "call" && id == (test.nodeid, test.phase)
  }

  lemma {:induction false} PassedAreAmongTests(tests: seq<TestResult>)
    ensures forall id :: id in PassedTests(tests) ==> PassedTests(tests)[id] in tests
  {
    if tests != [] {
      PassedAreAmongTests(tests[..|tests| - 1]);
    }
  }

  function Power(base: real, exponent: nat): real {
    if exponent == 0 then 1.0 else base * Power(base, exponent - 1)
  }

  /** Each report of the chain passed its comparison with the one before, on the same tests. */
  ghost predicate AcceptedChain(chain: seq<Report>, t: Thresholds) {
    forall k :: 0 < k < |chain| ==>
      PassedTests(chain[k].tests).Keys == PassedTests(chain[k - 1].tests).Keys && Passes(chain[k], chain[k - 1], t)
  }

  /** Along a chain of accepted runs of the same tests the total time grows at most by the
      allowed fraction each time. */
  lemma {:induction false} ChainBoundsTotal(chain: seq<Report>, t: Thresholds, k: nat)
    requires t.total >= 0.0 && AcceptedChain(chain, t) && k < |chain|
    ensures chain[k].summary.totalSeconds <= chain[0].summary.totalSeconds * Power(1.0 + t.total, k)
  {
    if k > 0 {
      ChainBoundsTotal(chain, t, k - 1);
      TotalWithinLimit(chain[k], chain[k - 1], t);
      GrowthStep(chain[0].summary.totalSeconds, Power(1.0 + t.total, k - 1), 1.0 + t.total,
                 chain[k - 1].summary.totalSeconds, chain[k].summary.totalSeconds);
    }
  }

  lemma {:induction false} TotalWithinLimit(report: Report, baseline: Report, t: Thresholds)
    requires PassedTests(report.tests).Keys == PassedTests(baseline.tests).Keys && Passes(report, baseline, t)
    ensures report.summary.totalSeconds <= baseline.summary.totalSeconds * (1.0 + t.total)
  {
    var now, before := report.summary.totalSeconds, baseline.summary.totalSeconds;
    assert !IsViolation(report, baseline, t, Regressed("total_seconds", now, Limit(before, t.total)));
  }

  lemma {:induction false} GrowthStep(first: real, power: real, growth: real, before: real, now: real)
    requires growth >= 0.0 && before <= first * power && now <= before * growth
    ensures now <= first * (growth * power)
  {
    ProductNonNegative(first * power - before, growth);
    assert (first * power - before) * growth == first * (growth * power) - before * growth;
  }

  lemma {:induction false} ProductNonNegative(a: real, b: real)
    requires a >= 0.0 && b >= 0.0
    ensures a * b >= 0.0
  {
  }
}
