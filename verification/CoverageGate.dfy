/** Changed-line coverage and its verdict (`evaluate_changed_coverage`, `_percent_covered` and
    `_print_results`). */
module CoverageGate {
  import opened Wrappers

  type Arc = (int, int)

  datatype FileCoverage = FileCoverage(
    executedLines: set<int>, missingLines: set<int>, executedBranches: set<Arc>, missingBranches: set<Arc>)

  /** The artifact loader refuses a file with evidence on both sides. */
  predicate Consistent(file: FileCoverage) {
    file.executedLines !! file.missingLines && file.executedBranches !! file.missingBranches
  }

  type Artifact = map<string, FileCoverage>

  datatype Config = Config(paths: set<string>, minStatement: real, minBranch: real)

  /** The config loader keeps the minimums between 0 and 100. */
  predicate ValidConfig(config: Config) {
    0.0 <= config.minStatement <= 100.0 && 0.0 <= config.minBranch <= 100.0
  }

  datatype CoverageResult = CoverageResult(
    statementTargets: nat, branchTargets: nat, missingLines: set<int>, missingBranches: set<Arc>)

  // ------------------------------------------------------------ one file

  function Executable(file: FileCoverage): set<int> {
    file.executedLines + file.missingLines
  }

  function Arcs(file: FileCoverage): set<Arc> {
    file.executedBranches + file.missingBranches
  }

  function Endpoints(arcs: set<Arc>): set<int> {
    (set arc | arc in arcs && arc.0 > 0 :: arc.0) + (set arc | arc in arcs && arc.1 > 0 :: arc.1)
  }

  predicate Touches(arc: Arc, lines: set<int>) {
    (arc.0 > 0 && arc.0 in lines) || (arc.1 > 0 && arc.1 in lines)
  }

  /** The lines counted as changed: all the artifact knows of an untracked file. */
  function ChangedLines(
    file: FileCoverage, path: string, changed: map<string, set<int>>, untracked: set<string>): set<int>
  {
    if path in untracked then Executable(file) + Endpoints(Arcs(file))
    else if path in changed then changed[path] else {}
  }

  function TouchedArcs(file: FileCoverage, lines: set<int>): set<Arc> {
    set arc | arc in Arcs(file) && Touches(arc, lines)
  }

  function MissingLines(file: FileCoverage, lines: set<int>): set<int> {
    Executable(file) * lines * file.missingLines
  }

  function MissingBranches(file: FileCoverage, lines: set<int>): set<Arc> {
    TouchedArcs(file, lines) * file.missingBranches
  }

  function ResultFor(file: FileCoverage, lines: set<int>): CoverageResult {
    CoverageResult(|Executable(file) * lines|, |TouchedArcs(file, lines)|,
                   MissingLines(file, lines), MissingBranches(file, lines))
  }

  /** Every changed executable line, and every arc touching a changed line, was executed. */
  ghost predicate FullyCovered(file: FileCoverage, lines: set<int>) {
    && (forall line :: line in lines && (line in file.executedLines || line in file.missingLines) ==>
          line in file.executedLines)
    && (forall arc :: arc in file.executedBranches || arc in file.missingBranches ==>
          (arc.0 > 0 && arc.0 in lines) || (arc.1 > 0 && arc.1 in lines) ==> arc in file.executedBranches)
  }

  predicate NothingMissing(result: CoverageResult) {
    result.missingLines == {} && result.missingBranches == {}
  }

  lemma {:induction false} NothingMissingIffFullyCovered(file: FileCoverage, lines: set<int>)
    requires Consistent(file)
    ensures NothingMissing(ResultFor(file, lines)) <==> FullyCovered(file, lines)
  {
    if NothingMissing(ResultFor(file, lines)) {
      forall line | line in lines && line in Executable(file)
        ensures line in file.executedLines
      {
        assert line !in MissingLines(file, lines);
      }
      forall arc | arc in Arcs(file) && Touches(arc, lines)
        ensures arc in file.executedBranches
      {
        assert arc !in MissingBranches(file, lines);
      }
    }
    if FullyCovered(file, lines) {
      assert forall line :: line !in MissingLines(file, lines);
      assert forall arc :: arc !in MissingBranches(file, lines);
    }
  }

  /** The targets of changed lines: those of them that are executable, and the arcs that touch one. */
  lemma {:induction false} TargetsAreTouched(file: FileCoverage, lines: set<int>)
    ensures var result := ResultFor(file, lines);
      && result.statementTargets == |set line | line in lines && (line in file.executedLines || line in file.missingLines)|
      && result.branchTargets == |set arc | arc in file.executedBranches + file.missingBranches
           && ((arc.0 > 0 && arc.0 in lines) || (arc.1 > 0 && arc.1 in lines))|
      && result.missingLines <= lines * file.missingLines && result.missingBranches <= file.missingBranches
  {
    assert (set line | line in lines && (line in file.executedLines || line in file.missingLines))
        == Executable(file) * lines;
    assert (set arc | arc in file.executedBranches + file.missingBranches
              && ((arc.0 > 0 && arc.0 in lines) || (arc.1 > 0 && arc.1 in lines))) == TouchedArcs(file, lines);
  }

  /** An arc with no numbered line on either end: nothing can touch it. */
  predicate Unnumbered(arc: Arc) {
    arc.0 <= 0 && arc.1 <= 0
  }

  /** Every line of an untracked file is a target, and every arc that joins a numbered line; so
      all its arcs are exactly when each does. */
  lemma {:induction false} UntrackedCountsEverything(
    file: FileCoverage, path: string, changed: map<string, set<int>>, untracked: set<string>)
    requires path in untracked
    ensures var result := ResultFor(file, ChangedLines(file, path, changed, untracked));
      && result.statementTargets == |Executable(file)| && result.missingLines == file.missingLines
      && result.missingBranches == (set arc | arc in file.missingBranches && !Unnumbered(arc))
      && (result.branchTargets == |Arcs(file)| <==> forall arc :: arc in Arcs(file) ==> !Unnumbered(arc))
  {
    var lines := ChangedLines(file, path, changed, untracked);
    assert Executable(file) * lines == Executable(file);
    forall arc | arc in Arcs(file)
      ensures Touches(arc, lines) <==> !Unnumbered(arc)
    {
      assert arc.0 > 0 ==> arc.0 in Endpoints(Arcs(file));
      assert arc.1 > 0 ==> arc.1 in Endpoints(Arcs(file));
    }
    SameSizeIffAll(TouchedArcs(file, lines), Arcs(file));
  }

  lemma {:induction false} SameSizeIffAll(part: set<Arc>, whole: set<Arc>)
    requires part <= whole
    ensures |part| == |whole| <==> part == whole
  {
    assert whole == part + (whole - part);
  }

  /** What a union of changed lines misses is what its parts miss. */
  lemma {:induction false} MissingOfUnion(file: FileCoverage, a: set<int>, b: set<int>)
    ensures MissingLines(file, a + b) == MissingLines(file, a) + MissingLines(file, b)
    ensures MissingBranches(file, a + b) == MissingBranches(file, a) + MissingBranches(file, b)
  {
    forall arc
      ensures Touches(arc, a + b) <==> Touches(arc, a) || Touches(arc, b)
    {
    }
    assert TouchedArcs(file, a + b) == TouchedArcs(file, a) + TouchedArcs(file, b);
  }

  // ------------------------------------------------------------ evaluation

  /** The files a run reports: the changed ones the artifact holds. */
  function Reported(coverage: Artifact, changed: map<string, set<int>>, untracked: set<string>): set<string> {
    (changed.Keys + untracked) * coverage.Keys
  }

  function FileResult(coverage: Artifact, changed: map<string, set<int>>, untracked: set<string>, path: string)
    : CoverageResult
    requires path in coverage
  {
    ResultFor(coverage[path], ChangedLines(coverage[path], path, changed, untracked))
  }

  /** A result for each changed file of the artifact, or a gated changed file it does not hold. */
  method EvaluateChangedCoverage(
    config: Config, coverage: Artifact, changed: map<string, set<int>>, untracked: set<string>)
    returns (r: Result<map<string, CoverageResult>, string>)
    ensures r.Failure? <==> exists path :: path in changed.Keys + untracked && path in config.paths && path !in coverage
    ensures r.Failure? ==> r.error in changed.Keys + untracked && r.error in config.paths && r.error !in coverage
    ensures r.Success? ==> r.value.Keys == Reported(coverage, changed, untracked)
    ensures r.Success? ==> forall path :: path in r.value ==> r.value[path] == FileResult(coverage, changed, untracked, path)
  {
    var results: map<string, CoverageResult> := map[];
    var waiting := changed.Keys + untracked;
    while waiting != {}
      invariant waiting <= changed.Keys + untracked
      invariant forall path :: path in changed.Keys + untracked - waiting && path in config.paths ==> path in coverage
      invariant results.Keys == Reported(coverage, changed, untracked) - waiting
      invariant forall path :: path in results ==> results[path] == FileResult(coverage, changed, untracked, path)
    {
      var path :| path in waiting;
      waiting := waiting - {path};
      if path !in coverage {
        if path !in config.paths {
          continue;
        }
        return Failure(path);
      }
      var file := coverage[path];
      var lines := if path in untracked then Executable(file) + Endpoints(Arcs(file))
                   else if path in changed then changed[path] else {};
      results := results[path := ResultFor(file, lines)];
    }
    return Success(results);
  }

  // ------------------------------------------------------------ the verdict

  function PercentCovered(total: nat, missing: nat): Option<real> {
    if total == 0 then None else Some(100.0 * (total as real - missing as real) / total as real)
  }

  lemma {:induction false} FullPercent(total: nat)
    requires total > 0
    ensures PercentCovered(total, 0) == Some(100.0)
  {
    assert 100.0 * (total as real) / total as real == 100.0;
  }

  datatype Violation =
    | StatementsBelow(path: string)
    | BranchesBelow(path: string)
    | LinesMissing(path: string, lines: set<int>)
    | BranchesMissing(path: string, arcs: set<Arc>)

  function Violations(config: Config, path: string, result: CoverageResult): seq<Violation> {
    (if PercentBelow(result.statementTargets, |result.missingLines|, config.minStatement) then [StatementsBelow(path)] else [])
    + (if PercentBelow(result.branchTargets, |result.missingBranches|, config.minBranch) then [BranchesBelow(path)] else [])
    + (if result.missingLines != {} then [LinesMissing(path, result.missingLines)] else [])
    + (if result.missingBranches != {} then [BranchesMissing(path, result.missingBranches)] else [])
  }

  predicate PercentBelow(total: nat, missing: nat, minimum: real) {
    var percent := PercentCovered(total, missing);
    percent.Some? && percent.value + 0.000000001 < minimum
  }

  /** A share is below a minimum exactly when there are targets and fewer of them were executed than
      the minimum asks for, give or take a billionth of a percent. */
  lemma {:induction false} PercentBelowIff(total: nat, missing: nat, minimum: real)
    ensures PercentBelow(total, missing, minimum) <==>
      total > 0 && 100.0 * (total as real - missing as real) < (minimum - 0.000000001) * total as real
  {
    if total > 0 {
      ShareBelow(100.0 * (total as real - missing as real), total as real, minimum - 0.000000001);
    }
  }

  lemma {:induction false} ShareBelow(part: real, whole: real, bound: real)
    requires whole > 0.0
    ensures part / whole < bound <==> part < bound * whole
  {
    var share := part / whole;
    assert share * whole == part;
    assert (bound - share) * whole == bound * whole - share * whole;
    ProductSign(bound - share, whole);
  }

  lemma {:induction false} ProductSign(a: real, b: real)
    requires b > 0.0
    ensures a * b > 0.0 <==> a > 0.0
  {
  }

  /** Each violation is there exactly when there is cause for it. */
  lemma {:induction false} ViolationsAre(config: Config, path: string, result: CoverageResult)
    ensures var violations := Violations(config, path, result);
      && (StatementsBelow(path) in violations <==>
            PercentBelow(result.statementTargets, |result.missingLines|, config.minStatement))
      && (BranchesBelow(path) in violations <==>
            PercentBelow(result.branchTargets, |result.missingBranches|, config.minBranch))
      && (LinesMissing(path, result.missingLines) in violations <==> result.missingLines != {})
      && (BranchesMissing(path, result.missingBranches) in violations <==> result.missingBranches != {})
  {
  }

  /** Whatever the minimums, a file violates the gate exactly when something is missing. */
  lemma {:induction false} ViolatesIffMissing(config: Config, path: string, result: CoverageResult)
    requires ValidConfig(config)
    ensures Violations(config, path, result) == [] <==> NothingMissing(result)
  {
    if NothingMissing(result) {
      if result.statementTargets > 0 {
        FullPercent(result.statementTargets);
      }
      if result.branchTargets > 0 {
        FullPercent(result.branchTargets);
      }
    }
  }

  method PrintResults(config: Config, results: map<string, CoverageResult>) returns (exit: int)
    requires ValidConfig(config)
    ensures exit == 0 || exit == 1
    ensures exit == 0 <==> forall path :: path in results && path in config.paths ==> NothingMissing(results[path])
  {
    var violations: seq<Violation> := [];
    var waiting := results.Keys;
    while waiting != {}
      invariant waiting <= results.Keys
      invariant violations == [] <==>
        forall path :: path in results && path !in waiting && path in config.paths ==> NothingMissing(results[path])
    {
      var path :| path in waiting;
      waiting := waiting - {path};
      if path !in config.paths {
        continue;
      }
      ViolatesIffMissing(config, path, results[path]);
      violations := violations + Violations(config, path, results[path]);
    }
    return if violations != [] then 1 else 0;
  }

  /** What a run reads: the configuration, the artifact and the changes. */
  datatype Inputs = Inputs(
    config: Config, coverage: Artifact, changed: map<string, set<int>>, untracked: set<string>)

  /** What the loaders let through. */
  ghost predicate Loaded(inputs: Inputs) {
    && 0.0 <= inputs.config.minStatement <= 100.0 && 0.0 <= inputs.config.minBranch <= 100.0
    && forall path :: path in inputs.coverage ==>
         inputs.coverage[path].executedLines !! inputs.coverage[path].missingLines
         && inputs.coverage[path].executedBranches !! inputs.coverage[path].missingBranches
  }

  predicate Gated(inputs: Inputs, path: string) {
    path in inputs.changed.Keys + inputs.untracked && path in inputs.config.paths
  }

  /** The artifact holds the file and shows everything of it that counts as executed: of a tracked
      file what its changed lines touch, of an untracked one every line and numbered arc. */
  ghost predicate Covered(inputs: Inputs, path: string) {
    path in inputs.coverage &&
    if path in inputs.untracked then CoveredThroughout(inputs.coverage[path])
    else path in inputs.changed ==> FullyCovered(inputs.coverage[path], inputs.changed[path])
  }

  ghost predicate CoveredThroughout(file: FileCoverage) {
    && (forall line :: line in file.executedLines || line in file.missingLines ==> line in file.executedLines)
    && (forall arc :: arc in file.executedBranches || arc in file.missingBranches ==>
          arc.0 > 0 || arc.1 > 0 ==> arc in file.executedBranches)
  }

  /** A gated file's result misses nothing exactly when it is covered. */
  lemma {:induction false} NothingMissingIffCovered(inputs: Inputs, path: string)
    requires Loaded(inputs) && Gated(inputs, path) && path in inputs.coverage
    ensures NothingMissing(FileResult(inputs.coverage, inputs.changed, inputs.untracked, path)) <==> Covered(inputs, path)
  {
    var file := inputs.coverage[path];
    var lines := ChangedLines(file, path, inputs.changed, inputs.untracked);
    NothingMissingIffFullyCovered(file, lines);
    if path in inputs.untracked {
      forall arc | arc in Arcs(file)
        ensures Touches(arc, lines) <==> arc.0 > 0 || arc.1 > 0
      {
        assert arc.0 > 0 ==> arc.0 in Endpoints(Arcs(file));
        assert arc.1 > 0 ==> arc.1 in Endpoints(Arcs(file));
      }
    }
  }

  /** The gate: 2 when an input cannot be loaded or a gated changed file is not in the artifact,
      and otherwise 0 exactly when every gated changed file is fully covered on its changed
      lines, whatever the minimums. */
  method Gate(loaded: Result<Inputs, string>) returns (exit: int)
    requires loaded.Success? ==> Loaded(loaded.value)
    ensures exit == 2 <==>
      loaded.Failure? || exists path :: Gated(loaded.value, path) && path !in loaded.value.coverage
    ensures exit == 0 <==>
      loaded.Success? && forall path :: Gated(loaded.value, path) ==> Covered(loaded.value, path)
    ensures exit in {0, 1, 2}
  {
    if loaded.Failure? {
      return 2;
    }
    var inputs := loaded.value;
    var results := EvaluateChangedCoverage(inputs.config, inputs.coverage, inputs.changed, inputs.untracked);
    if results.Failure? {
      assert Gated(inputs, results.error);
      return 2;
    }
    forall path | Gated(inputs, path) && path in inputs.coverage
      ensures NothingMissing(results.value[path]) <==> Covered(inputs, path)
    {
      NothingMissingIffCovered(inputs, path);
    }
    exit := PrintResults(inputs.config, results.value);
  }
}
