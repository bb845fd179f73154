# Haute tooling: a verified model

This project models the parts of Haute's build and contract tooling that carry an argument, and
one protocol of its editor, and proves what they promise.

- **Contract bundle** (`JsonSchema`, `SchemaMeaning`, `ContractRenaming`, `ResponseNaming`, `ContractBundle`,
  `ContractRerun`, `ContractBuild`, `ContractBundleLimits`).
  JSON Schema definitions are JSON values; what a schema accepts is defined by following `$ref`
  into `$defs` (JSON Schema Core draft 2020-12, sections 8.2.3.1 and 8.2.4) up to a depth. The
  keywords that hold schemas are given their meaning; every literal keyword (`type`, `const`,
  `required`, ...) may mean anything, the same before and after. The main theorem is about the
  whole build: each contract's property of the finished bundle accepts exactly what the
  contract's own schema accepts, whatever was merged after it. A response is named as before
  whenever it is run again exactly when its only reference cycles are self-references.
- **Mutation shards** (`MutationSessions`, `MutationSharding`, `MutationPhases`). Session
  databases, round-robin slices, execution that may stop early, union, and the gates. A merge
  that passes its completeness count is the unsharded session to the row.
- **JSONC and config closure** (`JsonComments`, `ConfigClosure`). The comment stripper against an
  independent reader of the text and against a renderer of commented JSON, and the worklist over
  referenced configs against reachability.
- **Changed-line coverage** (`Decimals`, `DiffParsing`, `DiffRoundTrip`, `CoverageGate`). The diff
  parser against a printer of zero-context diffs, and the gate against what was executed.
- **Project save** (`SaveProtocol`). The save and the flows behind it as a transition system whose
  waits let the editor, the assistant and the document change.
- **Create-only race** (`CreateOnlyRace`, `RoundOwnership`). Interleaved writers, the judge, and the
  run over its rounds, over an atomic store and over a store that answers as it likes; and whose
  object a round removes when others use its path.
- **Three ledgers** (`PerfBaseline`, `PageTable`, `RangeLedger`).

## Readings of the code

- The renames of one worklist round are compared in any order; the code compares them in sorted
  order, which is one of them. The fallback for mutual recursion renames in simultaneous rounds.
- `SuffixFree` (no definition of a response is named like another one with `Output`) is what the
  bundle build assumes of the generated definitions: `SuffixFreeIffNamesStayApart` says that
  exactly then no bundle makes two definitions share a name. The lemmas about one response ask
  only for the condition on the renames decided, `NoNameTaken`.
- `SchemaShaped` takes a literal to hold no member that looks like a local reference. The code
  rewrites such a member too (`UnchangedIffNoReferenceRenamed`).
- A session's work items are held in `job_id` order, the order of every query. The outcome of a
  job is a function of the job, which is what makes shards and the unsharded run comparable.
- The diff parser takes a removed line `-- x`, printed `--- x`, for the start of another file, and an
  added line `++ b/x`, printed `+++ b/x`, for the line that names one. So parsing inverts printing
  exactly when every hunk that adds lines is still counted to its own file (`KeepsHunks`, a walk
  over such lines only), and raises exactly when an added header's path is refused. Headers that
  name other files of the same diff can move hunks there and back and cancel out
  (`SwappedHunksReadExactly`); for those diffs the condition is sufficient only.
- A quoted label is read with one character for each byte, so a file whose name git quotes for its
  letters is counted under another name (`QuotedNameIsMisread`).
- `qualify` removes the object at a round's path also when every writer was refused, as when someone
  else created it after the lookup (`RemovesAnothersIffAllRefused`).
- An execution that was stopped may have recorded any of its jobs; their order is Cosmic Ray's.
- The coverage gate's configured minimums do not matter between 0 and 100: any missing line or
  arc is a violation of its own (`ViolatesIffMissing`).
- Every lemma carries `{:induction false}`: what is proved by induction is proved by its body.
- The comment above `saveProjectNow` says the fence is read again after each wait. The code does not
  read it after the capture or after loading the form store (`FlushedBehindTheFenceIff`).
- A save that throws settles and passes its turn on, as the turn queue does
  (`frontend/src/utils/serial.ts:8-15`).

## Model

| member | source | states |
|---|---|---|
| `ContractRenaming.RenamingReadsOnlyReferences` | scripts/generate_api_contracts.py:497-509 | two rename maps that agree on the names a value refers to rewrite it alike, so a check made with the renames known then stays right |
| `ContractRenaming.UnchangedIffNoReferenceRenamed` | scripts/generate_api_contracts.py:497-509 | a value comes back unchanged exactly when none of the names it refers to is renamed |
| `ContractRenaming.RenamedReferences` | scripts/generate_api_contracts.py:492-523 | the references of a rewritten value are exactly the new names of its references |
| `ContractRenaming.RewrittenAt` | scripts/generate_api_contracts.py:492-509 | at any path of a value a `$ref` to `#/$defs/` and a name is rewritten to `#/$defs/` and the new name |
| `ContractRenaming.KeptAt` | scripts/generate_api_contracts.py:497-509 | at every other path the same scalar, the same member names or as many items are found, or nothing in both |
| `ContractRenaming.ReferredToSomewhere` | scripts/generate_api_contracts.py:512-523 | a name is among the references of a value exactly when some `$ref` member of it names it |
| `SchemaMeaning.ReferenceAccepts` | scripts/generate_api_contracts.py:492-494 | a reference `#/$defs/` and a name accepts what the definition of that name accepts, one step down |
| `SchemaMeaning.OneOfAccepts` | scripts/generate_api_contracts.py:426-429 | the meaning given to `oneOf`: exactly one of the schemas accepts |
| `SchemaMeaning.AnyOfAccepts` | scripts/generate_api_contracts.py:467-474 | the meaning given to `anyOf`: some of the schemas accept |
| `SchemaMeaning.AllOfAccepts` | scripts/generate_api_contracts.py:497-509 | the meaning given to `allOf`: all of the schemas accept |
| `SchemaMeaning.NotAccepts` | scripts/generate_api_contracts.py:497-509 | the meaning given to `not`: the schema does not accept |
| `SchemaMeaning.ObjectsAccept` | scripts/generate_api_contracts.py:656-664 | the meaning given to `properties` with `additionalProperties`: a declared property is held to its own schema, any other to the common one |
| `SchemaMeaning.OthersAccept` | scripts/generate_api_contracts.py:656-664 | the meaning given to `additionalProperties` and `items` on their own: every one is held to the common schema |
| `SchemaMeaning.NamesAccept` | scripts/generate_api_contracts.py:497-509 | the meaning given to `propertyNames`: every name is held to its schema |
| `SchemaMeaning.ArraysAccept` | scripts/generate_api_contracts.py:497-509 | the meaning given to `prefixItems` with `items`: leading items are held to their own schemas, the rest to the common one |
| `ContractRenaming.RenamedAccepts` | scripts/generate_api_contracts.py:497-509 | for a closed, well-formed set of definitions carried under new names, a rewritten schema accepts exactly the same values at every unfolding depth, whatever the literal keywords mean |
| `JsonSchema.TitleIsAnnotation` | scripts/generate_api_contracts.py:569-571 | changing a definition's title changes nothing it accepts |
| `ContractBundle.MeaningTells` | scripts/generate_api_contracts.py:497-509 | schemas that some value tells apart, at some depth, do not have the same meaning |
| `ResponseNaming.DecideRenames` | scripts/generate_api_contracts.py:538-561 | the worklist and its fallback decide what `Outcome` says: names that are not stuck each for good, the stuck ones by rounds; on exit every kept name that the bundle holds equals its finally rewritten body, every rename had a conflict, and without mutual recursion the result solves "renamed iff the bundle's copy differs" |
| `ResponseNaming.RenameUntilSettled` | scripts/generate_api_contracts.py:553-557 | the fallback computes the rounds, each of which renames everything in conflict at once |
| `ResponseNaming.RoundsSettle` | scripts/generate_api_contracts.py:553-557 | the rounds add only pending names and end with nothing in conflict and nothing renamed without cause |
| `ResponseNaming.OutcomeIsUnique` | scripts/generate_api_contracts.py:538-561 | for every response, mutual recursion or not, what is decided is unique, whatever the processing order |
| `ResponseNaming.DecidedForGood` | scripts/generate_api_contracts.py:544-561 | renaming pending names later disturbs no decision already made |
| `ResponseNaming.SolutionIsUnique` | scripts/generate_api_contracts.py:544-561 | when the only reference cycles are self-references the rename set is unique, whatever the processing order |
| `ResponseNaming.OnlySelfCyclesMeansNoMutualCycle` | scripts/generate_api_contracts.py:548-553 | the worklist can get stuck exactly when some walk through at least two definitions returns to its start |
| `ContractBundle.SerializedDefinitions` | scripts/generate_api_contracts.py:526-572 | the stored entries are exactly the rewritten definitions under their new names, with the renames decided as above |
| `ContractBundle.TitleFollowsName` | scripts/generate_api_contracts.py:566-571 | a definition titled with its own name is stored titled with its stored name; other titles stay |
| `ContractBundle.NamesStayApart` | scripts/generate_api_contracts.py:566-572 | different definitions are stored under different names exactly when no renamed one takes the name of one that keeps its own |
| `ContractBundle.SuffixFreeIffNamesStayApart` | scripts/generate_api_contracts.py:538-572 | exactly when no name of a response is another one with the suffix, its definitions are stored under names of their own against every bundle |
| `ContractBundle.ClashRenamesOneName` | scripts/generate_api_contracts.py:538-561 | against a bundle that holds one name with another body, the renames can only be that name |
| `ContractBundleLimits.SuffixCollisionLosesADefinition` | scripts/generate_api_contracts.py:566-572 | a concrete response with `A` and `AOutput` loses a definition |
| `ContractBundle.ResponseKeepsMeaning` | scripts/generate_api_contracts.py:526-572 | after a merge that does not raise, every definition of the response accepts under its stored name exactly what it accepted before, at every depth |
| `ContractBundle.BundleKeepsMeaning` | scripts/generate_api_contracts.py:477-486 | a merge changes what no name of a closed bundle accepts |
| `ContractBundle.MergedIsWellFormed` | scripts/generate_api_contracts.py:645-646 | merging a response into a reference-closed bundle leaves a reference-closed bundle of schemas |
| `ContractBundle.RefusedOnlyOverOutputName` | scripts/generate_api_contracts.py:477-486 | a merge of a response can be refused only over a name that ends in the suffix |
| `ContractBundle.LaterResponsesResolveIdentically` | scripts/generate_api_contracts.py:544-572 | a stored response run again over any later bundle decides the same renames, gives the same definitions, and merges without conflict or change |
| `ContractRerun.ResolvesIdenticallyIffOnlySelfCycles` | scripts/generate_api_contracts.py:538-572 | a response decides the same renames whenever it is run again, over any bundle that stored it and any extension, exactly when its only reference cycles are self-references |
| `ContractRerun.MutualRecursionResolvesAnew` | scripts/generate_api_contracts.py:553-572 | in every response with mutual recursion some definition, clashing with the bundle, is the only one renamed by every first run, and every run over the bundle that stored it renames one that refers to it as well |
| `ContractBundleLimits.MutualPairIsStored` | scripts/generate_api_contracts.py:538-572 | a generated pair of mutually recursive definitions of which the bundle holds one with another body: every run renames only that one, and the merge succeeds |
| `ContractBundleLimits.MutualPairIsRefused` | scripts/generate_api_contracts.py:538-572 | every run of the pair over the bundle that stored it renames both, and its merge is refused |
| `ContractBuild.BundleBuilder.MergeDefinition` | scripts/generate_api_contracts.py:477-486 | stores the definition, or leaves everything as it is and reports a conflict exactly when another body is stored under the name |
| `ContractBuild.BundleBuilder.MergeAll` | scripts/generate_api_contracts.py:645-646 | adds every definition when none conflicts, and otherwise names one that does |
| `ContractBuild.BundleBuilder.MergeContract` | scripts/generate_api_contracts.py:634-650 | refused exactly when the contract's root is not among the names it would store or one of those names is stored with another body, with the error that says so; otherwise exactly those definitions are added, the root accepts what it accepted, and every earlier definition still accepts the same |
| `ContractBuild.BundleBuilder.Build` | scripts/generate_api_contracts.py:602-650 | built exactly when no contract in turn has to be refused, and refused for a contract that the bundle of those before it refuses; when built, every contract's property accepts exactly what the contract's own schema accepts, whatever was merged after it, and no property is listed twice |
| `ContractBuild.RefusedIsNotReached` | scripts/generate_api_contracts.py:602-650 | once a contract is refused no bundle of all the contracts can be reached, as what each adds is unique |
| `ContractBuild.MergedAgain` | scripts/generate_api_contracts.py:612-650 | a contract that was merged is merged again over any later bundle without refusal and without change, if a response's only reference cycles are self-references |
| `MutationSessions.Pending` | scripts/run_mutation_suite.py:591-602 | the jobs with a work item and no result |
| `MutationSessions.PendingInOrder` | scripts/run_mutation_suite.py:591-602 | whatever order the work items are listed in, the pending jobs are listed in it |
| `MutationSessions.CountsMatchIffComplete` | scripts/run_mutation_suite.py:605-612 | as many results as work items exactly when no work item lacks a result |
| `MutationSessions.Session.Slice` | scripts/run_mutation_suite.py:668-686 | the copy holds the rows of the kept jobs and no others; the source keeps its own |
| `MutationSessions.SlicedHolds` | scripts/run_mutation_suite.py:668-686 | row by row, a slice holds the items, specs and results of the kept jobs, and those as they were |
| `MutationSessions.Session.Exec` | scripts/run_mutation_suite.py:715-738 | those of the pending jobs that are done, any of them and in any order, get their results, and nothing else changes |
| `MutationSessions.ExecutedHolds` | scripts/run_mutation_suite.py:715-738 | job by job, an execution leaves items, specs and earlier results alone, records each pending job that is done, and leaves the other pending jobs pending |
| `MutationSessions.Session.UnionResultsInto` | scripts/run_mutation_suite.py:689-712 | the target's results become the fold of insert-or-replace over the sources, in order; its items and specs stay |
| `MutationSharding.PartitionJobIds` | scripts/run_mutation_suite.py:615-627 | refused exactly below one bucket; otherwise each bucket holds the jobs dealt to it round-robin |
| `MutationSharding.BucketHolds` | scripts/run_mutation_suite.py:615-627 | bucket i holds the jobs at positions i, i + count, i + 2 count, ... in order, and its size is the quotient, plus one below the remainder |
| `MutationSharding.BucketsCover` | scripts/run_mutation_suite.py:615-627 | a job is in some bucket exactly when it is a job |
| `MutationSharding.BucketsAreDisjoint` | scripts/run_mutation_suite.py:615-627 | no job is in two buckets or twice in one |
| `MutationSharding.BucketsAreBalanced` | scripts/run_mutation_suite.py:615-627 | bucket sizes differ by at most one |
| `MutationSharding.ShardCountIsLeast` | scripts/run_mutation_suite.py:635-645 | with the computed count every bucket holds at most the cap, and with any smaller positive count the first holds more |
| `MutationSharding.ShardMatrices` | scripts/run_mutation_suite.py:648-665 | the two matrices concatenate to the plan, each within 256, or the plan is refused, exactly above 512 |
| `MutationSharding.UnitedResults` | scripts/run_mutation_suite.py:689-712 | whatever shards are united, in whatever order and however often, each result is the base session's own or what any execution records, and no prior result is replaced |
| `MutationSharding.CompleteMergeIsUnsharded` | scripts/run_mutation_suite.py:1147-1152 | the gate's count test passes exactly when every pending job was executed by a united shard, and exactly when the merged session equals the unsharded one: a lost or stopped shard is always reported |
| `MutationSharding.ShardedEqualsUnsharded` | scripts/run_mutation_suite.py:561-574 | for every outcome function, prior results, shard count, and order of execution and union, all shards run to their ends give exactly the unsharded session |
| `MutationSharding.OrderAndRepetitionChangeNothing` | scripts/run_mutation_suite.py:689-712 | uniting the same shards in another order, or some again, gives the same session |
| `MutationPhases.RunTarget` | scripts/run_mutation_suite.py:801-920 | a run passes exactly when every execution exited zero, the session is complete, the report stages exited zero and the unsharded run passes; its session is complete exactly when it is the unsharded one; clean executions give it whatever the shard count asked for |
| `MutationPhases.LocalShardCount` | scripts/run_mutation_suite.py:892 | one shard without asking, otherwise as many as asked for, at least one and at most as many as there are pending jobs |
| `MutationPhases.PlanHoldsEveryShard` | scripts/run_mutation_suite.py:963-1005 | a shard job is planned exactly for an index below its count of a target whose session was initialised, where the count is the least with which every bucket of the pending jobs is within the cap |
| `MutationPhases.PhasePlan` | scripts/run_mutation_suite.py:949-1036 | the emitted shards are exactly those, in the order of their targets, split over the two matrices; exit 0 exactly when every target initialised and the plan fits in 512 jobs |
| `MutationPhases.PhaseExecShard` | scripts/run_mutation_suite.py:1039-1083 | an index outside the count is refused; otherwise the result is that shard's slice executed, and exit 0 means it is complete with a zero return code |
| `MutationPhases.Judge` | scripts/run_mutation_suite.py:783-833 | the faults found in a session are exactly each report stage that exited non-zero, too few results, and an unreadable or exceeded survival rate; none means complete, reported and within the threshold |
| `MutationPhases.PhaseMerge` | scripts/run_mutation_suite.py:1141-1160 | the merged session is the union of the shards onto a copy of the initialised one; the failures are exactly a missing base, or a wrong shard count and the faults of that union |
| `MutationPhases.PhaseMergeAll` | scripts/run_mutation_suite.py:1128-1166 | exit 0 exactly when the union of every planned target passes, otherwise 1 |
| `MutationPhases.MergePassesIffUnshardedPasses` | scripts/run_mutation_suite.py:1147-1159 | whatever shards were lost, stopped, reordered or repeated, the union passes the count test and the survival gate exactly when every pending job was recorded by one of them and the unsharded run passes |
| `MutationPhases.FinishedShardsPassAsUnsharded` | scripts/run_mutation_suite.py:1147-1159 | a target all of whose planned shards ran to their ends passes exactly when its unsharded run does and the report stages exited zero |
| `JsonComments.StripJsonComments` | hatch_build.py:432-473 | the stripping loop computes the kept text, or raises, as the functions below describe |
| `JsonComments.RefusedIffBlockCommentUnclosed` | hatch_build.py:459-467 | raises exactly for a text that an independent reader without look-ahead leaves inside a block comment opened outside every string |
| `JsonComments.StrippingIsCompleteAndIdempotent` | hatch_build.py:432-473 | outside string literals the kept text has no `/` followed by `/` or `*`, and stripping it again changes nothing |
| `JsonComments.UnchangedIffCommentFree` | hatch_build.py:432-473 | a text comes back unchanged exactly when the reader never enters a comment in it |
| `JsonComments.NewlinesSurvive` | hatch_build.py:454-467 | the kept text has the same sequence of CR and LF as the input, so line numbers survive |
| `JsonComments.LineCommentEnds` | hatch_build.py:454-458 | a line comment is dropped up to the first CR or LF, which is kept with all that follows |
| `JsonComments.StrippingIsExact` | hatch_build.py:432-473 | rendering string literals of any characters and escapes, other tokens and comments, then stripping, gives the same tokens with each comment replaced by its newlines |
| `ConfigClosure.ReadWithoutComments` | hatch_build.py:408-414 | a config written as tokens and comments is read as its tokens alone |
| `ConfigClosure.ReferencedTsconfigs` | hatch_build.py:396-429 | returns exactly the configs reachable from the root, each inside the directory; raises exactly when a reachable one escapes, is missing or cannot be read, and names such a one |
| `DiffParsing.ParseUnifiedZeroDiff` | scripts/check_changed_coverage.py:224-255 | the parsing loop computes the changed lines, or raises, line by line |
| `DiffRoundTrip.HunkHeaderReadsBack` | scripts/check_changed_coverage.py:242-249 | the header git prints for a hunk, with counts of one left out, is read back as its new-side start and count |
| `DiffRoundTrip.DiffParsed` | scripts/check_changed_coverage.py:208-255 | for every printed diff of edited, new, deleted and renamed files, with any labels, quoted or not, and any removed and added lines: whether reading it back succeeds, and then which lines are counted to which path, hunk by hunk |
| `DiffRoundTrip.PlainLabelReadsBack` | scripts/check_changed_coverage.py:208-221 | the label of a path that needs no quotes, with the tab that follows one with a space, reads back as the path, and the null device as none |
| `DiffRoundTrip.QuotedLabelReads` | scripts/check_changed_coverage.py:208-221 | a quoted label names what its inside is unquoted to, without the `b/` |
| `DiffRoundTrip.RaisesIffHeaderRefused` | scripts/check_changed_coverage.py:208-239 | reading a printed diff back raises exactly when the path of a label, or of an added line beginning with `++ `, is refused |
| `DiffRoundTrip.ReadExactlyWhenHunksKept` | scripts/check_changed_coverage.py:208-255 | parsing inverts printing whenever no label or added header is refused and every hunk that adds lines is counted to its own file |
| `DiffRoundTrip.ReadExactlyIffHunksKept` | scripts/check_changed_coverage.py:208-255 | and only then, when no label or added header names another file of the diff |
| `DiffRoundTrip.OneFileReadExactlyIffHunksKept` | scripts/check_changed_coverage.py:208-255 | for one file's section, parsing inverts printing exactly then |
| `DiffRoundTrip.KeepsHunksIffNoneLost` | scripts/check_changed_coverage.py:224-255 | with its own label and without added lines that look like a header, a section keeps its hunks exactly when no removed line beginning with `-- ` comes before a hunk that adds lines |
| `DiffRoundTrip.QuotedNameIsMisread` | scripts/check_changed_coverage.py:208-221 | a concrete new file with an accented name, whose label git quotes byte by byte: its line is counted to another name |
| `DiffRoundTrip.AddedHeaderMovesHunk` | scripts/check_changed_coverage.py:232-253 | an added line that reads as a `+++` header moves the hunk after it to the file it names |
| `DiffRoundTrip.AddedHeaderMisleads` | scripts/check_changed_coverage.py:232-253 | a concrete file that gets the line `++ b/g` before its first line and a line behind its fourth: that one is not counted to it |
| `DiffRoundTrip.SwappedHunksReadExactly` | scripts/check_changed_coverage.py:232-253 | two concrete files that each lose a hunk to the other at the same line are read exactly, so headers naming other files of the diff can cancel out |
| `CoverageGate.EvaluateChangedCoverage` | scripts/check_changed_coverage.py:293-333 | refused exactly for a gated changed file the artifact lacks; otherwise one result for each changed file the artifact holds |
| `CoverageGate.NothingMissingIffFullyCovered` | scripts/check_changed_coverage.py:316-332 | nothing is missing exactly when every changed executable line and every arc touching a changed line was executed |
| `CoverageGate.NothingMissingIffCovered` | scripts/check_changed_coverage.py:293-333 | a gated file's result misses nothing exactly when everything its changed lines touch was executed, or, untracked, all its lines and numbered arcs |
| `CoverageGate.TargetsAreTouched` | scripts/check_changed_coverage.py:316-332 | the targets are the changed lines that are executable, and the arcs that touch a changed line |
| `CoverageGate.UntrackedCountsEverything` | scripts/check_changed_coverage.py:316-332 | an untracked file's targets are all its executable lines and every arc with a numbered end, so all its arcs exactly when each has one |
| `CoverageGate.MissingOfUnion` | scripts/check_changed_coverage.py:316-332 | a union of changed lines misses the union of what its parts miss |
| `CoverageGate.PercentBelowIff` | scripts/check_changed_coverage.py:344-438 | a share is below a minimum exactly when there are targets and fewer were executed than the minimum asks for, within the tolerance |
| `CoverageGate.ViolationsAre` | scripts/check_changed_coverage.py:417-456 | each violation is listed exactly when there is cause for it |
| `CoverageGate.ViolatesIffMissing` | scripts/check_changed_coverage.py:344-450 | for minimums from 0 to 100 a file violates the gate exactly when something is missing |
| `CoverageGate.PrintResults` | scripts/check_changed_coverage.py:417-456 | returns 0 exactly when no gated file misses anything, and otherwise 1 |
| `CoverageGate.Gate` | scripts/check_changed_coverage.py:459-474 | exit 2 exactly when an input cannot be loaded or a gated changed file is not in the artifact; 0 exactly when of every gated changed file all that its changed lines touch was executed, or, untracked, all its lines and numbered arcs |
| `SaveProtocol.InvariantKept` | frontend/src/App.tsx:1446-1608 | every step of every save, request and environment change keeps each save's history in line with its place in the protocol |
| `SaveProtocol.PipelineSaveIsFenced` | frontend/src/App.tsx:1446-1506 | in every interleaving a pipeline save starts only with no submodel open, no assistant's turn and a mutable, savable, synchronised document, after, in this order, the capture; with the workbench, the form flushed and its tables fetched afresh and read; the commits landed; with the workbench, the connections held |
| `SaveProtocol.BeginsOnlyWhenOpen` | frontend/src/App.tsx:1455-1472 | a save whose turn it is begins exactly when those five hold, and otherwise returns false |
| `SaveProtocol.FencedOnlyWhenOpen` | frontend/src/App.tsx:1481-1506 | in every run tables are requested and read, commits passed and connections held only while those five hold |
| `SaveProtocol.GoesOnExactlyWhen` | frontend/src/App.tsx:1472-1506 | a save goes on behind a wait exactly when it was answered well and those five hold by then, and with the workbench only when the tables were read and the connections held |
| `SaveProtocol.RequestsAskForASave` | frontend/src/App.tsx:1517-1600 | which Git states let a save or a commit ask for a save at once, refuse it or queue it behind the branch choice, and what confirming does |
| `SaveProtocol.SavesTakeTurns` | frontend/src/App.tsx:1510-1513 | in every state at most one save has begun and not settled, and saves begin in the order asked for |
| `SaveProtocol.TrueMeansPipelineSaved` | frontend/src/App.tsx:1446-1506 | a save returns true only after its pipeline save was started on an open fence |
| `SaveProtocol.CallersProceedOnlyOnceSaved` | frontend/src/App.tsx:1517-1600 | the milestone opens, and a restore that saves first proceeds, only for the caller of a save that returned true |
| `SaveProtocol.RefusedBeforeFlush` | frontend/src/App.tsx:1472-1480 | in every run a save that began and has not yet asked the form to flush began on an open fence, and is refused by now exactly when the environment has since set a refusing fence and not replaced it |
| `SaveProtocol.FlushedBehindTheFenceIff` | frontend/src/App.tsx:1472-1481 | in every run the form is flushed behind a refusing fence exactly when such a fence was set between the save's begin and the flush and not replaced |
| `SaveProtocol.FormMayBeFlushedBehindTheFence` | frontend/src/App.tsx:1472-1481 | such a run: the form is flushed while a submodel is open |
| `CreateOnlyRace.PayloadTellsWriter` | scripts/uc_create_only_qualification.py:58-59 | different writers upload different bytes |
| `CreateOnlyRace.QualifiedIffOneWinner` | scripts/uc_create_only_qualification.py:92-112 | for any store a round qualifies exactly when one writer stored, every other was refused as existing, and the stored bytes are the winner's |
| `CreateOnlyRace.EveryInterleavingQualifies` | scripts/uc_create_only_qualification.py:62-112 | over an atomic store every finished interleaving of any number of writers on an empty path has one winner, changes nothing else, and qualifies |
| `CreateOnlyRace.RaceNeverStalls` | scripts/uc_create_only_qualification.py:64-84 | until every slot is filled some thread can step, the barrier included |
| `CreateOnlyRace.NobodyUploadsEarly` | scripts/uc_create_only_qualification.py:64-84 | while one writer has not arrived at the barrier, none is through it |
| `CreateOnlyRace.Race` | scripts/uc_create_only_qualification.py:62-89 | each writer's outcome is recorded in its own slot; over an atomic store with the path empty one stored and the rest were refused |
| `CreateOnlyRace.WritersInTurn` | scripts/uc_create_only_qualification.py:62-89 | any number of writers can be served, for one in their own order |
| `CreateOnlyRace.RunRound` | scripts/uc_create_only_qualification.py:136-139 | a qualified round uploaded every payload with those outcomes and read back the winner's |
| `CreateOnlyRace.RoundPathIsBelowRoot` | scripts/uc_create_only_qualification.py:158-159 | each round's object lies in a directory of its own below the root |
| `CreateOnlyRace.RoundKeepsOwnership` | scripts/uc_create_only_qualification.py:142-186 | a lookup on an untouched path, followed by calls on it only when it was empty, keeps the rule that nothing is written or deleted where an object was found |
| `RoundOwnership.RemovesAnothersIffPut` | scripts/uc_create_only_qualification.py:159-173 | whatever others do at the path meanwhile, a round removes another's object exactly when someone put one there after the round's lookup and nobody removed it before the round did |
| `RoundOwnership.RemovesAnothersIffAllRefused` | scripts/uc_create_only_qualification.py:159-173 | when others only create, it does so exactly when every one of its writers was refused, and otherwise removes the object of the one writer that stored |
| `RoundOwnership.RefusedRoundRemovesAnothers` | scripts/uc_create_only_qualification.py:164-173 | such a round: another creates the object between the lookup and the race |
| `CreateOnlyRace.Qualify` | scripts/uc_create_only_qualification.py:142-186 | 2 exactly below the minimums; 0 when every round qualified and was cleaned up, 1 when not; whatever the store answers, each report says what was seen (an object in the way; or an empty path, its removal and, if qualified, the stored winner, the refused others and the winner's bytes read back), and nothing is written or deleted at a path found to hold an object; over an atomic store every object is left as found and the run qualifies exactly when all its paths were empty |
| `PerfBaseline.BySlownessSorts` | scripts/run_perf_suite.py:250-251 | the slowness order is descending, of the same tests, equally slow ones in their own order |
| `PerfBaseline.SlowestAreSlowest` | scripts/run_perf_suite.py:250-251 | no test left out of the slowest ten is slower than one of them |
| `PerfBaseline.SumAdds` | scripts/run_perf_suite.py:236-238 | seconds add up test by test |
| `PerfBaseline.TallyCounts` | scripts/run_perf_suite.py:246-249 | the tally counts under each outcome the tests that ended so, a skipped test with a reason as an expected failure |
| `PerfBaseline.BuildReport` | scripts/run_perf_suite.py:236-290 | a report is refused exactly when its tests took longer than the run and the tolerance; otherwise it holds what the run was given and the seconds of its tests, with what is left over of the total |
| `PerfBaseline.LoadBaselineReport` | scripts/run_perf_suite.py:323-453 | the loader's checks, test by test, accept exactly the reports of a green run, with a known scale and environment, a measured peak, the slowest ten and seconds that reconcile within 0.05 |
| `PerfBaseline.GreenReportIsAccepted` | scripts/run_perf_suite.py:224-453 | every report built from a green run is acceptable as a baseline |
| `PerfBaseline.PassedTestsAre` | scripts/run_perf_suite.py:456-470 | the tests compared are those that passed in the call phase, each as last reported |
| `PerfBaseline.LimitIs` | scripts/run_perf_suite.py:496-513 | a limit is what was measured before and the allowed fraction of it |
| `PerfBaseline.HistoricalComparison` | scripts/run_perf_suite.py:456-581 | nothing is reported unless compared, which takes the same scale and environment; then the violations are exactly the regressions beyond the limits, and the complaint when no test is material |
| `PerfBaseline.SelfComparisonPassesIffMaterial` | scripts/run_perf_suite.py:456-581 | compared with itself a report shows no regression and passes exactly when some test is material |
| `PerfBaseline.ChainBoundsTotal` | scripts/run_perf_suite.py:492-539 | along k accepted comparisons of the same tests the total time stays within the first total times (1 + fraction) to the k |
| `PageTable.RenderTable` | scripts/generate_node_config_reference.py:191-206 | the rendering loop gives the block of the rows' lines between the marks |
| `PageTable.BlockIs` | scripts/generate_node_config_reference.py:191-206 | the block is the start mark, the sentence, the table head, the rows and the end mark, line by line |
| `PageTable.RowShowsCells` | scripts/generate_node_config_reference.py:201-203 | a row shows its path as code, its type and its description, in this order |
| `PageTable.EscapedReadsBack` | scripts/generate_node_config_reference.py:201-203 | escaping the bars of a cell loses nothing |
| `PageTable.RenderedIsBlock` | scripts/generate_node_config_reference.py:191-206 | the rendered block runs from the start mark to the end line, and no end line begins in between, whatever one-line texts the rows hold |
| `PageTable.BlockIsDelimited` | scripts/generate_node_config_reference.py:212-215 | wherever it stands in a page, a block begins with the start mark, and the first end line from there on is its last line |
| `PageTable.RegeneratingIsIdempotent` | scripts/generate_node_config_reference.py:209-221 | regenerating a page a second time changes nothing, whether the first pass replaced a table or added one |
| `PageTable.LastRegenerationCounts` | scripts/generate_node_config_reference.py:209-221 | regenerating with some rows and then with any others gives what regenerating the first page with those others gives: nothing of the earlier table stays, and nothing else is touched |
| `PageTable.WholePageIsKept` | scripts/generate_node_config_reference.py:216-221 | an added block goes behind the last line of the note that is not empty, and the whole text is kept around it |
| `PageTable.FirstNoteIsFound` | scripts/generate_node_config_reference.py:62-62 | the note is the first place where one starts, and its body what follows the header |
| `PageTable.NoteAtIff` | scripts/generate_node_config_reference.py:62-62 | a note starts at the beginning of a line, with its header and a line of its body behind it |
| `PageTable.BodyIsNoteLines` | scripts/generate_node_config_reference.py:62-62 | a body is as many lines as there are that are empty or indented by four spaces |
| `RangeLedger.PrintedRangeReadsBack` | scripts/spec_corpus_inventory.py:215-221 | a printed range is read back |
| `RangeLedger.ItemReadsIff` | scripts/spec_corpus_inventory.py:215-221 | an item is read exactly when it is two non-empty runs of digits around a dash, as their numbers |
| `RangeLedger.ParseRanges` | scripts/spec_corpus_inventory.py:210-229 | accepts exactly the texts of non-empty, in-bounds ranges that lie apart and do not cover the whole file, and returns them |
| `RangeLedger.AdjacentMeansApart` | scripts/spec_corpus_inventory.py:225-227 | the checks of neighbouring ranges accept exactly the ranges each of which ends before every later one starts |
| `RangeLedger.OrderOfPairs` | scripts/spec_corpus_inventory.py:225-227 | ranges are ordered as pairs: totally, by the start first, and alike both ways only when equal |
| `RangeLedger.TotalIsCovered` | scripts/spec_corpus_inventory.py:228 | the summed lengths are the number of distinct lines covered |
| `RangeLedger.FullMeansAll` | scripts/spec_corpus_inventory.py:228-229 | the sum equals the line count exactly when every line is covered |
| `RangeLedger.CountsInItsState` | scripts/spec_corpus_inventory.py:373-381 | a record's reviewed lines count in its own state and in no other |
| `RangeLedger.AllReviewedIffAllFull` | scripts/spec_corpus_inventory.py:373-381 | over non-empty files the reviewed lines of all states reach the corpus total exactly when every file is marked full |

## Left out

- Schema generation (`_definitions_for` and the generator classes): definition maps are inputs, taken to be reference-closed and of schema shape.
- The bundle's group names, shared groups, dialect keywords and file writing; the pilots' property names are the contracts' `property`.
- Python's equality of `True` with `1` in comparing definitions; numbers are reals.
- Keywords that hold schemas and are not generated for these contracts (`patternProperties`, `if`, `contains`, `unevaluatedProperties`, non-local `$ref`) are read as literal ones.
- SQLite, Cosmic Ray, the survival rate's parsing (a function of the results here), globbing for shard files and directories.
- Plan metadata and summaries written as JSON.
- Path resolution and the directory and suffix rules of a tsconfig reference: `references` gives resolved configs; `json.loads` is part of it.
- `str.splitlines`: the diff parser is given lines. Unquoting and normalising a diff path are parameters. Unicode digits and white space.
- `collect_changed_lines`, the advisory report and the job summary: text around the same results.
- The form store, the tables fetch, the graph-commit fence, `holdConnections` and the pipeline save are waits with arbitrary answers; that a fetch made while the workbench is switched off settles at once is theirs.
- `restoreVersion`, the page reload, toasts and modals other than the pending action.
- URL validation of the volume path, and a writer thread that ends without an outcome.
- JSON typing of a report's fields, evidence, environment versions and budgets; overflow and rounding (seconds are reals, `1e-9` and `0.05` real constants).
- Collecting the configuration keys of a node type; rows are inputs without line breaks.
- Reading coverage TOML and discovering the specification files.
- CreateOnlyRace.Race: serves the writers one at a time in an arbitrary order; finer interleavings of the threads are the transition system of `EveryInterleavingQualifies`.
- DiffRoundTrip.ReadExactlyIffHunksKept: asks that no label or added header names another file of the diff; with `SwappedHunksReadExactly` the converse is false without it.
- PerfBaseline.LoadBaselineReport: leaves out `generated_at` and the JSON types of the fields; neither enters a comparison.
- PerfBaseline.ChainBoundsTotal: bounds the total time only; the memory peak and single tests follow the same step.
- Release, audit, lint and smoke scripts, benchmarks and servers: they would add only easy members.
