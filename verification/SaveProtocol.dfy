/** The project's save and the flows behind it, as steps between waits (`saveProjectNow`,
    `saveProject`, `flushSaveThenMilestone`, `requestSave`, `requestCommit`,
    `handleGitModalConfirmed` and `handleRestoreConfirmed`).  What runs between two waits runs
    at once; the editor, the assistant and the document may change during any wait. */
module SaveProtocol {
  import opened Wrappers

  // ------------------------------------------------------------ state

  /** What the save refuses on, as the stores hold it now. */
  datatype Fence = Fence(
    submodelOpen: bool, assistantTurn: bool, canMutate: bool, canSave: bool, graphSynchronized: bool)

  predicate Refused(fence: Fence) {
    fence.submodelOpen || fence.assistantTurn || !fence.canMutate || !fence.canSave || !fence.graphSynchronized
  }

  /** Nothing stands in the way of a save. */
  predicate Open(fence: Fence) {
    !fence.submodelOpen && !fence.assistantTurn && fence.canMutate && fence.canSave && fence.graphSynchronized
  }

  datatype Outcome = Saved | NotSaved | Threw

  /** Where a save is waiting. `workbench` is whether it read the workbench as enabled. */
  datatype Phase =
    | Queued
    | Capturing
    | LoadingForm
    | FlushingForm
    | ReadingTables
    | AwaitingCommits(workbench: bool)
    | SavingPipeline(workbench: bool)
    | Settled(outcome: Outcome)

  /** What the caller of a save does once it settled. */
  datatype Purpose = JustSave | ThenMilestone | ThenRestore(target: string)

  datatype Save = Save(purpose: Purpose, phase: Phase, continued: bool)

  /** What a save did, in the order it did it. */
  datatype Event =
    | Captured(workbench: bool)
    | FormFlushed
    | TablesRequested
    | TablesRead
    | CommitsLanded
    | ConnectionsHeld
    | PipelineSaveStarted(fence: Fence)
    | Returned(outcome: Outcome)
    | MilestoneOpened
    | Restored(target: string)
    | RestoreAbandoned

  datatype Entry = Entry(save: nat, event: Event)

  datatype GitStatus = Unknown | NoRepository | GitUnavailable | Ready | Interrupted | Divergent | NoWorkingBranch

  datatype Action = SaveAction | CommitAction

  datatype State = State(
    fence: Fence,
    workbenchEnabled: bool,
    pendingAction: Option<Action>,
    restoreTarget: Option<string>,
    saves: seq<Save>,
    log: seq<Entry>)

  predicate Initial(s: State) {
    s.saves == [] && s.log == []
  }

  // ------------------------------------------------------------ steps

  /** One step: the environment's, a request's, or the end of one save's wait with what it
      answered. */
  datatype Step =
    | Environment(fence: Fence, workbenchEnabled: bool, restoreTarget: Option<string>)
    | RequestSave(status: GitStatus)
    | RequestCommit(status: GitStatus)
    | ModalConfirmed
    | RestoreConfirmed(saveFirst: bool)
    | Begin(i: nat)
    | CaptureDone(i: nat)
    | FormLoaded(i: nat)
    | FlushDone(i: nat, ok: bool)
    | TablesDone(i: nat, read: bool)
    | CommitsDone(i: nat, ok: bool, held: bool)
    | PipelineDone(i: nat, ok: bool)
    | Throw(i: nat)
    | Continue(i: nat)

  /** The turn queue runs each save once the one asked for before it has settled. */
  predicate HasTurn(s: State, i: nat) {
    i < |s.saves| && s.saves[i].phase.Queued? && (i > 0 ==> s.saves[i - 1].phase.Settled?)
  }

  predicate Waiting(phase: Phase) {
    !phase.Queued? && !phase.Settled?
  }

  predicate Enabled(s: State, step: Step) {
    match step
    case Environment(_, _, _) => true
    case RequestSave(_) => true
    case RequestCommit(_) => true
    case ModalConfirmed => true
    case RestoreConfirmed(_) => s.restoreTarget.Some?
    case Begin(i) => HasTurn(s, i)
    case CaptureDone(i) => i < |s.saves| && s.saves[i].phase.Capturing?
    case FormLoaded(i) => i < |s.saves| && s.saves[i].phase.LoadingForm?
    case FlushDone(i, _) => i < |s.saves| && s.saves[i].phase.FlushingForm?
    case TablesDone(i, _) => i < |s.saves| && s.saves[i].phase.ReadingTables?
    case CommitsDone(i, _, _) => i < |s.saves| && s.saves[i].phase.AwaitingCommits?
    case PipelineDone(i, _) => i < |s.saves| && s.saves[i].phase.SavingPipeline?
    case Throw(i) => i < |s.saves| && Waiting(s.saves[i].phase)
    case Continue(i) => i < |s.saves| && s.saves[i].phase.Settled? && !s.saves[i].continued
  }

  function Asked(s: State, purpose: Purpose): State {
    s.(saves := s.saves + [Save(purpose, Queued, false)])
  }

  function Moved(s: State, i: nat, phase: Phase, events: seq<Event>): State
    requires i < |s.saves|
  {
    s.(saves := s.saves[i := s.saves[i].(phase := phase)], log := s.log + Entries(i, events))
  }

  function Entries(i: nat, events: seq<Event>): seq<Entry> {
    if events == [] then [] else [Entry(i, events[0])] + Entries(i, events[1..])
  }

  function Ended(s: State, i: nat, outcome: Outcome): State
    requires i < |s.saves|
  {
    Moved(s, i, Settled(outcome), [Returned(outcome)])
  }

  /** The state after an enabled step. */
  function After(s: State, step: Step): State
    requires Enabled(s, step)
  {
    match step
    case Environment(fence, workbenchEnabled, restoreTarget) =>
      s.(fence := fence, workbenchEnabled := workbenchEnabled, restoreTarget := restoreTarget)
    case RequestSave(status) =>
      if status in {Unknown, NoRepository, GitUnavailable, Ready} then Asked(s, JustSave)
      else if status == Interrupted then s
      else s.(pendingAction := Some(SaveAction))
    case RequestCommit(status) =>
      if status == Ready then Asked(s, ThenMilestone)
      else if status in {Unknown, NoRepository, GitUnavailable, Interrupted} then s
      else s.(pendingAction := Some(CommitAction))
    case ModalConfirmed =>
      var closed := s.(pendingAction := None);
      if s.pendingAction == Some(SaveAction) then Asked(closed, JustSave)
      else if s.pendingAction == Some(CommitAction) then Asked(closed, ThenMilestone)
      else closed
    case RestoreConfirmed(saveFirst) =>
      if saveFirst then Asked(s, ThenRestore(s.restoreTarget.value))
      else s
    case Begin(i) =>
      if Refused(s.fence) then Ended(s, i, NotSaved) else Moved(s, i, Capturing, [])
    case CaptureDone(i) =>
      Moved(s, i, if s.workbenchEnabled then LoadingForm else AwaitingCommits(false), [Captured(s.workbenchEnabled)])
    case FormLoaded(i) =>
      Moved(s, i, FlushingForm, [])
    case FlushDone(i, ok) =>
      if !ok || Refused(s.fence) then Ended(s, i, NotSaved)
      else Moved(s, i, ReadingTables, [FormFlushed, TablesRequested])
    case TablesDone(i, read) =>
      if Refused(s.fence) || !read then Ended(s, i, NotSaved)
      else Moved(s, i, AwaitingCommits(true), [TablesRead])
    case CommitsDone(i, ok, held) =>
      var workbench := s.saves[i].phase.workbench;
      if !ok || Refused(s.fence) || (workbench && !held) then Ended(s, i, NotSaved)
      else Moved(s, i, SavingPipeline(workbench),
                 [CommitsLanded] + (if workbench then [ConnectionsHeld] else []) + [PipelineSaveStarted(s.fence)])
    case PipelineDone(i, ok) => Ended(s, i, if ok then Saved else NotSaved)
    case Throw(i) => Ended(s, i, Threw)
    case Continue(i) =>
      var save := s.saves[i];
      var done := s.(saves := s.saves[i := save.(continued := true)]);
      match save.purpose
      case JustSave => done
      case ThenMilestone =>
        if save.phase.outcome == Saved then done.(log := done.log + [Entry(i, MilestoneOpened)]) else done
      case ThenRestore(target) =>
        if save.phase.outcome == Saved then done.(log := done.log + [Entry(i, Restored(target))])
        else done.(log := done.log + [Entry(i, RestoreAbandoned)], restoreTarget := None)
  }

  /** A run: each state follows from the one before by an enabled step. */
  ghost predicate IsRun(states: seq<State>, steps: seq<Step>) {
    && |states| == |steps| + 1 && Initial(states[0])
    && forall n :: 0 <= n < |steps| ==> Enabled(states[n], steps[n]) && states[n + 1] == After(states[n], steps[n])
  }

  // ------------------------------------------------------------ what one save has done

  /** The events of one save, in order. */
  function History(log: seq<Entry>, i: nat): seq<Event> {
    if log == [] then []
    else
      var last := log[|log| - 1];
      History(log[..|log| - 1], i) + (if last.save == i then [last.event] else [])
  }

  /** Everything that must have happened, in this order, when a pipeline save starts. */
  function BeforePipeline(workbench: bool): seq<Event> {
    [Captured(workbench)]
    + (if workbench then [FormFlushed, TablesRequested, TablesRead] else [])
    + [CommitsLanded]
    + (if workbench then [ConnectionsHeld] else [])
  }

  /** The history of a save that reached its pipeline save: all of it, on an open fence. */
  ghost predicate ReachedPipeline(history: seq<Event>) {
    exists workbench, fence :: ReachedPipelineAs(history, workbench, fence)
  }

  ghost predicate ReachedPipelineAs(history: seq<Event>, workbench: bool, fence: Fence) {
    !Refused(fence) && history == BeforePipeline(workbench) + [PipelineSaveStarted(fence)]
  }

  /** The events of a save that never came to its pipeline save, and whose caller did nothing. */
  predicate WithoutPipeline(history: seq<Event>) {
    forall k :: 0 <= k < |history| ==> !history[k].PipelineSaveStarted? && !Proceeds(history[k])
  }

  predicate Proceeds(event: Event) {
    event.MilestoneOpened? || event.Restored?
  }

  /** What a save's place in the protocol says of its history. */
  ghost predicate Consistent(save: Save, history: seq<Event>) {
    match save.phase
    case Queued => history == [] && !save.continued
    case Capturing => history == [] && !save.continued
    case LoadingForm => history == [Captured(true)] && !save.continued
    case FlushingForm => history == [Captured(true)] && !save.continued
    case ReadingTables => history == [Captured(true), FormFlushed, TablesRequested] && !save.continued
    case AwaitingCommits(workbench) =>
      !save.continued &&
      history == [Captured(workbench)] + (if workbench then [FormFlushed, TablesRequested, TablesRead] else [])
    case SavingPipeline(workbench) =>
      !save.continued && exists fence :: ReachedPipelineAs(history, workbench, fence)
    case Settled(outcome) =>
      exists k: nat :: SettledAt(save, history, k)
  }

  /** The save returned at place `k` of its history; after it comes only what its caller did. */
  ghost predicate SettledAt(save: Save, history: seq<Event>, k: nat)
    requires save.phase.Settled?
  {
    && k < |history| && history[k] == Returned(save.phase.outcome)
    && (ReachedPipeline(history[..k]) || (save.phase.outcome != Saved && WithoutPipeline(history[..k])))
    && history[k + 1..] == if save.continued then Continuation(save.purpose, save.phase.outcome) else []
  }

  /** What the caller does: the milestone and the restore only after a save that returned true. */
  function Continuation(purpose: Purpose, outcome: Outcome): seq<Event> {
    match purpose
    case JustSave => []
    case ThenMilestone => if outcome == Saved then [MilestoneOpened] else []
    case ThenRestore(target) => [if outcome == Saved then Restored(target) else RestoreAbandoned]
  }

  ghost predicate Invariant(s: State) {
    AllConsistent(s) && NothingFromUnasked(s) && InTurn(s.saves)
  }

  ghost predicate AllConsistent(s: State) {
    forall i: nat :: i < |s.saves| ==> Consistent(s.saves[i], History(s.log, i))
  }

  ghost predicate NothingFromUnasked(s: State) {
    forall i: nat :: i >= |s.saves| ==> History(s.log, i) == []
  }

  /** A save has begun only once every save asked for before it has settled. */
  ghost predicate InTurn(saves: seq<Save>) {
    forall i, j :: 0 <= i < j < |saves| && !saves[j].phase.Queued? ==> saves[i].phase.Settled?
  }

  // ------------------------------------------------------------ histories grow at the end

  lemma {:induction false} HistoryAppended(log: seq<Entry>, i: nat, events: seq<Event>)
    ensures History(log + Entries(i, events), i) == History(log, i) + events
    ensures forall j: nat :: j != i ==> History(log + Entries(i, events), j) == History(log, j)
  {
    forall j: nat
      ensures History(log + Entries(i, events), j) == History(log, j) + if j == i then events else []
    {
      HistoryConcat(log, Entries(i, events), j);
      HistoryOfEntries(i, events, j);
    }
  }

  lemma {:induction false} HistoryConcat(a: seq<Entry>, b: seq<Entry>, j: nat)
    ensures History(a + b, j) == History(a, j) + History(b, j)
  {
    if b == [] {
      assert a + b == a;
    } else {
      var rest, last := b[..|b| - 1], b[|b| - 1];
      assert (a + b)[..|a + b| - 1] == a + rest && (a + b)[|a + b| - 1] == last;
      HistoryConcat(a, rest, j);
      Associative(History(a, j), History(rest, j), if last.save == j then [last.event] else []);
    }
  }

  lemma {:induction false} Associative(a: seq<Event>, b: seq<Event>, c: seq<Event>)
    ensures (a + b) + c == a + (b + c)
  {
  }

  lemma {:induction false} HistoryOfEntries(i: nat, events: seq<Event>, j: nat)
    ensures History(Entries(i, events), j) == if j == i then events else []
  {
    if events != [] {
      var first := Entry(i, events[0]);
      HistoryConcat([first], Entries(i, events[1..]), j);
      HistoryOfEntries(i, events[1..], j);
      assert [first][..0] == [];
      assert History([first], j) == if j == i then [events[0]] else [];
    }
  }

  lemma {:induction false} InvariantInitially(s: State)
    requires Initial(s)
    ensures Invariant(s)
  {
  }

  /** Only the moved save's history changes, and only at its end. */
  lemma {:induction false} InvariantMoved(s: State, i: nat, phase: Phase, events: seq<Event>)
    requires Invariant(s) && i < |s.saves| && !s.saves[i].phase.Settled? && !phase.Queued?
    requires s.saves[i].phase.Queued? ==> HasTurn(s, i)
    requires Consistent(s.saves[i].(phase := phase), History(s.log, i) + events)
    ensures Invariant(Moved(s, i, phase, events))
  {
    HistoryAppended(s.log, i, events);
    TurnsKept(s, i, phase);
  }

  lemma {:induction false} TurnsKept(s: State, i: nat, phase: Phase)
    requires InTurn(s.saves) && i < |s.saves| && !s.saves[i].phase.Settled?
    requires s.saves[i].phase.Queued? ==> HasTurn(s, i)
    ensures InTurn(s.saves[i := s.saves[i].(phase := phase)])
  {
    forall k | 0 <= k < i
      ensures s.saves[k].phase.Settled?
    {
      if HasTurn(s, i) && k < i - 1 {
        assert !s.saves[i - 1].phase.Queued?;
      }
    }
    forall k | i < k < |s.saves|
      ensures s.saves[k].phase.Queued?
    {
    }
  }

  lemma {:induction false} UnfinishedHistory(save: Save, history: seq<Event>)
    requires Consistent(save, history) && Waiting(save.phase)
    ensures ReachedPipeline(history) || (WithoutPipeline(history) && !save.phase.SavingPipeline?)
  {
    if save.phase.SavingPipeline? {
      var fence :| ReachedPipelineAs(history, save.phase.workbench, fence);
    }
  }

  lemma {:induction false} InvariantEnded(s: State, i: nat, outcome: Outcome)
    requires Invariant(s) && i < |s.saves|
    requires Waiting(s.saves[i].phase) || HasTurn(s, i)
    requires outcome == Saved ==> s.saves[i].phase.SavingPipeline?
    ensures Invariant(Ended(s, i, outcome))
  {
    var before := History(s.log, i);
    var history := before + [Returned(outcome)];
    var save := s.saves[i].(phase := Settled(outcome));
    assert history[..|before|] == before;
    if !HasTurn(s, i) {
      UnfinishedHistory(s.saves[i], before);
    }
    assert SettledAt(save, history, |before|);
    InvariantMoved(s, i, Settled(outcome), [Returned(outcome)]);
  }

  lemma {:induction false} InvariantAsked(s: State, purpose: Purpose)
    requires Invariant(s)
    ensures Invariant(Asked(s, purpose))
  {
    assert History(s.log, |s.saves|) == [];
  }

  lemma {:induction false} InvariantPipelineStarted(s: State, i: nat)
    requires Invariant(s) && i < |s.saves| && s.saves[i].phase.AwaitingCommits? && !Refused(s.fence)
    ensures var workbench := s.saves[i].phase.workbench;
      var events := [CommitsLanded] + (if workbench then [ConnectionsHeld] else []) + [PipelineSaveStarted(s.fence)];
      && History(s.log, i) + events == BeforePipeline(workbench) + [PipelineSaveStarted(s.fence)]
      && Invariant(Moved(s, i, SavingPipeline(workbench), events))
  {
    var workbench := s.saves[i].phase.workbench;
    var events := [CommitsLanded] + (if workbench then [ConnectionsHeld] else []) + [PipelineSaveStarted(s.fence)];
    assert History(s.log, i) + events == BeforePipeline(workbench) + [PipelineSaveStarted(s.fence)];
    assert ReachedPipelineAs(History(s.log, i) + events, workbench, s.fence);
    InvariantMoved(s, i, SavingPipeline(workbench), events);
  }

  lemma {:induction false} InvariantContinued(s: State, i: nat)
    requires Invariant(s) && Enabled(s, Continue(i))
    ensures Invariant(After(s, Continue(i)))
  {
    var save := s.saves[i];
    var events := Continuation(save.purpose, save.phase.outcome);
    ContinuedIsConsistent(save, History(s.log, i));
    ContinuedLog(s, i);
    InvariantAtSamePhase(s, i, save.(continued := true), events, After(s, Continue(i)));
  }

  lemma {:induction false} ContinuedLog(s: State, i: nat)
    requires Enabled(s, Continue(i))
    ensures After(s, Continue(i)).log == s.log + Entries(i, Continuation(s.saves[i].purpose, s.saves[i].phase.outcome))
  {
    var events := Continuation(s.saves[i].purpose, s.saves[i].phase.outcome);
    assert events == [] || events[1..] == [];
  }

  lemma {:induction false} InvariantAtSamePhase(s: State, i: nat, save: Save, events: seq<Event>, after: State)
    requires Invariant(s) && i < |s.saves| && save.phase == s.saves[i].phase
    requires Consistent(save, History(s.log, i) + events)
    requires after.saves == s.saves[i := save] && after.log == s.log + Entries(i, events)
    ensures Invariant(after)
  {
    HistoryAppended(s.log, i, events);
  }

  lemma {:induction false} ContinuedIsConsistent(save: Save, history: seq<Event>)
    requires save.phase.Settled? && !save.continued && Consistent(save, history)
    ensures Consistent(save.(continued := true), history + Continuation(save.purpose, save.phase.outcome))
  {
    var events := Continuation(save.purpose, save.phase.outcome);
    var k: nat :| SettledAt(save, history, k);
    assert (history + events)[..k] == history[..k] && (history + events)[k + 1..] == events;
    assert SettledAt(save.(continued := true), history + events, k);
  }

  /** A step of the environment or of a request. */
  predicate IsRequest(step: Step) {
    step.Environment? || step.RequestSave? || step.RequestCommit? || step.ModalConfirmed? || step.RestoreConfirmed?
  }

  lemma {:induction false} InvariantKeptByRequest(s: State, step: Step)
    requires Invariant(s) && Enabled(s, step) && IsRequest(step)
    ensures Invariant(After(s, step))
  {
    match step
    case Environment(_, _, _) =>
    case RequestSave(_) => InvariantAsked(s, JustSave);
    case RequestCommit(_) => InvariantAsked(s, ThenMilestone);
    case ModalConfirmed =>
      InvariantAsked(s.(pendingAction := None), JustSave);
      InvariantAsked(s.(pendingAction := None), ThenMilestone);
    case RestoreConfirmed(saveFirst) => InvariantAsked(s, ThenRestore(s.restoreTarget.value));
  }

  lemma {:induction false} InvariantKeptBySave(s: State, step: Step)
    requires Invariant(s) && Enabled(s, step) && !IsRequest(step) && !step.Continue?
    ensures Invariant(After(s, step))
  {
    var i := step.i;
    var save := s.saves[i];
    var after := After(s, step);
    if after.saves[i].phase.Settled? {
      InvariantEnded(s, i, after.saves[i].phase.outcome);
    } else {
      match step
      case Begin(_) => InvariantMoved(s, i, Capturing, []);
      case CaptureDone(_) =>
        InvariantMoved(s, i, if s.workbenchEnabled then LoadingForm else AwaitingCommits(false),
                       [Captured(s.workbenchEnabled)]);
      case FormLoaded(_) => InvariantMoved(s, i, FlushingForm, []);
      case FlushDone(_, _) => InvariantMoved(s, i, ReadingTables, [FormFlushed, TablesRequested]);
      case TablesDone(_, _) => InvariantMoved(s, i, AwaitingCommits(true), [TablesRead]);
      case CommitsDone(_, _, _) => InvariantPipelineStarted(s, i);
    }
  }

  /** Every step keeps every save's history in line with its place in the protocol. */
  lemma {:induction false} InvariantKept(s: State, step: Step)
    requires Invariant(s) && Enabled(s, step)
    ensures Invariant(After(s, step))
  {
    if IsRequest(step) {
      InvariantKeptByRequest(s, step);
    } else if step.Continue? {
      InvariantContinued(s, step.i);
    } else {
      InvariantKeptBySave(s, step);
    }
  }

  lemma {:induction false} RunsKeepInvariant(states: seq<State>, steps: seq<Step>, n: nat)
    requires IsRun(states, steps) && n < |states|
    ensures Invariant(states[n])
  {
    if n == 0 {
      InvariantInitially(states[0]);
    } else {
      RunsKeepInvariant(states, steps, n - 1);
      InvariantKept(states[n - 1], steps[n - 1]);
    }
  }

  // ------------------------------------------------------------ safety over whole runs

  lemma {:induction false} OnlyCommitsStartPipeline(s: State, step: Step, i: nat)
    requires Enabled(s, step) && i < |After(s, step).saves| && After(s, step).saves[i].phase.SavingPipeline?
    requires i < |s.saves| ==> !s.saves[i].phase.SavingPipeline?
    ensures step.CommitsDone? && step.i == i && step.ok && !Refused(s.fence)
  {
  }

  /** In every run, a pipeline save starts only while nothing refuses it, and by then the save
      has done, in this order, all it must: the capture; with the workbench, the form flushed,
      its tables fetched afresh and read; the pending commits landed; with the workbench, the
      connections held to those tables. */
  lemma {:induction false} PipelineSaveIsFenced(states: seq<State>, steps: seq<Step>, n: nat, i: nat)
    requires IsRun(states, steps) && n + 1 < |states|
    requires i < |states[n + 1].saves| && states[n + 1].saves[i].phase.SavingPipeline?
    requires i < |states[n].saves| ==> !states[n].saves[i].phase.SavingPipeline?
    ensures Open(states[n].fence) && states[n + 1].fence == states[n].fence
    ensures var workbench := states[n + 1].saves[i].phase.workbench;
      History(states[n + 1].log, i) == BeforePipeline(workbench) + [PipelineSaveStarted(states[n].fence)]
  {
    RunsKeepInvariant(states, steps, n);
    var s, step := states[n], steps[n];
    OnlyCommitsStartPipeline(s, step, i);
    InvariantPipelineStarted(s, i);
    HistoryAppended(s.log, i, [CommitsLanded] + (if s.saves[i].phase.workbench then [ConnectionsHeld] else [])
                              + [PipelineSaveStarted(s.fence)]);
  }

  /** A save whose turn it is begins exactly when no submodel is open, no assistant's turn runs and
      the document is mutable, savable and synchronised; and otherwise returns false. */
  lemma {:induction false} BeginsOnlyWhenOpen(s: State, i: nat)
    requires Enabled(s, Begin(i))
    ensures After(s, Begin(i)).saves[i].phase == if Open(s.fence) then Capturing else Settled(NotSaved)
  {
  }

  /** In every run, tables are requested and read, commits passed and connections held only while
      nothing stands in the way of the save. */
  lemma {:induction false} FencedOnlyWhenOpen(states: seq<State>, steps: seq<Step>, n: nat, k: nat)
    requires IsRun(states, steps) && n + 1 < |states|
    requires |states[n].log| <= k < |states[n + 1].log|
    ensures var event := states[n + 1].log[k].event;
      event.TablesRequested? || event.TablesRead? || event.CommitsLanded? || event.ConnectionsHeld?
      || event.PipelineSaveStarted? ==>
        Open(states[n].fence)
  {
    var s, step := states[n], steps[n];
    if !IsRequest(step) {
      var i := step.i;
      EntriesAre(i, [Returned(NotSaved)]);
      match step
      case Begin(_) =>
      case CaptureDone(_) => EntriesAre(i, [Captured(s.workbenchEnabled)]);
      case FormLoaded(_) =>
      case FlushDone(_, _) => EntriesAre(i, [FormFlushed, TablesRequested]);
      case TablesDone(_, _) => EntriesAre(i, [TablesRead]);
      case CommitsDone(_, _, _) =>
        EntriesAre(i, [CommitsLanded] + (if s.saves[i].phase.workbench then [ConnectionsHeld] else [])
                      + [PipelineSaveStarted(s.fence)]);
      case PipelineDone(_, ok) => EntriesAre(i, [Returned(if ok then Saved else NotSaved)]);
      case Throw(_) => EntriesAre(i, [Returned(Threw)]);
      case Continue(_) =>
    }
  }

  lemma {:induction false} EntriesAre(i: nat, events: seq<Event>)
    ensures |Entries(i, events)| == |events|
    ensures forall k :: 0 <= k < |events| ==> Entries(i, events)[k] == Entry(i, events[k])
  {
    if events != [] {
      EntriesAre(i, events[1..]);
    }
  }

  /** A save goes on exactly when the wait was answered well and nothing stands in its way by then,
      and with the workbench only when the tables were read and the connections held. */
  lemma {:induction false} GoesOnExactlyWhen(s: State, step: Step)
    requires Enabled(s, step)
    ensures step.FlushDone? ==>
      After(s, step).saves[step.i].phase == if step.ok && Open(s.fence) then ReadingTables else Settled(NotSaved)
    ensures step.TablesDone? ==>
      After(s, step).saves[step.i].phase
        == if step.read && Open(s.fence) then AwaitingCommits(true) else Settled(NotSaved)
    ensures step.CommitsDone? ==>
      var workbench := s.saves[step.i].phase.workbench;
      After(s, step).saves[step.i].phase
        == if step.ok && Open(s.fence) && (workbench ==> step.held) then SavingPipeline(workbench) else Settled(NotSaved)
    ensures step.PipelineDone? ==>
      After(s, step).saves[step.i].phase == Settled(if step.ok then Saved else NotSaved)
    ensures step.Throw? ==> After(s, step).saves[step.i].phase == Settled(Threw)
    ensures step.CaptureDone? ==>
      After(s, step).saves[step.i].phase == if s.workbenchEnabled then LoadingForm else AwaitingCommits(false)
  {
  }

  /** A request asks for a save at once unless the repository must be put in order first: a save
      also without a repository, a commit only with a ready one. */
  lemma {:induction false} RequestsAskForASave(s: State, status: GitStatus)
    ensures After(s, RequestSave(status)).saves
         == if status == Interrupted || status == Divergent || status == NoWorkingBranch then s.saves
            else s.saves + [Save(JustSave, Queued, false)]
    ensures After(s, RequestCommit(status)).saves
         == if status == Ready then s.saves + [Save(ThenMilestone, Queued, false)] else s.saves
    ensures After(s, RequestSave(status)).pendingAction
         == if status == Divergent || status == NoWorkingBranch then Some(SaveAction) else s.pendingAction
    ensures After(s, RequestCommit(status)).pendingAction
         == if status == Divergent || status == NoWorkingBranch then Some(CommitAction) else s.pendingAction
    ensures s.restoreTarget.Some? ==>
      After(s, RestoreConfirmed(true)).saves == s.saves + [Save(ThenRestore(s.restoreTarget.value), Queued, false)]
      && After(s, RestoreConfirmed(false)).saves == s.saves
    ensures After(s, ModalConfirmed).pendingAction == None
    ensures After(s, ModalConfirmed).saves
         == if s.pendingAction == None then s.saves
            else s.saves + [Save(if s.pendingAction == Some(SaveAction) then JustSave else ThenMilestone, Queued, false)]
  {
    assert s.pendingAction.Some? ==> s.pendingAction.value.SaveAction? || s.pendingAction.value.CommitAction?;
  }

  /** In every state of every run at most one save has begun and not settled, and saves begin
      in the order they were asked for. */
  lemma {:induction false} SavesTakeTurns(states: seq<State>, steps: seq<Step>, n: nat, i: nat, j: nat)
    requires IsRun(states, steps) && n < |states|
    requires i < |states[n].saves| && j < |states[n].saves|
    ensures Waiting(states[n].saves[i].phase) && Waiting(states[n].saves[j].phase) ==> i == j
    ensures i < j && !states[n].saves[j].phase.Queued? ==> states[n].saves[i].phase.Settled?
  {
    RunsKeepInvariant(states, steps, n);
  }

  /** In every run, a milestone is opened and a restore made only by the caller of a save that
      returned true, and that save had reached its pipeline save. */
  lemma {:induction false} CallersProceedOnlyOnceSaved(states: seq<State>, steps: seq<Step>, n: nat, k: nat)
    requires IsRun(states, steps) && n < |states| && k < |states[n].log|
    requires states[n].log[k].event.MilestoneOpened? || states[n].log[k].event.Restored?
    ensures var i := states[n].log[k].save;
      && i < |states[n].saves| && states[n].saves[i].phase == Settled(Saved)
      && (states[n].log[k].event.MilestoneOpened? ==> states[n].saves[i].purpose == ThenMilestone)
      && (states[n].log[k].event.Restored? ==> states[n].saves[i].purpose == ThenRestore(states[n].log[k].event.target))
      && exists r :: 0 <= r < |History(states[n].log, i)| && History(states[n].log, i)[r] == Returned(Saved)
                     && ReachedPipeline(History(states[n].log, i)[..r])
  {
    RunsKeepInvariant(states, steps, n);
    var s, i := states[n], states[n].log[k].save;
    var m := InHistory(s.log, k);
    assert History(s.log, i) != [];
    var r := ProceedingMeansSaved(s.saves[i], History(s.log, i), m);
  }

  lemma {:induction false} ProceedingMeansSaved(save: Save, history: seq<Event>, m: nat) returns (r: nat)
    requires Consistent(save, history) && m < |history| && Proceeds(history[m])
    ensures save.phase == Settled(Saved) && r < |history| && history[r] == Returned(Saved)
    ensures ReachedPipeline(history[..r]) && history[m] in Continuation(save.purpose, Saved)
  {
    UnsettledNeverProceeds(save, history);
    r :| SettledAt(save, history, r);
    NotBeforeReturn(history[..r]);
    assert forall k :: 0 <= k < r ==> history[k] == history[..r][k];
    assert m > r;
    assert history[m] == history[r + 1..][m - r - 1];
  }

  lemma {:induction false} UnsettledNeverProceeds(save: Save, history: seq<Event>)
    requires Consistent(save, history)
    ensures !save.phase.Settled? ==> forall k :: 0 <= k < |history| ==> !Proceeds(history[k])
  {
    if save.phase.SavingPipeline? {
      var fence :| ReachedPipelineAs(history, save.phase.workbench, fence);
      NotBeforeReturn(history);
    }
  }

  lemma {:induction false} NotBeforeReturn(history: seq<Event>)
    requires ReachedPipeline(history) || WithoutPipeline(history)
    ensures forall k :: 0 <= k < |history| ==> !Proceeds(history[k])
  {
  }

  lemma {:induction false} InHistory(log: seq<Entry>, k: nat) returns (m: nat)
    requires k < |log|
    ensures m < |History(log, log[k].save)| && History(log, log[k].save)[m] == log[k].event
  {
    var last := |log| - 1;
    if k == last {
      m := |History(log[..last], log[k].save)|;
    } else {
      m := InHistory(log[..last], k);
    }
  }

  /** In every run, a save that returned true had reached its pipeline save on an open fence,
      and had returned nothing before. */
  lemma {:induction false} TrueMeansPipelineSaved(states: seq<State>, steps: seq<Step>, n: nat, i: nat)
    requires IsRun(states, steps) && n < |states| && i < |states[n].saves|
    requires states[n].saves[i].phase == Settled(Saved)
    ensures exists r :: 0 <= r < |History(states[n].log, i)| && History(states[n].log, i)[r] == Returned(Saved)
                        && ReachedPipeline(History(states[n].log, i)[..r])
  {
    RunsKeepInvariant(states, steps, n);
    var r: nat :| SettledAt(states[n].saves[i], History(states[n].log, i), r);
  }

  /** The environment refused the save with step `k`, and took that back with no step before `n`. */
  ghost predicate RefusedSince(steps: seq<Step>, k: nat, n: nat)
    requires k < n <= |steps|
  {
    && steps[k].Environment? && Refused(steps[k].fence)
    && forall l :: k < l < n ==> !steps[l].Environment?
  }

  ghost predicate RefusedBetween(steps: seq<Step>, m: nat, n: nat)
    requires m < n <= |steps|
  {
    exists k: nat :: m < k < n && RefusedSince(steps, k, n)
  }

  /** Begun, and the form not yet asked to flush: nothing reads the fence here. */
  predicate Unfenced(phase: Phase) {
    phase.Capturing? || phase.LoadingForm?
  }

  lemma {:induction false} StepIntoUnfenced(s: State, step: Step, i: nat)
    requires Enabled(s, step) && i < |After(s, step).saves| && Unfenced(After(s, step).saves[i].phase)
    ensures (step == Begin(i) && !Refused(s.fence)) || (i < |s.saves| && Unfenced(s.saves[i].phase))
    ensures After(s, step).fence == if step.Environment? then step.fence else s.fence
  {
  }

  lemma {:induction false} RefusedOneStepLonger(steps: seq<Step>, m: nat, n: nat)
    requires m < n < |steps|
    ensures RefusedBetween(steps, m, n + 1) <==>
      if steps[n].Environment? then Refused(steps[n].fence) else RefusedBetween(steps, m, n)
  {
    if steps[n].Environment? && Refused(steps[n].fence) {
      assert RefusedSince(steps, n, n + 1);
    }
    if !steps[n].Environment? {
      if RefusedBetween(steps, m, n) {
        var k: nat :| m < k < n && RefusedSince(steps, k, n);
        assert RefusedSince(steps, k, n + 1);
      }
      if RefusedBetween(steps, m, n + 1) {
        var k: nat :| m < k < n + 1 && RefusedSince(steps, k, n + 1);
        assert k < n && RefusedSince(steps, k, n);
      }
    }
  }

  /** In every run, a save that has begun and not yet asked the form to flush began on an open
      fence, and is refused by now exactly when the environment has since set a refusing fence
      and not replaced it. */
  lemma {:induction false} RefusedBeforeFlush(states: seq<State>, steps: seq<Step>, n: nat, i: nat) returns (m: nat)
    requires IsRun(states, steps) && n < |states|
    requires i < |states[n].saves| && Unfenced(states[n].saves[i].phase)
    ensures m < n && steps[m] == Begin(i) && !Refused(states[m].fence)
    ensures Refused(states[n].fence) <==> RefusedBetween(steps, m, n)
  {
    var last := n - 1;
    StepIntoUnfenced(states[last], steps[last], i);
    if steps[last] == Begin(i) && !Refused(states[last].fence) {
      m := last;
    } else {
      m := RefusedBeforeFlush(states, steps, last, i);
      RefusedOneStepLonger(steps, m, last);
    }
  }

  /** Exactly when the form is flushed behind a refusing fence, in every run: between the save's
      begin and the flush the environment set such a fence and did not replace it. */
  lemma {:induction false} FlushedBehindTheFenceIff(states: seq<State>, steps: seq<Step>, n: nat, i: nat)
    returns (m: nat)
    requires IsRun(states, steps) && n < |steps| && steps[n] == FormLoaded(i)
    ensures m < n && steps[m] == Begin(i) && !Refused(states[m].fence)
    ensures states[n + 1].saves[i].phase == FlushingForm
    ensures Refused(states[n + 1].fence) <==> RefusedBetween(steps, m, n)
  {
    m := RefusedBeforeFlush(states, steps, n, i);
  }

  /** The fence is not read again between the capture and the form's save: a run in which the
      form is flushed while a submodel is open. */
  lemma {:induction false} FormMayBeFlushedBehindTheFence() returns (states: seq<State>, steps: seq<Step>)
    ensures IsRun(states, steps)
    ensures var last := states[|steps|];
      Refused(last.fence) && |last.saves| == 1 && last.saves[0].phase == FlushingForm
  {
    var open := Fence(false, false, true, true, true);
    var closed := open.(submodelOpen := true);
    steps := [RequestSave(Ready), Begin(0), Environment(closed, true, None), CaptureDone(0), FormLoaded(0)];
    var s0 := State(open, true, None, None, [], []);
    var s1 := After(s0, steps[0]);
    var s2 := After(s1, steps[1]);
    var s3 := After(s2, steps[2]);
    var s4 := After(s3, steps[3]);
    states := [s0, s1, s2, s3, s4, After(s4, steps[4])];
  }
}
