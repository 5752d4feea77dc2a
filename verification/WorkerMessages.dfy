/** Delivery of worker messages to the progress view. A poll collapses a run of progress samples into
    its last one; what that loses, against delivering every message in order, is stated exactly. */
module WorkerMessages {
  import opened Wrappers
  import opened MachineIntegers

  const MAX_WORKER_MESSAGES_PER_POLL := 256
  const WORKER_LOST := "工作线程异常终止"

  // ---------------------------------------------------------------------------------------------
  // Progress state
  // ---------------------------------------------------------------------------------------------

  datatype InstallStep =
    | VerifyImage | FormatPartition | ApplyImage | ImportDrivers | InstallCabPackages
    | RepairBoot | ApplyAdvancedOptions | GenerateUnattend | CleanupInstall | CompleteInstall

  datatype BackupStep =
    ReadConfig | CaptureImage | VerifyBackup | RepairBootAfterBackup | CleanupBackup | CompleteBackup

  function InstallRange(step: InstallStep): (r: (nat, nat))
    ensures r.0 <= r.1 <= 100
  {
    match step
    case VerifyImage => (0, 3)
    case FormatPartition => (3, 7)
    case ApplyImage => (7, 82)
    case ImportDrivers => (82, 88)
    case InstallCabPackages => (88, 92)
    case RepairBoot => (92, 96)
    case ApplyAdvancedOptions => (96, 98)
    case GenerateUnattend => (98, 99)
    case CleanupInstall => (99, 100)
    case CompleteInstall => (100, 100)
  }

  function BackupRange(step: BackupStep): (r: (nat, nat))
    ensures r.0 <= r.1 <= 100
  {
    match step
    case ReadConfig => (0, 3)
    case CaptureImage => (3, 93)
    case VerifyBackup => (93, 97)
    case RepairBootAfterBackup => (97, 99)
    case CleanupBackup => (99, 100)
    case CompleteBackup => (100, 100)
  }

  datatype ProgressState = ProgressState(
    isInstallMode: bool,
    isExpandMode: bool,
    installStep: InstallStep,
    backupStep: BackupStep,
    hasCurrentStep: bool,
    stepProgress: nat,
    overallProgress: nat,
    statusMessage: string,
    isCompleted: bool,
    isFailed: bool,
    errorMessage: Option<string>,
    completionWarning: Option<string>)

  function WeightedProgress(range: (nat, nat), stepProgress: nat): nat {
    var span := if range.1 >= range.0 then range.1 - range.0 else 0;
    var value := range.0 + span * Min(stepProgress, 100) / 100;
    Min(value, 100)
  }

  const INSTALL_STEPS := [
    VerifyImage, FormatPartition, ApplyImage, ImportDrivers, InstallCabPackages,
    RepairBoot, ApplyAdvancedOptions, GenerateUnattend, CleanupInstall, CompleteInstall ]

  const BACKUP_STEPS := [
    ReadConfig, CaptureImage, VerifyBackup, RepairBootAfterBackup, CleanupBackup, CompleteBackup ]

  /** The steps of an installation share the bar in order, each with its percentage of it. */
  lemma InstallStepsTileBar(k: nat)
    requires k < 10
    ensures var range := InstallRange(INSTALL_STEPS[k]);
      && range.1 - range.0 == [3, 4, 75, 6, 4, 4, 2, 1, 1, 0][k]
      && range.0 == (if k == 0 then 0 else InstallRange(INSTALL_STEPS[k - 1]).1)
      && (k == 9 ==> range.1 == 100)
  {
  }

  /** So do the steps of a backup. */
  lemma BackupStepsTileBar(k: nat)
    requires k < 6
    ensures var range := BackupRange(BACKUP_STEPS[k]);
      && range.1 - range.0 == [3, 90, 4, 2, 1, 0][k]
      && range.0 == (if k == 0 then 0 else BackupRange(BACKUP_STEPS[k - 1]).1)
      && (k == 5 ==> range.1 == 100)
  {
  }

  /** A percentage of a step lies as far into the step's part of the bar, rounded down; from 100 on at its end. */
  lemma WeightedLies(range: (nat, nat), percentage: nat)
    requires range.0 <= range.1 <= 100
    ensures var width, bar := range.1 - range.0, WeightedProgress(range, percentage);
      && range.0 <= bar <= range.1
      && (percentage >= 100 ==> bar == range.1)
      && (percentage < 100 ==> 100 * (bar - range.0) <= width * percentage < 100 * (bar - range.0 + 1))
  {
    var width, shown := range.1 - range.0, Min(percentage, 100);
    assert 0 <= width * shown <= width * 100 by {
      assert width * (100 - shown) == width * 100 - width * shown;
      assert width * shown >= 0 && width * (100 - shown) >= 0;
    }
  }

  /** What decides how a percentage shows on the overall bar: the mode and the step. */
  datatype Stage = Stage(
    isInstallMode: bool, isExpandMode: bool, installStep: InstallStep, backupStep: BackupStep, hasCurrentStep: bool)
  {
    /** Samples move the overall bar only forwards. */
    predicate Tracks() {
      !isExpandMode && hasCurrentStep
    }

    /** Where the overall bar stands for `stepProgress` percent of the current step. */
    function Weighted(stepProgress: nat): nat {
      WeightedProgress(if isInstallMode then InstallRange(installStep) else BackupRange(backupStep), stepProgress)
    }
  }

  function StageOf(s: ProgressState): Stage {
    Stage(s.isInstallMode, s.isExpandMode, s.installStep, s.backupStep, s.hasCurrentStep)
  }

  function Weighted(s: ProgressState, stepProgress: nat): nat {
    StageOf(s).Weighted(stepProgress)
  }

  /** The overall bar never moves backwards while a step is shown. */
  function UpdateOverall(s: ProgressState): ProgressState {
    if !s.hasCurrentStep then s.(overallProgress := 0)
    else s.(overallProgress := Max(s.overallProgress, Weighted(s, s.stepProgress)))
  }

  function SetInstallStep(s: ProgressState, step: InstallStep): ProgressState {
    UpdateOverall(s.(installStep := step, hasCurrentStep := true, stepProgress := 0, statusMessage := ""))
  }

  function SetBackupStep(s: ProgressState, step: BackupStep): ProgressState {
    UpdateOverall(s.(backupStep := step, hasCurrentStep := true, stepProgress := 0, statusMessage := ""))
  }

  function SetStepProgress(s: ProgressState, progress: nat): ProgressState {
    var t := s.(stepProgress := Min(progress, 100));
    if s.isExpandMode then t.(overallProgress := t.stepProgress) else UpdateOverall(t)
  }

  function MarkCompleted(s: ProgressState, warning: Option<string>): ProgressState {
    var t := s.(isCompleted := true, completionWarning := warning, overallProgress := 100, stepProgress := 100,
                hasCurrentStep := !s.isExpandMode);
    if s.isExpandMode then t
    else if s.isInstallMode then t.(installStep := CompleteInstall)
    else t.(backupStep := CompleteBackup)
  }

  function MarkFailed(s: ProgressState, error: string): ProgressState {
    s.(isFailed := true, errorMessage := Some(error))
  }

  // ---------------------------------------------------------------------------------------------
  // Messages, delivered one by one
  // ---------------------------------------------------------------------------------------------

  datatype Message =
    | InstallStepChanged(installStep: InstallStep)
    | BackupStepChanged(backupStep: BackupStep)
    | Progress(progress: nat)
    | Status(status: string)
    | ProgressStatus(progress: nat, status: string)
    | Completed
    | CompletedWithWarning(warning: string)
    | Failed(error: string)

  /** A sample may be collapsed; everything else is a transition. */
  predicate IsSample(m: Message) {
    m.Progress? || m.Status? || m.ProgressStatus?
  }

  predicate IsTerminal(m: Message) {
    m.Completed? || m.CompletedWithWarning? || m.Failed?
  }

  function Deliver(s: ProgressState, m: Message): ProgressState {
    match m
    case InstallStepChanged(step) => SetInstallStep(s, step)
    case BackupStepChanged(step) => SetBackupStep(s, step)
    case Progress(progress) => SetStepProgress(s, progress)
    case Status(status) => s.(statusMessage := status)
    case ProgressStatus(progress, status) => SetStepProgress(s, progress).(statusMessage := status)
    case Completed => MarkCompleted(s, None)
    case CompletedWithWarning(warning) => MarkCompleted(s, Some(warning))
    case Failed(error) => MarkFailed(s, error)
  }

  function DeliverAll(s: ProgressState, messages: seq<Message>): ProgressState
    decreases |messages|
  {
    if messages == [] then s else DeliverAll(Deliver(s, messages[0]), messages[1..])
  }

  // ---------------------------------------------------------------------------------------------
  // Messages, collapsed by one poll
  // ---------------------------------------------------------------------------------------------

  /** The last sample of the current run. */
  datatype Pending = Pending(progress: Option<nat>, status: Option<string>)

  const NOTHING_PENDING := Pending(None, None)

  function Flush(s: ProgressState, pending: Pending): ProgressState {
    var t := if pending.progress.Some? then SetStepProgress(s, pending.progress.value) else s;
    if pending.status.Some? then t.(statusMessage := pending.status.value) else t
  }

  function Collapse(pending: Pending, m: Message): Pending
    requires IsSample(m)
  {
    match m
    case Progress(progress) => pending.(progress := Some(progress))
    case Status(status) => pending.(status := Some(status))
    case ProgressStatus(progress, status) => Pending(Some(progress), Some(status))
  }

  /** The state a poll leaves that takes `messages` with `pending` already collapsed. */
  function Poll(s: ProgressState, pending: Pending, messages: seq<Message>): ProgressState
    decreases |messages|
  {
    if messages == [] then Flush(s, pending)
    else if IsSample(messages[0]) then Poll(s, Collapse(pending, messages[0]), messages[1..])
    else Poll(Deliver(Flush(s, pending), messages[0]), NOTHING_PENDING, messages[1..])
  }

  // ---------------------------------------------------------------------------------------------
  // What collapsing loses
  // ---------------------------------------------------------------------------------------------

  predicate Tracks(s: ProgressState) {
    StageOf(s).Tracks()
  }

  /** How far a sample that was shown one by one, but collapsed, can have pushed the bar. A bar that is
      set outright forgets it. */
  function Lose(lost: nat, s: ProgressState, superseded: Option<nat>): nat {
    if superseded.None? then lost
    else if Tracks(s) then Max(lost, Weighted(s, superseded.value))
    else 0
  }

  function Forget(lost: nat, s: ProgressState, pending: Pending): nat {
    if pending.progress.Some? && !Tracks(s) then 0 else lost
  }

  predicate SetsBar(m: Message) {
    m.Completed? || m.CompletedWithWarning?
  }

  /** The furthest any superseded sample pushed the bar since it was last set outright, `lost` before. */
  function Lost(lost: nat, s: ProgressState, pending: Pending, messages: seq<Message>): nat
    decreases |messages|
  {
    if messages == [] then Forget(lost, s, pending)
    else
      var m := messages[0];
      if m.Status? then Lost(lost, s, Collapse(pending, m), messages[1..])
      else if IsSample(m) then Lost(Lose(lost, s, pending.progress), s, Collapse(pending, m), messages[1..])
      else
        Lost(if SetsBar(m) then 0 else Forget(lost, s, pending), Deliver(Flush(s, pending), m), NOTHING_PENDING,
             messages[1..])
  }

  /** `s` with the bar pushed to at least `lost`. */
  function Pushed(s: ProgressState, lost: nat): ProgressState {
    s.(overallProgress := Max(s.overallProgress, lost))
  }

  /** The overall bar behind a sample. */
  function BarBehind(bar: nat, stage: Stage, progress: nat): nat {
    if stage.isExpandMode then Min(progress, 100)
    else if !stage.hasCurrentStep then 0
    else Max(bar, stage.Weighted(progress))
  }

  function OverallBehind(s: ProgressState, progress: nat): nat {
    BarBehind(s.overallProgress, StageOf(s), progress)
  }

  lemma StepProgressIs(s: ProgressState, progress: nat)
    ensures SetStepProgress(s, progress)
            == s.(stepProgress := Min(progress, 100), overallProgress := OverallBehind(s, progress))
  {
  }

  /** No percentage moves the overall bar back exactly when a step is shown outside expand mode, or the bar
      is at its start. */
  lemma BarMovesForwardIff(s: ProgressState)
    ensures (forall progress: nat :: s.overallProgress <= SetStepProgress(s, progress).overallProgress)
            <==> Tracks(s) || s.overallProgress == 0
  {
    if !Tracks(s) {
      assert SetStepProgress(s, 0).overallProgress == 0;
    }
  }

  /** A sample behind another: the first one only ever leaves its push on the bar. */
  lemma StepOverStep(s: ProgressState, first: nat, second: nat, lost: nat)
    ensures OverallBehind(s.(overallProgress := Max(OverallBehind(s, first), if Tracks(s) then lost else 0)), second)
            == Max(OverallBehind(s, second), if Tracks(s) then Max(lost, Weighted(s, first)) else 0)
  {
    var pushed := s.(overallProgress := Max(OverallBehind(s, first), if Tracks(s) then lost else 0));
    assert Weighted(pushed, second) == Weighted(s, second);
  }

  /** The bar does not depend on the status text or the step's own percentage. */
  lemma SameBar(s: ProgressState, stepProgress: nat, status: string, progress: nat)
    ensures OverallBehind(s.(stepProgress := stepProgress, statusMessage := status), progress)
        == OverallBehind(s, progress)
    ensures Tracks(s.(stepProgress := stepProgress, statusMessage := status)) == Tracks(s)
  {
  }

  /** One progress value behind another, the first one pushed as far as `lost`. */
  lemma ValueOverValue(s: ProgressState, first: nat, second: nat, status: string, lost: nat)
    ensures var before := Pushed(SetStepProgress(s, first).(statusMessage := status), if Tracks(s) then lost else 0);
            SetStepProgress(before, second)
            == Pushed(SetStepProgress(s, second).(statusMessage := status),
                      if Tracks(s) then Max(lost, Weighted(s, first)) else 0)
  {
    var bar := s.(overallProgress := Max(OverallBehind(s, first), if Tracks(s) then lost else 0));
    var pushed := Pushed(SetStepProgress(s, first).(statusMessage := status), if Tracks(s) then lost else 0);
    StepProgressIs(s, first);
    StepProgressIs(s, second);
    assert pushed == bar.(stepProgress := Min(first, 100), statusMessage := status);
    StepProgressIs(pushed, second);
    SameBar(bar, Min(first, 100), status, second);
    StepOverStep(s, first, second, lost);
  }

  /** One progress value on a bar pushed as far as `lost`. */
  lemma ValueOverPush(s: ProgressState, second: nat, status: string, lost: nat)
    ensures SetStepProgress(Pushed(s.(statusMessage := status), lost), second)
            == Pushed(SetStepProgress(s, second).(statusMessage := status), if Tracks(s) then lost else 0)
  {
    StepProgressIs(s, second);
    var pushed := Pushed(s.(statusMessage := status), lost);
    StepProgressIs(pushed, second);
    assert Weighted(pushed, second) == Weighted(s, second);
  }

  /** Delivering a progress sample behind a pending progress value. */
  lemma FlushOverSecond(s: ProgressState, pending: Pending, m: Message, lost: nat)
    requires IsSample(m) && !m.Status? && pending.progress.Some?
    ensures Deliver(Pushed(Flush(s, pending), if Tracks(s) then lost else 0), m)
            == Pushed(Flush(s, Collapse(pending, m)), Lose(lost, s, pending.progress))
  {
    var status := if pending.status.Some? then pending.status.value else s.statusMessage;
    var first := pending.progress.value;
    FlushIs(s, pending, first, status);
    CollapsedFlushIs(s, pending, m);
    ValueOverValue(s, first, m.progress, status, lost);
    SampleOver(Pushed(SetStepProgress(s, first).(statusMessage := status), if Tracks(s) then lost else 0), m,
               Pushed(SetStepProgress(s, m.progress).(statusMessage := status), Lose(lost, s, pending.progress)));
  }

  /** A sample that carries no status text keeps the one shown. */
  lemma SampleOver(before: ProgressState, m: Message, behind: ProgressState)
    requires IsValue(m) && SetStepProgress(before, m.progress) == behind
    ensures Deliver(before, m) == behind.(statusMessage := if m.ProgressStatus? then m.status else before.statusMessage)
  {
    DeliverSampleIs(before, m);
  }

  /** Delivering a progress sample when none is pending. */
  lemma FlushOverFirst(s: ProgressState, pending: Pending, m: Message, lost: nat)
    requires IsSample(m) && !m.Status? && pending.progress.None?
    ensures Deliver(Pushed(Flush(s, pending), lost), m)
            == Pushed(Flush(s, Collapse(pending, m)), if Tracks(s) then lost else 0)
  {
    var status := if pending.status.Some? then pending.status.value else s.statusMessage;
    assert Flush(s, pending) == s.(statusMessage := status);
    DeliverSampleIs(Pushed(Flush(s, pending), lost), m);
    CollapsedFlushIs(s, pending, m);
    ValueOverPush(s, m.progress, status, lost);
  }

  /** Delivering a sample sets the progress, then the status text. */
  lemma DeliverSampleIs(s: ProgressState, m: Message)
    requires IsSample(m) && !m.Status?
    ensures Deliver(s, m)
            == SetStepProgress(s, m.progress).(statusMessage := if m.ProgressStatus? then m.status else s.statusMessage)
  {
    SetStepKeepsStatus(s, m.progress);
  }

  lemma FlushIs(s: ProgressState, pending: Pending, first: nat, status: string)
    requires pending.progress == Some(first)
    requires status == if pending.status.Some? then pending.status.value else s.statusMessage
    ensures Flush(s, pending) == SetStepProgress(s, first).(statusMessage := status)
  {
    SetStepKeepsStatus(s, first);
  }

  lemma CollapsedFlushIs(s: ProgressState, pending: Pending, m: Message)
    requires IsSample(m) && !m.Status?
    ensures Flush(s, Collapse(pending, m))
            == SetStepProgress(s, m.progress).(statusMessage :=
                 if m.ProgressStatus? then m.status
                 else if pending.status.Some? then pending.status.value
                 else s.statusMessage)
  {
    SetStepKeepsStatus(s, m.progress);
  }

  lemma SetStepKeepsStatus(s: ProgressState, progress: nat)
    ensures SetStepProgress(s, progress).statusMessage == s.statusMessage
  {
  }

  lemma FlushBehindStatus(s: ProgressState, pending: Pending, m: Message)
    requires m.Status?
    ensures Flush(s, Collapse(pending, m)) == Flush(s, pending).(statusMessage := m.status)
  {
    var shown := if pending.progress.Some? then SetStepProgress(s, pending.progress.value) else s;
    StatusOverStatus(shown, pending.status, m.status);
  }

  lemma StatusOverStatus(s: ProgressState, first: Option<string>, second: string)
    ensures (if first.Some? then s.(statusMessage := first.value) else s).(statusMessage := second)
            == s.(statusMessage := second)
  {
  }

  lemma FlushOverStatus(s: ProgressState, pending: Pending, m: Message, lost: nat)
    requires m.Status?
    ensures Deliver(Pushed(Flush(s, pending), Forget(lost, s, pending)), m)
            == Pushed(Flush(s, Collapse(pending, m)), Forget(lost, s, Collapse(pending, m)))
  {
    FlushBehindStatus(s, pending, m);
    assert Collapse(pending, m).progress == pending.progress;
    StatusOverPush(Flush(s, pending), m.status, Forget(lost, s, pending));
  }

  lemma StatusOverPush(s: ProgressState, status: string, lost: nat)
    ensures Deliver(Pushed(s, lost), Status(status)) == Pushed(s.(statusMessage := status), lost)
  {
  }

  lemma PushOverInstallStep(s: ProgressState, step: InstallStep, lost: nat)
    ensures SetInstallStep(Pushed(s, lost), step) == Pushed(SetInstallStep(s, step), lost)
  {
  }

  lemma PushOverBackupStep(s: ProgressState, step: BackupStep, lost: nat)
    ensures SetBackupStep(Pushed(s, lost), step) == Pushed(SetBackupStep(s, step), lost)
  {
  }

  lemma PushOverCompletion(s: ProgressState, warning: Option<string>, lost: nat)
    ensures MarkCompleted(Pushed(s, lost), warning) == Pushed(MarkCompleted(s, warning), 0)
  {
  }

  lemma PushOverTransition(s: ProgressState, m: Message, lost: nat)
    requires !IsSample(m)
    ensures Deliver(Pushed(s, lost), m)
            == Pushed(Deliver(s, m), if SetsBar(m) then 0 else lost)
  {
    match m
    case InstallStepChanged(step) => PushOverInstallStep(s, step, lost);
    case BackupStepChanged(step) => PushOverBackupStep(s, step, lost);
    case Completed => PushOverCompletion(s, None, lost);
    case CompletedWithWarning(warning) => PushOverCompletion(s, Some(warning), lost);
    case Failed(_) =>
  }

  /** Delivering every message gives the collapsed state with the bar pushed to the furthest superseded
      sample, and nothing else differs. */
  lemma {:induction false} CollapsingLosesExactly(s: ProgressState, pending: Pending, messages: seq<Message>, lost: nat)
    ensures DeliverAll(Pushed(Flush(s, pending), Forget(lost, s, pending)), messages)
            == Pushed(Poll(s, pending, messages), Lost(lost, s, pending, messages))
    decreases |messages|
  {
    if messages != [] {
      var m := messages[0];
      if m.Status? {
        FlushOverStatus(s, pending, m, lost);
        CollapsingLosesExactly(s, Collapse(pending, m), messages[1..], lost);
      } else if IsSample(m) {
        if pending.progress.Some? {
          FlushOverSecond(s, pending, m, lost);
        } else {
          FlushOverFirst(s, pending, m, lost);
        }
        CollapsingLosesExactly(s, Collapse(pending, m), messages[1..], Lose(lost, s, pending.progress));
      } else {
        var flushed := Forget(lost, s, pending);
        var next := if SetsBar(m) then 0 else flushed;
        PushOverTransition(Flush(s, pending), m, flushed);
        CollapsingLosesExactly(Deliver(Flush(s, pending), m), NOTHING_PENDING, messages[1..], next);
      }
    }
  }

  // ---------------------------------------------------------------------------------------------
  // When collapsing loses nothing, from the messages alone
  // ---------------------------------------------------------------------------------------------

  predicate IsValue(m: Message) {
    m.Progress? || m.ProgressStatus?
  }

  /** The stage behind a message; samples leave it alone. */
  function NextStage(stage: Stage, m: Message): Stage {
    match m
    case InstallStepChanged(step) => stage.(installStep := step, hasCurrentStep := true)
    case BackupStepChanged(step) => stage.(backupStep := step, hasCurrentStep := true)
    case Completed => CompletedStage(stage)
    case CompletedWithWarning(_) => CompletedStage(stage)
    case _ => stage
  }

  function CompletedStage(stage: Stage): Stage {
    if stage.isExpandMode then stage.(hasCurrentStep := false)
    else if stage.isInstallMode then stage.(installStep := CompleteInstall, hasCurrentStep := true)
    else stage.(backupStep := CompleteBackup, hasCurrentStep := true)
  }

  /** The bar behind a transition. */
  function BarBehindTransition(bar: nat, stage: Stage, m: Message): nat {
    match m
    case InstallStepChanged(_) => Max(bar, NextStage(stage, m).Weighted(0))
    case BackupStepChanged(_) => Max(bar, NextStage(stage, m).Weighted(0))
    case Completed => 100
    case CompletedWithWarning(_) => 100
    case _ => bar
  }

  /** The message sets the bar, whatever it was, rather than pushing it forward. */
  predicate SetsOutright(stage: Stage, m: Message) {
    SetsBar(m) || (IsValue(m) && !stage.Tracks())
  }

  /** The run of samples at the front still holds a progress value. */
  predicate FollowedByValue(messages: seq<Message>) {
    messages != [] && (IsValue(messages[0]) || (messages[0].Status? && FollowedByValue(messages[1..])))
  }

  /** How far the messages that no later sample of their run supersedes bring the bar. */
  function KeptReach(bar: nat, stage: Stage, messages: seq<Message>): nat
    decreases |messages|
  {
    if messages == [] then bar
    else
      var m := messages[0];
      var next :=
        if IsValue(m) then if FollowedByValue(messages[1..]) then bar else BarBehind(bar, stage, m.progress)
        else BarBehindTransition(bar, stage, m);
      KeptReach(next, NextStage(stage, m), messages[1..])
  }

  /** How far the superseded messages push the bar since it was last set outright, `lost` before. */
  function SupersededReach(lost: nat, stage: Stage, messages: seq<Message>): nat
    decreases |messages|
  {
    if messages == [] then lost
    else
      var m := messages[0];
      var next :=
        if SetsOutright(stage, m) then 0
        else if IsValue(m) && FollowedByValue(messages[1..]) then Max(lost, stage.Weighted(m.progress))
        else lost;
      SupersededReach(next, NextStage(stage, m), messages[1..])
  }

  lemma StageBehind(s: ProgressState, m: Message)
    ensures StageOf(Deliver(s, m)) == NextStage(StageOf(s), m)
    ensures !IsValue(m) ==> Deliver(s, m).overallProgress == BarBehindTransition(s.overallProgress, StageOf(s), m)
  {
  }

  lemma StageBehindFlush(s: ProgressState, pending: Pending)
    ensures StageOf(Flush(s, pending)) == StageOf(s)
    ensures Flush(s, pending).overallProgress
            == if pending.progress.None? then s.overallProgress
               else BarBehind(s.overallProgress, StageOf(s), pending.progress.value)
  {
    if pending.progress.Some? { StepProgressIs(s, pending.progress.value); }
  }

  /** A pending value as the message it came from. */
  function Front(pending: Pending): seq<Message> {
    if pending.progress.Some? then [Progress(pending.progress.value)] else []
  }

  /** How a pending value and the next message read as messages. */
  lemma FrontThenOne(pending: Pending, m: Message, rest: seq<Message>)
    ensures pending.progress.Some? ==>
      && (Front(pending) + ([m] + rest))[0] == Progress(pending.progress.value)
      && (Front(pending) + ([m] + rest))[1..] == [m] + rest
    ensures pending.progress.None? ==> Front(pending) + ([m] + rest) == [m] + rest
    ensures ([m] + rest)[0] == m && ([m] + rest)[1..] == rest
    ensures FollowedByValue([m] + rest) <==> IsValue(m) || (m.Status? && FollowedByValue(rest))
  {
  }

  lemma KeptOverSample(bar: nat, stage: Stage, pending: Pending, m: Message, rest: seq<Message>)
    requires IsSample(m)
    ensures KeptReach(bar, stage, Front(pending) + ([m] + rest))
        == KeptReach(bar, stage, Front(Collapse(pending, m)) + rest)
  {
    FrontThenOne(pending, m, rest);
    if m.Status? {
      assert Front(Collapse(pending, m)) == Front(pending);
      if pending.progress.Some? {
        assert (Front(pending) + rest)[1..] == rest;
      } else {
        assert Front(pending) + rest == rest;
      }
    } else {
      assert (Front(Collapse(pending, m)) + rest)[1..] == rest;
    }
  }

  lemma SupersededOverStatus(lost: nat, stage: Stage, pending: Pending, m: Message, rest: seq<Message>)
    requires m.Status?
    ensures SupersededReach(lost, stage, Front(pending) + ([m] + rest))
        == SupersededReach(lost, stage, Front(pending) + rest)
  {
    FrontThenOne(pending, m, rest);
    if pending.progress.Some? {
      assert (Front(pending) + rest)[1..] == rest;
    } else {
      assert Front(pending) + rest == rest;
    }
  }

  lemma SupersededOverValue(lost: nat, s: ProgressState, pending: Pending, m: Message, rest: seq<Message>)
    requires IsValue(m)
    ensures SupersededReach(lost, StageOf(s), Front(pending) + ([m] + rest))
            == SupersededReach(Lose(lost, s, pending.progress), StageOf(s), Front(Collapse(pending, m)) + rest)
  {
    FrontThenOne(pending, m, rest);
    assert (Front(Collapse(pending, m)) + rest)[1..] == rest;
  }

  /** The bar of a poll. */
  lemma {:induction false} PollReaches(s: ProgressState, pending: Pending, messages: seq<Message>)
    ensures Poll(s, pending, messages).overallProgress
        == KeptReach(s.overallProgress, StageOf(s), Front(pending) + messages)
    decreases |messages|
  {
    StageBehindFlush(s, pending);
    if messages == [] {
      assert Front(pending) + messages == Front(pending);
      if pending.progress.Some? { assert Front(pending)[1..] == []; }
    } else {
      var m, rest := messages[0], messages[1..];
      assert messages == [m] + rest;
      if IsSample(m) {
        KeptOverSample(s.overallProgress, StageOf(s), pending, m, rest);
        PollReaches(s, Collapse(pending, m), rest);
      } else {
        FrontThenOne(pending, m, rest);
        StageBehind(Flush(s, pending), m);
        PollReaches(Deliver(Flush(s, pending), m), NOTHING_PENDING, rest);
        assert Front(NOTHING_PENDING) + rest == rest;
      }
    }
  }

  /** What a poll loses. */
  lemma {:induction false} LostIsSuperseded(lost: nat, s: ProgressState, pending: Pending, messages: seq<Message>)
    ensures Lost(lost, s, pending, messages) == SupersededReach(lost, StageOf(s), Front(pending) + messages)
    decreases |messages|
  {
    StageBehindFlush(s, pending);
    if messages == [] {
      assert Front(pending) + messages == Front(pending);
      if pending.progress.Some? { assert Front(pending)[1..] == []; }
    } else {
      var m, rest := messages[0], messages[1..];
      assert messages == [m] + rest;
      if m.Status? {
        SupersededOverStatus(lost, StageOf(s), pending, m, rest);
        LostIsSuperseded(lost, s, Collapse(pending, m), rest);
      } else if IsSample(m) {
        SupersededOverValue(lost, s, pending, m, rest);
        LostIsSuperseded(Lose(lost, s, pending.progress), s, Collapse(pending, m), rest);
      } else {
        FrontThenOne(pending, m, rest);
        StageBehind(Flush(s, pending), m);
        LostIsSuperseded(if SetsBar(m) then 0 else Forget(lost, s, pending), Deliver(Flush(s, pending), m),
                         NOTHING_PENDING, rest);
        assert Front(NOTHING_PENDING) + rest == rest;
      }
    }
  }

  /** The stage in front of message `i`. */
  function StageBefore(stage: Stage, messages: seq<Message>, i: nat): Stage
    requires i <= |messages|
    decreases i
  {
    if i == 0 then stage else StageBefore(NextStage(stage, messages[0]), messages[1..], i - 1)
  }

  /** Some message sets the bar outright. */
  predicate SetLater(stage: Stage, messages: seq<Message>)
    decreases |messages|
  {
    messages != [] && (SetsOutright(stage, messages[0]) || SetLater(NextStage(stage, messages[0]), messages[1..]))
  }

  /** Message `i` is superseded by a later sample of its run, and its push outlasts everything behind it. */
  predicate LosesAt(stage: Stage, messages: seq<Message>, i: nat)
    requires i < |messages|
  {
    && IsValue(messages[i]) && FollowedByValue(messages[i + 1..])
    && !SetLater(StageBefore(stage, messages, i), messages[i..])
  }

  function PushAt(stage: Stage, messages: seq<Message>, i: nat): nat
    requires i < |messages|
  {
    if IsValue(messages[i]) then StageBefore(stage, messages, i).Weighted(messages[i].progress) else 0
  }

  lemma LosesBehind(stage: Stage, messages: seq<Message>, i: nat)
    requires 0 < i < |messages|
    ensures LosesAt(stage, messages, i) == LosesAt(NextStage(stage, messages[0]), messages[1..], i - 1)
    ensures PushAt(stage, messages, i) == PushAt(NextStage(stage, messages[0]), messages[1..], i - 1)
  {
    assert messages[1..][i..] == messages[i + 1..] && messages[1..][i - 1..] == messages[i..];
  }

  /** The superseded reach is the furthest of the pushes lost, and of what was lost before. */
  lemma {:induction false} SupersededReachIs(lost: nat, stage: Stage, messages: seq<Message>, bound: nat)
    ensures SupersededReach(lost, stage, messages) <= bound <==>
      && (SetLater(stage, messages) || lost <= bound)
      && (forall i: nat :: i < |messages| && LosesAt(stage, messages, i) ==> PushAt(stage, messages, i) <= bound)
    decreases |messages|
  {
    if messages != [] {
      var m, rest := messages[0], messages[1..];
      var outright, value := SetsOutright(stage, m), IsValue(m) && FollowedByValue(rest);
      var next := if outright then 0 else if value then Max(lost, stage.Weighted(m.progress)) else lost;
      SupersededReachIs(next, NextStage(stage, m), rest, bound);
      assert messages[0..] == messages;
      assert LosesAt(stage, messages, 0) <==> value && !SetLater(stage, messages);
      forall i: nat | 0 < i < |messages|
        ensures LosesAt(stage, messages, i) == LosesAt(NextStage(stage, m), rest, i - 1)
        ensures PushAt(stage, messages, i) == PushAt(NextStage(stage, m), rest, i - 1)
      {
        LosesBehind(stage, messages, i);
      }
      forall k: nat | k < |rest|
        ensures LosesAt(NextStage(stage, m), rest, k) == LosesAt(stage, messages, k + 1)
        ensures PushAt(NextStage(stage, m), rest, k) == PushAt(stage, messages, k + 1)
      {
        LosesBehind(stage, messages, k + 1);
      }
    }
  }

  /** Message `i` is kept, and nothing behind it sets the bar outright. */
  predicate KeepsAt(stage: Stage, messages: seq<Message>, i: nat)
    requires i < |messages|
  {
    && !(IsValue(messages[i]) && FollowedByValue(messages[i + 1..]))
    && !SetLater(StageBefore(stage, messages, i + 1), messages[i + 1..])
  }

  /** Where message `i` brings a bar at its start. */
  function BringsAt(stage: Stage, messages: seq<Message>, i: nat): nat
    requires i < |messages|
  {
    if IsValue(messages[i]) then BarBehind(0, StageBefore(stage, messages, i), messages[i].progress)
    else BarBehindTransition(0, StageBefore(stage, messages, i), messages[i])
  }

  lemma KeepsBehind(stage: Stage, messages: seq<Message>, i: nat)
    requires 0 < i < |messages|
    ensures KeepsAt(stage, messages, i) == KeepsAt(NextStage(stage, messages[0]), messages[1..], i - 1)
    ensures BringsAt(stage, messages, i) == BringsAt(NextStage(stage, messages[0]), messages[1..], i - 1)
  {
    assert messages[1..][i..] == messages[i + 1..];
  }

  lemma {:induction false} RunSetsOutright(stage: Stage, messages: seq<Message>)
    requires FollowedByValue(messages) && !stage.Tracks()
    ensures SetLater(stage, messages)
  {
    if !IsValue(messages[0]) { RunSetsOutright(stage, messages[1..]); }
  }

  /** The kept reach is the furthest that kept messages bring the bar, and where it was before. */
  lemma {:induction false} KeptReachIs(bar: nat, stage: Stage, messages: seq<Message>, bound: nat)
    ensures KeptReach(bar, stage, messages) <= bound <==>
      && (SetLater(stage, messages) || bar <= bound)
      && (forall i: nat :: i < |messages| && KeepsAt(stage, messages, i) ==> BringsAt(stage, messages, i) <= bound)
    decreases |messages|
  {
    if messages != [] {
      var m, rest := messages[0], messages[1..];
      var superseded := IsValue(m) && FollowedByValue(rest);
      var next := if superseded then bar else if IsValue(m) then BarBehind(bar, stage, m.progress)
                  else BarBehindTransition(bar, stage, m);
      if superseded && !stage.Tracks() { RunSetsOutright(stage, rest); }
      KeptReachIs(next, NextStage(stage, m), rest, bound);
      assert KeepsAt(stage, messages, 0) <==> !superseded && !SetLater(NextStage(stage, m), rest);
      forall i: nat | 0 < i < |messages|
        ensures KeepsAt(stage, messages, i) == KeepsAt(NextStage(stage, m), rest, i - 1)
        ensures BringsAt(stage, messages, i) == BringsAt(NextStage(stage, m), rest, i - 1)
      {
        KeepsBehind(stage, messages, i);
      }
      forall k: nat | k < |rest|
        ensures KeepsAt(NextStage(stage, m), rest, k) == KeepsAt(stage, messages, k + 1)
        ensures BringsAt(NextStage(stage, m), rest, k) == BringsAt(stage, messages, k + 1)
      {
        KeepsBehind(stage, messages, k + 1);
      }
    }
  }

  /** One poll equals one-by-one delivery exactly when every superseded value whose push outlasts the
      messages behind it stays within the reach of the messages that are kept; otherwise the bar, and only
      the bar, is behind. */
  lemma PollIsExactIff(s: ProgressState, messages: seq<Message>)
    ensures var polled, delivered := Poll(s, NOTHING_PENDING, messages), DeliverAll(s, messages);
            var stage := StageOf(s);
            && (polled == delivered <==>
                forall i: nat :: i < |messages| && LosesAt(stage, messages, i) ==>
                  PushAt(stage, messages, i) <= KeptReach(s.overallProgress, stage, messages))
            && polled.(overallProgress := delivered.overallProgress) == delivered
            && polled.overallProgress <= delivered.overallProgress
  {
    CollapsingLosesExactly(s, NOTHING_PENDING, messages, 0);
    assert Pushed(s, 0) == s;
    assert Front(NOTHING_PENDING) + messages == messages;
    PollReaches(s, NOTHING_PENDING, messages);
    LostIsSuperseded(0, s, NOTHING_PENDING, messages);
    SupersededReachIs(0, StageOf(s), messages, KeptReach(s.overallProgress, StageOf(s), messages));
  }

  /** The last percentage of a run of samples. */
  function LastValue(messages: seq<Message>): Option<nat> {
    if messages == [] then None
    else
      var behind := LastValue(messages[1..]);
      if behind.Some? then behind else if IsValue(messages[0]) then Some(messages[0].progress) else None
  }

  lemma {:induction false} RunOfSamples(bar: nat, stage: Stage, messages: seq<Message>)
    requires stage.Tracks() && forall i :: 0 <= i < |messages| ==> IsSample(messages[i])
    ensures KeptReach(bar, stage, messages)
            == if LastValue(messages).Some? then BarBehind(bar, stage, LastValue(messages).value) else bar
    ensures LastValue(messages).Some? <==> FollowedByValue(messages)
    ensures !SetLater(stage, messages)
    ensures forall i: nat :: i <= |messages| ==>
        StageBefore(stage, messages, i) == stage && !SetLater(stage, messages[i..])
    decreases |messages|
  {
    if messages != [] {
      RunOfSamples(bar, stage, messages[1..]);
      if messages[0].Status? { assert BarBehindTransition(bar, stage, messages[0]) == bar; }
      else { RunOfSamples(BarBehind(bar, stage, messages[0].progress), stage, messages[1..]); }
      forall i: nat | i <= |messages|
        ensures StageBefore(stage, messages, i) == stage && !SetLater(stage, messages[i..])
      {
        if i > 0 { assert messages[1..][i - 1..] == messages[i..]; } else { assert messages[0..] == messages; }
      }
    }
  }

  lemma {:induction false} OnlyTheLastIsKept(messages: seq<Message>, i: nat)
    requires forall k :: 0 <= k < |messages| ==> IsSample(messages[k])
    requires i < |messages| && IsValue(messages[i])
    ensures LastValue(messages).Some?
    ensures FollowedByValue(messages[i + 1..]) || messages[i].progress == LastValue(messages).value
  {
    if i > 0 {
      OnlyTheLastIsKept(messages[1..], i - 1);
      assert messages[1..][i..] == messages[i + 1..];
    } else if LastValue(messages[1..]).Some? {
      LastValueFollows(messages[1..]);
    }
  }

  lemma {:induction false} LastValueFollows(messages: seq<Message>)
    requires forall k :: 0 <= k < |messages| ==> IsSample(messages[k])
    requires LastValue(messages).Some?
    ensures FollowedByValue(messages)
  {
    if !IsValue(messages[0]) { LastValueFollows(messages[1..]); }
  }

  /** A run of samples is shown exactly when none of them would bring the bar beyond where it was and where
      the last percentage brings it. */
  lemma SampleRunIsExactIff(s: ProgressState, messages: seq<Message>)
    requires Tracks(s) && forall i :: 0 <= i < |messages| ==> IsSample(messages[i])
    ensures Poll(s, NOTHING_PENDING, messages) == DeliverAll(s, messages) <==>
      forall i: nat :: i < |messages| && IsValue(messages[i]) ==>
        || Weighted(s, messages[i].progress) <= s.overallProgress
        || (LastValue(messages).Some? && Weighted(s, messages[i].progress) <= Weighted(s, LastValue(messages).value))
  {
    var stage := StageOf(s);
    PollIsExactIff(s, messages);
    RunOfSamples(s.overallProgress, stage, messages);
    forall i: nat | i < |messages| && IsValue(messages[i])
      ensures LastValue(messages).Some? && PushAt(stage, messages, i) == Weighted(s, messages[i].progress)
      ensures LosesAt(stage, messages, i) || messages[i].progress == LastValue(messages).value
    {
      OnlyTheLastIsKept(messages, i);
    }
  }

  /** A falling percentage within one poll is shown lower than one-by-one delivery shows it. */
  lemma FallingSampleIsLost()
    ensures var s := ProgressState(true, false, ApplyImage, ReadConfig, true, 0, 7, "", false, false, None, None);
            && DeliverAll(s, [Progress(90), Progress(50)]).overallProgress == 74
            && Poll(s, NOTHING_PENDING, [Progress(90), Progress(50)]).overallProgress == 44
  {
    var s := ProgressState(true, false, ApplyImage, ReadConfig, true, 0, 7, "", false, false, None, None);
    var messages := [Progress(90), Progress(50)];
    var first := Deliver(s, messages[0]);
    assert messages[1..] == [Progress(50)] && messages[1..][1..] == [];
    assert first.overallProgress == 74;
    assert DeliverAll(first, [Progress(50)]) == Deliver(first, Progress(50));
    assert Poll(s, NOTHING_PENDING, messages) == Poll(s, Pending(Some(90), None), messages[1..]);
    assert Poll(s, Pending(Some(90), None), [Progress(50)]) == Poll(s, Pending(Some(50), None), [Progress(50)][1..]);
  }

  // ---------------------------------------------------------------------------------------------
  // Rising percentages lose nothing
  // ---------------------------------------------------------------------------------------------

  /** Between transitions no progress value is below the one before it. */
  predicate Rising(last: Option<nat>, messages: seq<Message>)
    decreases |messages|
  {
    messages == [] ||
    var m := messages[0];
    if !IsSample(m) then Rising(None, messages[1..])
    else if m.Status? then Rising(last, messages[1..])
    else (last.Some? ==> last.value <= m.progress) && Rising(Some(m.progress), messages[1..])
  }

  lemma WeightedIsMonotone(s: ProgressState, a: nat, b: nat)
    requires a <= b
    ensures Weighted(s, a) <= Weighted(s, b)
  {
    var range := if s.isInstallMode then InstallRange(s.installStep) else BackupRange(s.backupStep);
    assert Weighted(s, a) == WeightedProgress(range, a) && Weighted(s, b) == WeightedProgress(range, b);
    ShareIsMonotone(range.1 - range.0, Min(a, 100), Min(b, 100));
  }

  lemma ShareIsMonotone(span: nat, a: nat, b: nat)
    requires a <= b
    ensures span * a / 100 <= span * b / 100
  {
    assert span * a <= span * b;
  }

  /** What the bar must still reach: a lost push that the pending value already covers. */
  predicate Covered(lost: nat, s: ProgressState, pending: Pending) {
    lost <= s.overallProgress || (Tracks(s) && pending.progress.Some? && lost <= Weighted(s, pending.progress.value))
  }

  lemma CoveredFlush(lost: nat, s: ProgressState, pending: Pending)
    requires Covered(lost, s, pending)
    ensures Forget(lost, s, pending) <= Flush(s, pending).overallProgress
  {
    if pending.progress.Some? { StepProgressIs(s, pending.progress.value); }
  }

  lemma TransitionKeepsBar(s: ProgressState, m: Message)
    requires !IsSample(m)
    ensures SetsBar(m) || s.overallProgress <= Deliver(s, m).overallProgress
  {
  }

  lemma {:induction false} RisingLosesNothing(s: ProgressState, pending: Pending, messages: seq<Message>, lost: nat)
    requires Rising(pending.progress, messages) && Covered(lost, s, pending)
    ensures Lost(lost, s, pending, messages) <= Poll(s, pending, messages).overallProgress
    decreases |messages|
  {
    if messages == [] {
      CoveredFlush(lost, s, pending);
    } else {
      var m := messages[0];
      if m.Status? {
        RisingLosesNothing(s, Collapse(pending, m), messages[1..], lost);
      } else if IsSample(m) {
        if pending.progress.Some? { WeightedIsMonotone(s, pending.progress.value, m.progress); }
        RisingLosesNothing(s, Collapse(pending, m), messages[1..], Lose(lost, s, pending.progress));
      } else {
        CoveredFlush(lost, s, pending);
        TransitionKeepsBar(Flush(s, pending), m);
        RisingLosesNothing(Deliver(Flush(s, pending), m), NOTHING_PENDING, messages[1..],
                           if SetsBar(m) then 0 else Forget(lost, s, pending));
      }
    }
  }

  /** Messages whose percentages never fall between transitions survive any poll unchanged. */
  lemma RisingPollIsExact(s: ProgressState, messages: seq<Message>)
    requires Rising(None, messages)
    ensures Poll(s, NOTHING_PENDING, messages) == DeliverAll(s, messages)
  {
    RisingLosesNothing(s, NOTHING_PENDING, messages, 0);
    CollapsingLosesExactly(s, NOTHING_PENDING, messages, 0);
    assert Pushed(s, 0) == s;
  }

  // ---------------------------------------------------------------------------------------------
  // Any number of polls
  // ---------------------------------------------------------------------------------------------

  function Flatten(batches: seq<seq<Message>>): seq<Message> {
    if batches == [] then [] else batches[0] + Flatten(batches[1..])
  }

  function PollAll(s: ProgressState, batches: seq<seq<Message>>): ProgressState
    decreases |batches|
  {
    if batches == [] then s else PollAll(Poll(s, NOTHING_PENDING, batches[0]), batches[1..])
  }

  function LostAll(lost: nat, s: ProgressState, batches: seq<seq<Message>>): nat
    decreases |batches|
  {
    if batches == [] then lost
    else LostAll(Lost(lost, s, NOTHING_PENDING, batches[0]), Poll(s, NOTHING_PENDING, batches[0]), batches[1..])
  }

  function StageBehindAll(stage: Stage, messages: seq<Message>): Stage
    decreases |messages|
  {
    if messages == [] then stage else StageBehindAll(NextStage(stage, messages[0]), messages[1..])
  }

  /** The two reaches over several polls: a run of samples ends with its poll. */
  function KeptReachAll(bar: nat, stage: Stage, batches: seq<seq<Message>>): nat
    decreases |batches|
  {
    if batches == [] then bar
    else KeptReachAll(KeptReach(bar, stage, batches[0]), StageBehindAll(stage, batches[0]), batches[1..])
  }

  function SupersededReachAll(lost: nat, stage: Stage, batches: seq<seq<Message>>): nat
    decreases |batches|
  {
    if batches == [] then lost
    else SupersededReachAll(SupersededReach(lost, stage, batches[0]), StageBehindAll(stage, batches[0]), batches[1..])
  }

  /** The stage in front of poll `b`. */
  function StageBeforePoll(stage: Stage, batches: seq<seq<Message>>, b: nat): Stage
    requires b <= |batches|
    decreases b
  {
    if b == 0 then stage else StageBeforePoll(StageBehindAll(stage, batches[0]), batches[1..], b - 1)
  }

  /** Some message of some poll sets the bar outright. */
  predicate SetInLaterPoll(stage: Stage, batches: seq<seq<Message>>)
    decreases |batches|
  {
    batches != [] && (SetLater(stage, batches[0]) || SetInLaterPoll(StageBehindAll(stage, batches[0]), batches[1..]))
  }

  /** No push that poll `b` loses for good goes beyond `bound`. */
  predicate LosesWithin(stage: Stage, batches: seq<seq<Message>>, b: nat, bound: nat)
    requires b < |batches|
  {
    var front := StageBeforePoll(stage, batches, b);
    SetInLaterPoll(StageBeforePoll(stage, batches, b + 1), batches[b + 1..]) ||
    forall i: nat :: i < |batches[b]| && LosesAt(front, batches[b], i) ==> PushAt(front, batches[b], i) <= bound
  }

  /** Nothing that poll `b` keeps for good brings the bar beyond `bound`. */
  predicate KeepsWithin(stage: Stage, batches: seq<seq<Message>>, b: nat, bound: nat)
    requires b < |batches|
  {
    var front := StageBeforePoll(stage, batches, b);
    SetInLaterPoll(StageBeforePoll(stage, batches, b + 1), batches[b + 1..]) ||
    forall i: nat :: i < |batches[b]| && KeepsAt(front, batches[b], i) ==> BringsAt(front, batches[b], i) <= bound
  }

  predicate EveryPollLosesWithin(stage: Stage, batches: seq<seq<Message>>, bound: nat) {
    forall b: nat :: b < |batches| ==> LosesWithin(stage, batches, b, bound)
  }

  lemma LosesWithinBehind(stage: Stage, batches: seq<seq<Message>>, b: nat, bound: nat)
    requires 0 < b < |batches|
    ensures LosesWithin(stage, batches, b, bound)
            == LosesWithin(StageBehindAll(stage, batches[0]), batches[1..], b - 1, bound)
  {
    var behind := StageBehindAll(stage, batches[0]);
    assert batches[1..][b..] == batches[b + 1..];
    assert StageBeforePoll(stage, batches, b + 1) == StageBeforePoll(behind, batches[1..], b);
    assert StageBeforePoll(stage, batches, b) == StageBeforePoll(behind, batches[1..], b - 1);
  }

  /** Within a bound in the first poll and in the later ones. */
  lemma AllLosesWithin(stage: Stage, batches: seq<seq<Message>>, bound: nat)
    requires batches != []
    ensures EveryPollLosesWithin(stage, batches, bound) <==>
      && LosesWithin(stage, batches, 0, bound)
      && EveryPollLosesWithin(StageBehindAll(stage, batches[0]), batches[1..], bound)
  {
    var behind := StageBehindAll(stage, batches[0]);
    forall b: nat | b < |batches[1..]|
      ensures LosesWithin(behind, batches[1..], b, bound) == LosesWithin(stage, batches, b + 1, bound)
    {
      LosesWithinBehind(stage, batches, b + 1, bound);
    }
    if EveryPollLosesWithin(behind, batches[1..], bound) {
      forall b: nat | 0 < b < |batches| ensures LosesWithin(stage, batches, b, bound) {
        LosesWithinBehind(stage, batches, b, bound);
        assert b - 1 < |batches[1..]|;
      }
    }
  }

  predicate EveryPollKeepsWithin(stage: Stage, batches: seq<seq<Message>>, bound: nat) {
    forall b: nat :: b < |batches| ==> KeepsWithin(stage, batches, b, bound)
  }

  lemma KeepsWithinBehind(stage: Stage, batches: seq<seq<Message>>, b: nat, bound: nat)
    requires 0 < b < |batches|
    ensures KeepsWithin(stage, batches, b, bound)
            == KeepsWithin(StageBehindAll(stage, batches[0]), batches[1..], b - 1, bound)
  {
    var behind := StageBehindAll(stage, batches[0]);
    assert batches[1..][b..] == batches[b + 1..];
    assert StageBeforePoll(stage, batches, b + 1) == StageBeforePoll(behind, batches[1..], b);
    assert StageBeforePoll(stage, batches, b) == StageBeforePoll(behind, batches[1..], b - 1);
  }

  /** Within a bound in the first poll and in the later ones. */
  lemma AllKeepsWithin(stage: Stage, batches: seq<seq<Message>>, bound: nat)
    requires batches != []
    ensures EveryPollKeepsWithin(stage, batches, bound) <==>
      && KeepsWithin(stage, batches, 0, bound)
      && EveryPollKeepsWithin(StageBehindAll(stage, batches[0]), batches[1..], bound)
  {
    var behind := StageBehindAll(stage, batches[0]);
    forall b: nat | b < |batches[1..]|
      ensures KeepsWithin(behind, batches[1..], b, bound) == KeepsWithin(stage, batches, b + 1, bound)
    {
      KeepsWithinBehind(stage, batches, b + 1, bound);
    }
    if EveryPollKeepsWithin(behind, batches[1..], bound) {
      forall b: nat | 0 < b < |batches| ensures KeepsWithin(stage, batches, b, bound) {
        KeepsWithinBehind(stage, batches, b, bound);
        assert b - 1 < |batches[1..]|;
      }
    }
  }

  /** Over several polls, too, the superseded reach is the furthest of the pushes lost for good. */
  lemma {:induction false} SupersededReachAllIs(lost: nat, stage: Stage, batches: seq<seq<Message>>, bound: nat)
    ensures SupersededReachAll(lost, stage, batches) <= bound <==>
      && (SetInLaterPoll(stage, batches) || lost <= bound)
      && EveryPollLosesWithin(stage, batches, bound)
    decreases |batches|
  {
    if batches != [] {
      var behind := StageBehindAll(stage, batches[0]);
      SupersededReachIs(lost, stage, batches[0], bound);
      SupersededReachAllIs(SupersededReach(lost, stage, batches[0]), behind, batches[1..], bound);
      AllLosesWithin(stage, batches, bound);
      assert StageBeforePoll(stage, batches, 1) == StageBeforePoll(behind, batches[1..], 0) == behind;
      var within := forall i: nat :: i < |batches[0]| && LosesAt(stage, batches[0], i) ==>
          PushAt(stage, batches[0], i) <= bound;
      assert LosesWithin(stage, batches, 0, bound) == (SetInLaterPoll(behind, batches[1..]) || within) by {
        assert batches[0 + 1..] == batches[1..] && StageBeforePoll(stage, batches, 0) == stage;
      }
    }
  }

  /** And the kept reach is the furthest that kept messages bring the bar, and where it was before. */
  lemma {:induction false} KeptReachAllIs(bar: nat, stage: Stage, batches: seq<seq<Message>>, bound: nat)
    ensures KeptReachAll(bar, stage, batches) <= bound <==>
      && (SetInLaterPoll(stage, batches) || bar <= bound)
      && EveryPollKeepsWithin(stage, batches, bound)
    decreases |batches|
  {
    if batches != [] {
      var behind := StageBehindAll(stage, batches[0]);
      KeptReachIs(bar, stage, batches[0], bound);
      KeptReachAllIs(KeptReach(bar, stage, batches[0]), behind, batches[1..], bound);
      AllKeepsWithin(stage, batches, bound);
      assert StageBeforePoll(stage, batches, 1) == StageBeforePoll(behind, batches[1..], 0) == behind;
      var within := forall i: nat :: i < |batches[0]| && KeepsAt(stage, batches[0], i) ==>
          BringsAt(stage, batches[0], i) <= bound;
      assert KeepsWithin(stage, batches, 0, bound) == (SetInLaterPoll(behind, batches[1..]) || within) by {
        assert batches[0 + 1..] == batches[1..] && StageBeforePoll(stage, batches, 0) == stage;
      }
    }
  }

  lemma {:induction false} StageBehindDelivery(s: ProgressState, messages: seq<Message>)
    ensures StageOf(DeliverAll(s, messages)) == StageBehindAll(StageOf(s), messages)
    decreases |messages|
  {
    if messages != [] {
      StageBehind(s, messages[0]);
      StageBehindDelivery(Deliver(s, messages[0]), messages[1..]);
    }
  }

  lemma OnePollReaches(s: ProgressState, messages: seq<Message>, lost: nat)
    ensures var polled := Poll(s, NOTHING_PENDING, messages);
      && polled.overallProgress == KeptReach(s.overallProgress, StageOf(s), messages)
      && Lost(lost, s, NOTHING_PENDING, messages) == SupersededReach(lost, StageOf(s), messages)
      && StageOf(polled) == StageBehindAll(StageOf(s), messages)
  {
    assert Front(NOTHING_PENDING) + messages == messages;
    PollReaches(s, NOTHING_PENDING, messages);
    LostIsSuperseded(lost, s, NOTHING_PENDING, messages);
    CollapsingLosesExactly(s, NOTHING_PENDING, messages, 0);
    assert Pushed(s, 0) == s;
    StageBehindDelivery(s, messages);
  }

  lemma {:induction false} PollsReach(s: ProgressState, batches: seq<seq<Message>>, lost: nat)
    ensures PollAll(s, batches).overallProgress == KeptReachAll(s.overallProgress, StageOf(s), batches)
    ensures LostAll(lost, s, batches) == SupersededReachAll(lost, StageOf(s), batches)
    decreases |batches|
  {
    if batches != [] {
      OnePollReaches(s, batches[0], lost);
      PollsReach(Poll(s, NOTHING_PENDING, batches[0]), batches[1..], Lost(lost, s, NOTHING_PENDING, batches[0]));
    }
  }

  lemma {:induction false} DeliverAppend(s: ProgressState, a: seq<Message>, b: seq<Message>)
    ensures DeliverAll(s, a + b) == DeliverAll(DeliverAll(s, a), b)
    decreases |a|
  {
    if a == [] {
      assert a + b == b;
    } else {
      DeliverAppend(Deliver(s, a[0]), a[1..], b);
      assert (a + b)[0] == a[0] && (a + b)[1..] == a[1..] + b;
    }
  }

  /** However the messages are cut into polls, the result is one-by-one delivery but for the furthest
      superseded sample on the bar. */
  lemma {:induction false} PollsLoseExactly(s: ProgressState, batches: seq<seq<Message>>, lost: nat)
    ensures DeliverAll(Pushed(s, lost), Flatten(batches)) == Pushed(PollAll(s, batches), LostAll(lost, s, batches))
    decreases |batches|
  {
    if batches != [] {
      var next := Poll(s, NOTHING_PENDING, batches[0]);
      CollapsingLosesExactly(s, NOTHING_PENDING, batches[0], lost);
      DeliverAppend(Pushed(s, lost), batches[0], Flatten(batches[1..]));
      PollsLoseExactly(next, batches[1..], Lost(lost, s, NOTHING_PENDING, batches[0]));
    }
  }

  /** Two different cuts of the same messages agree on everything but the overall bar. */
  lemma CutsAgree(s: ProgressState, cut: seq<seq<Message>>, cut': seq<seq<Message>>)
    requires Flatten(cut) == Flatten(cut')
    ensures PollAll(s, cut).(overallProgress := 0) == PollAll(s, cut').(overallProgress := 0)
  {
    PollsLoseExactly(s, cut, 0);
    PollsLoseExactly(s, cut', 0);
  }

  // ---------------------------------------------------------------------------------------------
  // The workflow session
  // ---------------------------------------------------------------------------------------------

  predicate HasTerminal(messages: seq<Message>) {
    exists i :: 0 <= i < |messages| && IsTerminal(messages[i])
  }

  /** The transitions among `messages`, which are what the durable workflow journal is told. */
  function Transitions(messages: seq<Message>): seq<Message> {
    if messages == [] then []
    else (if IsSample(messages[0]) then [] else [messages[0]]) + Transitions(messages[1..])
  }

  /** The session as the poll sees it. */
  datatype View = View(
    progress: ProgressState,
    channel: seq<Message>,
    senderGone: bool,
    terminalSeen: bool,
    failureReported: bool)

  /** How many messages a poll takes whose time slice ends after `timeSlice` of them. */
  function Taken(v: View, timeSlice: nat): (n: nat)
    ensures n <= |v.channel|
  {
    Min(|v.channel|, Min(MAX_WORKER_MESSAGES_PER_POLL, timeSlice))
  }

  /** The poll finds the channel empty and closed before it has to stop. */
  predicate FindsDisconnect(v: View, timeSlice: nat) {
    v.senderGone && |v.channel| < Min(MAX_WORKER_MESSAGES_PER_POLL, timeSlice)
  }

  function Polled(v: View, timeSlice: nat): View {
    var n := Taken(v, timeSlice);
    var batch := v.channel[..n];
    var progress := Poll(v.progress, NOTHING_PENDING, batch);
    var seen := v.terminalSeen || HasTerminal(batch);
    var reports := FindsDisconnect(v, timeSlice) && !seen && !v.failureReported;
    View(if reports then MarkFailed(progress, WORKER_LOST) else progress,
         v.channel[n..], v.senderGone, seen || reports, v.failureReported || reports)
  }

  class WorkflowSession {
    var progress: ProgressState
    /** What the worker has sent and no poll has taken yet. */
    var channel: seq<Message>
    var senderGone: bool
    var terminalMessageSeen: bool
    var channelFailureReported: bool
    /** What the workflow journal was told. */
    var observed: seq<Message>

    function Current(): View
      reads this
    {
      View(progress, channel, senderGone, terminalMessageSeen, channelFailureReported)
    }

    constructor (progress: ProgressState)
      ensures Current() == View(progress, [], false, false, false) && observed == []
    {
      this.progress := progress;
      channel, senderGone := [], false;
      terminalMessageSeen, channelFailureReported := false, false;
      observed := [];
    }

    method Send(m: Message)
      requires !senderGone
      modifies this`channel
      ensures channel == old(channel) + [m]
    {
      channel := channel + [m];
    }

    /** Apply one transition behind the flushed samples. */
    method Apply(m: Message)
      requires !IsSample(m)
      modifies this`progress, this`terminalMessageSeen, this`observed
      ensures progress == Deliver(old(progress), m)
      ensures terminalMessageSeen == (old(terminalMessageSeen) || IsTerminal(m))
      ensures observed == old(observed) + [m]
    {
      if m.Completed? || m.CompletedWithWarning? || m.Failed? {
        terminalMessageSeen := true;
      }
      observed := observed + [m];
      match m {
        case InstallStepChanged(step) => progress := SetInstallStep(progress, step);
        case BackupStepChanged(step) => progress := SetBackupStep(progress, step);
        case Completed => progress := MarkCompleted(progress, None);
        case CompletedWithWarning(warning) => progress := MarkCompleted(progress, Some(warning));
        case Failed(error) => progress := MarkFailed(progress, error);
        case _ => assert false;
      }
    }

    /** Receive one message: collapse a sample, or flush and apply a transition. `rest` is what this poll
        still takes behind it. */
    method TakeHead(pending: Pending, ghost rest: seq<Message>) returns (next: Pending)
      requires channel != [] && [channel[0]] + rest <= channel
      modifies this`progress, this`channel, this`terminalMessageSeen, this`observed
      ensures channel == old(channel)[1..]
      ensures Outcome(next, rest) == old(Outcome(pending, [channel[0]] + rest))
    {
      var m := channel[0];
      HeadOf(m, rest);
      channel := channel[1..];
      match m {
        case Progress(value) =>
          next := pending.(progress := Some(value));
        case Status(status) =>
          next := pending.(status := Some(status));
        case ProgressStatus(value, status) =>
          next := Pending(Some(value), Some(status));
        case _ =>
          // samples before a transition are shown before it
          progress := Flush(progress, pending);
          Apply(m);
          next := NOTHING_PENDING;
      }
      ghost var told := if IsSample(m) then [] else [m];
      assert observed == old(observed) + told;
      assert (old(observed) + told) + Transitions(rest) == old(observed) + (told + Transitions(rest));
    }

    /** What this poll leaves if `rest` is all it still takes: the shown state, whether a terminal message
        was seen, and what the journal was told. */
    function Outcome(pending: Pending, rest: seq<Message>): (ProgressState, bool, seq<Message>)
      reads this
    {
      (Poll(progress, pending, rest), terminalMessageSeen || HasTerminal(rest), observed + Transitions(rest))
    }

    /** One poll on the UI thread, ended by an empty channel, the message limit or the time slice. */
    method ProcessMessages(timeSlice: nat)
      requires timeSlice >= 1
      modifies this
      ensures Current() == Polled(old(Current()), timeSlice)
      ensures observed == old(observed) + Transitions(old(channel)[..Taken(old(Current()), timeSlice)])
        + (if channelFailureReported && !old(channelFailureReported) then [Failed(WORKER_LOST)] else [])
      ensures old(channel) != [] ==> |channel| < |old(channel)|
      ensures old(senderGone && channel == [] && !terminalMessageSeen && !channelFailureReported) ==>
        channelFailureReported && progress.isFailed && progress.errorMessage == Some("工作线程异常终止")
    {
      ghost var n := Taken(Current(), timeSlice);
      ghost var batch := channel[..n];
      var disconnected, pending := TakeBatch(timeSlice);
      progress := Flush(progress, pending);
      if disconnected && !terminalMessageSeen && !channelFailureReported {
        channelFailureReported := true;
        terminalMessageSeen := true;
        observed := observed + [Failed(WORKER_LOST)];
        progress := MarkFailed(progress, WORKER_LOST);
      }
    }

    /** The receiving loop of a poll. */
    method TakeBatch(timeSlice: nat) returns (disconnected: bool, pending: Pending)
      requires timeSlice >= 1
      modifies this`progress, this`channel, this`terminalMessageSeen, this`observed
      ensures var n := Taken(old(Current()), timeSlice);
              var batch := old(channel)[..n];
              && channel == old(channel)[n..]
              && Flush(progress, pending) == Poll(old(progress), NOTHING_PENDING, batch)
              && terminalMessageSeen == (old(terminalMessageSeen) || HasTerminal(batch))
              && observed == old(observed) + Transitions(batch)
      ensures disconnected == FindsDisconnect(old(Current()), timeSlice)
    {
      var processed := 0;
      pending := NOTHING_PENDING;
      ghost var n := Taken(Current(), timeSlice);
      ghost var batch, behind := channel[..n], channel[n..];
      ghost var rest := batch;
      while processed < MAX_WORKER_MESSAGES_PER_POLL && processed < timeSlice && channel != []
        invariant 0 <= processed && processed + |rest| == n && channel == rest + behind
        invariant Outcome(pending, rest) == old(Outcome(NOTHING_PENDING, batch))
        decreases |rest|
      {
        ghost var tail := rest[1..];
        assert rest == [channel[0]] + tail;
        pending := TakeHead(pending, tail);
        rest := tail;
        processed := processed + 1;
      }
      // the limits end a poll before it looks at the channel again
      disconnected := processed < MAX_WORKER_MESSAGES_PER_POLL && processed < timeSlice && senderGone;
    }
  }

  lemma HeadOf(m: Message, rest: seq<Message>)
    ensures ([m] + rest)[0] == m && ([m] + rest)[1..] == rest
    ensures Transitions([m] + rest) == (if IsSample(m) then [] else [m]) + Transitions(rest)
    ensures HasTerminal([m] + rest) <==> IsTerminal(m) || HasTerminal(rest)
  {
    assert ([m] + rest)[1..] == rest;
    TerminalAppend([m], rest);
    assert HasTerminal([m]) <==> IsTerminal(m) by {
      if IsTerminal(m) { assert IsTerminal([m][0]); }
    }
  }

  // ---------------------------------------------------------------------------------------------
  // Runs of a session
  // ---------------------------------------------------------------------------------------------

  /** What happens to a session: the worker sends or ends, the UI polls. */
  datatype Event = Sent(m: Message) | WorkerEnded | PolledFor(timeSlice: nat)

  /** A session with everything ever sent and the batches its polls took. */
  datatype History = History(view: View, sent: seq<Message>, batches: seq<seq<Message>>)

  function Happen(h: History, e: Event): History {
    match e
    case Sent(m) =>
      if h.view.senderGone then h
      else History(h.view.(channel := h.view.channel + [m]), h.sent + [m], h.batches)
    case WorkerEnded => h.(view := h.view.(senderGone := true))
    case PolledFor(timeSlice) =>
      History(Polled(h.view, timeSlice), h.sent, h.batches + [h.view.channel[..Taken(h.view, timeSlice)]])
  }

  function Run(h: History, events: seq<Event>): History
    decreases |events|
  {
    if events == [] then h else Run(Happen(h, events[0]), events[1..])
  }

  /** What every run keeps: nothing sent is lost or reordered, the shown state is what the polls made of
      it, and the failure of a vanished worker is added at most once, with no terminal message ever taken. */
  ghost predicate Faithful(initial: ProgressState, h: History) {
    var taken := Flatten(h.batches);
    && h.sent == taken + h.view.channel
    && (h.view.terminalSeen <==> HasTerminal(taken) || h.view.failureReported)
    && (h.view.failureReported ==> h.view.senderGone && h.view.channel == [] && !HasTerminal(taken))
    && h.view.progress ==
         if h.view.failureReported then MarkFailed(PollAll(initial, h.batches), WORKER_LOST)
         else PollAll(initial, h.batches)
  }

  lemma {:induction false} FlattenAppend(batches: seq<seq<Message>>, batch: seq<Message>)
    ensures Flatten(batches + [batch]) == Flatten(batches) + batch
  {
    if batches == [] {
      assert (batches + [batch])[1..] == [];
    } else {
      FlattenAppend(batches[1..], batch);
      assert (batches + [batch])[1..] == batches[1..] + [batch];
    }
  }

  lemma {:induction false} PollAllAppend(s: ProgressState, batches: seq<seq<Message>>, batch: seq<Message>)
    ensures PollAll(s, batches + [batch]) == Poll(PollAll(s, batches), NOTHING_PENDING, batch)
    decreases |batches|
  {
    if batches == [] {
      assert (batches + [batch])[1..] == [];
    } else {
      PollAllAppend(Poll(s, NOTHING_PENDING, batches[0]), batches[1..], batch);
      assert (batches + [batch])[1..] == batches[1..] + [batch];
    }
  }

  lemma TerminalAppend(a: seq<Message>, b: seq<Message>)
    ensures HasTerminal(a + b) <==> HasTerminal(a) || HasTerminal(b)
  {
    if HasTerminal(a) { var i :| 0 <= i < |a| && IsTerminal(a[i]); assert IsTerminal((a + b)[i]); }
    if HasTerminal(b) { var i :| 0 <= i < |b| && IsTerminal(b[i]); assert IsTerminal((a + b)[|a| + i]); }
    if HasTerminal(a + b) {
      var i :| 0 <= i < |a + b| && IsTerminal((a + b)[i]);
      if i < |a| { assert IsTerminal(a[i]); } else { assert IsTerminal(b[i - |a|]); }
    }
  }

  lemma HappenKeepsFaithful(initial: ProgressState, h: History, e: Event)
    requires Faithful(initial, h)
    ensures Faithful(initial, Happen(h, e))
  {
    if e.PolledFor? {
      var n := Taken(h.view, e.timeSlice);
      var batch := h.view.channel[..n];
      FlattenAppend(h.batches, batch);
      PollAllAppend(initial, h.batches, batch);
      TerminalAppend(Flatten(h.batches), batch);
      assert h.view.channel == batch + h.view.channel[n..];
      assert h.sent == (Flatten(h.batches) + batch) + h.view.channel[n..];
    } else if e.Sent? && !h.view.senderGone {
      assert Flatten(h.batches) + (h.view.channel + [e.m]) == (Flatten(h.batches) + h.view.channel) + [e.m];
    }
  }

  lemma {:induction false} RunIsFaithful(initial: ProgressState, h: History, events: seq<Event>)
    requires Faithful(initial, h)
    ensures Faithful(initial, Run(h, events))
    decreases |events|
  {
    if events != [] {
      HappenKeepsFaithful(initial, h, events[0]);
      RunIsFaithful(initial, Happen(h, events[0]), events[1..]);
    }
  }

  // ---------------------------------------------------------------------------------------------
  // A worker that ends without a terminal message
  // ---------------------------------------------------------------------------------------------

  /** What a poll takes: everything, or as much as the message limit or its time slice allows, and something
      whenever there is something. */
  lemma PollTakes(v: View, timeSlice: nat)
    ensures var n := |v.channel| - |Polled(v, timeSlice).channel|;
      && 0 <= n <= 256 && n <= timeSlice
      && (n == |v.channel| || n == 256 || n == timeSlice)
      && Polled(v, timeSlice).channel == v.channel[n..]
      && (timeSlice >= 1 && v.channel != [] ==> n >= 1)
  {
  }

  /** A poll that reaches the end of a closed channel, when no terminal message was ever sent. */
  predicate FindsLostWorker(h: History, e: Event) {
    && e.PolledFor? && h.view.senderGone && !HasTerminal(h.sent)
    && |h.view.channel| < 256 && |h.view.channel| < e.timeSlice
  }

  /** Some poll of the run does so. */
  predicate LosesWorker(h: History, events: seq<Event>) {
    exists k :: 0 <= k < |events| && FindsLostWorker(Run(h, events[..k]), events[k])
  }

  lemma ReportedByOne(initial: ProgressState, h: History, e: Event)
    requires Faithful(initial, h)
    ensures Happen(h, e).view.failureReported <==> h.view.failureReported || FindsLostWorker(h, e)
  {
    if e.PolledFor? && FindsDisconnect(h.view, e.timeSlice) {
      TerminalAppend(Flatten(h.batches), h.view.channel);
      assert h.view.channel[..|h.view.channel|] == h.view.channel;
    }
  }

  /** Over every run, a lost worker is reported exactly when some poll reached the end of the closed channel
      and no terminal message was ever sent. */
  lemma {:induction false} ReportedExactly(initial: ProgressState, h: History, events: seq<Event>)
    requires Faithful(initial, h)
    ensures Run(h, events).view.failureReported <==>
      h.view.failureReported || LosesWorker(h, events)
    decreases |events|
  {
    if events != [] {
      var next, rest := Happen(h, events[0]), events[1..];
      ReportedByOne(initial, h, events[0]);
      HappenKeepsFaithful(initial, h, events[0]);
      ReportedExactly(initial, next, rest);
      assert Run(h, events[..0]) == h;
      forall k | 0 <= k < |rest| ensures Run(h, events[..k + 1]) == Run(next, rest[..k]) {
        assert events[..k + 1][1..] == rest[..k];
      }
      if exists k :: 0 <= k < |rest| && FindsLostWorker(Run(next, rest[..k]), rest[k]) {
        var k :| 0 <= k < |rest| && FindsLostWorker(Run(next, rest[..k]), rest[k]);
        assert FindsLostWorker(Run(h, events[..k + 1]), events[k + 1]);
      }
      if k :| 0 < k < |events| && FindsLostWorker(Run(h, events[..k]), events[k]) {
        assert FindsLostWorker(Run(next, rest[..k - 1]), rest[k - 1]);
      }
    }
  }

  /** A reported worker shows as failed, with this text. */
  lemma ReportIsShown(initial: ProgressState, h: History)
    requires Faithful(initial, h) && h.view.failureReported
    ensures h.view.progress.isFailed && h.view.progress.errorMessage == Some("工作线程异常终止")
  {
  }

  /** A worker that ended without a terminal message is shown as failed after at most as many polls as messages
      were left, and one more. */
  lemma {:induction false} LostWorkerIsReported(initial: ProgressState, h: History, polls: seq<Event>)
    requires Faithful(initial, h) && h.view.senderGone && !HasTerminal(h.sent)
    requires forall i :: 0 <= i < |polls| ==> polls[i].PolledFor? && polls[i].timeSlice >= 1
    requires |polls| > |h.view.channel|
    ensures var v := Run(h, polls).view;
      v.failureReported && v.progress.isFailed && v.progress.errorMessage == Some("工作线程异常终止")
    decreases |polls|
  {
    var next, rest := Happen(h, polls[0]), polls[1..];
    ReportedByOne(initial, h, polls[0]);
    HappenKeepsFaithful(initial, h, polls[0]);
    PollTakes(h.view, polls[0].timeSlice);
    if next.view.failureReported {
      ReportedExactly(initial, next, rest);
      RunIsFaithful(initial, next, rest);
      ReportIsShown(initial, Run(next, rest));
    } else {
      assert forall i :: 0 <= i < |rest| ==> rest[i] == polls[i + 1];
      LostWorkerIsReported(initial, next, rest);
    }
  }

  // ---------------------------------------------------------------------------------------------
  // What is shown once everything is delivered
  // ---------------------------------------------------------------------------------------------

  predicate Completes(m: Message) {
    m == Completed || m.CompletedWithWarning?
  }

  /** The last failure decides the error shown; without one nothing fails. */
  lemma {:induction false} FailureShown(s: ProgressState, messages: seq<Message>, last: int)
    requires -1 <= last < |messages| && (last >= 0 ==> messages[last].Failed?)
    requires forall j :: last < j < |messages| ==> !messages[j].Failed?
    ensures var shown := DeliverAll(s, messages);
      if last >= 0 then shown.isFailed && shown.errorMessage == Some(messages[last].error)
      else shown.isFailed == s.isFailed && shown.errorMessage == s.errorMessage
    decreases |messages|
  {
    if messages != [] { FailureShown(Deliver(s, messages[0]), messages[1..], if last < 0 then -1 else last - 1); }
  }

  /** The last completion decides the warning shown; without one nothing completes. */
  lemma {:induction false} CompletionShown(s: ProgressState, messages: seq<Message>, last: int)
    requires -1 <= last < |messages| && (last >= 0 ==> Completes(messages[last]))
    requires forall j :: last < j < |messages| ==> !Completes(messages[j])
    ensures var shown := DeliverAll(s, messages);
      if last < 0 then shown.isCompleted == s.isCompleted && shown.completionWarning == s.completionWarning
      else
        && shown.isCompleted
        && shown.completionWarning == if messages[last] == Completed then None else Some(messages[last].warning)
    decreases |messages|
  {
    if messages != [] { CompletionShown(Deliver(s, messages[0]), messages[1..], if last < 0 then -1 else last - 1); }
  }

  /** The last message of a kind, or -1. */
  function LastThat(messages: seq<Message>, kind: Message -> bool): (last: int)
    ensures -1 <= last < |messages| && (last >= 0 ==> kind(messages[last]))
    ensures forall j :: last < j < |messages| ==> !kind(messages[j])
  {
    if messages == [] then -1
    else if kind(messages[|messages| - 1]) then |messages| - 1
    else LastThat(messages[..|messages| - 1], kind)
  }

  /** Failed and completed are what some message made them. */
  lemma OutcomeShown(s: ProgressState, messages: seq<Message>)
    ensures DeliverAll(s, messages).isFailed <==>
      s.isFailed || exists i :: 0 <= i < |messages| && messages[i].Failed?
    ensures DeliverAll(s, messages).isCompleted <==>
      s.isCompleted || exists i :: 0 <= i < |messages| && Completes(messages[i])
  {
    FailureShown(s, messages, LastThat(messages, (m: Message) => m.Failed?));
    CompletionShown(s, messages, LastThat(messages, (m: Message) => Completes(m)));
  }

  predicate SetsStatus(m: Message) {
    m.Status? || m.ProgressStatus? || m.InstallStepChanged? || m.BackupStepChanged?
  }

  /** The last status text is shown, unless a step began behind it. */
  lemma {:induction false} StatusShown(s: ProgressState, messages: seq<Message>, last: int)
    requires -1 <= last < |messages| && (last >= 0 ==> SetsStatus(messages[last]))
    requires forall j :: last < j < |messages| ==> !SetsStatus(messages[j])
    ensures DeliverAll(s, messages).statusMessage ==
      if last < 0 then s.statusMessage
      else if messages[last].Status? || messages[last].ProgressStatus? then messages[last].status else ""
    decreases |messages|
  {
    if messages != [] { StatusShown(Deliver(s, messages[0]), messages[1..], if last < 0 then -1 else last - 1); }
  }

  predicate SetsPercentage(m: Message) {
    !m.Status? && !m.Failed?
  }

  /** The last percentage is shown, at most 100; a step begins with 0 and a completion shows 100. */
  lemma {:induction false} PercentageShown(s: ProgressState, messages: seq<Message>, last: int)
    requires -1 <= last < |messages| && (last >= 0 ==> SetsPercentage(messages[last]))
    requires forall j :: last < j < |messages| ==> !SetsPercentage(messages[j])
    ensures DeliverAll(s, messages).stepProgress ==
      if last < 0 then s.stepProgress
      else if messages[last].Progress? || messages[last].ProgressStatus? then
        if messages[last].progress < 100 then messages[last].progress else 100
      else if Completes(messages[last]) then 100 else 0
    decreases |messages|
  {
    if messages != [] { PercentageShown(Deliver(s, messages[0]), messages[1..], if last < 0 then -1 else last - 1); }
  }

  lemma StepsBehind(s: ProgressState, m: Message)
    ensures var next := Deliver(s, m);
      && next.isInstallMode == s.isInstallMode && next.isExpandMode == s.isExpandMode
      && next.installStep == (if m.InstallStepChanged? then m.installStep
                              else if SetsInstallStep(m, s) then CompleteInstall else s.installStep)
      && next.backupStep == (if m.BackupStepChanged? then m.backupStep
                             else if SetsBackupStep(m, s) then CompleteBackup else s.backupStep)
  {
    match m
    case InstallStepChanged(_) =>
    case BackupStepChanged(_) =>
    case Progress(_) =>
    case Status(_) =>
    case ProgressStatus(_, _) =>
    case Completed =>
    case CompletedWithWarning(_) =>
    case Failed(_) =>
  }

  predicate SetsInstallStep(m: Message, s: ProgressState) {
    m.InstallStepChanged? || (Completes(m) && s.isInstallMode && !s.isExpandMode)
  }

  /** The last install step is shown; completing an installation shows its last step. */
  lemma {:induction false} InstallStepShown(s: ProgressState, messages: seq<Message>, last: int)
    requires -1 <= last < |messages| && (last >= 0 ==> SetsInstallStep(messages[last], s))
    requires forall j :: last < j < |messages| ==> !SetsInstallStep(messages[j], s)
    ensures DeliverAll(s, messages).installStep ==
      if last < 0 then s.installStep
      else if messages[last].InstallStepChanged? then messages[last].installStep else CompleteInstall
    decreases |messages|
  {
    if messages != [] {
      var m, rest := messages[0], messages[1..];
      StepsBehind(s, m);
      assert forall j :: 0 <= j < |rest| ==> rest[j] == messages[j + 1];
      InstallStepShown(Deliver(s, m), rest, if last < 0 then -1 else last - 1);
    }
  }

  predicate SetsBackupStep(m: Message, s: ProgressState) {
    m.BackupStepChanged? || (Completes(m) && !s.isInstallMode && !s.isExpandMode)
  }

  /** The last backup step is shown; completing a backup shows its last step. */
  lemma {:induction false} BackupStepShown(s: ProgressState, messages: seq<Message>, last: int)
    requires -1 <= last < |messages| && (last >= 0 ==> SetsBackupStep(messages[last], s))
    requires forall j :: last < j < |messages| ==> !SetsBackupStep(messages[j], s)
    ensures DeliverAll(s, messages).backupStep ==
      if last < 0 then s.backupStep
      else if messages[last].BackupStepChanged? then messages[last].backupStep else CompleteBackup
    decreases |messages|
  {
    if messages != [] {
      var m, rest := messages[0], messages[1..];
      StepsBehind(s, m);
      assert forall j :: 0 <= j < |rest| ==> rest[j] == messages[j + 1];
      BackupStepShown(Deliver(s, m), rest, if last < 0 then -1 else last - 1);
    }
  }

  function Fresh(initial: ProgressState): History {
    History(View(initial, [], false, false, false), [], [])
  }

  /** Once the channel is drained, whatever the polls were, the view is everything sent, delivered in
      order, but for the overall bar; a vanished worker shows as one failure exactly when a poll reached the end
      of the closed channel and no terminal message was ever sent. */
  lemma DrainedSessionShowsEverything(initial: ProgressState, events: seq<Event>)
    requires var h := Run(Fresh(initial), events); h.view.channel == []
    ensures var h := Run(Fresh(initial), events);
            var delivered := DeliverAll(initial, h.sent);
            var expected := if h.view.failureReported then MarkFailed(delivered, WORKER_LOST) else delivered;
            && h.view.progress.(overallProgress := expected.overallProgress) == expected
            && h.view.progress.overallProgress <= expected.overallProgress
            && (h.view.progress == expected <==>
                EveryPollLosesWithin(StageOf(initial), h.batches,
                                     KeptReachAll(initial.overallProgress, StageOf(initial), h.batches)))
            && (h.view.failureReported <==> LosesWorker(Fresh(initial), events))
  {
    var h := Run(Fresh(initial), events);
    assert Faithful(initial, Fresh(initial));
    RunIsFaithful(initial, Fresh(initial), events);
    ReportedExactly(initial, Fresh(initial), events);
    assert h.sent == Flatten(h.batches);
    PollsLoseExactly(initial, h.batches, 0);
    PollsReach(initial, h.batches, 0);
    SupersededReachAllIs(0, StageOf(initial), h.batches,
                         KeptReachAll(initial.overallProgress, StageOf(initial), h.batches));
    assert Pushed(initial, 0) == initial;
  }

  /** A drained session shows a failure exactly when the worker sent one or was lost, and completion exactly when
      the worker sent that. */
  lemma DrainedSessionShowsOutcome(initial: ProgressState, events: seq<Event>)
    requires Run(Fresh(initial), events).view.channel == [] && !initial.isFailed && !initial.isCompleted
    ensures var h := Run(Fresh(initial), events);
      && (h.view.progress.isFailed <==>
            (exists i :: 0 <= i < |h.sent| && h.sent[i].Failed?) || LosesWorker(Fresh(initial), events))
      && (h.view.progress.isCompleted <==> exists i :: 0 <= i < |h.sent| && Completes(h.sent[i]))
  {
    var h := Run(Fresh(initial), events);
    DrainedSessionShowsEverything(initial, events);
    OutcomeShown(initial, h.sent);
    var expected := if h.view.failureReported then MarkFailed(DeliverAll(initial, h.sent), WORKER_LOST)
                    else DeliverAll(initial, h.sent);
    assert h.view.progress.(overallProgress := expected.overallProgress).isFailed == expected.isFailed;
  }
}
