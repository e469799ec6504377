/** The runner's part: which stage lists it accepts, the baseline before any request, and a trial's stages. */
module Runner {
  import opened Outcomes
  import opened TrialRecord
  import opened Stages

  // ----- accepted stage lists

  // what the stage check reads of a registered stage
  datatype Entry = Entry(generates: bool, compiles: bool, buildsReferences: bool, needsBackend: bool)

  predicate AsksModel(entry: Entry) {
    entry.needsBackend || entry.generates || entry.compiles
  }

  datatype Refusal = LateReference | NothingToCompile | SecondGenerator

  /** References are built before any request, an attempt is compiled after it is generated, and one stage generates. */
  ghost predicate WellOrdered(entries: seq<Entry>) {
    && (forall i, j | 0 <= j < i < |entries| :: entries[i].buildsReferences ==> !AsksModel(entries[j]))
    && (forall i | 0 <= i < |entries| && entries[i].compiles :: exists j | 0 <= j < i :: entries[j].generates)
    && (forall i, j | 0 <= j < i < |entries| :: !(entries[j].generates && entries[i].generates))
  }

  lemma PrefixOrdered(entries: seq<Entry>, n: nat)
    requires n <= |entries| && WellOrdered(entries)
    ensures WellOrdered(entries[..n])
  {
    forall i | 0 <= i < n && entries[i].compiles
      ensures exists j | 0 <= j < i :: entries[..n][j].generates
    {
      var j :| 0 <= j < i && entries[j].generates;
      assert entries[..n][j].generates;
    }
  }

  ghost predicate SomeGenerates(entries: seq<Entry>) {
    exists j | 0 <= j < |entries| :: entries[j].generates
  }

  ghost predicate SomeAsks(entries: seq<Entry>) {
    exists j | 0 <= j < |entries| :: AsksModel(entries[j])
  }

  // whether an entry can follow a well ordered list
  ghost predicate CanFollow(before: seq<Entry>, entry: Entry) {
    && (entry.buildsReferences ==> !SomeAsks(before))
    && (entry.compiles ==> SomeGenerates(before))
    && (entry.generates ==> !SomeGenerates(before))
  }

  lemma OrderedExtends(before: seq<Entry>, entry: Entry)
    ensures WellOrdered(before + [entry]) <==> WellOrdered(before) && CanFollow(before, entry)
    ensures SomeAsks(before + [entry]) <==> SomeAsks(before) || AsksModel(entry)
    ensures SomeGenerates(before + [entry]) <==> SomeGenerates(before) || entry.generates
  {
    hide AsksModel;
    var n, all := |before|, before + [entry];
    assert forall j | 0 <= j < n :: all[j] == before[j];
    assert all[n] == entry;
    if WellOrdered(before) && CanFollow(before, entry) {
      forall i | 0 <= i <= n && all[i].compiles
        ensures exists j | 0 <= j < i :: all[j].generates
      {
        if i < n {
          var j :| 0 <= j < i && before[j].generates;
          assert all[j].generates;
        } else {
          var j :| 0 <= j < n && before[j].generates;
          assert all[j].generates;
        }
      }
    }
    if WellOrdered(all) {
      PrefixOrdered(all, n);
      assert all[..n] == before;
    }
  }

  /** Refuses a stage order at its first stage that cannot run there, and only such an order. */
  method CheckStages(entries: seq<Entry>) returns (refused: Option<(nat, Refusal)>)
    ensures refused.None? <==> WellOrdered(entries)
    ensures refused.Some? ==>
      refused.value.0 < |entries| && WellOrdered(entries[..refused.value.0])
      && !WellOrdered(entries[..refused.value.0 + 1])
  {
    hide WellOrdered, AsksModel, SomeAsks, SomeGenerates;
    var generated, asked := false, false;
    assert WellOrdered(entries[..0]) && !SomeAsks(entries[..0]) && !SomeGenerates(entries[..0]) by {
      NoneOrdered(entries[..0]);
    }
    for i := 0 to |entries|
      invariant generated <==> SomeGenerates(entries[..i])
      invariant asked <==> SomeAsks(entries[..i])
      invariant WellOrdered(entries[..i])
    {
      var entry := entries[i];
      OrderedExtends(entries[..i], entry);
      assert entries[..i + 1] == entries[..i] + [entry];
      if WellOrdered(entries) {
        PrefixOrdered(entries, i + 1);
      }
      if entry.buildsReferences && asked {
        return Some((i, LateReference));
      }
      if AsksModel(entry) {
        asked := true;
      }
      if entry.compiles && !generated {
        return Some((i, NothingToCompile));
      }
      if entry.generates {
        if generated {
          return Some((i, SecondGenerator));
        }
        generated := true;
      }
    }
    assert entries[..|entries|] == entries;
    return None;
  }

  lemma NoneOrdered(none: seq<Entry>)
    requires none == []
    ensures WellOrdered(none) && !SomeAsks(none) && !SomeGenerates(none)
  {
  }

  // ----- the baseline

  /**
   * What one reference program does: whether its build or its run raises an exception, which stops the trial, whether
   * it builds, what its run gives, and whether its output files can be compared.
   */
  datatype Program = Program(
    buildRaises: bool, builds: bool, runRaises: bool, result: RunResult, comparable: bool)

  datatype BaselineSettings = BaselineSettings(
    both: bool, targetRuns: bool, sourceRuns: bool, comparesFiles: bool, hasTolerance: bool)

  /** The end a reference run gives its trial: a simulator gap first, whatever the exit status. */
  function ReferenceRunEnd(run: RunResult): (end: Option<EndReason>)
    ensures end.None? <==> Clean(run)
    ensures end == Some(SimGap) <==> run.gap.Some?
  {
    if run.gap.Some? then Some(SimGap)
    else if run.hang then Some(BaselineRun)
    else if run.undefinedBehavior == Some(true) then Some(BaselineRun)
    else if run.exitCode != Some(0) then Some(BaselineRun)
    else None
  }

  // building the program, or running it, raises
  predicate Raises(program: Program, runs: bool) {
    program.buildRaises || (program.builds && runs && program.runRaises)
  }

  /** How one reference leaves its trial: None for a program that built and, where it runs, ran clean and compares. */
  ghost function ReferenceEnd(program: Program, runs: bool, comparesFiles: bool): Option<EndReason> {
    if !program.builds then Some(BaselineCompile)
    else if !runs then None
    else if program.result.gap.Some? then Some(SimGap)
    else if !Clean(program.result) then Some(BaselineRun)
    else if comparesFiles && !program.result.workdirIncomplete && !program.comparable then Some(BaselineRun)
    else None
  }

  /** Builds one reference program, and runs it when its executor runs programs. */
  method Reference(trial: Trial, program: Program, isTarget: bool, runs: bool, comparesFiles: bool)
    returns (result: Result<Trial, Failure>, run: Option<RunResult>)
    requires trial.end.None?
    ensures result.Err? <==> Raises(program, runs)
    ensures result.Err? ==> result.error == ToolRaised
    ensures result.Ok? ==>
      && run == (if program.builds && runs then Some(program.result) else None)
      && result.value == trial.(
           reference := if isTarget && run.Some? then Some(InfoOf(run.value)) else trial.reference,
           end := ReferenceEnd(program, runs, comparesFiles))
  {
    if program.buildRaises {
      return Err(ToolRaised), None;
    }
    if !program.builds {
      return Ok(trial.(end := Some(BaselineCompile))), None;
    }
    if !runs {
      return Ok(trial), None;
    }
    if program.runRaises {
      return Err(ToolRaised), None;
    }
    run := Some(program.result);
    var after := trial;
    if isTarget {
      after := after.(reference := Some(InfoOf(program.result)));
    }
    var end := ReferenceRunEnd(program.result);
    if end.Some? {
      return Ok(after.(end := end)), run;
    }
    if comparesFiles && !program.result.workdirIncomplete && !program.comparable {
      return Ok(after.(end := Some(BaselineRun))), run;
    }
    return Ok(after), run;
  }

  const INCOMPLETE_NOTE := Diagnostic(AtRun, Warning, ReferenceIncomplete)

  // the trial's fields that only the baseline sets
  function WithBaselineOf(trial: Trial, from: Trial): Trial {
    trial.(reference := from.reference, agreement := from.agreement, notes := from.notes, end := from.end)
  }

  // the references' agreement is measured when both ran, their files are compared and there is a tolerance
  predicate Comparable(settings: BaselineSettings, target: Option<RunResult>, source: Option<RunResult>) {
    settings.comparesFiles && settings.hasTolerance && target.Some? && source.Some?
  }

  /**
   * What is recorded of two references that built and, where they ran, ran clean: nothing when they are not to be
   * compared, a note when an output may be cut, else each output's agreement, one of which missing ends the trial.
   */
  ghost predicate AgreementRecorded(
      before: Trial, after: Trial, settings: BaselineSettings, target: Option<RunResult>, source: Option<RunResult>)
  {
    if !Comparable(settings, target, source) then
      after.agreement == before.agreement && after.notes == before.notes && after.end.None?
    else if target.value.workdirIncomplete || source.value.workdirIncomplete then
      after.agreement == before.agreement && after.notes == before.notes + [INCOMPLETE_NOTE] && after.end.None?
    else
      && after.agreement.Some? && after.notes == before.notes
      && after.end == (if false in after.agreement.value then Some(BaselineDisagree) else None)
  }

  method Agreement(
      trial: Trial, settings: BaselineSettings, target: Option<RunResult>, source: Option<RunResult>)
    returns (after: Trial)
    requires trial.end.None?
    ensures after == trial.(agreement := after.agreement, notes := after.notes, end := after.end)
    ensures AgreementRecorded(trial, after, settings, target, source)
  {
    if !settings.comparesFiles || !settings.hasTolerance || target.None? || source.None? {
      return trial;
    }
    if target.value.workdirIncomplete || source.value.workdirIncomplete {
      return trial.(notes := trial.notes + [INCOMPLETE_NOTE]);
    }
    var passed: seq<bool> := *;
    after := trial.(agreement := Some(passed));
    if false in passed {
      after := after.(end := Some(BaselineDisagree));
    }
  }

  /**
   * Builds and runs the target's reference program, then the source's, up to the first that fails, and compares their
   * outputs. It asks nothing of the model, and a trial it does not end has a target reference that ran clean, when
   * its executor runs programs.
   */
  method Baseline(trial: Trial, target: Program, source: Program, settings: BaselineSettings)
    returns (result: Result<Trial, Failure>)
    requires trial.end.None?
    ensures result.Err? <==> BaselineRaises(target, source, settings)
    ensures result.Err? ==> result.error == ToolRaised
    ensures result.Ok? && result.value.end.Some? ==>
      result.value.end.value in {BaselineCompile, BaselineRun, BaselineDisagree, SimGap}
    ensures result.Ok? ==>
      && var t := result.value;
      && t == WithBaselineOf(trial, t)
      && t.reference == (if target.builds && settings.targetRuns then Some(InfoOf(target.result)) else trial.reference)
      && if BaselineEnd(target, source, settings).Some? then
           t.end == BaselineEnd(target, source, settings) && t.agreement == trial.agreement && t.notes == trial.notes
         else
           AgreementRecorded(
             trial, t, settings, if settings.targetRuns then Some(target.result) else None,
             if settings.both && settings.sourceRuns then Some(source.result) else None)
  {
    var run: Option<RunResult>, sourceRun: Option<RunResult> := None, None;
    result, run := Reference(trial, target, true, settings.targetRuns, settings.comparesFiles);
    if result.Err? || result.value.end.Some? {
      return;
    }
    if settings.both {
      result, sourceRun := Reference(result.value, source, false, settings.sourceRuns, settings.comparesFiles);
      if result.Err? || result.value.end.Some? {
        return;
      }
    }
    var after := Agreement(result.value, settings, run, sourceRun);
    result := Ok(after);
  }

  // the end of the first reference that ends its trial
  ghost function BaselineEnd(target: Program, source: Program, settings: BaselineSettings): Option<EndReason> {
    var first := ReferenceEnd(target, settings.targetRuns, settings.comparesFiles);
    if first.Some? || !settings.both then first
    else ReferenceEnd(source, settings.sourceRuns, settings.comparesFiles)
  }

  ghost predicate BaselineRaises(target: Program, source: Program, settings: BaselineSettings) {
    || Raises(target, settings.targetRuns)
    || (settings.both && ReferenceEnd(target, settings.targetRuns, settings.comparesFiles).None?
        && Raises(source, settings.sourceRuns))
  }

  // ----- a trial

  datatype Kind = BaselineStage | SummarizeStage | DescribeStage | GenerateStage | CompileLoopStage | RunLoopStage

  function EntryOf(kind: Kind): Entry {
    match kind
    case BaselineStage => Entry(false, false, true, false)
    case SummarizeStage | DescribeStage => Entry(false, false, false, true)
    case GenerateStage => Entry(true, false, false, true)
    case CompileLoopStage | RunLoopStage => Entry(false, true, false, false)
  }

  function Entries(kinds: seq<Kind>): (entries: seq<Entry>)
    ensures |entries| == |kinds|
    ensures forall i | 0 <= i < |kinds| :: entries[i] == EntryOf(kinds[i])
  {
    seq(|kinds|, i requires 0 <= i < |kinds| => EntryOf(kinds[i]))
  }

  ghost predicate BaselinesFirst(kinds: seq<Kind>) {
    forall i, j | 0 <= i < j < |kinds| && kinds[j] == BaselineStage :: kinds[i] == BaselineStage
  }

  ghost predicate LoopsAfterGenerate(kinds: seq<Kind>) {
    forall i | 0 <= i < |kinds| && kinds[i] in {CompileLoopStage, RunLoopStage} ::
      exists j | 0 <= j < i :: kinds[j] == GenerateStage
  }

  ghost predicate GeneratesOnce(kinds: seq<Kind>) {
    forall i, j | 0 <= i < j < |kinds| :: kinds[i] != GenerateStage || kinds[j] != GenerateStage
  }

  /** A list of the stages is accepted exactly when baselines come first, loops after generate, and one generates. */
  lemma KindsOrdered(kinds: seq<Kind>)
    ensures WellOrdered(Entries(kinds)) <==> BaselinesFirst(kinds) && LoopsAfterGenerate(kinds) && GeneratesOnce(kinds)
  {
    if WellOrdered(Entries(kinds)) {
      AcceptedKinds(kinds);
    }
    if BaselinesFirst(kinds) && LoopsAfterGenerate(kinds) && GeneratesOnce(kinds) {
      KindsAccepted(kinds);
    }
  }

  lemma AcceptedKinds(kinds: seq<Kind>)
    requires WellOrdered(Entries(kinds))
    ensures BaselinesFirst(kinds) && LoopsAfterGenerate(kinds) && GeneratesOnce(kinds)
  {
    var entries := Entries(kinds);
    forall i | 0 <= i < |kinds| && kinds[i] in {CompileLoopStage, RunLoopStage}
      ensures exists j | 0 <= j < i :: kinds[j] == GenerateStage
    {
      var j :| 0 <= j < i && entries[j].generates;
      assert kinds[j] == GenerateStage;
    }
    forall i, j | 0 <= i < j < |kinds|
      ensures kinds[i] != GenerateStage || kinds[j] != GenerateStage
      ensures kinds[j] == BaselineStage ==> kinds[i] == BaselineStage
    {
      assert entries[i] == EntryOf(kinds[i]) && entries[j] == EntryOf(kinds[j]);
    }
  }

  lemma KindsAccepted(kinds: seq<Kind>)
    requires BaselinesFirst(kinds) && LoopsAfterGenerate(kinds) && GeneratesOnce(kinds)
    ensures WellOrdered(Entries(kinds))
  {
    var entries := Entries(kinds);
    forall i | 0 <= i < |kinds| && entries[i].compiles
      ensures exists j | 0 <= j < i :: entries[j].generates
    {
      var j :| 0 <= j < i && kinds[j] == GenerateStage;
      assert entries[j].generates;
    }
  }

  // before any stage that asks the model, the trial holds no request and no attempt
  ghost predicate Unasked(trial: Trial) {
    trial.requests == [] && trial.attempts == []
  }

  // what holds between two stages of a trial that goes on
  ghost predicate Between(trial: Trial, context: RunContext)
    reads context
  {
    && context.Sound(trial) && trial.end.None? && Pending(trial)
    && (trial.attempts != [] ==> context.Answerable(trial)) && context.RunsAnswered(trial)
  }

  predicate Loops(kind: Kind) {
    kind == CompileLoopStage || kind == RunLoopStage
  }

  // what one stage does to the clean attempts of a trial
  ghost predicate StageClean(kind: Kind, before: Trial, after: Trial, context: RunContext) {
    if Loops(kind) then
      && before.attempts != [] && after.attempts != []
      && (CleanOnlyLast(after) <==> CleanOnlyLast(before) && (!CleanWithError(before) || context.AtCap(before)))
      && (kind == CompileLoopStage && Last(before).stage != S5 ==> Last(after).stage != S5)
    else if kind == GenerateStage then |after.attempts| == 1 && Last(after).stage != S5
    else after.attempts == before.attempts
  }

  // no stage builds or corrects attempts after one that runs them
  ghost predicate RunsLast(kinds: seq<Kind>) {
    forall i, j | 0 <= i < j < |kinds| && kinds[i] == RunLoopStage :: !Loops(kinds[j])
  }

  // before any run_loop no attempt has run clean
  ghost predicate CleanSoFar(kinds: seq<Kind>, i: nat, trial: Trial)
    requires i <= |kinds|
  {
    && CleanOnlyLast(trial)
    && (trial.attempts != [] && Last(trial).stage == S5 ==> exists j | 0 <= j < i :: kinds[j] == RunLoopStage)
  }

  lemma CleanNext(kinds: seq<Kind>, i: nat, before: Trial, after: Trial, context: RunContext)
    requires i < |kinds| && RunsLast(kinds) && CleanSoFar(kinds, i, before)
    requires StageClean(kinds[i], before, after, context)
    ensures CleanSoFar(kinds, i + 1, after)
  {
    hide HasError;
    if before.attempts != [] && Last(before).stage == S5 {
      var j :| 0 <= j < i && kinds[j] == RunLoopStage;
      assert !Loops(kinds[i]);
    }
  }

  predicate AsksContext(kind: Kind) {
    kind == SummarizeStage || kind == DescribeStage
  }

  function ContextRequests(kinds: seq<Kind>): nat
    decreases |kinds|
  {
    if kinds == [] then 0
    else ContextRequests(kinds[..|kinds| - 1]) + (if AsksContext(kinds[|kinds| - 1]) then 1 else 0)
  }

  lemma {:induction false} ContextsBefore(kinds: seq<Kind>, i: nat)
    requires i < |kinds|
    ensures ContextRequests(kinds[..i + 1]) == ContextRequests(kinds[..i]) + if AsksContext(kinds[i]) then 1 else 0
    ensures ContextRequests(kinds[..i + 1]) <= ContextRequests(kinds)
    decreases |kinds|
  {
    assert kinds[..i + 1][..i] == kinds[..i];
    if i + 1 == |kinds| {
      assert kinds[..i + 1] == kinds;
    } else {
      var before := kinds[..|kinds| - 1];
      ContextsBefore(before, i);
      assert before[..i + 1] == kinds[..i + 1];
    }
  }

  // what stops a stage list: the backend, a first-fence recipe with several target files, or an exception
  ghost predicate TrialStopped(
      context: RunContext, target: Program, source: Program, settings: BaselineSettings, failure: Failure)
  {
    context.Stopped(failure) || (failure == ToolRaised && BaselineRaises(target, source, settings))
  }

  // how each kind of stage leaves a trial
  ghost predicate StageDone(kind: Kind, before: Trial, after: Trial, context: RunContext)
    reads context
  {
    match kind
    case BaselineStage => after == WithBaselineOf(before, after)
    case SummarizeStage => after == WithRequest(before, Request(BySummary, None))
    case DescribeStage => after == WithRequest(before, Request(ByDescription, None))
    case GenerateStage =>
      |after.attempts| == 1 && after.requests == before.requests + [Request(ByGenerate, Some(0))] && after.end.None?
    case CompileLoopStage =>
      after.attempts != [] && (context.Capped(after) || (after.end.None? && Last(after).stage in {S4, S5}))
    case RunLoopStage =>
      && after.attempts != []
      && if context.runsCode then context.RunsDone(after)
         else context.Capped(after) || (after.end.None? && Last(after).stage in {S4, S5})
  }

  /** Runs one stage. A stage that builds attempts needs one, and a second generate fails. */
  method RunStageOf(
      kind: Kind, trial: Trial, context: RunContext, target: Program, source: Program, settings: BaselineSettings)
    returns (result: Result<Trial, Failure>)
    requires Between(trial, context)
    requires kind == GenerateStage ==> trial.attempts == []
    requires kind in {CompileLoopStage, RunLoopStage} ==> trial.attempts != []
    requires kind == RunLoopStage && context.runsCode ==> context.sandboxed
    modifies context`artifacts, context`built, context`replies, context`ran, context`results
    ensures result.Err? ==>
      && TrialStopped(context, target, source, settings, result.error)
      && (result.error == BackendStopped ==>
        if AsksContext(kind) then old(context.replies) == []
        else
          && (Loops(kind) || kind == GenerateStage)
          && (context.cap.Some? ==> |trial.attempts| + |old(context.replies)| <= context.cap.value))
    ensures result.Ok? ==>
      && var t := result.value;
      && |old(context.replies)| - |context.replies|
         == |t.attempts| - |trial.attempts| + (if AsksContext(kind) then 1 else 0)
      && (t.end == Some(CorrectionCap) ==> context.Capped(t))
      && (t.end == Some(UpstreamCrash) ==> t.attempts != [] && context.Crashed(t))
      && context.Sound(t) && (t.end.None? ==> Between(t, context))
      && (t.attempts == [] <==> trial.attempts == [] && kind != GenerateStage)
      && (kind == BaselineStage ==> t == WithBaselineOf(trial, t))
      && (kind != BaselineStage ==> Extends(trial, t))
      && (t.end.Some? && kind != BaselineStage ==>
        t.end.value in {CorrectionCap, UpstreamCrash} || (t.end.value == SimGap && kind == RunLoopStage))
    ensures result.Ok? ==> StageClean(kind, trial, result.value, context)
    ensures result.Ok? ==> context.RunsAnswered(result.value)
    ensures result.Ok? ==> StageDone(kind, trial, result.value, context)
    ensures kind != RunLoopStage ==> context.ran == old(context.ran) && context.results == old(context.results)
  {
    hide HasError, WellFormed, ValidTargets, Extends, CleanOnlyLast, CleanWithError, RunContext.Answers,
      AgreementRecorded, ReferenceEnd, BaselineEnd, BaselineRaises, RunContext.RunAnswered, RunContext.AllAnswered,
      RunContext.ReplyAttempt;
    match kind
    case BaselineStage =>
      var after := Baseline(trial, target, source, settings);
      if after.Ok? {
        BaselineKeeps(trial, context.Past(), after.value);
        BaselineAnswered(trial, after.value, context);
      }
      result := after;
    case SummarizeStage =>
      result := context.AskContext(trial, BySummary);
      StillAnswered(trial, result, context);
    case DescribeStage =>
      result := context.AskContext(trial, ByDescription);
      StillAnswered(trial, result, context);
    case GenerateStage =>
      result := context.Generate(trial);
      StillAnswered(trial, result, context);
      TakenBy(trial, result, context, old(context.replies));
    case CompileLoopStage =>
      result := context.CompileLoop(trial);
      StillAnswered(trial, result, context);
      TakenBy(trial, result, context, old(context.replies));
    case RunLoopStage =>
      result := context.RunLoop(trial);
      TakenBy(trial, result, context, old(context.replies));
  }

  lemma StillAnswered(trial: Trial, result: Result<Trial, Failure>, context: RunContext)
    requires context.RunsAnswered(trial) && trial.end.None?
    requires result.Ok? ==> Extends(trial, result.value)
    ensures result.Ok? ==> context.RunsAnswered(result.value)
  {
    if result.Ok? {
      context.RunsStay(trial, result.value, context.ran, context.results);
    }
  }

  lemma BaselineAnswered(trial: Trial, after: Trial, context: RunContext)
    requires context.RunsAnswered(trial) && trial.end.None? && after == WithBaselineOf(trial, after)
    ensures context.RunsAnswered(after)
  {
    forall k | 0 <= k < |context.ran|
      ensures context.RunAnswered(after, context.ran[k], context.results[k])
    {
      assert context.RunAnswered(trial, context.ran[k], context.results[k]);
    }
  }

  // a stage that asks for attempts takes one reply an attempt
  lemma TakenBy(trial: Trial, result: Result<Trial, Failure>, context: RunContext, replies: seq<Reply>)
    requires result.Ok? ==> context.Answers(|trial.attempts|, result.value.attempts, replies, context.replies)
    ensures result.Ok? ==> |replies| - |context.replies| == |result.value.attempts| - |trial.attempts|
  {
    if result.Ok? {
      context.AnswersCount(|trial.attempts|, result.value.attempts, replies, context.replies);
    }
  }

  lemma BaselineKeeps(trial: Trial, history: History, after: Trial)
    requires WellFormed(trial, history) && after == WithBaselineOf(trial, after)
    ensures WellFormed(after, history)
  {
    hide HasError, AttemptRequests;
    forall i | 0 <= i < |after.attempts|
      ensures AttemptFits(after.attempts, i, history)
    {
      assert AttemptFits(trial.attempts, i, history);
    }
  }

  // what an accepted list has before each of its stages
  lemma OrderedAt(kinds: seq<Kind>, i: nat)
    requires WellOrdered(Entries(kinds)) && i < |kinds|
    ensures kinds[i] == GenerateStage ==> GenerateStage !in kinds[..i]
    ensures Loops(kinds[i]) ==> GenerateStage in kinds[..i]
    ensures kinds[i] == BaselineStage ==> forall j | 0 <= j < i :: !AsksModel(EntryOf(kinds[j]))
  {
    if Loops(kinds[i]) {
      var j :| 0 <= j < i && Entries(kinds)[j].generates;
      assert kinds[j] == GenerateStage;
    }
  }

  // after a run_loop whose executor runs programs, a trial that goes on ran clean or has a stale output
  ghost predicate RanSoFar(kinds: seq<Kind>, i: nat, trial: Trial, context: RunContext)
    requires i <= |kinds|
  {
    context.runsCode && RunLoopStage in kinds[..i] ==>
      trial.attempts != [] && (context.RunClean(trial) || context.Stale(trial))
  }

  lemma RanNext(kinds: seq<Kind>, i: nat, before: Trial, after: Trial, context: RunContext)
    requires WellOrdered(Entries(kinds)) && i < |kinds| && RunsLast(kinds) && RanSoFar(kinds, i, before, context)
    requires StageDone(kinds[i], before, after, context) && before.end.None?
    requires kinds[i] == BaselineStage ==> before.attempts == []
    ensures after.end.None? ==> RanSoFar(kinds, i + 1, after, context)
    ensures after.end.Some? && context.runsCode && after.attempts != [] ==> context.RunsDone(after)
  {
    OrderedAt(kinds, i);
    hide HasError, WellOrdered;
    if RunLoopStage in kinds[..i] {
      var j :| 0 <= j < i && kinds[j] == RunLoopStage;
      assert !Loops(kinds[i]) && AsksModel(EntryOf(kinds[j]));
      assert kinds[i] != GenerateStage by { GeneratesFirst(kinds, j, i); }
    }
  }

  // an accepted list generates before any loop, and once
  lemma GeneratesFirst(kinds: seq<Kind>, j: nat, i: nat)
    requires WellOrdered(Entries(kinds)) && j < i < |kinds| && Loops(kinds[j])
    ensures kinds[i] != GenerateStage
  {
    OrderedAt(kinds, j);
    OrderedAt(kinds, i);
    assert forall k | k in kinds[..j] :: k in kinds[..i];
  }

  lemma RanNow(kinds: seq<Kind>, trial: Trial, context: RunContext)
    requires RanSoFar(kinds, |kinds|, trial, context)
    ensures context.runsCode && RunLoopStage in kinds ==> context.RunsDone(trial)
  {
    assert kinds[..|kinds|] == kinds;
  }

  lemma CleanAtFirst(kinds: seq<Kind>)
    ensures CleanSoFar(kinds, 0, NEW_TRIAL) && forall context :: RanSoFar(kinds, 0, NEW_TRIAL, context)
  {
  }

  lemma CleanNow(kinds: seq<Kind>, i: nat, trial: Trial)
    requires i <= |kinds| && CleanSoFar(kinds, i, trial)
    ensures CleanOnlyLast(trial)
  {
  }

  lemma NoneAnswered(context: RunContext)
    requires context.Unused()
    ensures context.RunsAnswered(NEW_TRIAL)
  {
  }

  lemma NewTrialFits()
    ensures WellFormed(NEW_TRIAL, History({}, [], [])) && Pending(NEW_TRIAL)
    ensures ContextRequests([]) == 0
  {
  }

  /**
   * Runs the stages of one new trial in order, up to the first that ends it. For every accepted list: only the
   * backend, an exception, or the first-fence reading of several target files can stop it, and not the backend when it
   * has a reply for each context request and each attempt to the cap; every attempt is built and run at most once; the
   * cap is kept, and an end reason means what it says; a trial the baseline ends has asked nothing; and a clean
   * attempt is last when no loop follows run_loop.
   */
  method RunTrial(
      kinds: seq<Kind>, context: RunContext, target: Program, source: Program, settings: BaselineSettings)
    returns (result: Result<Trial, Failure>)
    requires WellOrdered(Entries(kinds))
    requires context.Unused() && ValidTargets(context.expected)
    requires RunLoopStage in kinds && context.runsCode ==> context.sandboxed
    modifies context`artifacts, context`built, context`replies, context`ran, context`results
    ensures result.Err? ==> TrialStopped(context, target, source, settings, result.error)
    ensures result.Err? && result.error == BackendStopped && context.cap.Some? ==>
      |old(context.replies)| < ContextRequests(kinds) + if GenerateStage in kinds then context.cap.value + 1 else 0
    ensures result.Ok? ==> WellFormed(result.value, context.Past())
    ensures result.Ok? && context.cap.Some? ==> |result.value.attempts| <= context.cap.value + 1
    ensures result.Ok? && result.value.end == Some(CorrectionCap) ==> context.Capped(result.value)
    ensures result.Ok? && result.value.end == Some(UpstreamCrash) ==>
      result.value.attempts != [] && context.Crashed(result.value)
    ensures result.Ok? && !context.executionGate ==> forall i | i in context.ran :: i <= EXECUTION_GATE
    ensures result.Ok? && result.value.end in {Some(BaselineCompile), Some(BaselineRun), Some(BaselineDisagree)} ==>
      Unasked(result.value)
    ensures result.Ok? && result.value.end == Some(SimGap) ==>
      Unasked(result.value) || (result.value.attempts != [] && RunLoopStage in kinds)
    ensures result.Ok? && result.value.end.None? ==> (result.value.attempts != [] <==> GenerateStage in kinds)
    ensures result.Ok? && RunsLast(kinds) ==> CleanOnlyLast(result.value)
    ensures result.Ok? ==> context.RunsAnswered(result.value)
    ensures result.Ok? && RunsLast(kinds) && RunLoopStage in kinds && context.runsCode ==>
      result.value.attempts == [] || context.RunsDone(result.value)
  {
    hide HasError, ValidTargets, WellFormed, Extends, RunsLast, StageClean, StageDone, CleanSoFar, CleanOnlyLast,
      RanSoFar, Pending, WellOrdered, ContextRequests, TrialStopped, Entries, RunContext.RunsDone,
      RunContext.AllAnswered, RunContext.Capped, RunContext.Crashed, RunContext.ReplyAttempt;
    CleanAtFirst(kinds);
    NewTrialFits();
    NoneAnswered(context);
    assert kinds[..0] == [];
    var trial := NEW_TRIAL;
    for i := 0 to |kinds|
      invariant Between(trial, context)
      invariant trial.attempts != [] <==> GenerateStage in kinds[..i]
      invariant (forall j | 0 <= j < i :: !AsksModel(EntryOf(kinds[j]))) ==> Unasked(trial)
      invariant RunsLast(kinds) ==> CleanSoFar(kinds, i, trial) && RanSoFar(kinds, i, trial, context)
      invariant |old(context.replies)| == |context.replies| + |trial.attempts| + ContextRequests(kinds[..i])
    {
      OrderedAt(kinds, i);
      ContextsBefore(kinds, i);
      assert kinds[i] in kinds;
      var stage := RunStageOf(kinds[i], trial, context, target, source, settings);
      if stage.Err? {
        return stage;
      }
      if RunsLast(kinds) {
        CleanNext(kinds, i, trial, stage.value, context);
        CleanNow(kinds, i + 1, stage.value);
        RanNext(kinds, i, trial, stage.value, context);
      }
      trial := stage.value;
      if trial.end.Some? {
        return Ok(trial);
      }
    }
    if RunsLast(kinds) {
      CleanNow(kinds, |kinds|, trial);
      RanNow(kinds, trial, context);
    }
    return Ok(trial);
  }

  /**
   * A fresh generate, compile_loop, run_loop pass with an executor that runs programs. With a cap of n and n + 1
   * replies it always returns, after at most n corrections, in one of the five ways RunsDone lists.
   */
  method CorrectionPass(context: RunContext) returns (result: Result<Trial, Failure>)
    requires context.Unused() && ValidTargets(context.expected)
    requires context.runsCode && context.sandboxed
    modifies context`artifacts, context`built, context`replies, context`ran, context`results
    ensures result.Err? ==>
      && context.Stopped(result.error)
      && (result.error == BackendStopped && context.cap.Some? ==> |old(context.replies)| <= context.cap.value)
    ensures result.Ok? ==>
      && var t := result.value;
      && context.RunsDone(t) && context.RunsAnswered(t) && WellFormed(t, context.Past()) && CleanOnlyLast(t)
      && (context.cap.Some? ==> |t.attempts| - 1 <= context.cap.value)
      && context.Answers(0, t.attempts, old(context.replies), context.replies)
  {
    hide Extends, HasError, RunContext.ReplyAttempt, RunContext.RunAnswered, RunContext.AllAnswered, WellFormed,
      RunContext.Answers;
    NewTrialFits();
    NoneAnswered(context);
    ghost var given := context.replies;
    result := context.Generate(NEW_TRIAL);
    if result.Err? {
      return;
    }
    StillAnswered(NEW_TRIAL, result, context);
    var generated := result.value;
    ghost var left := context.replies;
    context.AnswersCount(0, generated.attempts, given, left);
    result := context.CompileLoop(generated);
    if result.Err? {
      return;
    }
    var compiled := result.value;
    ghost var rest := context.replies;
    context.AnswersThen(0, generated, compiled, given, left, rest);
    context.AnswersCount(0, compiled.attempts, given, rest);
    StillAnswered(generated, result, context);
    if compiled.end.Some? {
      return;
    }
    result := context.RunLoop(compiled);
    if result.Ok? {
      context.AnswersThen(0, compiled, result.value, given, rest, context.replies);
    }
  }

  // ----- the final block

  datatype Final = Final(stage: Option<Stage>, corrections: nat, standing: Option<nat>, end: Option<EndReason>)

  /** A trial's final block: its last stage, its corrections, the attempt whose output stands, and its end. */
  function FinalOf(trial: Trial): Final {
    var standing := TrialRecord.Standing(trial.attempts);
    Final(if trial.attempts == [] then None else Some(Last(trial).stage),
          if trial.attempts == [] then 0 else |trial.attempts| - 1,
          if standing.None? then None else Some(standing.value.index), trial.end)
  }

  /** The corrections are the requests for attempts after the first, and the standing attempt is the last that ran. */
  lemma FinalCounts(trial: Trial, history: History)
    requires WellFormed(trial, history)
    ensures var final := FinalOf(trial);
      && (final.stage.None? ==> final.corrections == 0) && final.end == trial.end
      && |AttemptRequests(trial.requests)| == (if final.stage.None? then 0 else final.corrections + 1)
      && (final.standing.None? <==> history.ran == [])
      && (final.standing.Some? ==>
        final.standing.value in history.ran && forall i | i in history.ran :: i <= final.standing.value)
      && (final.stage == Some(S5) ==> final.standing == Some(final.corrections))
  {
    hide HasError, AttemptRequests, Standing;
    var attempts := trial.attempts;
    StandingIsLastRun(attempts);
    forall i | 0 <= i < |attempts|
      ensures attempts[i].index == i && (i in history.ran <==> attempts[i].run.Some?)
      ensures attempts[i].stage == S5 ==> attempts[i].run.Some?
      ensures attempts[i] in attempts
    {
      assert AttemptFits(attempts, i, history);
    }
    assert forall k | k in history.ran :: k < |attempts| && attempts[k].run.Some?;
    assert history.ran == [] || history.ran[0] in history.ran;
    if Standing(attempts).Some? {
      var i :| 0 <= i < |attempts| && attempts[i] == Standing(attempts).value && attempts[i].run.Some?
               && forall j | i < j < |attempts| :: attempts[j].run.None?;
      assert i in history.ran;
      forall k | k in history.ran
        ensures k <= i
      {
        assert attempts[k].run.Some?;
      }
    }
  }
}
