/** The trial record: attempts, model requests, the end reason, and what the stages keep true of them. */
module TrialRecord {
  import opened Outcomes
  import opened Sequences
  import FileBlocks

  // S2 and S3 belong to passes that source-level translation does not have, so no stage here records them
  datatype Stage = S0 | S1 | S4 | S5

  datatype Origin = AtParse | AtCompile | AtJit | AtRun | Elsewhere
  datatype Severity = Error | Warning | Note

  datatype Code =
    | BlockProblem(problem: FileBlocks.Code)
    | InvalidText | FenceQuirk | NoFence | NoArtifact
    | RunError | StaleOutput | StdoutTruncated | StderrTruncated | WorkdirIncomplete | ReferenceIncomplete
    | Foreign(name: string)

  datatype Diagnostic = Diagnostic(origin: Origin, severity: Severity, code: Code)

  // what an executor returns for one run
  datatype RunResult = RunResult(
    exitCode: Option<int>, hang: bool, undefinedBehavior: Option<bool>, gap: Option<string>,
    stdoutTruncated: bool, stderrTruncated: bool, workdirIncomplete: bool, diagnostics: seq<Diagnostic>)

  datatype RunInfo = RunInfo(
    exitCode: Option<int>, hang: bool, undefinedBehavior: Option<bool>,
    stdoutTruncated: bool, stderrTruncated: bool, workdirIncomplete: bool)

  predicate RanWell(info: RunInfo) {
    info.exitCode == Some(0) && !info.hang && info.undefinedBehavior != Some(true)
  }

  datatype Attempt = Attempt(
    index: nat, files: map<string, string>, stage: Stage, diagnostics: seq<Diagnostic>, run: Option<RunInfo>)

  datatype Asker = BySummary | ByDescription | ByGenerate | ByCompileLoop | ByRunLoop

  datatype Request = Request(asker: Asker, attempt: Option<nat>)

  datatype EndReason = BaselineCompile | BaselineRun | BaselineDisagree | CorrectionCap | UpstreamCrash | SimGap

  // `agreement` tells of each output of the source reference whether it is within the tolerance; `notes` are the
  // baseline's own diagnostics
  datatype Trial = Trial(
    reference: Option<RunInfo>, agreement: Option<seq<bool>>, notes: seq<Diagnostic>,
    requests: seq<Request>, attempts: seq<Attempt>, end: Option<EndReason>)

  const NEW_TRIAL := Trial(None, None, [], [], [], None)

  predicate HasError(diagnostics: seq<Diagnostic>) {
    exists d :: d in diagnostics && d.severity == Error
  }

  lemma ErrorsStay(a: seq<Diagnostic>, b: seq<Diagnostic>)
    ensures HasError(a + b) <==> HasError(a) || HasError(b)
  {
    if HasError(a) {
      var d :| d in a && d.severity == Error;
      assert d in a + b;
    }
    if HasError(b) {
      var d :| d in b && d.severity == Error;
      assert d in a + b;
    }
  }

  function Last(trial: Trial): Attempt
    requires trial.attempts != []
  {
    trial.attempts[|trial.attempts| - 1]
  }

  function WithLast(trial: Trial, attempt: Attempt): Trial
    requires trial.attempts != []
  {
    trial.(attempts := trial.attempts[..|trial.attempts| - 1] + [attempt])
  }

  datatype RecordError = WrongIndex

  /** Appends an attempt, whose index must be the count of attempts. */
  function WithAttempt(trial: Trial, attempt: Attempt): Result<Trial, RecordError> {
    if attempt.index != |trial.attempts| then Err(WrongIndex)
    else Ok(trial.(attempts := trial.attempts + [attempt]))
  }

  function WithRequest(trial: Trial, request: Request): Trial {
    trial.(requests := trial.requests + [request])
  }

  // the last attempt that ran, whose output stands as the trial's
  function Standing(attempts: seq<Attempt>): Option<Attempt>
    decreases |attempts|
  {
    if attempts == [] then None
    else if attempts[|attempts| - 1].run.Some? then Some(attempts[|attempts| - 1])
    else Standing(attempts[..|attempts| - 1])
  }

  lemma {:induction false} StandingIsLastRun(attempts: seq<Attempt>)
    ensures Standing(attempts).None? <==> forall a | a in attempts :: a.run.None?
    ensures Standing(attempts).Some? ==>
      exists i | 0 <= i < |attempts| ::
        attempts[i] == Standing(attempts).value && attempts[i].run.Some?
        && forall j | i < j < |attempts| :: attempts[j].run.None?
    decreases |attempts|
  {
    if attempts != [] && attempts[|attempts| - 1].run.None? {
      var before := attempts[..|attempts| - 1];
      StandingIsLastRun(before);
      if Standing(before).Some? {
        var i :| 0 <= i < |before| && before[i] == Standing(before).value && before[i].run.Some?
                 && forall j | i < j < |before| :: before[j].run.None?;
        assert attempts[i] == before[i];
      } else {
        forall a | a in attempts
          ensures a.run.None?
        {
          if a !in before { assert a == attempts[|attempts| - 1]; }
        }
      }
    }
  }

  // ----- the requests that became attempts

  function AttemptRequests(requests: seq<Request>): seq<Request>
    decreases |requests|
  {
    if requests == [] then []
    else
      var last := requests[|requests| - 1];
      AttemptRequests(requests[..|requests| - 1]) + (if last.attempt.Some? then [last] else [])
  }

  lemma AttemptRequestsAppend(requests: seq<Request>, request: Request)
    ensures AttemptRequests(requests + [request])
         == AttemptRequests(requests) + (if request.attempt.Some? then [request] else [])
  {
    assert (requests + [request])[..|requests|] == requests;
  }

  lemma {:induction false} InAttemptRequests(requests: seq<Request>, request: Request)
    ensures request in AttemptRequests(requests) ==> request in requests
    decreases |requests|
  {
    if requests == [] {
    } else {
      InAttemptRequests(requests[..|requests| - 1], request);
    }
  }

  // who asked for an attempt: generate for the first, run_loop after an S4 attempt, compile_loop after any other
  ghost function AskerOf(attempts: seq<Attempt>, i: nat): Asker
    requires i < |attempts|
  {
    if i == 0 then ByGenerate else if attempts[i - 1].stage == S4 then ByRunLoop else ByCompileLoop
  }

  // ----- what every stage keeps

  // what the trial's context remembers beside the record: programs by attempt, and the builds and runs made so far
  datatype History = History(programs: set<nat>, built: seq<nat>, ran: seq<nat>)

  /** The attempt's place, build and run agree with the history. */
  ghost predicate AttemptFits(attempts: seq<Attempt>, i: nat, history: History)
    requires i < |attempts|
  {
    var a := attempts[i];
    && a.index == i
    && (a.stage in {S4, S5} ==> i in history.programs)
    && (i in history.built ==> a.stage in {S4, S5} || HasError(a.diagnostics))
    && (i in history.ran <==> a.run.Some?)
    && (i in history.ran ==> i in history.programs)
    && (a.stage == S5 ==> a.run.Some? && RanWell(a.run.value))
    && (a.run.Some? ==> a.stage in {S4, S5} || HasError(a.diagnostics))
  }

  ghost predicate RequestsFit(trial: Trial) {
    var asked := AttemptRequests(trial.requests);
    && |asked| == |trial.attempts|
    && forall i | 0 <= i < |asked| :: asked[i] == Request(AskerOf(trial.attempts, i), Some(i))
  }

  /** An attempt before the last has an error: that is why the next one was asked for. */
  ghost predicate Superseded(trial: Trial) {
    forall i | 0 <= i < |trial.attempts| - 1 :: HasError(trial.attempts[i].diagnostics)
  }

  ghost predicate WellFormed(trial: Trial, history: History) {
    && (forall i | 0 <= i < |trial.attempts| :: AttemptFits(trial.attempts, i, history))
    && (forall i | i in history.built || i in history.ran || i in history.programs :: i < |trial.attempts|)
    && NoRepeats(history.built) && NoRepeats(history.ran)
    && RequestsFit(trial) && Superseded(trial)
  }

  /** While the trial goes on, a last attempt that compiled is one that has not run. */
  ghost predicate Pending(trial: Trial) {
    trial.end.None? && trial.attempts != [] && Last(trial).stage == S4 ==> Last(trial).run.None?
  }

  /** Earlier attempts and requests stay as they are; the last attempt keeps its files and gains diagnostics. */
  ghost predicate Extends(before: Trial, after: Trial) {
    && |before.attempts| <= |after.attempts|
    && before.requests <= after.requests
    && before.reference == after.reference && before.agreement == after.agreement && before.notes == after.notes
    && (forall i | 0 <= i < |before.attempts| - 1 :: after.attempts[i] == before.attempts[i])
    && (before.attempts != [] ==>
      var a, b := Last(before), after.attempts[|before.attempts| - 1];
      a.index == b.index && a.files == b.files && a.diagnostics <= b.diagnostics
      && (a.run.Some? ==> b.run == a.run && b.stage == a.stage))
  }

  lemma ExtendsSelf(trial: Trial)
    ensures Extends(trial, trial)
  {
  }

  lemma ExtendsTransitive(a: Trial, b: Trial, c: Trial)
    requires Extends(a, b) && Extends(b, c)
    ensures Extends(a, c)
  {
    if a.attempts != [] && |a.attempts| < |b.attempts| {
      assert c.attempts[|a.attempts| - 1] == b.attempts[|a.attempts| - 1];
    }
  }
}
