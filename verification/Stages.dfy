/**
 * The correction loop: generate, compile_loop and run_loop over one trial. The model's replies are a finite script
 * (a backend that has none left raises, which stops the run); what a build or a run returns is arbitrary.
 */
module Stages {
  import opened Outcomes
  import opened Sequences
  import opened TrialRecord
  import Files = FileBlocks
  import Texts

  type Artifact = int

  // a fenced block as upstream's tag stripping reads it
  datatype Fence = Fence(found: bool, quirk: bool, text: string)

  // a reply as kept, whether a lone surrogate in it was replaced, and its first fenced block
  datatype Reply = Reply(text: string, replaced: bool, fence: Fence)

  datatype BuildResult = BuildResult(artifact: Option<Artifact>, diagnostics: seq<Diagnostic>)

  datatype Failure = BackendStopped | NoAttempt | NoProgram | NotSandboxed | NotOneTarget | BadRecord | ToolRaised

  const EXECUTION_GATE: nat := 7

  // ----- reading a reply

  function ReplyWarnings(reply: Reply): seq<Diagnostic> {
    if reply.replaced then [Diagnostic(AtParse, Warning, InvalidText)] else []
  }

  function BlockErrors(problems: seq<Files.Problem>): (errors: seq<Diagnostic>)
    ensures |errors| == |problems|
    ensures forall e | e in errors :: e.severity == Error
  {
    seq(|problems|, i requires 0 <= i < |problems| => Diagnostic(AtCompile, Error, BlockProblem(problems[i].code)))
  }

  ghost predicate ValidTargets(expected: seq<string>) {
    expected != [] && forall path | path in expected :: Files.ValidPath(path)
  }

  /** The attempt of a reply's FILE blocks: S1 when they gave a file and no error but missing files. */
  function ParsedAttempt(index: nat, reply: Reply, expected: seq<string>): Attempt {
    match Files.Parse(reply.text, expected)
    case Err(_) => Attempt(index, map[], S0, [], None)
    case Ok(parsed) =>
      var usable := parsed.files != map[] && forall p | p in parsed.problems :: p.code == Files.MissingFile;
      Attempt(index, parsed.files, if usable then S1 else S0, ReplyWarnings(reply) + BlockErrors(parsed.problems), None)
  }

  /** The attempt of a reply's first fenced block, the one target file; without one the file is empty and S0. */
  function FencedAttempt(index: nat, reply: Reply, target: string): Attempt {
    var quirk := if reply.fence.quirk then [Diagnostic(AtParse, Warning, FenceQuirk)] else [];
    var missing := if reply.fence.found then [] else [Diagnostic(AtParse, Warning, NoFence)];
    Attempt(index, map[target := reply.fence.text], if reply.fence.found then S1 else S0,
            ReplyWarnings(reply) + quirk + missing, None)
  }

  lemma {:induction false} ExpectedOfValid(expected: seq<string>)
    requires forall path | path in expected :: Files.ValidPath(path)
    ensures forall path | path in Files.Expected(expected) :: path in expected
    ensures expected != [] ==> Files.Expected(expected) != []
    decreases |expected|
  {
    hide Files.ValidPath, Files.Normalize;
    if expected == [] {
    } else {
      var last := expected[|expected| - 1];
      Files.ValidPathNormal(last);
      ExpectedOfValid(expected[..|expected| - 1]);
    }
  }

  /** An S0 attempt read from FILE blocks has an error, a block's or a missing file's. */
  lemma S0HasError(index: nat, reply: Reply, expected: seq<string>)
    requires ValidTargets(expected)
    ensures Files.Parse(reply.text, expected).Ok?
    ensures var a := ParsedAttempt(index, reply, expected); a.stage == S0 ==> HasError(a.diagnostics)
  {
    hide Files.ValidPath, Files.FileBlocksFrom, Files.ReadBlocks, HasError;
    ExpectedOfValid(expected);
    var parsed := Files.Parse(reply.text, expected).value;
    if parsed.problems == [] {
      NoProblemNoMissing(reply.text, expected);
    } else {
      var errors := BlockErrors(parsed.problems);
      SomeError(errors);
      ErrorsStay(ReplyWarnings(reply), errors);
    }
  }

  /** An attempt read from FILE blocks is S1 exactly when the reply has FILE blocks and each of them gave a file. */
  lemma ParsedStage(index: nat, reply: Reply, expected: seq<string>)
    requires ValidTargets(expected)
    ensures var blocks := Files.FileBlocksFrom(Texts.Split(reply.text, '\n'), 0);
      ParsedAttempt(index, reply, expected).stage
      == if blocks != [] && forall i | 0 <= i < |blocks| :: Files.KeptAt(blocks, i) then S1 else S0
  {
    hide Files.ValidPath, Files.FileBlocksFrom, Files.ReadBlocks, Files.KeptAt, Files.Expected, Files.Missing;
    ExpectedOfValid(expected);
    Files.UsableExactly(reply.text, expected);
  }

  /** It holds the files read, and one error a problem, in order, after a warning for a replaced character. */
  lemma ParsedReported(index: nat, reply: Reply, expected: seq<string>)
    requires ValidTargets(expected)
    ensures Files.Parse(reply.text, expected).Ok?
    ensures var a, parsed := ParsedAttempt(index, reply, expected), Files.Parse(reply.text, expected).value;
      var warned := if reply.replaced then 1 else 0;
      && a.index == index && a.files == parsed.files && a.run.None?
      && |a.diagnostics| == warned + |parsed.problems|
      && (warned == 1 ==> a.diagnostics[0] == Diagnostic(AtParse, Warning, InvalidText))
      && forall k | 0 <= k < |parsed.problems| ::
        a.diagnostics[warned + k] == Diagnostic(AtCompile, Error, BlockProblem(parsed.problems[k].code))
  {
    hide Files.Parse, ValidTargets, HasError;
    S0HasError(index, reply, expected);
  }

  /** The first fence's attempt holds its text as the target, is S1 when there is one, and warns of each quirk once. */
  lemma FencedReported(index: nat, reply: Reply, target: string)
    ensures var a := FencedAttempt(index, reply, target);
      && a.index == index && a.files == map[target := reply.fence.text] && a.run.None?
      && (a.stage == S1 <==> reply.fence.found) && (a.stage == S0 <==> !reply.fence.found)
      && NoRepeats(a.diagnostics)
      && forall d :: d in a.diagnostics <==>
        || (d == Diagnostic(AtParse, Warning, InvalidText) && reply.replaced)
        || (d == Diagnostic(AtParse, Warning, FenceQuirk) && reply.fence.quirk)
        || (d == Diagnostic(AtParse, Warning, NoFence) && !reply.fence.found)
  {
  }

  lemma SomeError(errors: seq<Diagnostic>)
    requires errors != [] && forall e | e in errors :: e.severity == Error
    ensures HasError(errors)
  {
    assert errors[0] in errors;
  }

  // a reply with no problem at all gave every expected file, and so at least one
  lemma NoProblemNoMissing(text: string, expected: seq<string>)
    requires Files.Parse(text, expected).Ok? && Files.Parse(text, expected).value.problems == []
    requires Files.Expected(expected) != []
    ensures Files.Parse(text, expected).value.files != map[]
  {
    hide Files.Parse, Files.Expected;
    Files.NoProblemNoneMissing(text, expected);
    assert Files.Expected(expected)[0] in Files.Expected(expected);
  }

  /** An attempt read from FILE blocks that has no error, the one kind that is built, holds every expected file. */
  lemma BuiltWhole(index: nat, reply: Reply, expected: seq<string>, path: string)
    requires ValidTargets(expected) && !HasError(ParsedAttempt(index, reply, expected).diagnostics)
    requires path in expected
    ensures path in ParsedAttempt(index, reply, expected).files
  {
    hide Files.ValidPath, Files.FileBlocksFrom, Files.ReadBlocks, HasError;
    ExpectedOfValid(expected);
    var parsed := Files.Parse(reply.text, expected).value;
    if parsed.problems != [] {
      SomeError(BlockErrors(parsed.problems));
      ErrorsStay(ReplyWarnings(reply), BlockErrors(parsed.problems));
    } else {
      Files.NoProblemNoneMissing(reply.text, expected);
      AllExpected(expected, path);
    }
  }

  lemma {:induction false} AllExpected(expected: seq<string>, path: string)
    requires path in expected && forall p | p in expected :: Files.ValidPath(p)
    ensures path in Files.Expected(expected)
    decreases |expected|
  {
    hide Files.ValidPath, Files.Normalize;
    var before, last := expected[..|expected| - 1], expected[|expected| - 1];
    Files.ValidPathNormal(last);
    if path in before {
      AllExpected(before, path);
    }
  }

  // ----- reading a build and a run

  /** The last attempt after its build: S4 with a program; without one it always carries an error. */
  function BuiltAttempt(a: Attempt, result: BuildResult, guard: seq<Diagnostic>): Attempt {
    var none := if result.artifact.None? && !HasError(result.diagnostics)
                then [Diagnostic(AtCompile, Error, NoArtifact)] else [];
    a.(diagnostics := a.diagnostics + result.diagnostics + none + (if result.artifact.Some? then guard else []),
       stage := if result.artifact.Some? then S4 else a.stage)
  }

  predicate JitFailed(run: RunResult) {
    exists d :: d in run.diagnostics && d.origin == AtJit && d.severity == Error
  }

  predicate Clean(run: RunResult) {
    run.exitCode == Some(0) && !run.hang && run.undefinedBehavior != Some(true) && run.gap.None?
  }

  /** S1 after a kernel JIT error, whatever else the run reported; else S5 after a clean run, and S4 after any other. */
  function RunStage(run: RunResult): (stage: Stage)
    ensures stage == S1 <==> JitFailed(run)
    ensures stage == S5 ==> RanWell(InfoOf(run)) && run.gap.None?
    ensures stage == S4 ==> run.gap.Some? || !RanWell(InfoOf(run))
  {
    if JitFailed(run) then S1 else if Clean(run) then S5 else S4
  }

  function FlagWarnings(run: RunResult): seq<Diagnostic> {
    (if run.stdoutTruncated then [Diagnostic(AtRun, Warning, StdoutTruncated)] else [])
    + (if run.stderrTruncated then [Diagnostic(AtRun, Warning, StderrTruncated)] else [])
    + (if run.workdirIncomplete then [Diagnostic(AtRun, Warning, WorkdirIncomplete)] else [])
  }

  function InfoOf(run: RunResult): RunInfo {
    RunInfo(run.exitCode, run.hang, run.undefinedBehavior,
            run.stdoutTruncated, run.stderrTruncated, run.workdirIncomplete)
  }

  /** The last attempt after its run: a failed run that is no JIT failure and no simulator gap carries a run error. */
  function RanAttempt(a: Attempt, run: RunResult): Attempt {
    var failed := if RunStage(run) == S4 && run.gap.None? then [Diagnostic(AtRun, Error, RunError)] else [];
    a.(run := Some(InfoOf(run)), stage := RunStage(run),
       diagnostics := a.diagnostics + (run.diagnostics + FlagWarnings(run) + failed))
  }

  /** A build adds its diagnostics, then the guard's when there is a program, or an error when nothing said why not. */
  lemma BuiltReported(a: Attempt, result: BuildResult, guard: seq<Diagnostic>)
    ensures var b := BuiltAttempt(a, result, guard);
      && b.index == a.index && b.files == a.files && b.run == a.run
      && (result.artifact.Some? ==> b.stage == S4 && b.diagnostics == a.diagnostics + (result.diagnostics + guard))
      && (result.artifact.None? && HasError(result.diagnostics) ==>
        b == a.(diagnostics := a.diagnostics + result.diagnostics))
      && (result.artifact.None? && !HasError(result.diagnostics) ==>
        b == a.(diagnostics := a.diagnostics + (result.diagnostics + [Diagnostic(AtCompile, Error, NoArtifact)])))
  {
    hide HasError;
  }

  /** A run adds its own diagnostics, one warning a flag that is set, and an error when nothing else says it failed. */
  lemma RanReported(a: Attempt, run: RunResult) returns (added: seq<Diagnostic>)
    ensures var b := RanAttempt(a, run);
      && b.index == a.index && b.files == a.files && b.diagnostics == a.diagnostics + (run.diagnostics + added)
      && b.run == Some(RunInfo(run.exitCode, run.hang, run.undefinedBehavior,
                               run.stdoutTruncated, run.stderrTruncated, run.workdirIncomplete))
    ensures NoRepeats(added)
    ensures forall d :: d in added <==>
      || (d == Diagnostic(AtRun, Warning, StdoutTruncated) && run.stdoutTruncated)
      || (d == Diagnostic(AtRun, Warning, StderrTruncated) && run.stderrTruncated)
      || (d == Diagnostic(AtRun, Warning, WorkdirIncomplete) && run.workdirIncomplete)
      || (d == Diagnostic(AtRun, Error, RunError) && !JitFailed(run) && !Clean(run) && run.gap.None?)
  {
    var failed := if RunStage(run) == S4 && run.gap.None? then [Diagnostic(AtRun, Error, RunError)] else [];
    added := FlagWarnings(run) + failed;
    assert run.diagnostics + FlagWarnings(run) + failed == run.diagnostics + added;
  }

  /** The end at a compiling attempt past the execution gate. */
  function PastGate(trial: Trial): Trial
    requires trial.attempts != []
  {
    if Standing(trial.attempts).None? then trial.(end := Some(UpstreamCrash))
    else
      var last := Last(trial);
      WithLast(trial, last.(diagnostics := last.diagnostics + [Diagnostic(AtRun, Warning, StaleOutput)]))
  }

  predicate NeedsCorrection(a: Attempt) {
    a.stage != S4 && HasError(a.diagnostics)
  }

  // ----- each change to the record keeps it well formed

  lemma LastReplaced(trial: Trial, history: History, a: Attempt, after: History)
    requires WellFormed(trial, history) && trial.attempts != []
    requires a.index == Last(trial).index && a.files == Last(trial).files && Last(trial).diagnostics <= a.diagnostics
    requires Last(trial).run.Some? ==> a.run == Last(trial).run
    requires AttemptFits(WithLast(trial, a).attempts, |trial.attempts| - 1, after)
    requires NoRepeats(after.built) && NoRepeats(after.ran)
    requires forall i: nat | i != Last(trial).index ::
      && (i in after.built <==> i in history.built) && (i in after.ran <==> i in history.ran)
      && (i in after.programs <==> i in history.programs)
    requires Last(trial).run.Some? ==> a.stage == Last(trial).stage
    ensures WellFormed(WithLast(trial, a), after) && Extends(trial, WithLast(trial, a))
  {
    hide HasError, AttemptRequests;
    var n := |trial.attempts|;
    var next := WithLast(trial, a);
    assert forall i | 0 <= i < n - 1 :: next.attempts[i] == trial.attempts[i];
    assert forall i | 0 <= i < n :: AttemptFits(trial.attempts, i, history);
    forall i | 0 <= i < n
      ensures AttemptFits(next.attempts, i, after)
    {
      if i < n - 1 {
        assert AttemptFits(trial.attempts, i, history);
      }
    }
    forall i | 0 <= i < n
      ensures AskerOf(next.attempts, i) == AskerOf(trial.attempts, i)
    {
    }
  }

  lemma AttemptAppended(trial: Trial, history: History, a: Attempt, asker: Asker)
    requires WellFormed(trial, history)
    requires a.index == |trial.attempts| && a.stage in {S0, S1} && a.run.None?
    requires trial.attempts != [] ==> HasError(Last(trial).diagnostics)
    requires asker == if trial.attempts == [] then ByGenerate
        else if Last(trial).stage == S4 then ByRunLoop else ByCompileLoop
    ensures WithAttempt(trial, a).Ok?
    ensures var next := WithRequest(WithAttempt(trial, a).value, Request(asker, Some(a.index)));
      WellFormed(next, history) && Extends(trial, next)
  {
    hide HasError, AttemptRequests;
    var n := |trial.attempts|;
    var next := WithRequest(WithAttempt(trial, a).value, Request(asker, Some(a.index)));
    AttemptRequestsAppend(trial.requests, Request(asker, Some(a.index)));
    forall i | 0 <= i <= n
      ensures AttemptFits(next.attempts, i, history)
    {
      if i < n {
        assert AttemptFits(trial.attempts, i, history);
      }
    }
    forall i | 0 <= i < n
      ensures AskerOf(next.attempts, i) == AskerOf(trial.attempts, i)
    {
    }
  }

  // ----- the stages

  /**
   * What the stages of one trial share: the recipe's settings, the backend's replies, and the programs built. Building
   * an attempt in `buildRaises`, and running one in `runRaises`, raises an exception, which stops the trial.
   */
  class RunContext {
    const expected: seq<string>
    const cap: Option<nat>
    const fenceTag: bool
    const executionGate: bool
    const runsCode: bool
    const sandboxed: bool
    const buildRaises: set<nat>
    const runRaises: set<nat>
    var replies: seq<Reply>
    var artifacts: map<nat, Artifact>
    ghost var built: seq<nat>
    ghost var ran: seq<nat>
    ghost var results: seq<RunResult>

    constructor (
        expected: seq<string>, cap: Option<nat>, fenceTag: bool, executionGate: bool, runsCode: bool, sandboxed: bool,
        buildRaises: set<nat>, runRaises: set<nat>, replies: seq<Reply>)
      ensures this.expected == expected && this.cap == cap && this.fenceTag == fenceTag
      ensures this.executionGate == executionGate && this.runsCode == runsCode && this.sandboxed == sandboxed
      ensures this.buildRaises == buildRaises && this.runRaises == runRaises
      ensures this.replies == replies && Unused()
    {
      this.expected := expected;
      this.cap := cap;
      this.fenceTag := fenceTag;
      this.executionGate := executionGate;
      this.runsCode := runsCode;
      this.sandboxed := sandboxed;
      this.buildRaises, this.runRaises := buildRaises, runRaises;
      this.replies := replies;
      artifacts := map[];
      built, ran, results := [], [], [];
    }

    ghost function Past(): History
      reads this
    {
      History(artifacts.Keys, built, ran)
    }

    // nothing built and nothing run yet
    ghost predicate Unused()
      reads this
    {
      Past() == History({}, [], []) && results == []
    }

    ghost predicate Sound(trial: Trial)
      reads this
    {
      && ValidTargets(expected)
      && WellFormed(trial, Past())
      && (cap.Some? ==> |trial.attempts| <= cap.value + 1)
      && (!executionGate ==> forall i | i in ran :: i <= EXECUTION_GATE)
    }

    /**
     * What became of a run: its attempt keeps it and the stage it gave; a simulator gap ended the trial there; and any
     * other failed run that was no JIT failure ended it at the cap, or run_loop asked for the next attempt.
     */
    ghost predicate RunAnswered(t: Trial, i: nat, run: RunResult) {
      && i < |t.attempts| && t.attempts[i].run == Some(InfoOf(run)) && t.attempts[i].stage == RunStage(run)
      && (RunStage(run) == S4 ==>
        if run.gap.Some? then i == |t.attempts| - 1 && t.end == Some(SimGap)
        else if i == |t.attempts| - 1 then Capped(t)
        else Request(ByRunLoop, Some(i + 1)) in t.requests)
    }

    ghost predicate AllAnswered(t: Trial, ran: seq<nat>, results: seq<RunResult>) {
      |results| == |ran| && forall k | 0 <= k < |ran| :: RunAnswered(t, ran[k], results[k])
    }

    ghost predicate RunsAnswered(t: Trial)
      reads this`ran, this`results
    {
      AllAnswered(t, ran, results)
    }

    lemma AnsweredStaysOne(before: Trial, after: Trial, i: nat, run: RunResult)
      requires RunAnswered(before, i, run) && before.end.None? && Extends(before, after)
      ensures RunAnswered(after, i, run)
    {
      hide HasError, RunStage;
    }

    // the trial went on, so a run that ended it is none of its own
    lemma RunsStay(before: Trial, after: Trial, ran: seq<nat>, results: seq<RunResult>)
      requires AllAnswered(before, ran, results) && before.end.None? && Extends(before, after)
      ensures AllAnswered(after, ran, results)
    {
      hide Extends, RunAnswered;
      forall k | 0 <= k < |ran|
        ensures RunAnswered(after, ran[k], results[k])
      {
        AnsweredStaysOne(before, after, ran[k], results[k]);
      }
    }

    lemma RunsJoin(t: Trial, ran: seq<nat>, results: seq<RunResult>, i: nat, run: RunResult)
      requires AllAnswered(t, ran, results) && RunAnswered(t, i, run)
      ensures AllAnswered(t, ran + [i], results + [run])
    {
      hide RunAnswered;
    }

    // a run of the trial's last attempt, and what became of it
    lemma RunFollowed(trial: Trial, t: Trial, ran: seq<nat>, results: seq<RunResult>, run: RunResult)
      requires AllAnswered(trial, ran, results) && trial.end.None? && trial.attempts != [] && Extends(trial, t)
      requires RunAnswered(t, |trial.attempts| - 1, run)
      ensures AllAnswered(t, ran + [|trial.attempts| - 1], results + [run])
    {
      hide Extends, RunAnswered, AllAnswered;
      RunsStay(trial, t, ran, results);
      RunsJoin(t, ran, results, |trial.attempts| - 1, run);
    }

    // a run after which the turn ends, or that was a JIT failure
    lemma RunEnds(t: Trial, after: Trial, run: RunResult)
      requires t.attempts != [] && Last(t).run == Some(InfoOf(run)) && Last(t).stage == RunStage(run)
      requires after == t.(end := after.end)
      requires RunStage(run) == S4 ==> if run.gap.Some? then after.end == Some(SimGap) else Capped(after)
      ensures RunAnswered(after, |t.attempts| - 1, run)
    {
      hide HasError, RunStage;
    }

    // a failed run whose correction was asked for
    lemma CorrectionAsked(trial: Trial, t: Trial, run: RunResult, history: History)
      requires trial.attempts != [] && Last(trial).run == Some(InfoOf(run))
      requires Last(trial).stage == RunStage(run) == S4 && run.gap.None?
      requires Extends(trial, t) && |t.attempts| > |trial.attempts| && WellFormed(t, history)
      ensures RunAnswered(t, |trial.attempts| - 1, run)
    {
      hide HasError, RunStage;
      var n := |trial.attempts|;
      InAttemptRequests(t.requests, Request(AskerOf(t.attempts, n), Some(n)));
      assert AttemptRequests(t.requests)[n] == Request(AskerOf(t.attempts, n), Some(n));
    }

    // an attempt the compile loop can act on: with FILE blocks, an S0 attempt carries the error to feed back
    ghost predicate Answerable(trial: Trial)
    {
      trial.attempts != []
      && (Last(trial).stage == S0 && !HasError(Last(trial).diagnostics) ==> !fenceTag)
    }

    ghost predicate AtCap(trial: Trial)
    {
      cap.Some? && |trial.attempts| == cap.value + 1
    }

    // the errors that leave a trial unfinished: the backend's, a first-fence recipe's with several target files, and
    // those a build or a run raises
    ghost predicate Stopped(failure: Failure) {
      || failure == BackendStopped
      || (failure == NotOneTarget && !fenceTag && |expected| != 1)
      || (failure == ToolRaised && buildRaises + runRaises != {})
    }

    // who may ask for the next attempt: generate for the first, a loop for the correction of one with an error
    ghost predicate Askable(trial: Trial, asker: Asker)
    {
      && (trial.attempts != [] ==> HasError(Last(trial).diagnostics) && !AtCap(trial))
      && asker == if trial.attempts == [] then ByGenerate
         else if Last(trial).stage == S4 then ByRunLoop else ByCompileLoop
    }

    /** From attempt n on, each is the reading of its own reply, one reply an attempt; stages only add diagnostics. */
    ghost predicate Answers(n: nat, attempts: seq<Attempt>, replies: seq<Reply>, left: seq<Reply>) {
      && n <= |attempts| <= n + |replies| && left == replies[|attempts| - n..]
      && forall k | n <= k < |attempts| :: Answered(attempts[k], k, replies[k - n])
    }

    ghost predicate Answered(a: Attempt, index: nat, reply: Reply) {
      && ReplyAttempt(index, reply).Ok?
      && a.files == ReplyAttempt(index, reply).value.files
      && ReplyAttempt(index, reply).value.diagnostics <= a.diagnostics
    }

    lemma AnswersNone(attempts: seq<Attempt>, replies: seq<Reply>)
      ensures Answers(|attempts|, attempts, replies, replies)
    {
    }

    lemma AnswersThen(n: nat, b: Trial, c: Trial, first: seq<Reply>, second: seq<Reply>, third: seq<Reply>)
      requires Answers(n, b.attempts, first, second) && Extends(b, c)
      requires Answers(|b.attempts|, c.attempts, second, third)
      ensures Answers(n, c.attempts, first, third)
    {
      hide ReplyAttempt, Answered, Extends;
      var m := |b.attempts|;
      forall k | n <= k < |c.attempts|
        ensures Answered(c.attempts[k], k, first[k - n])
      {
        if k < m {
          AnsweredStays(b, c, k, first[k - n]);
        } else {
          assert Answered(c.attempts[k], k, second[k - m]);
        }
      }
    }

    lemma AnsweredStays(b: Trial, c: Trial, k: nat, reply: Reply)
      requires Extends(b, c) && k < |b.attempts| && Answered(b.attempts[k], k, reply)
      ensures Answered(c.attempts[k], k, reply)
    {
      hide ReplyAttempt;
    }

    // the same attempts, the last one with more diagnostics
    lemma AnswersStill(n: nat, b: Trial, c: Trial, first: seq<Reply>, second: seq<Reply>)
      requires Answers(n, b.attempts, first, second) && Extends(b, c) && |c.attempts| == |b.attempts|
      ensures Answers(n, c.attempts, first, second)
    {
      AnswersNone(c.attempts, second);
      AnswersThen(n, b, c, first, second, second);
    }

    lemma AnswersCount(n: nat, attempts: seq<Attempt>, replies: seq<Reply>, left: seq<Reply>)
      requires Answers(n, attempts, replies, left)
      ensures |replies| - |left| == |attempts| - n >= 0
    {
    }

    // a further step of a stage that began at `start`
    lemma Onward(start: Trial, b: Trial, c: Trial, first: seq<Reply>, second: seq<Reply>, third: seq<Reply>)
      requires Extends(start, b) && Extends(b, c)
      requires Answers(|start.attempts|, b.attempts, first, second)
      requires Answers(|b.attempts|, c.attempts, second, third)
      ensures Extends(start, c) && Answers(|start.attempts|, c.attempts, first, third)
      ensures |second| - |third| == |c.attempts| - |b.attempts| >= 0
    {
      hide Answers, Extends;
      ExtendsTransitive(start, b, c);
      AnswersThen(|start.attempts|, b, c, first, second, third);
      AnswersCount(|b.attempts|, c.attempts, second, third);
    }

    predicate Buildable(a: Attempt) {
      !HasError(a.diagnostics) && (a.stage == S1 || (a.stage == S0 && !fenceTag))
    }

    lemma WithinCap(trial: Trial)
      requires Sound(trial)
      ensures cap.Some? ==> |trial.attempts| <= cap.value + 1
    {
    }

    /** Asks the backend; None stands for its error, which stops the run. */
    method Complete() returns (reply: Option<Reply>)
      modifies this`replies
      ensures reply.None? ==> old(replies) == [] && replies == []
      ensures reply.Some? ==> old(replies) != [] && reply.value == old(replies)[0] && replies == old(replies)[1..]
    {
      if replies == [] {
        return None;
      }
      reply := Some(replies[0]);
      replies := replies[1..];
    }

    function ReplyAttempt(index: nat, reply: Reply): Result<Attempt, Failure> {
      if fenceTag then Ok(ParsedAttempt(index, reply, expected))
      else if |expected| != 1 then Err(NotOneTarget)
      else Ok(FencedAttempt(index, reply, expected[0]))
    }

    /** Only a first-fence recipe whose target is not one file refuses a reply. */
    lemma ReplyRefused(index: nat, reply: Reply)
      ensures ReplyAttempt(index, reply).Err? <==> !fenceTag && |expected| != 1
      ensures ReplyAttempt(index, reply).Err? ==> ReplyAttempt(index, reply).error == NotOneTarget
    {
    }

    lemma ReplyAttemptSound(index: nat, reply: Reply)
      requires ValidTargets(expected) && ReplyAttempt(index, reply).Ok?
      ensures var a := ReplyAttempt(index, reply).value;
        && a.index == index && a.stage in {S0, S1} && a.run.None?
        && (a.stage == S0 && !HasError(a.diagnostics) ==> !fenceTag)
    {
      hide Files.Parse, HasError, Files.ValidPath;
      if fenceTag {
        S0HasError(index, reply, expected);
      }
    }

    // the last attempt is exactly the reading of the first reply, and the last request is the one for it
    ghost predicate Newest(t: Trial, index: nat, asker: Asker, requests: seq<Request>, replies: seq<Reply>) {
      && t.attempts != [] && replies != [] && ReplyAttempt(index, replies[0]) == Ok(Last(t))
      && t.requests == requests + [Request(asker, Some(index))]
    }

    /** Asks for attempt `index`, generate's first or a correction of the last, and records the request. */
    method Ask(trial: Trial, index: nat, asker: Asker) returns (result: Result<Trial, Failure>)
      requires Sound(trial)
      requires index == |trial.attempts| ==> Askable(trial, asker)
      modifies this`replies
      ensures index != |trial.attempts| ==> result.Err?
      ensures index == |trial.attempts| && result.Err? ==>
        Stopped(result.error) && (result.error == BackendStopped ==> old(replies) == [])
      ensures result.Ok? ==>
        && var t := result.value;
        && Sound(t) && Answerable(t) && Extends(trial, t) && t.end == trial.end
        && |t.attempts| == |trial.attempts| + 1 && Answers(|trial.attempts|, t.attempts, old(replies), replies)
        && Last(t).stage in {S0, S1} && Last(t).run.None? && t.attempts[..|trial.attempts|] == trial.attempts
        && Newest(t, index, asker, trial.requests, old(replies))
    {
      hide HasError, WellFormed, Files.Parse, ParsedAttempt, ValidTargets, Extends, ReplyAttempt;
      var reply := Complete();
      if reply.None? {
        return Err(BackendStopped);
      }
      var attempt := ReplyAttempt(index, reply.value);
      if attempt.Err? {
        ReplyRefused(index, reply.value);
        return Err(attempt.error);
      }
      ReplyAttemptSound(index, reply.value);
      var appended := WithAttempt(trial, attempt.value);
      if appended.Err? {
        return Err(BadRecord);
      }
      AttemptAppended(trial, Past(), attempt.value, asker);
      return Ok(WithRequest(appended.value, Request(asker, Some(attempt.value.index))));
    }

    /** Asks for the model's first translation. */
    method Generate(trial: Trial) returns (result: Result<Trial, Failure>)
      requires Sound(trial)
      modifies this`replies
      ensures trial.attempts != [] ==> result.Err?
      ensures trial.attempts == [] && result.Err? ==>
        Stopped(result.error) && (result.error == BackendStopped ==> old(replies) == [])
      ensures result.Ok? ==>
        && var t := result.value;
        && Sound(t) && Answerable(t) && Pending(t) && Extends(trial, t) && t.end == trial.end
        && |t.attempts| == 1 && Answers(|trial.attempts|, t.attempts, old(replies), replies)
        && Last(t).stage in {S0, S1} && Last(t).run.None?
        && Newest(t, 0, ByGenerate, trial.requests, old(replies))
    {
      hide HasError, WellFormed, ValidTargets, Extends, Answers;
      result := Ask(trial, 0, ByGenerate);
    }

    /** Asks for a summary or a description, which is recorded and becomes no attempt. */
    method AskContext(trial: Trial, asker: Asker) returns (result: Result<Trial, Failure>)
      requires Sound(trial)
      modifies this`replies
      ensures result.Err? ==> result.error == BackendStopped && old(replies) == []
      ensures result.Ok? ==>
        && var t := result.value;
        && Sound(t) && Extends(trial, t) && t == WithRequest(trial, Request(asker, None))
        && |replies| + 1 == |old(replies)|
    {
      hide HasError, WellFormed, ValidTargets, Extends, Answers;
      var reply := Complete();
      if reply.None? {
        return Err(BackendStopped);
      }
      RequestAdded(trial, Past(), asker);
      return Ok(WithRequest(trial, Request(asker, None)));
    }

    /** Builds the last attempt when it can be built; afterwards it has compiled or carries an error. */
    method BuildLast(trial: Trial)
      returns (result: Result<Trial, Failure>, ghost build: BuildResult, ghost guard: seq<Diagnostic>)
      requires Sound(trial) && Answerable(trial)
      modifies this`artifacts, this`built
      ensures result.Err? <==> Buildable(Last(trial)) && |trial.attempts| - 1 in buildRaises
      ensures result.Err? ==> result.error == ToolRaised
      ensures result.Ok? ==>
        && var t := result.value;
        && Sound(t) && Answerable(t) && Extends(trial, t) && |t.attempts| == |trial.attempts| && t.end == trial.end
        && t.attempts[..|trial.attempts| - 1] == trial.attempts[..|trial.attempts| - 1]
        && (Last(t).stage in {S4, S5} || HasError(Last(t).diagnostics))
        && Last(t).run == Last(trial).run && (Last(t).stage == S5 <==> Last(trial).stage == S5)
      ensures !Buildable(Last(trial)) ==> result == Ok(trial) && artifacts == old(artifacts) && built == old(built)
      ensures Buildable(Last(trial)) && result.Ok? ==>
        && var t := result.value;
        && t == WithLast(trial, BuiltAttempt(Last(trial), build, guard))
        && artifacts == (if build.artifact.Some? then old(artifacts)[|trial.attempts| - 1 := build.artifact.value]
                         else old(artifacts))
        && built == old(built) + [|trial.attempts| - 1] && Last(t).run.None? && Last(t).stage in {S0, S1, S4}
    {
      hide HasError, WellFormed, ValidTargets, Extends, Answers;
      var attempt := Last(trial);
      LastIndex(trial, Past());
      var made: BuildResult := *;
      var reading: seq<Diagnostic> := [];
      if * {
        reading :| forall d | d in reading :: d.severity != Error;
      }
      build, guard := made, reading;
      if !Buildable(attempt) {
        ExtendsSelf(trial);
        return Ok(trial), build, guard;
      }
      if attempt.index in buildRaises {
        return Err(ToolRaised), build, guard;
      }
      if made.artifact.Some? {
        artifacts := artifacts[attempt.index := made.artifact.value];
      }
      built := built + [attempt.index];
      result := Ok(WithLast(trial, BuiltAttempt(attempt, made, reading)));
      BuildKeeps(trial, old(Past()), made, reading);
      assert Past().programs == old(Past()).programs + (if made.artifact.Some? then {attempt.index} else {});
    }

    /** Asks for the correction of the last attempt and builds it. */
    method Correct(trial: Trial, asker: Asker) returns (result: Result<Trial, Failure>)
      requires Sound(trial) && trial.attempts != [] && HasError(Last(trial).diagnostics) && !AtCap(trial)
      requires asker == if Last(trial).stage == S4 then ByRunLoop else ByCompileLoop
      modifies this`artifacts, this`built, this`replies
      ensures result.Err? ==> Stopped(result.error) && (result.error == BackendStopped ==> old(replies) == [])
      ensures result.Ok? ==>
        && var t := result.value;
        && Sound(t) && Answerable(t) && Extends(trial, t) && t.end == trial.end
        && |t.attempts| == |trial.attempts| + 1 && Answers(|trial.attempts|, t.attempts, old(replies), replies)
        && Last(t).run.None? && (Last(t).stage == S4 || (Last(t).stage in {S0, S1} && HasError(Last(t).diagnostics)))
        && t.attempts[..|trial.attempts|] == trial.attempts
        && (CleanOnlyLast(t) <==> CleanOnlyLast(trial) && Last(trial).stage != S5)
    {
      hide HasError, WellFormed, ValidTargets, Extends, Answers, ReplyAttempt;
      LastIndex(trial, Past());
      result := Ask(trial, Last(trial).index + 1, asker);
      if result.Ok? {
        var asked := result.value;
        var built, _, _ := BuildLast(asked);
        if built.Ok? {
          ExtendsTransitive(trial, asked, built.value);
          AnswersStill(|trial.attempts|, asked, built.value, old(replies), replies);
        }
        result := built;
      }
    }

    // the loop stopped at the cap, with an error remaining
    ghost predicate Capped(trial: Trial)
    {
      trial.end == Some(CorrectionCap) && AtCap(trial) && HasError(Last(trial).diagnostics)
    }

    /**
     * One turn of compile_loop for an attempt to correct: at the cap the trial ends, else the correction is asked for
     * and built. `more` tells the loop to look at the trial again.
     */
    method CompileTurn(trial: Trial) returns (result: Result<Trial, Failure>, more: bool)
      requires Sound(trial) && Answerable(trial) && NeedsCorrection(Last(trial))
      modifies this`artifacts, this`built, this`replies
      ensures more <==> !AtCap(trial)
      ensures !more ==>
        && result == Ok(trial.(end := Some(CorrectionCap))) && Sound(result.value) && Extends(trial, result.value)
        && Capped(result.value) && artifacts == old(artifacts) && built == old(built) && replies == old(replies)
      ensures result.Err? ==> Stopped(result.error) && (result.error == BackendStopped ==> old(replies) == [])
      ensures result.Ok? && more ==>
        && var t := result.value;
        && Sound(t) && Answerable(t) && Extends(trial, t) && t.end == trial.end
        && Answers(|trial.attempts|, t.attempts, old(replies), replies) && Corrections(trial.attempts, t.attempts)
        && |t.attempts| == |trial.attempts| + 1
        && (Last(t).stage == S4 || HasError(Last(t).diagnostics))
    {
      hide HasError, WellFormed, ValidTargets, Extends, Answers, Corrections, ReplyAttempt;
      if cap.Some? && |trial.attempts| - 1 >= cap.value {
        EndChanged(trial, Past(), CorrectionCap);
        ExtendsSelf(trial);
        EndExtends(trial, trial, CorrectionCap);
        return Ok(trial.(end := Some(CorrectionCap))), false;
      }
      more := true;
      result := Correct(trial, ByCompileLoop);
      if result.Ok? {
        CorrectionsOne(trial, result.value);
      }
    }

    /**
     * Builds the last attempt and asks for corrections while an error remains, up to the cap. It returns at an S4
     * attempt, at the cap, or with nothing done at an S5 attempt that has no error.
     */
    method CompileLoop(trial: Trial) returns (result: Result<Trial, Failure>)
      requires trial.attempts != [] ==> Sound(trial) && Answerable(trial)
      modifies this`artifacts, this`built, this`replies
      ensures trial.attempts == [] ==> result == Err(NoAttempt)
      ensures result.Err? && trial.attempts != [] ==>
        && Stopped(result.error)
        && (result.error == BackendStopped && cap.Some? ==> |trial.attempts| + |old(replies)| <= cap.value)
      ensures result.Ok? ==>
        && var t := result.value;
        && Sound(t) && Answerable(t) && Extends(trial, t)
        && Answers(|trial.attempts|, t.attempts, old(replies), replies)
        && (t.end == trial.end || Capped(t))
        && (t.end != trial.end || Last(t).stage == S4 || (t == trial && Last(t).stage == S5) || Capped(t))
        && (Pending(trial) ==> Pending(t))
      ensures Finished(trial) ==>
        && result == Ok(if NeedsCorrection(Last(trial)) then trial.(end := Some(CorrectionCap)) else trial)
        && artifacts == old(artifacts) && built == old(built) && replies == old(replies)
      ensures trial.attempts != [] && Last(trial).stage != S5 && result.Ok? ==> Last(result.value).stage != S5
      ensures trial.attempts != [] && NeedsCorrection(Last(trial)) && result.Ok? && !Capped(result.value) ==>
        |replies| < |old(replies)|
      ensures result.Ok? ==>
        (CleanOnlyLast(result.value) <==> CleanOnlyLast(trial) && (!CleanWithError(trial) || AtCap(trial)))
      decreases |replies|
    {
      hide HasError, WellFormed, ValidTargets, Extends, Answers, Corrections, CleanOnlyLast, ReplyAttempt,
        BuiltAttempt, WithLast, Sound, Compiling, CleanWithError, Pending, Buildable;
      if trial.attempts == [] {
        return Err(NoAttempt);
      }
      var build, _, _ := BuildLast(trial);
      if build.Err? {
        FinishedUnbuilt(trial);
        return build;
      }
      var t := build.value;
      CompilingStart(trial, t);
      AnswersNone(t.attempts, replies);
      while NeedsCorrection(Last(t))
        invariant Sound(t) && Answerable(t) && Extends(trial, t) && Compiling(trial, t)
        invariant Answers(|trial.attempts|, t.attempts, old(replies), replies)
        invariant |t.attempts| == |trial.attempts| && !Buildable(Last(trial)) ==>
          t == trial && artifacts == old(artifacts) && built == old(built) && replies == old(replies)
        decreases |replies|
      {
        ghost var left := replies;
        AnswersCount(|trial.attempts|, t.attempts, old(replies), left);
        WithinCap(t);
        FinishedStays(trial, t);
        var turn, more := CompileTurn(t);
        if turn.Err? {
          return turn;
        }
        if !more {
          EndExtends(trial, t, CorrectionCap);
          CompilingEnds(trial, t, turn.value);
          return turn;
        }
        Onward(trial, t, turn.value, old(replies), left, replies);
        CompilingThen(trial, t, turn.value);
        t := turn.value;
      }
      AnswersCount(|trial.attempts|, t.attempts, old(replies), replies);
      WithinCap(t);
      FinishedStays(trial, t);
      CompilingEnds(trial, t, t);
      return Ok(t);
    }

    // a trial compile_loop has reached from its start: built, then corrected
    ghost predicate Compiling(start: Trial, t: Trial) {
      && Corrections(start.attempts, t.attempts) && t.end == start.end
      && (Last(t).stage in {S4, S5} || HasError(Last(t).diagnostics))
      && (|t.attempts| == |start.attempts| ==> t == start || Buildable(Last(start)))
      && (|t.attempts| > |start.attempts| ==>
        !Finished(start) && (Last(start).stage == S5 ==> CleanWithError(start)))
      && (Pending(start) ==> Pending(t))
    }

    lemma CompilingStart(start: Trial, t: Trial)
      requires start.attempts != [] && |t.attempts| == |start.attempts| && t.end == start.end
      requires t.attempts[..|start.attempts| - 1] == start.attempts[..|start.attempts| - 1]
      requires Last(t).run == Last(start).run && (Last(t).stage == S5 <==> Last(start).stage == S5)
      requires Last(t).stage in {S4, S5} || HasError(Last(t).diagnostics)
      requires !Buildable(Last(start)) ==> t == start
      requires Buildable(Last(start)) ==> Last(t).run.None?
      ensures Compiling(start, t)
    {
      hide HasError;
      CorrectionsNone(start.attempts, t.attempts);
    }

    lemma FinishedUnbuilt(trial: Trial)
      ensures Finished(trial) ==> !Buildable(Last(trial))
    {
      hide HasError;
    }

    lemma FinishedStays(start: Trial, t: Trial)
      requires Compiling(start, t)
      ensures Finished(start) ==> |t.attempts| == |start.attempts| && !Buildable(Last(start))
    {
      hide HasError;
    }

    lemma CompilingThen(start: Trial, t: Trial, next: Trial)
      requires Compiling(start, t) && NeedsCorrection(Last(t)) && !AtCap(t)
      requires cap.Some? ==> |t.attempts| <= cap.value + 1
      requires Corrections(t.attempts, next.attempts) && next.end == t.end && |next.attempts| == |t.attempts| + 1
      requires Last(next).stage == S4 || HasError(Last(next).diagnostics)
      ensures |start.attempts| < |next.attempts| && Compiling(start, next)
    {
      hide HasError, Corrections;
      CorrectionsMean(start, t);
      CorrectionsMean(t, next);
      CorrectionsThen(start.attempts, t.attempts, next.attempts);
    }

    /** How compile_loop ends: at an attempt that needs no correction, or at the cap. */
    lemma CompilingEnds(start: Trial, t: Trial, end: Trial)
      requires Compiling(start, t)
      requires cap.Some? ==> |t.attempts| <= cap.value + 1
      requires end == if NeedsCorrection(Last(t)) then t.(end := Some(CorrectionCap)) else t
      requires NeedsCorrection(Last(t)) ==> AtCap(t)
      ensures |start.attempts| > 0 && end.attempts != []
      ensures end.end == start.end || Capped(end)
      ensures end.end != start.end || Last(end).stage == S4 || (end == start && Last(end).stage == S5) || Capped(end)
      ensures Pending(start) ==> Pending(end)
      ensures Last(start).stage != S5 ==> Last(end).stage != S5
      ensures NeedsCorrection(Last(start)) && !Capped(end) ==> |t.attempts| > |start.attempts|
      ensures CleanOnlyLast(end) <==> CleanOnlyLast(start) && (!CleanWithError(start) || AtCap(start))
    {
      hide HasError, Corrections, CleanOnlyLast;
      CorrectionsMean(start, end);
    }

    /** Runs the last attempt's program and records the run. */
    method RunLast(trial: Trial) returns (result: Result<Trial, Failure>, run: RunResult)
      requires Sound(trial) && trial.attempts != [] && Last(trial).stage == S4 && Last(trial).run.None?
      requires !executionGate ==> |trial.attempts| - 1 <= EXECUTION_GATE
      modifies this`ran, this`results
      ensures result == Err(ToolRaised) <==> |trial.attempts| - 1 in runRaises
      ensures result.Err? ==> result.error == ToolRaised
      ensures result.Ok? ==>
        && var t := result.value;
        && Sound(t) && Extends(trial, t) && Answerable(t) && |t.attempts| == |trial.attempts| && t.end == trial.end
        && t.attempts[..|trial.attempts| - 1] == trial.attempts[..|trial.attempts| - 1]
        && t == WithLast(trial, RanAttempt(Last(trial), run)) && Last(t).stage in {S1, S4, S5} && Last(t).run.Some?
        && (Last(t).stage == S1 || (Last(t).stage == S4 && run.gap.None?) ==> HasError(Last(t).diagnostics))
        && Last(t).run == Some(InfoOf(run)) && Last(t).stage == RunStage(run)
        && ran == old(ran) + [|trial.attempts| - 1] && results == old(results) + [run]
    {
      hide HasError, WellFormed, ValidTargets, Extends, Answers, ReplyAttempt;
      run := *;
      RunKeeps(trial, Past(), run);
      var attempt := Last(trial);
      if attempt.index !in artifacts {
        return Err(NoProgram), run;
      }
      if attempt.index in runRaises {
        return Err(ToolRaised), run;
      }
      ran, results := ran + [attempt.index], results + [run];
      return Ok(WithLast(trial, RanAttempt(attempt, run))), run;
    }

    /** Asks for the correction of the last attempt's failed run, then builds and corrects it as compile_loop does. */
    method CorrectRun(trial: Trial) returns (result: Result<Trial, Failure>)
      requires Sound(trial) && trial.attempts != [] && HasError(Last(trial).diagnostics) && !AtCap(trial)
      requires Last(trial).stage == S4 && trial.end.None?
      modifies this`artifacts, this`built, this`replies
      ensures result.Err? ==>
        && Stopped(result.error)
        && (result.error == BackendStopped && cap.Some? ==> |trial.attempts| + |old(replies)| <= cap.value)
      ensures result.Ok? ==>
        && var t := result.value;
        && Sound(t) && Answerable(t) && Pending(t) && Extends(trial, t)
        && Answers(|trial.attempts|, t.attempts, old(replies), replies) && |t.attempts| > |trial.attempts|
        && ((t.end.None? && Last(t).stage == S4) || Capped(t))
        && (CleanOnlyLast(t) <==> CleanOnlyLast(trial))
    {
      hide HasError, WellFormed, ValidTargets, Extends, Answers, ReplyAttempt;
      LastIndex(trial, Past());
      result := Ask(trial, Last(trial).index + 1, ByRunLoop);
      if result.Ok? {
        var asked := result.value;
        ghost var left := replies;
        AnswersCount(|trial.attempts|, asked.attempts, old(replies), left);
        result := CompileLoop(asked);
        if result.Ok? {
          Onward(trial, asked, result.value, old(replies), left, replies);
        }
      }
    }

    /** How run_loop leaves a trial whose executor runs programs. */
    ghost predicate RunClean(t: Trial)
      requires t.attempts != []
    {
      t.end.None? && Last(t).stage == S5
    }

    ghost predicate AtGap(t: Trial)
      requires t.attempts != []
      reads this`ran, this`results
    {
      && t.end == Some(SimGap) && Last(t).stage == S4 && Last(t).run.Some?
      && ran != [] && ran[|ran| - 1] == |t.attempts| - 1 && results != [] && results[|results| - 1].gap.Some?
    }

    ghost predicate GatedOut(t: Trial)
      requires t.attempts != []
    {
      !executionGate && Last(t).stage == S4 && Last(t).run.None? && Last(t).index > EXECUTION_GATE
    }

    ghost predicate Crashed(t: Trial)
      requires t.attempts != []
    {
      t.end == Some(UpstreamCrash) && GatedOut(t) && NoneRan(t)
    }

    ghost predicate Stale(t: Trial)
      requires t.attempts != []
    {
      && t.end.None? && GatedOut(t)
      && EarlierRan(t)
      && Diagnostic(AtRun, Warning, StaleOutput) in Last(t).diagnostics
    }

    ghost predicate RunsDone(t: Trial)
      reads this`ran, this`results
    {
      t.attempts != [] && (RunClean(t) || Capped(t) || AtGap(t) || Crashed(t) || Stale(t))
    }

    /**
     * One turn of run_loop: past the gate it ends unexecuted; else the attempt runs, and a failed run is corrected
     * while the cap allows. `more` tells the loop to look at the trial again.
     */
    method RunTurn(trial: Trial) returns (result: Result<Trial, Failure>, more: bool)
      requires Sound(trial) && Answerable(trial) && trial.end.None?
      requires Last(trial).stage == S4 && Last(trial).run.None? && RunsAnswered(trial)
      modifies this`artifacts, this`built, this`replies, this`ran, this`results
      ensures result.Err? ==>
        && Stopped(result.error)
        && (result.error == BackendStopped && cap.Some? ==> |trial.attempts| + |old(replies)| <= cap.value)
      ensures result.Ok? ==>
        && var t := result.value;
        && Sound(t) && Answerable(t) && Pending(t) && Extends(trial, t)
        && Answers(|trial.attempts|, t.attempts, old(replies), replies)
        && (CleanOnlyLast(t) <==> CleanOnlyLast(trial))
        && (!more ==> RunsDone(t)) && RunsAnswered(t)
        && (more ==> Capped(t) || (t.end.None? && Last(t).stage == S4 && |replies| < |old(replies)|))
    {
      hide HasError, WellFormed, ValidTargets, Extends, PastGate, RunStage, NoneRan, EarlierRan, Answers, ReplyAttempt,
        CleanOnlyLast, RanAttempt, WithLast, RunAnswered, AllAnswered;
      more := false;
      var index := Last(trial).index;
      LastIndex(trial, Past());
      if !executionGate && index > EXECUTION_GATE {
        PastGateKeeps(trial, Past());
        RunsStay(trial, PastGate(trial), ran, results);
        AnswersNone(PastGate(trial).attempts, replies);
        CleanStays(trial, PastGate(trial));
        return Ok(PastGate(trial)), false;
      }
      var ranTrial, run := RunLast(trial);
      if ranTrial.Err? {
        return ranTrial, false;
      }
      var t := ranTrial.value;
      LastIndex(t, Past());
      AnswersNone(t.attempts, replies);
      CleanStays(trial, t);
      if Last(t).stage == S5 {
        RunEnds(t, t, run);
        RunFollowed(trial, t, old(ran), old(results), run);
        return Ok(t), false;
      }
      if Last(t).stage == S4 && run.gap.Some? {
        EndChanged(t, Past(), SimGap);
        EndExtends(trial, t, SimGap);
        CleanStays(t, t.(end := Some(SimGap)));
        RunEnds(t, t.(end := Some(SimGap)), run);
        RunFollowed(trial, t.(end := Some(SimGap)), old(ran), old(results), run);
        return Ok(t.(end := Some(SimGap))), false;
      }
      if Last(t).stage == S4 && cap.Some? && index >= cap.value {
        EndChanged(t, Past(), CorrectionCap);
        EndExtends(trial, t, CorrectionCap);
        CleanStays(t, t.(end := Some(CorrectionCap)));
        RunEnds(t, t.(end := Some(CorrectionCap)), run);
        RunFollowed(trial, t.(end := Some(CorrectionCap)), old(ran), old(results), run);
        return Ok(t.(end := Some(CorrectionCap))), false;
      }
      if Last(t).stage == S1 {
        result := CompileLoop(t);
        if result.Ok? {
          RunEnds(t, t, run);
          AnsweredStaysOne(t, result.value, |trial.attempts| - 1, run);
        }
      } else {
        result := CorrectRun(t);
        if result.Ok? {
          CorrectionAsked(t, result.value, run, Past());
        }
      }
      more := true;
      if result.Ok? {
        AnswersCount(|t.attempts|, result.value.attempts, old(replies), replies);
        ExtendsTransitive(trial, t, result.value);
        RunFollowed(trial, result.value, old(ran), old(results), run);
      }
    }

    /**
     * Runs each compiling attempt and asks for a correction while its run fails, sharing compile_loop's count and
     * cap. With an executor that runs programs the trial ends in one of five ways.
     */
    method RunLoop(trial: Trial) returns (result: Result<Trial, Failure>)
      requires trial.attempts != [] ==>
        Sound(trial) && Answerable(trial) && Pending(trial) && trial.end.None? && RunsAnswered(trial)
      modifies this`artifacts, this`built, this`replies, this`ran, this`results
      ensures trial.attempts == [] ==> result == Err(NoAttempt)
      ensures result.Err? && trial.attempts != [] ==>
        && (Stopped(result.error) || (result.error == NotSandboxed && runsCode && !sandboxed))
        && (result.error == BackendStopped && cap.Some? ==> |trial.attempts| + |old(replies)| <= cap.value)
      ensures result.Ok? ==>
        && var t := result.value;
        && Sound(t) && Answerable(t) && Pending(t) && Extends(trial, t)
        && Answers(|trial.attempts|, t.attempts, old(replies), replies)
        && (runsCode ==> RunsDone(t)) && RunsAnswered(t)
        && (!runsCode ==> ran == old(ran) && (Capped(t) || (t.end.None? && Last(t).stage in {S4, S5})))
      ensures result.Ok? ==>
        (CleanOnlyLast(result.value) <==> CleanOnlyLast(trial) && (!CleanWithError(trial) || AtCap(trial)))
    {
      hide HasError, WellFormed, ValidTargets, Extends, AtGap, Crashed, Stale, CleanWithError, CleanOnlyLast, Answers,
        ReplyAttempt;
      result := CompileLoop(trial);
      if result.Ok? {
        RunsStay(trial, result.value, ran, results);
      }
      if result.Err? || !runsCode {
        return;
      }
      if !sandboxed {
        return Err(NotSandboxed);
      }
      var t := result.value;
      while t.end.None? && Last(t).stage == S4
        invariant RunsAnswered(t)
        invariant Sound(t) && Answerable(t) && Pending(t) && Extends(trial, t)
        invariant Answers(|trial.attempts|, t.attempts, old(replies), replies)
        invariant Capped(t) || (t.end.None? && Last(t).stage in {S4, S5})
        invariant CleanOnlyLast(t) <==> CleanOnlyLast(trial) && (!CleanWithError(trial) || AtCap(trial))
        decreases |replies|, if t.end.None? then 1 else 0
      {
        ghost var left := replies;
        AnswersCount(|trial.attempts|, t.attempts, old(replies), left);
        var turn, more := RunTurn(t);
        if turn.Err? {
          return turn;
        }
        Onward(trial, t, turn.value, old(replies), left, replies);
        t := turn.value;
        if !more {
          break;
        }
      }
      return Ok(t);
    }

    // a trial compile_loop has nothing to do for: compiled, or with an error and no correction left
    ghost predicate Finished(trial: Trial)
    {
      trial.attempts != []
      && (Last(trial).stage == S4 || (AtCap(trial) && HasError(Last(trial).diagnostics)))
    }
  }

  ghost predicate NoneRan(trial: Trial) {
    forall a | a in trial.attempts :: a.run.None?
  }

  ghost predicate EarlierRan(trial: Trial) {
    trial.attempts != [] && exists a | a in trial.attempts[..|trial.attempts| - 1] :: a.run.Some?
  }

  // no attempt before the last ran clean
  ghost predicate CleanOnlyLast(trial: Trial) {
    forall i | 0 <= i < |trial.attempts| - 1 :: trial.attempts[i].stage != S5
  }

  lemma CleanStays(before: Trial, after: Trial)
    requires before.attempts != [] && |after.attempts| == |before.attempts|
    requires after.attempts[..|before.attempts| - 1] == before.attempts[..|before.attempts| - 1]
    ensures CleanOnlyLast(after) <==> CleanOnlyLast(before)
  {
    forall i | 0 <= i < |before.attempts| - 1
      ensures after.attempts[i] == before.attempts[i]
    {
      assert after.attempts[..|before.attempts| - 1][i] == before.attempts[..|before.attempts| - 1][i];
    }
  }

  /**
   * The end trial of compile_loop: the start's attempts, the last one perhaps built, and corrections of it, none of
   * which has run.
   */
  ghost predicate Corrections(start: seq<Attempt>, attempts: seq<Attempt>) {
    var n := |start|;
    && 0 < n <= |attempts| && attempts[..n - 1] == start[..n - 1]
    && (attempts[n - 1].stage == S5 <==> start[n - 1].stage == S5) && attempts[n - 1].run == start[n - 1].run
    && forall k | n <= k < |attempts| :: attempts[k].stage != S5 && attempts[k].run.None?
  }

  lemma CorrectionsNone(start: seq<Attempt>, built: seq<Attempt>)
    requires start != [] && |built| == |start| && built[..|start| - 1] == start[..|start| - 1]
    requires var a, b := start[|start| - 1], built[|start| - 1];
      (b.stage == S5 <==> a.stage == S5) && b.run == a.run
    ensures Corrections(start, built)
  {
  }

  lemma CorrectionsOne(start: Trial, t: Trial)
    requires start.attempts != [] && |t.attempts| == |start.attempts| + 1
    requires t.attempts[..|start.attempts|] == start.attempts && Last(t).stage != S5 && Last(t).run.None?
    ensures Corrections(start.attempts, t.attempts)
  {
    var n := |start.attempts|;
    assert t.attempts[..n - 1] == t.attempts[..n][..n - 1] && t.attempts[n - 1] == t.attempts[..n][n - 1];
  }

  lemma CorrectionsThen(start: seq<Attempt>, middle: seq<Attempt>, end: seq<Attempt>)
    requires Corrections(start, middle) && Corrections(middle, end)
    ensures Corrections(start, end)
  {
    var n, m := |start|, |middle|;
    assert forall k | 0 <= k < m - 1 :: end[k] == end[..m - 1][k] == middle[..m - 1][k] == middle[k];
    assert end[..n - 1] == middle[..n - 1];
  }

  /** Which clean attempts compile_loop supersedes: the last of its start, when it appends any correction. */
  lemma CorrectionsMean(start: Trial, t: Trial)
    requires Corrections(start.attempts, t.attempts)
    ensures |t.attempts| >= |start.attempts| > 0
    ensures |t.attempts| > |start.attempts| ==> Last(t).stage != S5 && Last(t).run.None?
    ensures |t.attempts| == |start.attempts| ==> (Last(t).stage == S5 <==> Last(start).stage == S5)
    ensures CleanOnlyLast(t)
       <==> CleanOnlyLast(start) && (|t.attempts| == |start.attempts| || Last(start).stage != S5)
  {
    var n := |start.attempts|;
    assert forall k | 0 <= k < n - 1 ::
      t.attempts[k] == t.attempts[..n - 1][k] == start.attempts[..n - 1][k] == start.attempts[k];
  }

  // a clean attempt that still carries an error, as one its build or its executor reported
  ghost predicate CleanWithError(trial: Trial) {
    trial.attempts != [] && Last(trial).stage == S5 && HasError(Last(trial).diagnostics)
  }

  lemma BuildKeeps(trial: Trial, history: History, result: BuildResult, guard: seq<Diagnostic>)
    requires WellFormed(trial, history) && trial.attempts != []
    requires !HasError(Last(trial).diagnostics) && Last(trial).stage in {S0, S1}
    requires forall d | d in guard :: d.severity != Error
    ensures var a, index := BuiltAttempt(Last(trial), result, guard), |trial.attempts| - 1;
      var programs := history.programs + (if result.artifact.Some? then {index} else {});
      && index == Last(trial).index && index !in history.built
      && WellFormed(WithLast(trial, a), History(programs, history.built + [index], history.ran))
      && Extends(trial, WithLast(trial, a))
      && a.run.None? && (a.stage == S4 <==> result.artifact.Some?) && (a.stage == S4 || HasError(a.diagnostics))
  {
    var index := |trial.attempts| - 1;
    var a := BuiltAttempt(Last(trial), result, guard);
    var programs := history.programs + (if result.artifact.Some? then {index} else {});
    assert AttemptFits(trial.attempts, index, history);
    BuildDiagnosed(Last(trial), result, guard);
    hide HasError, Extends, WellFormed;
    assert NoRepeats(history.built + [index]) by { NoRepeatsOf(trial, history); }
    LastReplaced(trial, history, a, History(programs, history.built + [index], history.ran));
  }

  lemma RequestAdded(trial: Trial, history: History, asker: Asker)
    requires WellFormed(trial, history)
    ensures WellFormed(WithRequest(trial, Request(asker, None)), history)
    ensures Extends(trial, WithRequest(trial, Request(asker, None)))
  {
    hide HasError, AttemptRequests;
    AttemptRequestsAppend(trial.requests, Request(asker, None));
    var t := WithRequest(trial, Request(asker, None));
    forall i | 0 <= i < |t.attempts|
      ensures AttemptFits(t.attempts, i, history)
    {
      assert AttemptFits(trial.attempts, i, history);
    }
  }

  lemma EndChanged(trial: Trial, history: History, end: EndReason)
    requires WellFormed(trial, history)
    ensures WellFormed(trial.(end := Some(end)), history)
  {
    var t := trial.(end := Some(end));
    hide HasError, AttemptRequests;
    forall i | 0 <= i < |t.attempts|
      ensures AttemptFits(t.attempts, i, history)
    {
      assert AttemptFits(trial.attempts, i, history);
    }
  }

  lemma EndExtends(before: Trial, trial: Trial, end: EndReason)
    requires Extends(before, trial)
    ensures Extends(before, trial.(end := Some(end)))
  {
  }

  lemma NoRepeatsOf(trial: Trial, history: History)
    requires WellFormed(trial, history)
    ensures NoRepeats(history.built) && NoRepeats(history.ran)
  {
  }

  lemma BuildDiagnosed(a: Attempt, result: BuildResult, guard: seq<Diagnostic>)
    requires !HasError(a.diagnostics) && forall d | d in guard :: d.severity != Error
    ensures var b := BuiltAttempt(a, result, guard);
      && a.diagnostics <= b.diagnostics && (result.artifact.None? ==> HasError(b.diagnostics))
  {
    if result.artifact.None? {
      var none := [Diagnostic(AtCompile, Error, NoArtifact)];
      assert none[0] in none;
      assert HasError(none);
      hide HasError;
      if HasError(result.diagnostics) {
        ErrorsStay(a.diagnostics, result.diagnostics);
        ErrorsStay(a.diagnostics + result.diagnostics, []);
      } else {
        ErrorsStay(a.diagnostics + result.diagnostics, none);
      }
      ErrorsStay(BuiltAttempt(a, result, guard).diagnostics, []);
      assert BuiltAttempt(a, result, guard).diagnostics
          == a.diagnostics + result.diagnostics + (if HasError(result.diagnostics) then [] else none) + [];
    }
  }

  lemma LastIndex(trial: Trial, history: History)
    requires WellFormed(trial, history) && trial.attempts != []
    ensures Last(trial).index == |trial.attempts| - 1
  {
    assert AttemptFits(trial.attempts, |trial.attempts| - 1, history);
  }

  lemma RunKeeps(trial: Trial, history: History, run: RunResult)
    requires WellFormed(trial, history) && trial.attempts != []
    requires Last(trial).stage == S4 && Last(trial).run.None?
    ensures var a, index := RanAttempt(Last(trial), run), |trial.attempts| - 1;
      && index == Last(trial).index && index in history.programs && index !in history.ran
      && WellFormed(WithLast(trial, a), History(history.programs, history.built, history.ran + [index]))
      && Extends(trial, WithLast(trial, a))
      && (a.stage == S1 || (a.stage == S4 && run.gap.None?) ==> HasError(a.diagnostics))
  {
    var index := |trial.attempts| - 1;
    var a := RanAttempt(Last(trial), run);
    assert AttemptFits(trial.attempts, index, history);
    RunDiagnosed(Last(trial), run);
    hide HasError, Extends, WellFormed, RunStage;
    assert NoRepeats(history.ran + [index]) by { NoRepeatsOf(trial, history); }
    NoRepeatsOf(trial, history);
    LastReplaced(trial, history, a, History(history.programs, history.built, history.ran + [index]));
  }

  lemma RunDiagnosed(a: Attempt, run: RunResult)
    ensures var b := RanAttempt(a, run);
      && a.diagnostics <= b.diagnostics && b.stage in {S1, S4, S5}
      && (HasError(a.diagnostics) ==> HasError(b.diagnostics))
      && (b.stage == S1 || (b.stage == S4 && run.gap.None?) ==> HasError(b.diagnostics))
  {
    var failed := if RunStage(run) == S4 && run.gap.None? then [Diagnostic(AtRun, Error, RunError)] else [];
    assert failed != [] ==> failed[0] in failed && HasError(failed);
    assert JitFailed(run) ==> HasError(run.diagnostics);
    hide HasError, JitFailed, Clean;
    ErrorsStay(run.diagnostics, FlagWarnings(run));
    ErrorsStay(run.diagnostics + FlagWarnings(run), failed);
    ErrorsStay(a.diagnostics, run.diagnostics + FlagWarnings(run) + failed);
  }

  lemma PastGateKeeps(trial: Trial, history: History)
    requires WellFormed(trial, history) && trial.attempts != []
    requires Last(trial).stage == S4 && Last(trial).run.None? && trial.end.None?
    ensures var t := PastGate(trial);
      && WellFormed(t, history) && Extends(trial, t) && Last(t).stage == S4 && Last(t).run.None?
      && |t.attempts| == |trial.attempts| && Last(t).index == Last(trial).index
      && t.attempts[..|trial.attempts| - 1] == trial.attempts[..|trial.attempts| - 1]
      && (t.end == Some(UpstreamCrash) ==> NoneRan(t))
      && (t.end != Some(UpstreamCrash) ==>
        && t.end.None? && EarlierRan(t)
        && Diagnostic(AtRun, Warning, StaleOutput) in Last(t).diagnostics)
  {
    var last := Last(trial);
    StandingIsLastRun(trial.attempts);
    if Standing(trial.attempts).None? {
      EndChanged(trial, history, UpstreamCrash);
    } else {
      var stale := [Diagnostic(AtRun, Warning, StaleOutput)];
      var a := last.(diagnostics := last.diagnostics + stale);
      assert a.diagnostics[|last.diagnostics|] == stale[0];
      ErrorsStay(last.diagnostics, stale);
      assert AttemptFits(trial.attempts, |trial.attempts| - 1, history);
      NoRepeatsOf(trial, history);
      StandingEarlier(trial);
      hide HasError, Extends, WellFormed, Standing;
      LastReplaced(trial, history, a, history);
    }
  }

  lemma StandingEarlier(trial: Trial)
    requires trial.attempts != [] && Last(trial).run.None? && Standing(trial.attempts).Some?
    ensures EarlierRan(trial)
  {
    StandingIsLastRun(trial.attempts);
    var n := |trial.attempts|;
    var i :| 0 <= i < n && trial.attempts[i].run.Some?;
    assert trial.attempts[..n - 1][i] == trial.attempts[i];
  }

  /**
   * A build can leave an artifact beside an error it parsed, and a clean run then ends at S5 with that error. Such an
   * attempt is not S4, so a loop listed after run_loop asks for its correction; CompileLoop and RunLoop say when.
   */
  lemma CleanRunAfterBuildError(a: Attempt, artifact: Artifact)
    ensures var build := BuildResult(Some(artifact), [Diagnostic(AtCompile, Error, Foreign("error"))]);
      var run := RunResult(Some(0), false, None, None, false, false, false, []);
      var built := BuiltAttempt(a, build, []);
      built.stage == S4 && RanAttempt(built, run).stage == S5 && NeedsCorrection(RanAttempt(built, run))
  {
    var error := [Diagnostic(AtCompile, Error, Foreign("error"))];
    var built := BuiltAttempt(a, BuildResult(Some(artifact), error), []);
    assert error[0] in error && HasError(error);
    assert built.diagnostics == a.diagnostics + error;
    hide HasError;
    ErrorsStay(a.diagnostics, error);
    RunDiagnosed(built, RunResult(Some(0), false, None, None, false, false, false, []));
  }

  /** So can the run itself, as far as an executor's interface goes. */
  lemma CleanRunWithError(a: Attempt)
    ensures var run := RunResult(Some(0), false, None, None, false, false, false, [Diagnostic(AtRun, Error, RunError)]);
      RanAttempt(a, run).stage == S5 && NeedsCorrection(RanAttempt(a, run))
  {
    var run := RunResult(Some(0), false, None, None, false, false, false, [Diagnostic(AtRun, Error, RunError)]);
    assert run.diagnostics[0] in run.diagnostics;
    assert HasError(run.diagnostics);
    hide HasError;
    ErrorsStay(run.diagnostics, []);
    ErrorsStay(a.diagnostics, run.diagnostics + FlagWarnings(run) + []);
  }

  /** The five ways a pass can end exclude one another. */
  lemma EndsExclude(context: RunContext, t: Trial)
    requires t.attempts != []
    ensures context.RunClean(t) ==> !context.Capped(t) && !context.AtGap(t) && !context.Crashed(t) && !context.Stale(t)
    ensures context.Capped(t) ==> !context.AtGap(t) && !context.Crashed(t) && !context.Stale(t)
    ensures context.AtGap(t) ==> !context.Crashed(t) && !context.Stale(t)
    ensures context.Crashed(t) ==> !context.Stale(t)
  {
    hide HasError;
  }
}
