/** How a sandboxed run is classified, and the clock arithmetic behind it. */
module SandboxClock {
  import opened Outcomes
  import opened Powers
  import opened SandboxLines

  const KILL_AFTER: nat := 2
  const CPU_MARGIN: nat := 1
  const OUTER_MARGIN: nat := 5
  const RUNNER_MARGIN: nat := 10

  // ----- limits

  /** The whole-second wall limit: the asked limit rounded up, at least 1. */
  function WallSeconds(asked: real): (wall: nat)
    requires asked > 0.0
    ensures 1 <= wall && asked <= wall as real < asked + 1.0
  {
    Max(1, -(-asked).Floor)
  }

  function CpuCap(cpus: nat, wall: nat): nat {
    cpus * (wall + KILL_AFTER + CPU_MARGIN)
  }

  /** A process that keeps at most `cpus` CPUs busy is stopped by the wall limit's timeout, never by the CPU cap. */
  lemma BudgetBelowCap(cpus: nat, wall: nat, elapsed: real, used: real)
    requires cpus >= 1 && 0.0 <= elapsed <= (wall + KILL_AFTER) as real
    requires used <= cpus as real * elapsed
    ensures used < CpuCap(cpus, wall) as real
  {
    var limit := (wall + KILL_AFTER) as real;
    assert cpus as real * elapsed <= cpus as real * limit by { Scaled(cpus as real, elapsed, limit); }
    assert CpuCap(cpus, wall) as real == cpus as real * limit + cpus as real by {
      assert CpuCap(cpus, wall) == cpus * (wall + KILL_AFTER) + cpus;
    }
  }

  lemma Scaled(k: real, a: real, b: real)
    requires k >= 0.0 && a <= b
    ensures k * a <= k * b
  {
  }

  // ----- classification

  /** (hang, killed) for an exit status in the shell's form and the time the run took. */
  function Classify(status: int, measured: real, limit: nat): (bool, bool) {
    if status in {124, 137, 143, -1} && measured >= limit as real then (true, false)
    else if status == 137 then (false, true)
    else (false, false)
  }

  /** The runner's status in the shell's form: -1 stays for the runner's own timeout alone. */
  function ShellStatus(returncode: int, elapsed: real, timeout: real): (status: int)
    ensures status == -1 <==> returncode == -1 && elapsed >= timeout
    ensures returncode >= 0 ==> status == returncode
    ensures returncode < 0 && status != -1 ==> status == 128 - returncode > 128
  {
    if returncode == -1 && elapsed >= timeout then -1
    else if returncode < 0 then 128 - returncode
    else returncode
  }

  // ----- a run

  datatype Command = Command(returncode: int, stderr: string)

  datatype RunError = SetupFailed | CopyBackFailed

  datatype Report = Report(
    status: int, stderr: string, hang: bool, killed: bool, incomplete: bool, steps: Option<nat>)

  /** Reads a finished sandbox command: `elapsed` is its whole time, `wall` the limit the innermost timeout enforces. */
  function Run(result: Command, elapsed: real, wall: nat): Result<Report, RunError> {
    var timeout := (wall + KILL_AFTER + OUTER_MARGIN + RUNNER_MARGIN) as real;
    var (ready, text) := SplitReady(result.stderr);
    if !ready then Err(SetupFailed)
    else
      var exited := result.returncode >= 0;
      var split := if exited then SplitDone(text) else Split(None, false, text);
      if exited && split.steps.None? then Err(CopyBackFailed)
      else
        var status := ShellStatus(result.returncode, elapsed, timeout);
        var measured := if split.steps.None? then elapsed
                        else (split.steps.value + 1) as real / STEPS_PER_SECOND as real;
        var (hang, killed) := Classify(status, measured, wall);
        Ok(Report(status, split.rest, hang, killed, split.incomplete || split.steps.None?, split.steps))
  }

  // the stderr of a sandbox that ran to its end: the setup's lines, the ready line, the program's, the done line
  function Whole(setup: string, program: string, started: string, ended: string, incomplete: bool): string {
    setup + READY_LINE + (program + DoneLine(started, ended, incomplete))
  }

  ghost predicate Honest(setup: string, started: string, ended: string) {
    && WholeLines(setup) && NoReadyLine(setup)
    && IsReading(started) && IsReading(ended) && Steps(started) <= Steps(ended)
  }

  /**
   * Whatever the program wrote, markers included, the report of a sandbox that ran to its end holds all of it, the
   * setup's own readings, and the setup's own incomplete mark.
   */
  lemma RunReadsProgram(
      setup: string, program: string, started: string, ended: string, incomplete: bool,
      status: nat, elapsed: real, wall: nat)
    requires Honest(setup, started, ended)
    ensures var run := Run(Command(status, Whole(setup, program, started, ended, incomplete)), elapsed, wall);
      && run.Ok? && run.value.stderr == setup + program && run.value.status == status
      && run.value.incomplete == incomplete && run.value.steps == Some(Steps(ended) - Steps(started))
      && (run.value.hang <==> status in {124, 137, 143} && Steps(ended) - Steps(started) + 1 >= 100 * wall)
      && (run.value.killed <==> status == 137 && !run.value.hang)
  {
    hide Run, SplitReady, SplitDone, DoneLine, IsReading, Steps, NoReadyLine;
    var line := DoneLine(started, ended, incomplete);
    var stderr := Whole(setup, program, started, ended, incomplete);
    ReadyRemoved(setup, program + line);
    assert setup + (program + line) == (setup + program) + line;
    SplitGivesProgram(setup + program, started, ended, incomplete);
    RunOf(Command(status, stderr), setup + program + line, elapsed, wall);
  }

  // a normal exit whose done line counts
  lemma RunOf(result: Command, text: string, elapsed: real, wall: nat)
    requires result.returncode >= 0 && SplitReady(result.stderr) == (true, text) && SplitDone(text).steps.Some?
    ensures var run, split := Run(result, elapsed, wall), SplitDone(text);
      && run.Ok? && run.value.stderr == split.rest && run.value.status == result.returncode
      && run.value.incomplete == split.incomplete && run.value.steps == split.steps
      && (run.value.hang <==> result.returncode in {124, 137, 143} && split.steps.value + 1 >= 100 * wall)
      && (run.value.killed <==> result.returncode == 137 && !run.value.hang)
  {
    hide SplitReady, SplitDone;
    StepsReached(SplitDone(text).steps.value, wall);
  }

  lemma StepsReached(steps: nat, wall: nat)
    ensures (steps + 1) as real / STEPS_PER_SECOND as real >= wall as real <==> steps + 1 >= 100 * wall
  {
  }

  /**
   * Without a normal exit no line of the program's counts, and part of its output may be missing. Death by signal N is
   * 128 + N, but -1 for the runner's own timeout; only those and the signals of a timeout's kill can be a hang.
   */
  lemma KilledRunReadsNothing(setup: string, program: string, returncode: int, elapsed: real, wall: nat)
    requires WholeLines(setup) && NoReadyLine(setup) && returncode < 0
    ensures var run := Run(Command(returncode, setup + READY_LINE + program), elapsed, wall);
      && run.Ok? && run.value.stderr == setup + program && run.value.incomplete && run.value.steps.None?
      && run.value.status == (if returncode == -1 && elapsed >= (wall + 17) as real then -1 else 128 - returncode)
      && (run.value.hang <==>
        elapsed >= wall as real && (returncode in {-9, -15} || (returncode == -1 && elapsed >= (wall + 17) as real)))
      && (run.value.killed <==> returncode == -9 && elapsed < wall as real)
  {
    ReadyRemoved(setup, program);
    hide SplitReady, NoReadyLine;
  }

  // the text ends with a done line whose readings are in order
  ghost predicate EndsDone(text: string) {
    exists program, started, ended, incomplete ::
      && IsReading(started) && IsReading(ended) && Steps(started) <= Steps(ended)
      && text == program + DoneLine(started, ended, incomplete)
  }

  /** A command is refused exactly when no line is the ready line, or it exited with no done line at its end. */
  lemma RefusedExactly(result: Command, elapsed: real, wall: nat)
    ensures Run(result, elapsed, wall) == Err(SetupFailed) <==> NoReadyLine(result.stderr)
    ensures Run(result, elapsed, wall) == Err(CopyBackFailed)
       <==> !NoReadyLine(result.stderr) && result.returncode >= 0 && !EndsDone(SplitReady(result.stderr).1)
  {
    var (ready, text) := SplitReady(result.stderr);
    assert ready <==> !NoReadyLine(result.stderr);
    hide SplitReady, NoReadyLine, SplitDone, DoneLine, IsReading, Steps;
    if SplitDone(text).steps.Some? {
      SplitNeedsDoneLine(text);
      var started, ended :| IsReading(started) && IsReading(ended) && Steps(started) <= Steps(ended)
        && text == SplitDone(text).rest + DoneLine(started, ended, SplitDone(text).incomplete)
        && SplitDone(text).steps == Some(Steps(ended) - Steps(started));
      assert EndsDone(text);
    }
    if EndsDone(text) {
      var program, started, ended, incomplete :| IsReading(started) && IsReading(ended)
        && Steps(started) <= Steps(ended) && text == program + DoneLine(started, ended, incomplete);
      SplitGivesProgram(program, started, ended, incomplete);
    }
  }

  /** A reading cuts the time down to a clock step. */
  ghost predicate Reads(reading: string, time: real) {
    IsReading(reading) && Steps(reading) == (time * STEPS_PER_SECOND as real).Floor
  }

  /**
   * A run stopped by its timeout or a kill is a hang whenever the program truly reached the wall limit, though each
   * reading is cut to a step; and it never is when the program was 20 ms or more short of it.
   */
  lemma HangExactlyAtLimit(
      setup: string, program: string, started: string, ended: string, incomplete: bool,
      status: nat, elapsed: real, wall: nat, from: real, to: real)
    requires Honest(setup, started, ended) && Reads(started, from) && Reads(ended, to)
    requires status in {124, 137, 143}
    ensures var run := Run(Command(status, Whole(setup, program, started, ended, incomplete)), elapsed, wall);
      && run.Ok?
      && (to - from >= wall as real ==> run.value.hang)
      && (to - from <= wall as real - 0.02 ==> !run.value.hang)
  {
    RunReadsProgram(setup, program, started, ended, incomplete, status, elapsed, wall);
    hide Run, Whole, IsReading, NoReadyLine, WholeLines;
    StepsBetween(from, to, Steps(started), Steps(ended));
  }

  lemma StepsBetween(from: real, to: real, started: int, ended: int)
    requires started == (from * 100.0).Floor && ended == (to * 100.0).Floor
    ensures (to - from) * 100.0 < (ended - started + 1) as real < (to - from) * 100.0 + 2.0
  {
  }
}
