/** The lines the sandbox's setup writes into the program's stderr, and how the runner reads them back. */
module SandboxLines {
  import opened Outcomes

  const READY_MARKER := "lassi-sandbox-ready"
  const DONE_MARKER := "lassi-sandbox-done"
  const INCOMPLETE_SUFFIX := " incomplete"
  const STEPS_PER_SECOND: nat := 100

  // ----- finding text

  predicate OccursAt(text: string, part: string, i: nat) {
    i + |part| <= |text| && text[i..i + |part|] == part
  }

  /** The last place `part` occurs below `from`. */
  function LastFound(text: string, part: string, from: nat): (found: Option<nat>)
    ensures found.Some? ==> found.value < from && OccursAt(text, part, found.value)
    ensures found.Some? ==> forall i: nat | found.value < i < from :: !OccursAt(text, part, i)
    ensures found.None? ==> forall i: nat | i < from :: !OccursAt(text, part, i)
    decreases |text|, from
  {
    if from == 0 then None
    else if OccursAt(text, part, from - 1) then Some(from - 1)
    else LastFound(text, part, from - 1)
  }

  /** The first place `part` occurs from `from` on. */
  function FirstFound(text: string, part: string, from: nat): (found: Option<nat>)
    ensures found.Some? ==> found.value >= from && OccursAt(text, part, found.value)
    ensures found.Some? ==> forall i: nat | from <= i < found.value :: !OccursAt(text, part, i)
    ensures found.None? ==> forall i: nat | i >= from :: !OccursAt(text, part, i)
    decreases |text|, |text| - from
  {
    if from > |text| then None
    else if OccursAt(text, part, from) then Some(from)
    else FirstFound(text, part, from + 1)
  }

  // ----- the clock readings

  predicate IsDigit(c: char) {
    '0' <= c <= '9'
  }

  predicate AllDigits(s: string) {
    forall c | c in s :: IsDigit(c)
  }

  /** Seconds with two decimals, as /proc/uptime gives them. */
  predicate IsReading(s: string) {
    && |s| >= 4 && s[|s| - 3] == '.'
    && AllDigits(s[..|s| - 3]) && AllDigits(s[|s| - 2..])
  }

  function Number(digits: string): nat
    requires AllDigits(digits)
  {
    if digits == [] then 0
    else
      assert digits[|digits| - 1] in digits;
      10 * Number(digits[..|digits| - 1]) + (digits[|digits| - 1] - '0') as nat
  }

  // a reading in clock steps
  function Steps(reading: string): nat
    requires IsReading(reading)
  {
    Number(reading[..|reading| - 3]) * STEPS_PER_SECOND + Number(reading[|reading| - 2..])
  }

  // the digit of a number below ten
  function Digit(d: nat): (c: char)
    requires d < 10
    ensures IsDigit(c) && (c - '0') as nat == d
  {
    (48 + d) as char
  }

  function Decimal(n: nat): (digits: string)
    ensures |digits| >= 1 && AllDigits(digits)
  {
    if n < 10 then [Digit(n)] else Decimal(n / 10) + [Digit(n % 10)]
  }

  /** A number's decimal digits read back as the number. */
  lemma {:induction false} DecimalNumber(n: nat)
    ensures Number(Decimal(n)) == n
  {
    if n < 10 {
      assert [Digit(n)][..0] == [];
    } else {
      DecimalNumber(n / 10);
      assert (Decimal(n / 10) + [Digit(n % 10)])[..|Decimal(n / 10)|] == Decimal(n / 10);
    }
  }

  // the reading the kernel writes for a time in steps
  function ReadingOf(steps: nat): string {
    Decimal(steps / STEPS_PER_SECOND) + "." + [Digit(steps % 100 / 10), Digit(steps % 10)]
  }

  /** Each time in steps has its reading, and reading it gives the time. */
  lemma ReadingSteps(steps: nat)
    ensures IsReading(ReadingOf(steps)) && Steps(ReadingOf(steps)) == steps
  {
    var whole, rest := Decimal(steps / STEPS_PER_SECOND), [Digit(steps % 100 / 10), Digit(steps % 10)];
    var reading := ReadingOf(steps);
    assert reading[..|reading| - 3] == whole && reading[|reading| - 2..] == rest;
    DecimalNumber(steps / STEPS_PER_SECOND);
    assert rest[..1] == [rest[0]] && rest[..1][..0] == [];
    assert Number(rest[..1]) == steps % 100 / 10;
    assert Number(rest) == steps % 100;
  }

  // a done line's end: the incomplete mark when the copy-back left something out, and the newline
  function Tail(incomplete: bool): string {
    (if incomplete then INCOMPLETE_SUFFIX else "") + "\n"
  }

  function DoneLine(started: string, ended: string, incomplete: bool): string {
    DONE_MARKER + " " + started + " " + ended + Tail(incomplete)
  }

  // ----- matching the done line

  // the end of the digits from `i` on
  function DigitsEnd(s: string, i: nat): (end: nat)
    requires i <= |s|
    ensures i <= end <= |s| && AllDigits(s[i..end]) && (end < |s| ==> !IsDigit(s[end]))
    decreases |s| - i
  {
    if i < |s| && IsDigit(s[i]) then
      var end := DigitsEnd(s, i + 1);
      assert s[i..end] == [s[i]] + s[i + 1..end];
      end
    else i
  }

  // the end of the reading that begins at `i`
  function ReadingEnd(s: string, i: nat): (end: Option<nat>)
    requires i <= |s|
    ensures end.Some? ==> i < end.value <= |s| && IsReading(s[i..end.value])
  {
    var point := DigitsEnd(s, i);
    if point > i && point + 2 < |s| && s[point] == '.' && IsDigit(s[point + 1]) && IsDigit(s[point + 2]) then
      assert s[i..point + 3][..point - i] == s[i..point];
      Some(point + 3)
    else None
  }

  datatype Done = Done(started: string, ended: string, incomplete: bool)

  /** Whether the whole text is a done line: the marker, two readings, and the incomplete mark or none. */
  function MatchDone(text: string): Option<Done> {
    var head := DONE_MARKER + " ";
    if !OccursAt(text, head, 0) then None
    else
      var first := ReadingEnd(text, |head|);
      if first.None? || first.value >= |text| || text[first.value] != ' ' then None
      else
        var second := ReadingEnd(text, first.value + 1);
        if second.None? then None
        else
          var started, ended := text[|head|..first.value], text[first.value + 1..second.value];
          var rest := text[second.value..];
          if rest == "\n" then Some(Done(started, ended, false))
          else if rest == INCOMPLETE_SUFFIX + "\n" then Some(Done(started, ended, true))
          else None
  }

  datatype Split = Split(steps: Option<nat>, incomplete: bool, rest: string)

  /** The program's own time, the incomplete mark, and the program's stderr, from the setup's done line. */
  function SplitDone(stderr: string): Split {
    var index := LastFound(stderr, DONE_MARKER, |stderr|);
    if index.None? then Split(None, false, stderr)
    else
      var found := MatchDone(stderr[index.value..]);
      if found.None? then Split(None, false, stderr)
      else
        MatchedReadings(stderr[index.value..]);
        var started, ended := Steps(found.value.started), Steps(found.value.ended);
        if ended < started then Split(None, false, stderr)
        else Split(Some(ended - started), found.value.incomplete, stderr[..index.value])
  }

  lemma MatchedReadings(text: string)
    ensures var found := MatchDone(text);
      found.Some? ==> IsReading(found.value.started) && IsReading(found.value.ended)
  {
  }

  lemma DigitsEndIs(s: string, i: nat, end: nat)
    requires i <= end < |s| && AllDigits(s[i..end]) && !IsDigit(s[end])
    ensures DigitsEnd(s, i) == end
  {
    DigitsBetween(s, i, end);
    DigitsBetween(s, i, DigitsEnd(s, i));
  }

  lemma DigitsBetween(s: string, i: nat, end: nat)
    requires i <= end <= |s| && AllDigits(s[i..end])
    ensures forall k | i <= k < end :: IsDigit(s[k])
  {
    forall k | i <= k < end
      ensures IsDigit(s[k])
    {
      assert s[i..end][k - i] == s[k];
    }
  }

  lemma OccursChar(s: string, part: string, i: nat, k: nat)
    requires OccursAt(s, part, i) && k < |part|
    ensures s[i + k] == part[k]
  {
    assert s[i..i + |part|][k] == s[i + k];
  }

  lemma ReadingEndIs(s: string, i: nat, reading: string)
    requires IsReading(reading) && OccursAt(s, reading, i)
    ensures ReadingEnd(s, i) == Some(i + |reading|)
  {
    var point := i + |reading| - 3;
    assert s[i..point] == s[i..i + |reading|][..|reading| - 3];
    OccursChar(s, reading, i, |reading| - 3);
    OccursChar(s, reading, i, |reading| - 2);
    OccursChar(s, reading, i, |reading| - 1);
    assert reading[|reading| - 2] == reading[|reading| - 2..][0];
    assert reading[|reading| - 1] == reading[|reading| - 2..][1];
    DigitsEndIs(s, i, point);
  }

  lemma OtherChar(s: string, part: string, i: nat, k: nat)
    requires k < |part| && i + k < |s| && s[i + k] != part[k]
    ensures !OccursAt(s, part, i)
  {
    if OccursAt(s, part, i) {
      OccursChar(s, part, i, k);
    }
  }

  /** A done line matches, with its own readings and mark. */
  lemma DoneLineMatches(started: string, ended: string, incomplete: bool)
    requires IsReading(started) && IsReading(ended)
    ensures MatchDone(DoneLine(started, ended, incomplete)) == Some(Done(started, ended, incomplete))
  {
    hide IsReading, ReadingEnd;
    var head, tail := DONE_MARKER + " ", Tail(incomplete);
    var text := DoneLine(started, ended, incomplete);
    Pieces(head, started, ended, tail);
    assert text == head + started + " " + ended + tail;
    ReadingEndIs(text, |head|, started);
    ReadingEndIs(text, |head| + |started| + 1, ended);
    assert INCOMPLETE_SUFFIX + "\n" != "\n" by { assert |INCOMPLETE_SUFFIX| > 0; }
  }

  lemma Pieces(head: string, a: string, b: string, tail: string)
    ensures var text := head + a + " " + b + tail;
      && OccursAt(text, head, 0) && OccursAt(text, a, |head|)
      && text[|head| + |a|] == ' ' && OccursAt(text, b, |head| + |a| + 1)
      && text[|head| + |a| + 1 + |b|..] == tail
  {
  }

  /** What matches is a done line. */
  lemma MatchIsDoneLine(text: string)
    requires MatchDone(text).Some?
    ensures var d := MatchDone(text).value; text == DoneLine(d.started, d.ended, d.incomplete)
  {
    hide IsReading, ReadingEnd;
    var head := DONE_MARKER + " ";
    var first := ReadingEnd(text, |head|).value;
    var second := ReadingEnd(text, first + 1).value;
    assert text[..|head|] == head;
    assert text == text[..|head|] + text[|head|..first] + [text[first]] + text[first + 1..second] + text[second..];
  }

  // ----- no marker begins inside a done line

  // no 'l' is followed by an 'a', so no marker begins here
  ghost predicate NoStart(s: string) {
    forall k | 0 <= k < |s| - 1 :: s[k] == 'l' ==> s[k + 1] != 'a'
  }

  lemma NoStartJoin(a: string, b: string)
    requires NoStart(a) && NoStart(b) && (a != [] && b != [] && a[|a| - 1] == 'l' ==> b[0] != 'a')
    ensures NoStart(a + b)
  {
  }

  lemma NoStartInReading(s: string)
    requires IsReading(s)
    ensures NoStart(s) && s[|s| - 1] != 'l'
  {
    var n := |s|;
    assert s[..n - 3] == s[0..n - 3] && s[n - 2..] == s[n - 2..n];
    DigitsBetween(s, 0, n - 3);
    DigitsBetween(s, n - 2, n);
  }

  lemma NoStartInMarker()
    ensures NoStart(DONE_MARKER[1..] + " ") && DONE_MARKER[..1] + DONE_MARKER[1..] == DONE_MARKER
  {
  }

  lemma NoStartInTail(incomplete: bool)
    ensures NoStart(Tail(incomplete))
  {
  }

  lemma DoneLineTail(started: string, ended: string, incomplete: bool)
    requires IsReading(started) && IsReading(ended)
    ensures NoStart(DoneLine(started, ended, incomplete)[1..])
  {
    hide IsReading, NoStart;
    var tail, marker := Tail(incomplete), DONE_MARKER[1..] + " ";
    var rest := started + (" " + ended + tail);
    NoStartInReading(started);
    NoStartInReading(ended);
    NoStartInTail(incomplete);
    NoStartInMarker();
    assert NoStart(" ") by { OneStart(); }
    NoStartJoin(" ", ended);
    NoStartJoin(" " + ended, tail);
    NoStartJoin(started, " " + ended + tail);
    NoStartJoin(marker, rest);
    LineInPieces(DONE_MARKER, started, ended, tail);
  }

  lemma OneStart()
    ensures NoStart(" ")
  {
  }

  lemma LineInPieces(marker: string, started: string, ended: string, tail: string)
    requires marker != []
    ensures (marker + " " + started + " " + ended + tail)[1..]
         == (marker[1..] + " ") + (started + (" " + ended + tail))
  {
  }

  /** The last marker of a stderr that ends with a done line is that line's. */
  lemma LastMarker(program: string, line: string)
    requires OccursAt(line, DONE_MARKER, 0) && NoStart(line[1..])
    ensures LastFound(program + line, DONE_MARKER, |program + line|) == Some(|program|)
  {
    var text := program + line;
    assert OccursAt(text, DONE_MARKER, |program|) by {
      assert text[|program|..|program| + |DONE_MARKER|] == line[..|DONE_MARKER|];
    }
    forall i: nat | |program| < i < |text|
      ensures !OccursAt(text, DONE_MARKER, i)
    {
      assert text[i] == line[1..][i - |program| - 1];
      NoMarkerAt(text, i);
    }
  }

  lemma NoMarkerAt(text: string, i: nat)
    requires i + 1 < |text| && text[i] == 'l' ==> text[i + 1] != 'a'
    ensures !OccursAt(text, DONE_MARKER, i)
  {
    if OccursAt(text, DONE_MARKER, i) {
      OccursChar(text, DONE_MARKER, i, 0);
      OccursChar(text, DONE_MARKER, i, 1);
    }
  }

  /**
   * Whatever the program printed, forged done lines included, the setup's line gives the readings and the mark, and
   * the program's stderr comes back as it was.
   */
  lemma SplitGivesProgram(program: string, started: string, ended: string, incomplete: bool)
    requires IsReading(started) && IsReading(ended)
    ensures SplitDone(program + DoneLine(started, ended, incomplete))
         == if Steps(ended) < Steps(started) then Split(None, false, program + DoneLine(started, ended, incomplete))
            else Split(Some(Steps(ended) - Steps(started)), incomplete, program)
  {
    hide IsReading, MatchDone, Steps;
    var line := DoneLine(started, ended, incomplete);
    DoneLineTail(started, ended, incomplete);
    DoneLineMatches(started, ended, incomplete);
    assert OccursAt(line, DONE_MARKER, 0);
    LastMarker(program, line);
    assert (program + line)[|program|..] == line && (program + line)[..|program|] == program;
  }

  /** A time is read only from a stderr that ends with a done line. */
  lemma SplitNeedsDoneLine(stderr: string)
    requires SplitDone(stderr).steps.Some?
    ensures exists started, ended ::
      && IsReading(started) && IsReading(ended) && Steps(started) <= Steps(ended)
      && var split := SplitDone(stderr);
         stderr == split.rest + DoneLine(started, ended, split.incomplete)
         && split.steps == Some(Steps(ended) - Steps(started))
  {
    hide IsReading, MatchDone, Steps;
    var index := LastFound(stderr, DONE_MARKER, |stderr|).value;
    var d := MatchDone(stderr[index..]).value;
    MatchedReadings(stderr[index..]);
    MatchIsDoneLine(stderr[index..]);
    assert stderr == stderr[..index] + stderr[index..];
    assert IsReading(d.started) && IsReading(d.ended);
  }

  // ----- the ready line

  const READY_LINE := READY_MARKER + "\n"

  /** Whether a line of the text is the ready line, and the text without the first such line. */
  function SplitReady(stderr: string): (bool, string) {
    if READY_LINE <= stderr then (true, stderr[|READY_LINE|..])
    else
      var index := FirstFound(stderr, "\n" + READY_LINE, 0);
      if index.None? then (false, stderr)
      else
        var at := index.value + 1;
        assert at + |READY_LINE| <= |stderr|;
        (true, stderr[..at] + stderr[at + |READY_LINE|..])
  }

  ghost predicate NoReadyLine(text: string) {
    !(READY_LINE <= text) && forall i: nat :: !OccursAt(text, "\n" + READY_LINE, i)
  }

  lemma OnlyLastNewline()
    ensures |READY_LINE| > 0 && READY_LINE[|READY_LINE| - 1] == '\n'
    ensures forall k | 0 <= k < |READY_LINE| - 1 :: READY_LINE[k] != '\n'
  {
  }

  // the setup wrote nothing, or whole lines
  predicate WholeLines(text: string) {
    text == [] || text[|text| - 1] == '\n'
  }

  lemma NotAtStart(setup: string, rest: string)
    requires WholeLines(setup) && setup != [] && !(READY_LINE <= setup)
    ensures !(READY_LINE <= setup + rest)
  {
    OnlyLastNewline();
    var text := setup + rest;
    if |setup| < |READY_LINE| {
      assert text[|setup| - 1] == '\n';
    } else {
      assert text[..|READY_LINE|] == setup[..|READY_LINE|];
    }
  }

  lemma NotInside(setup: string, rest: string, i: nat)
    requires WholeLines(setup) && i + 1 < |setup| && !OccursAt(setup, "\n" + READY_LINE, i)
    ensures !OccursAt(setup + rest, "\n" + READY_LINE, i)
  {
    OnlyLastNewline();
    var text, part := setup + rest, "\n" + READY_LINE;
    if i + |part| <= |setup| {
      assert text[i..i + |part|] == setup[i..i + |part|];
    } else {
      var k: nat := |setup| - 1 - i;
      assert part[k] == READY_LINE[k - 1] && text[i + k] == '\n';
      OtherChar(text, part, i, k);
    }
  }

  /** The first ready line is the chain's own: what the setup wrote before it and all the program wrote stay. */
  lemma ReadyRemoved(setup: string, program: string)
    requires WholeLines(setup) && NoReadyLine(setup)
    ensures SplitReady(setup + READY_LINE + program) == (true, setup + program)
  {
    var text, part := setup + (READY_LINE + program), "\n" + READY_LINE;
    assert text == setup + READY_LINE + program;
    if setup == [] {
      assert text == READY_LINE + program && setup + program == program;
      assert READY_LINE <= text && text[|READY_LINE|..] == program;
    } else {
      NotAtStart(setup, READY_LINE + program);
      var at := |setup| - 1;
      assert text[at..at + |part|] == [setup[at]] + READY_LINE == part;
      assert OccursAt(text, part, at);
      forall i: nat | i < at
        ensures !OccursAt(text, part, i)
      {
        NotInside(setup, READY_LINE + program, i);
      }
      assert FirstFound(text, part, 0) == Some(at);
      assert text[..|setup|] == setup && text[|setup| + |READY_LINE|..] == program;
    }
  }
}
