/** Splitting a text on a separator and joining it again, whitespace, and the longest run of backticks. */
module Texts {

  function Split(text: string, sep: char): (parts: seq<string>)
    ensures |parts| >= 1
  {
    if text == [] then [[]]
    else
      var rest := Split(text[1..], sep);
      if text[0] == sep then [[]] + rest else [[text[0]] + rest[0]] + rest[1..]
  }

  function Join(parts: seq<string>, sep: char): string {
    if parts == [] then [] else if |parts| == 1 then parts[0]
    else parts[0] + [sep] + Join(parts[1..], sep)
  }

  lemma {:induction false} SplitPlain(text: string, sep: char)
    requires sep !in text
    ensures Split(text, sep) == [text]
  {
    if text == [] {
    } else {
      SplitPlain(text[1..], sep);
      assert text == [text[0]] + text[1..];
    }
  }

  lemma {:induction false} SplitAppend(a: string, b: string, sep: char)
    ensures Split(a + [sep] + b, sep) == Split(a, sep) + Split(b, sep)
  {
    var text := a + [sep] + b;
    if a == [] {
      assert text[1..] == b;
    } else {
      assert text[1..] == a[1..] + [sep] + b;
      SplitAppend(a[1..], b, sep);
    }
  }

  lemma {:induction false} SplitHasNoSep(text: string, sep: char)
    ensures forall part | part in Split(text, sep) :: sep !in part
  {
    if text == [] {
    } else {
      SplitHasNoSep(text[1..], sep);
    }
  }

  lemma {:induction false} SplitJoin(parts: seq<string>, sep: char)
    requires parts != [] && forall part | part in parts :: sep !in part
    ensures Split(Join(parts, sep), sep) == parts
    decreases |parts|
  {
    hide Split;
    assert parts[0] in parts;
    SplitPlain(parts[0], sep);
    if |parts| == 1 {
    } else {
      assert forall part | part in parts[1..] :: part in parts;
      SplitJoin(parts[1..], sep);
      SplitAppend(parts[0], Join(parts[1..], sep), sep);
    }
  }

  lemma JoinPrefix(prefix: string, parts: seq<string>, sep: char)
    requires |parts| >= 1
    ensures Join([prefix + parts[0]] + parts[1..], sep) == prefix + Join(parts, sep)
  {
    var prefixed := [prefix + parts[0]] + parts[1..];
    assert prefixed[1..] == parts[1..];
    if |parts| > 1 {
      var rest := Join(parts[1..], sep);
      assert (prefix + parts[0]) + [sep] + rest == prefix + (parts[0] + [sep] + rest);
    }
  }

  lemma {:induction false} JoinSplit(text: string, sep: char)
    ensures Join(Split(text, sep), sep) == text
  {
    if text == [] {
    } else {
      hide Join;
      JoinSplit(text[1..], sep);
      var rest := Split(text[1..], sep);
      assert text == [text[0]] + text[1..];
      if text[0] == sep {
        JoinFirst([], rest, sep);
      } else {
        JoinPrefix([text[0]], rest, sep);
      }
    }
  }

  lemma JoinFirst(part: string, parts: seq<string>, sep: char)
    requires |parts| >= 1
    ensures Join([part] + parts, sep) == part + [sep] + Join(parts, sep)
  {
    assert ([part] + parts)[1..] == parts;
  }

  // ----- whitespace, as Python's strip and \s read it

  predicate IsSpace(c: char) {
    var n := c as int;
    9 <= n <= 13 || 28 <= n <= 32 || n == 0x85 || n == 0xA0 || n == 0x1680 || 0x2000 <= n <= 0x200A
    || n == 0x2028 || n == 0x2029 || n == 0x202F || n == 0x205F || n == 0x3000
  }

  function StripLeft(s: string): (t: string)
    ensures t == [] || !IsSpace(t[0])
    ensures s != [] && !IsSpace(s[0]) ==> t == s
  {
    if s != [] && IsSpace(s[0]) then StripLeft(s[1..]) else s
  }

  function StripRight(s: string): (t: string)
    ensures t == [] || !IsSpace(t[|t| - 1])
    ensures s != [] && !IsSpace(s[|s| - 1]) ==> t == s
  {
    if s != [] && IsSpace(s[|s| - 1]) then StripRight(s[..|s| - 1]) else s
  }

  function Strip(s: string): string {
    StripRight(StripLeft(s))
  }

  ghost predicate AllSpace(s: string) {
    forall c | c in s :: IsSpace(c)
  }

  lemma {:induction false} StripLeftIs(s: string) returns (left: string)
    ensures s == left + StripLeft(s) && AllSpace(left)
  {
    hide IsSpace;
    left := [];
    if s != [] && IsSpace(s[0]) {
      left := StripLeftIs(s[1..]);
      assert s == [s[0]] + s[1..];
      left := [s[0]] + left;
    }
  }

  lemma {:induction false} StripRightIs(s: string) returns (right: string)
    ensures s == StripRight(s) + right && AllSpace(right)
  {
    hide IsSpace;
    right := [];
    if s != [] && IsSpace(s[|s| - 1]) {
      right := StripRightIs(s[..|s| - 1]);
      assert s == s[..|s| - 1] + [s[|s| - 1]];
      right := right + [s[|s| - 1]];
    }
  }

  /** Stripping takes all the whitespace at both ends away, and nothing else. */
  lemma StripIs(s: string) returns (left: string, right: string)
    ensures s == left + Strip(s) + right && AllSpace(left) && AllSpace(right)
    ensures Strip(s) == [] || (!IsSpace(Strip(s)[0]) && !IsSpace(Strip(s)[|Strip(s)| - 1]))
  {
    left := StripLeftIs(s);
    right := StripRightIs(StripLeft(s));
    assert Strip(s) != [] ==> StripLeft(s)[0] == Strip(s)[0];
  }

  // stripping leaves alone a text with no blank at either end, and a blank before it goes
  lemma StripKeeps(s: string)
    requires s != [] && Strip(s) == s
    ensures Strip([' '] + s) == s
    ensures !IsSpace(s[0]) && !IsSpace(s[|s| - 1])
  {
    StripLeftSuffix(s);
    StripRightPrefix(StripLeft(s));
    assert ([' '] + s)[1..] == s;
  }

  lemma {:induction false} StripLeftSuffix(s: string)
    ensures |StripLeft(s)| <= |s|
    ensures |StripLeft(s)| == |s| ==> StripLeft(s) == s
  {
    if s != [] && IsSpace(s[0]) {
      StripLeftSuffix(s[1..]);
    }
  }

  lemma {:induction false} StripRightPrefix(s: string)
    ensures |StripRight(s)| <= |s|
    ensures |StripRight(s)| == |s| ==> StripRight(s) == s
  {
    if s != [] && IsSpace(s[|s| - 1]) {
      StripRightPrefix(s[..|s| - 1]);
    }
  }

  // ----- runs of a character

  // the length of the run of c that the text starts with
  function LeadingRun(s: string, c: char): (n: nat)
    ensures n <= |s|
  {
    if s == [] || s[0] != c then 0 else 1 + LeadingRun(s[1..], c)
  }

  function LongestRun(s: string, c: char): nat {
    if s == [] then 0
    else
      var here, later := LeadingRun(s, c), LongestRun(s[1..], c);
      if here > later then here else later
  }

  lemma {:induction false} LeadingRunAppend(a: string, b: string, c: char)
    ensures LeadingRun(a + b, c) >= LeadingRun(a, c)
    ensures (b == [] || b[0] != c) ==> LeadingRun(a + b, c) == LeadingRun(a, c)
  {
    if a != [] {
      assert (a + b)[1..] == a[1..] + b;
      LeadingRunAppend(a[1..], b, c);
    } else {
      assert a + b == b;
    }
  }

  lemma {:induction false} LongestRunAppend(a: string, b: string, c: char)
    ensures LongestRun(a + b, c) >= LongestRun(a, c)
    ensures LongestRun(a + b, c) >= LongestRun(b, c)
  {
    if a == [] {
      assert a + b == b;
    } else {
      assert (a + b)[1..] == a[1..] + b;
      LeadingRunAppend(a, b, c);
      LongestRunAppend(a[1..], b, c);
    }
  }

  // no run inside a part of a text is longer than the longest of the whole text
  lemma {:induction false} PartRun(text: string, sep: char, c: char, i: nat)
    requires i < |Split(text, sep)|
    ensures LongestRun(Split(text, sep)[i], c) <= LongestRun(text, c)
    decreases text
  {
    if text == [] {
    } else {
      var rest := Split(text[1..], sep);
      if text[0] == sep {
        if i > 0 {
          PartRun(text[1..], sep, c, i - 1);
        }
      } else if i > 0 {
        PartRun(text[1..], sep, c, i);
      } else {
        JoinSplit(text, sep);
        var parts := Split(text, sep);
        if |parts| > 1 {
          LongestRunAppend(parts[0], [sep] + Join(parts[1..], sep), c);
          assert text == parts[0] + ([sep] + Join(parts[1..], sep));
        }
      }
    }
  }

  lemma {:induction false} SuffixRun(s: string, n: nat, c: char)
    requires n <= |s|
    ensures LeadingRun(s[n..], c) <= LongestRun(s, c)
  {
    if n > 0 {
      SuffixRun(s[1..], n - 1, c);
      assert s[1..][n - 1..] == s[n..];
    } else {
      assert s[0..] == s;
    }
  }

  function Repeated(c: char, n: nat): (s: string)
    ensures |s| == n && forall i | 0 <= i < n :: s[i] == c
  {
    seq(n, _ => c)
  }

  lemma {:induction false} RepeatedRun(c: char, n: nat, after: string)
    requires after == [] || after[0] != c
    ensures LeadingRun(Repeated(c, n) + after, c) == n
  {
    var s := Repeated(c, n) + after;
    if n > 0 {
      assert s[1..] == Repeated(c, n - 1) + after;
      RepeatedRun(c, n - 1, after);
    } else {
      assert s == after;
    }
  }

  lemma {:induction false} RunChars(s: string, c: char)
    ensures forall i | 0 <= i < LeadingRun(s, c) :: s[i] == c
    ensures LeadingRun(s, c) == |s| || s[LeadingRun(s, c)] != c
  {
    if s != [] && s[0] == c {
      RunChars(s[1..], c);
      assert forall i | 0 < i < LeadingRun(s, c) :: s[i] == s[1..][i - 1];
    }
  }

  // a text is its leading run and what follows it
  lemma RunPrefix(s: string, c: char)
    ensures s == Repeated(c, LeadingRun(s, c)) + s[LeadingRun(s, c)..]
    ensures LeadingRun(s, c) == |s| || s[LeadingRun(s, c)] != c
  {
    hide LeadingRun;
    RunChars(s, c);
    var n := LeadingRun(s, c);
    assert s[..n] == Repeated(c, n);
  }

  ghost predicate RunAt(text: string, c: char, n: nat, i: nat) {
    i + n <= |text| && text[i..i + n] == Repeated(c, n)
  }

  // the text has n times the character in a row
  ghost predicate HoldsRun(text: string, c: char, n: nat) {
    exists i: nat :: RunAt(text, c, n, i)
  }

  lemma {:induction false} LongestRunOccurs(text: string, c: char) returns (i: nat)
    ensures RunAt(text, c, LongestRun(text, c), i)
  {
    if text == [] {
      i := 0;
    } else if LeadingRun(text, c) > LongestRun(text[1..], c) {
      RunPrefix(text, c);
      i := 0;
    } else {
      var later := LongestRunOccurs(text[1..], c);
      i := later + 1;
      RunLater(text, c, LongestRun(text[1..], c), later);
    }
  }

  lemma RunLater(text: string, c: char, n: nat, i: nat)
    requires text != [] && RunAt(text[1..], c, n, i)
    ensures RunAt(text, c, n, i + 1)
  {
    hide Repeated;
    assert text[i + 1..i + 1 + n] == text[1..][i..i + n];
  }

  /** The longest run is the most times in a row that the text has the character. */
  lemma LongestRunIs(text: string, c: char, n: nat)
    ensures n <= LongestRun(text, c) <==> HoldsRun(text, c, n)
  {
    hide LongestRun, LeadingRun;
    if n <= LongestRun(text, c) {
      var i := LongestRunOccurs(text, c);
      assert text[i..i + n] == text[i..i + LongestRun(text, c)][..n];
      assert RunAt(text, c, n, i);
    }
    if i: nat :| RunAt(text, c, n, i) {
      assert text[i..] == Repeated(c, n) + text[i + n..];
      assert Repeated(c, n) + "" == Repeated(c, n);
      RepeatedRun(c, n, "");
      LeadingRunAppend(Repeated(c, n), text[i + n..], c);
      SuffixRun(text, i, c);
    }
  }
}
