/** FILE blocks: the writer of fenced file blocks, the lenient reader of model output, and how they fit together. */
module FileBlocks {
  import opened Outcomes
  import opened Sequences
  import opened Texts

  // ----- paths

  function Utf8Length(s: string): nat {
    if s == [] then 0
    else
      var n := s[0] as int;
      (if n < 0x80 then 1 else if n < 0x800 then 2 else if n < 0x1_0000 then 3 else 4) + Utf8Length(s[1..])
  }

  /** A text's bytes are those of its characters, each one to four by its code point. */
  lemma {:induction false} Utf8LengthIs(a: string, b: string, c: char)
    ensures Utf8Length(a + b) == Utf8Length(a) + Utf8Length(b) && Utf8Length("") == 0
    ensures var n := c as int;
      Utf8Length([c]) == if n <= 0x7F then 1 else if n <= 0x7FF then 2 else if n <= 0xFFFF then 3 else 4
  {
    if a == [] {
      assert a + b == b;
    } else {
      assert (a + b)[1..] == a[1..] + b;
      Utf8LengthIs(a[1..], b, c);
    }
  }

  predicate LineBreaking(c: char) {
    var n := c as int;
    n <= 0x1F || 0x7F <= n <= 0x9F || n == 0x2028 || n == 0x2029
  }

  predicate Letter(c: char) {
    'A' <= c <= 'Z' || 'a' <= c <= 'z'
  }

  /** A normalized relative POSIX path, as the writer and the reader both check it. */
  predicate ValidPath(path: string) {
    && path != []
    && path[0] != '/' && !(|path| >= 2 && Letter(path[0]) && path[1] == ':')
    && '\\' !in path
    && (forall c | c in path :: !LineBreaking(c))
    && path == Strip(path)
    && path[0] != '-' && path[0] != '@'
    && var segments := Split(path, '/');
    && ".." !in segments && "" !in segments && "." !in segments
    && (forall segment | segment in segments :: Utf8Length(segment) <= 255)
  }

  // a segment that a path keeps
  predicate IsName(segment: string) {
    segment != "" && segment != "."
  }

  function Normalize(path: string): string {
    if path != [] && path[0] == '/' then path else Join(Filter(Split(path, '/'), IsName), '/')
  }

  /** A valid path is its own normal form. */
  lemma ValidPathNormal(path: string)
    requires ValidPath(path)
    ensures Normalize(path) == path
  {
    FilterAll(Split(path, '/'), IsName);
    JoinSplit(path, '/');
  }

  /**
   * A path is valid exactly when it is in normal form with no "..", stripped and of plain characters, its start no
   * sign, slash or drive, and each segment short enough for a file name.
   */
  lemma ValidPathExactly(path: string)
    ensures ValidPath(path) <==>
      && path != "" && path[0] !in {'/', '-', '@'}
      && (|path| >= 2 && path[1] == ':' ==> !('a' <= path[0] <= 'z') && !('A' <= path[0] <= 'Z'))
      && Strip(path) == path
      && (forall c | c in path ::
        c != '\\' && 0x1F < c as int && !(0x7F <= c as int <= 0x9F) && c as int !in {0x2028, 0x2029})
      && Normalize(path) == path && ".." !in Split(path, '/')
      && forall segment | segment in Split(path, '/') :: Utf8Length(segment) <= 255
  {
    hide Split, Strip;
    if ValidPath(path) {
      ValidPathNormal(path);
    }
    if path != "" && path[0] != '/' && Normalize(path) == path {
      SegmentsKept(path);
    }
  }

  // the segments of a path, an empty one having none
  ghost function Segments(path: string): seq<string> {
    if path == "" then [] else Split(path, '/')
  }

  /** The normal form of a relative path has its segments but the empty ones and ".", one for one and in order. */
  lemma NormalSegments(path: string, places: seq<nat>)
    requires (path != [] ==> path[0] != '/') && Places(Split(path, '/'), IsName, places)
    ensures LieAt(Split(path, '/'), places, Segments(Normalize(path)))
  {
    FilterPicks(Split(path, '/'), IsName, places);
    SegmentsKept(path);
  }

  lemma SegmentsKept(path: string)
    requires path != [] ==> path[0] != '/'
    ensures Segments(Normalize(path)) == Filter(Split(path, '/'), IsName)
  {
    hide Split;
    var kept := Filter(Split(path, '/'), IsName);
    SplitHasNoSep(path, '/');
    if kept != [] {
      SplitJoin(kept, '/');
      assert kept[0] in kept && kept[0] != "";
      assert |kept| > 1 ==> '/' in Join(kept, '/');
    }
  }

  // the folder that the segments lead to from a folder; None when they lead out of where they start
  ghost function Walk(at: seq<string>, segments: seq<string>): Option<seq<string>>
    decreases |segments|
  {
    if segments == [] then Some(at)
    else if segments[0] == "" || segments[0] == "." then Walk(at, segments[1..])
    else if segments[0] != ".." then Walk(at + [segments[0]], segments[1..])
    else if at == [] then None
    else Walk(at[..|at| - 1], segments[1..])
  }

  lemma {:induction false} PlainWalk(at: seq<string>, segments: seq<string>)
    requires "" !in segments && "." !in segments && ".." !in segments
    ensures Walk(at, segments) == Some(at + segments)
    decreases |segments|
  {
    if segments == [] {
      assert at + segments == at;
    } else {
      assert segments[0] in segments;
      PlainWalk(at + [segments[0]], segments[1..]);
      assert at + [segments[0]] + segments[1..] == at + segments;
    }
  }

  /** A valid path leads down from the folder it starts in, and so does each path it begins with. */
  lemma ValidPathStays(path: string, n: nat)
    requires ValidPath(path) && n <= |Split(path, '/')|
    ensures Walk([], Split(path, '/')[..n]) == Some(Split(path, '/')[..n])
  {
    hide Split;
    PlainWalk([], Split(path, '/')[..n]);
    assert [] + Split(path, '/')[..n] == Split(path, '/')[..n];
  }

  lemma {:induction false} KeptWalk(at: seq<string>, segments: seq<string>)
    ensures Walk(at, Filter(segments, IsName)) == Walk(at, segments)
    decreases |segments|
  {
    if segments == [] {
    } else {
      var first, rest := segments[0], Filter(segments[1..], IsName);
      assert Filter(segments, IsName) == if IsName(first) then [first] + rest else rest;
      assert ([first] + rest)[1..] == rest && ([first] + rest)[0] == first;
      hide Filter;
      if !IsName(first) {
        KeptWalk(at, segments[1..]);
      } else if first != ".." {
        KeptWalk(at + [first], segments[1..]);
      } else if at != [] {
        KeptWalk(at[..|at| - 1], segments[1..]);
      }
    }
  }

  /** The normal form of a relative path leads where the path does, from any folder. */
  lemma NormalLeadsSame(path: string, at: seq<string>)
    requires path != [] ==> path[0] != '/'
    ensures Walk(at, Segments(Normalize(path))) == Walk(at, Split(path, '/'))
  {
    hide Split, Normalize;
    SegmentsKept(path);
    KeptWalk(at, Split(path, '/'));
  }

  // ----- the writer

  function Lower(s: string): string {
    seq(|s|, i requires 0 <= i < |s| => if 'A' <= s[i] <= 'Z' then s[i] - 'A' + 'a' else s[i])
  }

  // the last dot of a file name and what follows it, when something stands on both sides of the dot
  function SuffixFrom(name: string, dot: nat): string
    requires dot <= |name|
    decreases dot
  {
    if dot == 0 then ""
    else if name[dot - 1] != '.' then SuffixFrom(name, dot - 1)
    else if dot == 1 || dot == |name| then "" else name[dot - 1..]
  }

  const LANGUAGES: map<string, string> := map[
    ".cu" := "cuda", ".cuh" := "cuda", ".c" := "c", ".h" := "cpp", ".hpp" := "cpp", ".cpp" := "cpp", ".cc" := "cpp",
    ".cxx" := "cpp", ".f" := "fortran", ".f90" := "fortran", ".f95" := "fortran", ".py" := "python", ".rs" := "rust",
    ".cs" := "csharp", ".mlir" := "mlir"]

  function LanguageOf(suffix: string): string {
    if suffix in LANGUAGES then LANGUAGES[suffix] else "text"
  }

  function LanguageFor(path: string): string {
    var segments := Split(path, '/');
    var name := segments[|segments| - 1];
    LanguageOf(Lower(SuffixFrom(name, |name|)))
  }

  function FenceWidth(text: string): nat {
    var longest := LongestRun(text, '`');
    if longest + 1 > 3 then longest + 1 else 3
  }

  lemma {:induction false} NoDotFrom(name: string, dot: nat)
    requires dot <= |name| && '.' !in name[..dot]
    ensures SuffixFrom(name, dot) == ""
    decreases dot
  {
    if dot == 0 {
    } else {
      assert name[dot - 1] in name[..dot] && forall c | c in name[..dot - 1] :: c in name[..dot];
      NoDotFrom(name, dot - 1);
    }
  }

  lemma {:induction false} DotAt(name: string, at: nat, dot: nat)
    requires at < dot <= |name| && name[at] == '.' && '.' !in name[at + 1..dot]
    ensures SuffixFrom(name, dot) == if at == 0 || at + 1 == |name| then "" else name[at..]
    decreases dot
  {
    if dot == at + 1 {
    } else {
      assert name[dot - 1] == name[at + 1..dot][dot - at - 2];
      assert forall i | at < i < dot - 1 :: name[i] == name[at + 1..dot][i - at - 1];
      DotAt(name, at, dot - 1);
    }
  }

  /**
   * The block's language is that of the last suffix of the path's last segment, in lower case; a segment has none
   * without a dot, or with nothing before or after its last one.
   */
  lemma LanguageIs(path: string, stem: string, ext: string)
    requires '.' !in ext
    ensures var segments := Split(path, '/');
      var name := segments[|segments| - 1];
      && ('.' !in name ==> LanguageFor(path) == "text")
      && (name == stem + "." + ext ==>
        LanguageFor(path) == if stem == "" || ext == "" then "text" else LanguageOf("." + Lower(ext)))
  {
    hide Split, LanguageOf, Lower, SuffixFrom;
    var segments := Split(path, '/');
    var name := segments[|segments| - 1];
    NoLanguage();
    if '.' !in name {
      assert name[..|name|] == name;
      NoDotFrom(name, |name|);
    }
    if name == stem + "." + ext {
      SuffixIs(stem, ext);
    }
  }

  lemma SuffixIs(stem: string, ext: string)
    requires '.' !in ext
    ensures var name := stem + "." + ext;
      Lower(SuffixFrom(name, |name|)) == if stem == "" || ext == "" then "" else "." + Lower(ext)
  {
    hide SuffixFrom;
    var name := stem + "." + ext;
    assert name[|stem|] == '.' && name[|stem| + 1..|name|] == ext && name[|stem|..] == "." + ext;
    DotAt(name, |stem|, |name|);
    assert Lower("." + ext) == "." + Lower(ext);
  }

  lemma NoLanguage()
    ensures LanguageOf("") == LanguageOf(Lower("")) == "text"
  {
  }

  /** Each letter from A to Z becomes its small one, and no other character changes. */
  lemma LowerIs(s: string, i: nat)
    requires i < |s|
    ensures |Lower(s)| == |s|
    ensures if 65 <= s[i] as int <= 90 then Lower(s)[i] as int == s[i] as int + 32 else Lower(s)[i] == s[i]
  {
  }

  /** A fence is the least of three or more backticks that the text does not hold in a row. */
  lemma FenceWidthIs(text: string, width: nat)
    ensures width == FenceWidth(text) <==>
      width >= 3 && !HoldsRun(text, '`', width) && (width > 3 ==> HoldsRun(text, '`', width - 1))
  {
    hide HoldsRun, LongestRun;
    LongestRunIs(text, '`', width);
    if width > 0 {
      LongestRunIs(text, '`', width - 1);
    }
  }

  function WithNewline(text: string): string {
    if text != [] && text[|text| - 1] == '\n' then text else text + "\n"
  }

  function BlockText(path: string, text: string): string {
    var fence := Repeated('`', FenceWidth(text));
    fence + LanguageFor(path) + "\n" + "// FILE: " + path + "\n" + WithNewline(text) + fence + "\n"
  }

  datatype RenderError = NoFiles | BadPath

  /** The blocks of the files, in the order of `paths` (which holds each file once), a blank line between two. */
  function Render(paths: seq<string>, files: map<string, string>): Result<string, RenderError>
    requires forall path | path in paths :: path in files
  {
    if paths == [] then Err(NoFiles)
    else if exists path :: path in paths && !ValidPath(path) then Err(BadPath)
    else Ok(Blocks(paths, files))
  }

  function Blocks(paths: seq<string>, files: map<string, string>): string
    requires forall path | path in paths :: path in files
  {
    if paths == [] then ""
    else if |paths| == 1 then BlockText(paths[0], files[paths[0]])
    else BlockText(paths[0], files[paths[0]]) + "\n" + Blocks(paths[1..], files)
  }

  // ----- the reader

  // the width of an opening fence: up to three spaces, three or more backticks, and an info string without one
  function OpeningFence(line: string): Option<nat> {
    var spaces := LeadingRun(line, ' ');
    var width := LeadingRun(line[spaces..], '`');
    if spaces <= 3 && width >= 3 && '`' !in line[spaces + width..] then Some(width) else None
  }

  // the width of a closing fence: the same, with nothing but whitespace after it
  function ClosingFence(line: string): Option<nat> {
    var spaces := LeadingRun(line, ' ');
    var width := LeadingRun(line[spaces..], '`');
    if spaces <= 3 && width >= 3 && (forall c | c in line[spaces + width..] :: IsSpace(c)) then Some(width) else None
  }

  const MARKER := "// FILE:"

  function DropBlanks(s: string): string {
    if s != [] && (s[0] == ' ' || s[0] == '\t') then DropBlanks(s[1..]) else s
  }

  // the path as written on a FILE line
  function FileLine(line: string): Option<string> {
    var s := DropBlanks(line);
    if MARKER <= s then Some(Strip(s[|MARKER|..])) else None
  }

  // up to three spaces, three or more backticks, and the rest of the line
  ghost predicate FenceShape(line: string, spaces: nat, width: nat, rest: string) {
    spaces <= 3 && width >= 3 && line == Repeated(' ', spaces) + (Repeated('`', width) + rest)
  }

  lemma ShapeRuns(line: string, spaces: nat, width: nat, rest: string)
    requires FenceShape(line, spaces, width, rest) && (rest == [] || rest[0] != '`')
    ensures LeadingRun(line, ' ') == spaces && LeadingRun(line[spaces..], '`') == width
    ensures line[spaces + width..] == rest
  {
    hide LeadingRun;
    var ticks := Repeated('`', width) + rest;
    RepeatedRun(' ', spaces, ticks);
    RepeatedRun('`', width, rest);
    assert line[spaces..] == ticks && ticks[width..] == rest;
    assert line[spaces..][width..] == line[spaces + width..];
  }

  lemma RunsShape(line: string)
    ensures var spaces := LeadingRun(line, ' ');
      var width := LeadingRun(line[spaces..], '`');
      && (spaces <= 3 && width >= 3 ==> FenceShape(line, spaces, width, line[spaces + width..]))
      && spaces + width <= |line|
  {
    hide LeadingRun;
    var spaces := LeadingRun(line, ' ');
    RunPrefix(line, ' ');
    RunPrefix(line[spaces..], '`');
    assert line[spaces..][LeadingRun(line[spaces..], '`')..] == line[spaces + LeadingRun(line[spaces..], '`')..];
  }

  /** An opening fence is up to three spaces, three or more backticks, and a rest without a backtick. */
  lemma OpeningExactly(line: string, width: nat)
    ensures OpeningFence(line) == Some(width)
       <==> exists spaces: nat, rest :: FenceShape(line, spaces, width, rest) && '`' !in rest
  {
    hide LeadingRun, FenceShape;
    RunsShape(line);
    if exists spaces: nat, rest :: FenceShape(line, spaces, width, rest) && '`' !in rest {
      var spaces: nat, rest :| FenceShape(line, spaces, width, rest) && '`' !in rest;
      ShapeBounds(line, spaces, width, rest);
      ShapeRuns(line, spaces, width, rest);
    }
  }

  /** A closing fence is the same with a rest of whitespace alone. */
  lemma ClosingExactly(line: string, width: nat)
    ensures ClosingFence(line) == Some(width)
       <==> exists spaces: nat, rest :: FenceShape(line, spaces, width, rest) && forall c | c in rest :: IsSpace(c)
  {
    hide LeadingRun, FenceShape;
    RunsShape(line);
    if exists spaces: nat, rest :: FenceShape(line, spaces, width, rest) && forall c | c in rest :: IsSpace(c) {
      var spaces: nat, rest :| FenceShape(line, spaces, width, rest) && forall c | c in rest :: IsSpace(c);
      assert rest != [] ==> rest[0] in rest;
      ShapeBounds(line, spaces, width, rest);
      ShapeRuns(line, spaces, width, rest);
    }
  }

  lemma ShapeBounds(line: string, spaces: nat, width: nat, rest: string)
    requires FenceShape(line, spaces, width, rest)
    ensures spaces <= 3 && width >= 3 && spaces + width <= |line|
  {
  }

  predicate Blanks(s: string) {
    forall c | c in s :: c == ' ' || c == '\t'
  }

  lemma {:induction false} BlanksDropped(blanks: string, rest: string)
    requires Blanks(blanks) && MARKER <= rest
    ensures DropBlanks(blanks + rest) == rest
  {
    if blanks == [] {
      assert blanks + rest == rest;
      assert rest[0] == MARKER[0];
    } else {
      assert blanks[0] in blanks && (blanks + rest)[1..] == blanks[1..] + rest;
      assert forall c | c in blanks[1..] :: c in blanks;
      BlanksDropped(blanks[1..], rest);
    }
  }

  lemma {:induction false} DropsBlanks(s: string) returns (blanks: string)
    ensures Blanks(blanks) && s == blanks + DropBlanks(s)
  {
    if s != [] && (s[0] == ' ' || s[0] == '\t') {
      var more := DropsBlanks(s[1..]);
      blanks := [s[0]] + more;
    } else {
      blanks := [];
    }
  }

  /** A FILE line is blanks, the marker, and the path with whatever whitespace around it. */
  lemma FileLineExactly(line: string, path: string)
    ensures FileLine(line) == Some(path)
       <==> exists blanks, rest :: Blanks(blanks) && line == blanks + (MARKER + rest) && path == Strip(rest)
  {
    hide DropBlanks, Strip;
    if FileLine(line) == Some(path) {
      var blanks := DropsBlanks(line);
      var s := DropBlanks(line);
      assert s == MARKER + s[|MARKER|..];
      assert Blanks(blanks) && line == blanks + (MARKER + s[|MARKER|..]) && path == Strip(s[|MARKER|..]);
    }
    if exists blanks, rest :: Blanks(blanks) && line == blanks + (MARKER + rest) && path == Strip(rest) {
      var blanks, rest :| Blanks(blanks) && line == blanks + (MARKER + rest) && path == Strip(rest);
      BlanksDropped(blanks, MARKER + rest);
      assert (MARKER + rest)[|MARKER|..] == rest;
    }
  }

  datatype Block = Block(written: string, line: nat, fence: nat, content: Option<seq<string>>)

  predicate Closes(line: string, width: nat) {
    ClosingFence(line).Some? && ClosingFence(line).value >= width
  }

  function ClosingIndex(lines: seq<string>, start: nat, width: nat): (index: Option<nat>)
    ensures index.Some? ==> start <= index.value < |lines| && Closes(lines[index.value], width)
    ensures forall i | start <= i < (if index.Some? then index.value else |lines|) :: !Closes(lines[i], width)
    decreases |lines| - start
  {
    if start >= |lines| then None
    else if Closes(lines[start], width) then Some(start)
    else ClosingIndex(lines, start + 1, width)
  }

  method FindClosing(lines: seq<string>, start: nat, width: nat) returns (index: Option<nat>)
    requires start <= |lines|
    ensures index == ClosingIndex(lines, start, width)
  {
    hide Closes;
    for i := start to |lines|
      invariant ClosingIndex(lines, start, width) == ClosingIndex(lines, i, width)
    {
      if Closes(lines[i], width) {
        return Some(i);
      }
    }
    return None;
  }

  // the FILE block, if it is one, that the fence at this index opens, and the index after the fenced block
  function BlockAt(lines: seq<string>, index: nat, width: nat): (found: (seq<Block>, nat))
    requires index < |lines|
    ensures index < found.1 <= |lines| && |found.0| <= 1
  {
    var close := ClosingIndex(lines, index + 1, width);
    var header := if index + 1 < |lines| then FileLine(lines[index + 1]) else None;
    var content := if close.Some? && index + 2 <= close.value then Some(lines[index + 2..close.value])
                   else if close.Some? then Some([]) else None;
    (if header.Some? then [Block(header.value, index + 2, width, content)] else [],
     if close.Some? then close.value + 1 else |lines|)
  }

  function FileBlocksFrom(lines: seq<string>, index: nat): seq<Block>
    decreases |lines| - index
  {
    if index >= |lines| then []
    else match OpeningFence(lines[index])
      case None => FileBlocksFrom(lines, index + 1)
      case Some(width) => var (found, next) := BlockAt(lines, index, width); found + FileBlocksFrom(lines, next)
  }

  lemma BlocksUnfold(lines: seq<string>, index: nat)
    ensures index >= |lines| ==> FileBlocksFrom(lines, index) == []
    ensures index < |lines| && OpeningFence(lines[index]).None? ==>
      FileBlocksFrom(lines, index) == FileBlocksFrom(lines, index + 1)
    ensures index < |lines| && OpeningFence(lines[index]).Some? ==>
      var (found, next) := BlockAt(lines, index, OpeningFence(lines[index]).value);
      FileBlocksFrom(lines, index) == found + FileBlocksFrom(lines, next)
  {
    hide OpeningFence, BlockAt;
  }

  method FindBlocks(lines: seq<string>) returns (blocks: seq<Block>)
    ensures blocks == FileBlocksFrom(lines, 0)
  {
    hide OpeningFence, FileLine, ClosingIndex, FileBlocksFrom;
    blocks := [];
    var index := 0;
    while index < |lines|
      invariant index <= |lines|
      invariant blocks + FileBlocksFrom(lines, index) == FileBlocksFrom(lines, 0)
    {
      BlocksUnfold(lines, index);
      var opening := OpeningFence(lines[index]);
      if opening.None? {
        index := index + 1;
      } else {
        var found, next := FindBlock(lines, index, opening.value);
        blocks := blocks + found;
        index := next;
      }
    }
    BlocksUnfold(lines, index);
  }

  method FindBlock(lines: seq<string>, index: nat, width: nat) returns (found: seq<Block>, next: nat)
    requires index < |lines|
    ensures (found, next) == BlockAt(lines, index, width)
  {
    hide FileLine, Closes;
    found := [];
    var close := FindClosing(lines, index + 1, width);
    var header := if index + 1 < |lines| then FileLine(lines[index + 1]) else None;
    if header.Some? {
      var content := if close.None? then None
                     else if index + 2 <= close.value then Some(lines[index + 2..close.value]) else Some([]);
      found := [Block(header.value, index + 2, width, content)];
    }
    next := if close.None? then |lines| else close.value + 1;
  }

  datatype Code = BadPathCode | DuplicateFile | UnclosedBlock | MissingFile

  // a compile-stage error; its file as written, and its 1-based line, when it has them
  datatype Problem = Problem(code: Code, file: Option<string>, line: Option<nat>)

  datatype Parsed = Parsed(files: map<string, string>, problems: seq<Problem>)

  // what the reader has kept so far
  datatype Reading = Reading(files: map<string, string>, named: set<string>, problems: seq<Problem>)

  function Written(block: Block): Option<string> {
    if block.written == [] then None else Some(block.written)
  }

  function ReadBlock(r: Reading, block: Block): Reading {
    var path := Normalize(block.written);
    var named := r.named + {path};
    match block.content
    case None =>
      Reading(r.files, named, r.problems + [Problem(UnclosedBlock, Written(block), Some(block.line))])
    case Some(content) =>
      if !ValidPath(path) then
        Reading(r.files, named, r.problems + [Problem(BadPathCode, Written(block), Some(block.line))])
      else if path in r.files then
        Reading(r.files, named, r.problems + [Problem(DuplicateFile, Written(block), Some(block.line))])
      else
        Reading(r.files[path := Join(content, '\n') + "\n"], named, r.problems)
  }

  function ReadBlocks(r: Reading, blocks: seq<Block>): Reading
    decreases |blocks|
  {
    if blocks == [] then r else ReadBlocks(ReadBlock(r, blocks[0]), blocks[1..])
  }

  const NOTHING := Reading(map[], {}, [])

  // the expected paths normalized, without repeats, in order
  function Expected(paths: seq<string>): (wanted: seq<string>)
    decreases |paths|
  {
    if paths == [] then []
    else
      var path := Normalize(paths[|paths| - 1]);
      var before := Expected(paths[..|paths| - 1]);
      if path in before then before else before + [path]
  }

  function Missing(wanted: seq<string>, named: set<string>): seq<Problem> {
    if wanted == [] then []
    else (if wanted[0] in named then [] else [Problem(MissingFile, Some(wanted[0]), None)])
         + Missing(wanted[1..], named)
  }

  /** The files and problems of a reply; an expected path that is not valid is the caller's error. */
  function Parse(text: string, expected: seq<string>): Result<Parsed, ()> {
    if exists path :: path in Expected(expected) && !ValidPath(path) then Err(())
    else
      var r := ReadBlocks(NOTHING, FileBlocksFrom(Split(text, '\n'), 0));
      Ok(Parsed(r.files, r.problems + Missing(Expected(expected), r.named)))
  }

  method ParseFileBlocks(text: string, expected: seq<string>) returns (result: Result<Parsed, ()>)
    ensures result == Parse(text, expected)
  {
    hide ValidPath, Normalize, FileBlocksFrom, Split, Join;
    var wanted := Expected(expected);
    if exists path :: path in wanted && !ValidPath(path) {
      return Err(());
    }
    var blocks := FindBlocks(Split(text, '\n'));
    var files: map<string, string>, named: set<string>, problems: seq<Problem> := map[], {}, [];
    for i := 0 to |blocks|
      invariant ReadBlocks(NOTHING, blocks) == ReadBlocks(Reading(files, named, problems), blocks[i..])
    {
      var block := blocks[i];
      var path := Normalize(block.written);
      assert blocks[i..][0] == block && blocks[i..][1..] == blocks[i + 1..];
      named := named + {path};
      if block.content.None? {
        problems := problems + [Problem(UnclosedBlock, Written(block), Some(block.line))];
      } else if !ValidPath(path) {
        problems := problems + [Problem(BadPathCode, Written(block), Some(block.line))];
      } else if path in files {
        problems := problems + [Problem(DuplicateFile, Written(block), Some(block.line))];
      } else {
        files := files[path := Join(block.content.value, '\n') + "\n"];
      }
    }
    return Ok(Parsed(files, problems + Missing(wanted, named)));
  }

  // ----- conservation

  ghost predicate Unclosed(block: Block) {
    block.content.None?
  }

  lemma {:induction false} ReadBlocksCount(r: Reading, blocks: seq<Block>)
    ensures var after := ReadBlocks(r, blocks);
            |after.files| + |after.problems| == |r.files| + |r.problems| + |blocks|
    decreases |blocks|
  {
    hide ValidPath, Normalize;
    if blocks == [] {
    } else {
      ReadBlocksCount(ReadBlock(r, blocks[0]), blocks[1..]);
    }
  }

  lemma {:induction false} OnlyLastUnclosed(lines: seq<string>, index: nat)
    ensures var blocks := FileBlocksFrom(lines, index);
            forall i | 0 <= i < |blocks| && Unclosed(blocks[i]) :: i == |blocks| - 1
    decreases |lines| - index
  {
    hide OpeningFence, FileLine, ClosingIndex;
    BlocksUnfold(lines, index);
    if index >= |lines| {
    } else {
      if OpeningFence(lines[index]).None? {
        OnlyLastUnclosed(lines, index + 1);
      } else {
        var (found, next) := BlockAt(lines, index, OpeningFence(lines[index]).value);
        BlocksUnfold(lines, next);
        OnlyLastUnclosed(lines, next);
      }
    }
  }

  function NotMissing(problems: seq<Problem>): seq<Problem> {
    if problems == [] then []
    else (if problems[0].code == MissingFile then [] else [problems[0]]) + NotMissing(problems[1..])
  }

  lemma {:induction false} NotMissingAppend(a: seq<Problem>, b: seq<Problem>)
    ensures NotMissing(a + b) == NotMissing(a) + NotMissing(b)
  {
    if a == [] {
      assert a + b == b;
    } else {
      assert (a + b)[1..] == a[1..] + b;
      NotMissingAppend(a[1..], b);
    }
  }

  lemma {:induction false} MissingOnly(wanted: seq<string>, named: set<string>)
    ensures NotMissing(Missing(wanted, named)) == []
  {
    if wanted == [] {
    } else {
      MissingOnly(wanted[1..], named);
      if wanted[0] !in named {
        var problem := Problem(MissingFile, Some(wanted[0]), None);
        assert ([problem] + Missing(wanted[1..], named))[1..] == Missing(wanted[1..], named);
      } else {
        assert Missing(wanted, named) == Missing(wanted[1..], named);
      }
    }
  }

  lemma ReadBlockProblems(r: Reading, block: Block)
    requires NotMissing(r.problems) == r.problems
    ensures NotMissing(ReadBlock(r, block).problems) == ReadBlock(r, block).problems
  {
    hide ValidPath, Normalize;
    var next := ReadBlock(r, block);
    if next.problems != r.problems {
      NotMissingAppend(r.problems, [next.problems[|r.problems|]]);
    }
  }

  lemma {:induction false} ReadBlocksProblems(r: Reading, blocks: seq<Block>)
    requires NotMissing(r.problems) == r.problems
    ensures NotMissing(ReadBlocks(r, blocks).problems) == ReadBlocks(r, blocks).problems
    decreases |blocks|
  {
    hide ValidPath, Normalize;
    if blocks == [] {
    } else {
      ReadBlockProblems(r, blocks[0]);
      hide ReadBlock;
      ReadBlocksProblems(ReadBlock(r, blocks[0]), blocks[1..]);
    }
  }

  /**
   * Every FILE block becomes exactly one file or one problem, a missing file being no block's problem; and only the
   * last block can be unclosed.
   */
  lemma BlocksConserved(text: string, expected: seq<string>)
    requires Parse(text, expected).Ok?
    ensures var blocks, parsed := FileBlocksFrom(Split(text, '\n'), 0), Parse(text, expected).value;
      && |blocks| == |parsed.files| + |NotMissing(parsed.problems)|
      && forall i | 0 <= i < |blocks| && Unclosed(blocks[i]) :: i == |blocks| - 1
  {
    hide ValidPath, FileBlocksFrom, Split, ReadBlocks;
    var blocks := FileBlocksFrom(Split(text, '\n'), 0);
    var r := ReadBlocks(NOTHING, blocks);
    ReadBlocksCount(NOTHING, blocks);
    ReadBlocksProblems(NOTHING, blocks);
    NotMissingAppend(r.problems, Missing(Expected(expected), r.named));
    MissingOnly(Expected(expected), r.named);
    OnlyLastUnclosed(Split(text, '\n'), 0);
  }

  // ----- which block gives a file, and what is said of the others

  function PathOf(block: Block): string {
    Normalize(block.written)
  }

  // a closed block with a good path that no closed block before it names
  ghost predicate KeptAt(blocks: seq<Block>, i: nat)
    requires i < |blocks|
  {
    && !Unclosed(blocks[i]) && ValidPath(PathOf(blocks[i]))
    && forall j | 0 <= j < i && !Unclosed(blocks[j]) :: PathOf(blocks[j]) != PathOf(blocks[i])
  }

  // the problem of a block that is not kept
  ghost function ProblemOf(blocks: seq<Block>, i: nat): seq<Problem>
    requires i < |blocks|
  {
    if KeptAt(blocks, i) then []
    else
      var code := if Unclosed(blocks[i]) then UnclosedBlock
                  else if !ValidPath(PathOf(blocks[i])) then BadPathCode else DuplicateFile;
      var file := if blocks[i].written == "" then None else Some(blocks[i].written);
      [Problem(code, file, Some(blocks[i].line))]
  }

  // the problems of the first n blocks, in text order
  ghost function ProblemsOf(blocks: seq<Block>, n: nat): seq<Problem>
    requires n <= |blocks|
  {
    if n == 0 then [] else ProblemsOf(blocks, n - 1) + ProblemOf(blocks, n - 1)
  }

  ghost predicate NamedBy(blocks: seq<Block>, n: nat, named: set<string>)
    requires n <= |blocks|
  {
    forall p :: p in named <==> exists i | 0 <= i < n :: PathOf(blocks[i]) == p
  }

  ghost predicate FilesBy(blocks: seq<Block>, n: nat, files: map<string, string>)
    requires n <= |blocks|
  {
    && (forall p | p in files :: exists i | 0 <= i < n :: KeptAt(blocks, i) && PathOf(blocks[i]) == p)
    && (forall i | 0 <= i < n && !Unclosed(blocks[i]) && ValidPath(PathOf(blocks[i])) :: PathOf(blocks[i]) in files)
    && (forall i | 0 <= i < n && KeptAt(blocks, i) ::
          PathOf(blocks[i]) in files && files[PathOf(blocks[i])] == FileText(blocks[i]))
  }

  // a closed block's lines, each ended
  ghost function FileText(block: Block): string
    requires !Unclosed(block)
  {
    Join(block.content.value, '\n') + "\n"
  }

  ghost predicate ReadAsStated(blocks: seq<Block>, n: nat, r: Reading)
    requires n <= |blocks|
  {
    NamedBy(blocks, n, r.named) && FilesBy(blocks, n, r.files) && r.problems == ProblemsOf(blocks, n)
  }

  lemma {:induction false} ReadBlocksSnoc(r: Reading, blocks: seq<Block>, block: Block)
    ensures ReadBlocks(r, blocks + [block]) == ReadBlock(ReadBlocks(r, blocks), block)
    decreases |blocks|
  {
    hide ReadBlock;
    if blocks == [] {
      assert [block][1..] == [];
    } else {
      assert (blocks + [block])[1..] == blocks[1..] + [block];
      ReadBlocksSnoc(ReadBlock(r, blocks[0]), blocks[1..], block);
    }
  }

  // the next block is kept exactly when it is closed and names a good path no file has yet
  lemma KeptNext(blocks: seq<Block>, n: nat, files: map<string, string>)
    requires n < |blocks| && FilesBy(blocks, n, files)
    ensures KeptAt(blocks, n)
       <==> !Unclosed(blocks[n]) && ValidPath(PathOf(blocks[n])) && PathOf(blocks[n]) !in files
  {
    hide ValidPath, PathOf, FileText;
    if PathOf(blocks[n]) in files {
      var i :| 0 <= i < n && KeptAt(blocks, i) && PathOf(blocks[i]) == PathOf(blocks[n]);
      assert !Unclosed(blocks[i]);
    }
  }

  lemma FilesNext(blocks: seq<Block>, n: nat, files: map<string, string>)
    requires n < |blocks| && FilesBy(blocks, n, files)
    ensures FilesBy(blocks, n + 1,
      if KeptAt(blocks, n) then files[PathOf(blocks[n]) := FileText(blocks[n])] else files)
  {
    hide ValidPath, PathOf, FileText, KeptAt;
    KeptNext(blocks, n, files);
  }

  lemma OneMoreRead(blocks: seq<Block>, n: nat, r: Reading)
    requires n < |blocks| && ReadAsStated(blocks, n, r)
    ensures ReadAsStated(blocks, n + 1, ReadBlock(r, blocks[n]))
  {
    KeptNext(blocks, n, r.files);
    FilesNext(blocks, n, r.files);
    NamedNext(blocks, n, r.named);
    hide ValidPath, Normalize, Join, FilesBy, NamedBy, KeptAt;
  }

  lemma NamedNext(blocks: seq<Block>, n: nat, named: set<string>)
    requires n < |blocks| && NamedBy(blocks, n, named)
    ensures NamedBy(blocks, n + 1, named + {PathOf(blocks[n])})
  {
    hide PathOf;
  }

  lemma {:induction false} ReadExactly(blocks: seq<Block>, n: nat)
    requires n <= |blocks|
    ensures ReadAsStated(blocks, n, ReadBlocks(NOTHING, blocks[..n]))
  {
    hide ReadAsStated, ReadBlock;
    if n == 0 {
      NoneRead(blocks);
    } else {
      ReadExactly(blocks, n - 1);
      assert blocks[..n] == blocks[..n - 1] + [blocks[n - 1]];
      ReadBlocksSnoc(NOTHING, blocks[..n - 1], blocks[n - 1]);
      OneMoreRead(blocks, n - 1, ReadBlocks(NOTHING, blocks[..n - 1]));
    }
  }

  lemma NoneRead(blocks: seq<Block>)
    ensures ReadAsStated(blocks, 0, ReadBlocks(NOTHING, blocks[..0]))
  {
  }

  lemma {:induction false} MissingExactly(wanted: seq<string>, named: set<string>, path: string)
    ensures Problem(MissingFile, Some(path), None) in Missing(wanted, named) <==> path in wanted && path !in named
    ensures forall p | p in Missing(wanted, named) :: p.code == MissingFile
  {
    if wanted == [] {
    } else {
      MissingExactly(wanted[1..], named, path);
    }
  }

  // each file is the text of the first closed block that names it
  ghost predicate FilesOfFirstBlocks(blocks: seq<Block>, files: map<string, string>) {
    && (forall path | path in files :: exists i | 0 <= i < |blocks| :: KeptAt(blocks, i) && PathOf(blocks[i]) == path)
    && (forall i | 0 <= i < |blocks| && KeptAt(blocks, i) ::
          PathOf(blocks[i]) in files && files[PathOf(blocks[i])] == FileText(blocks[i]))
  }

  // an expected file is missing exactly when no block names it
  ghost predicate MissingOfUnnamed(blocks: seq<Block>, wanted: seq<string>, problems: seq<Problem>) {
    forall path ::
      Problem(MissingFile, Some(path), None) in problems
      <==> path in wanted && forall i | 0 <= i < |blocks| :: PathOf(blocks[i]) != path
  }

  /**
   * Reading any reply: each file is the text of the first closed block that names it, every other block has its own
   * problem, in text order, and then each expected file that no block names is missing.
   */
  lemma ParseExactly(text: string, expected: seq<string>)
    requires Parse(text, expected).Ok?
    ensures var blocks, parsed := FileBlocksFrom(Split(text, '\n'), 0), Parse(text, expected).value;
      var n := |ProblemsOf(blocks, |blocks|)|;
      && FilesOfFirstBlocks(blocks, parsed.files)
      && n <= |parsed.problems| && parsed.problems[..n] == ProblemsOf(blocks, |blocks|)
      && MissingOfUnnamed(blocks, Expected(expected), parsed.problems[n..])
  {
    hide ValidPath, Normalize, Join, FileBlocksFrom, Split, ReadBlocks, KeptAt, Expected, ProblemsOf, PathOf,
      ReadAsStated,
      FilesOfFirstBlocks, MissingOfUnnamed, Missing;
    var blocks := FileBlocksFrom(Split(text, '\n'), 0);
    ReadExactly(blocks, |blocks|);
    assert blocks[..|blocks|] == blocks;
    ReadStated(blocks, ReadBlocks(NOTHING, blocks), Expected(expected));
  }

  lemma ReadStated(blocks: seq<Block>, r: Reading, wanted: seq<string>)
    requires ReadAsStated(blocks, |blocks|, r)
    ensures FilesOfFirstBlocks(blocks, r.files) && r.problems == ProblemsOf(blocks, |blocks|)
    ensures MissingOfUnnamed(blocks, wanted, Missing(wanted, r.named))
  {
    hide ValidPath, Normalize, Join, ProblemsOf, PathOf, KeptAt, Missing;
    forall path
      ensures Problem(MissingFile, Some(path), None) in Missing(wanted, r.named) <==> path in wanted && path !in r.named
    {
      MissingExactly(wanted, r.named, path);
    }
  }

  /** A reply without a problem gave every expected file. */
  lemma NoProblemNoneMissing(text: string, expected: seq<string>)
    requires Parse(text, expected).Ok? && Parse(text, expected).value.problems == []
    ensures forall path | path in Expected(expected) :: path in Parse(text, expected).value.files
  {
    hide FileBlocksFrom, Split, ReadBlocks, Expected, ProblemsOf, ProblemOf, Join, Normalize, ValidPath;
    var blocks := FileBlocksFrom(Split(text, '\n'), 0);
    ReadExactly(blocks, |blocks|);
    assert blocks[..|blocks|] == blocks;
    forall path | path in Expected(expected)
      ensures path in Parse(text, expected).value.files
    {
      MissingExactly(Expected(expected), ReadBlocks(NOTHING, blocks).named, path);
      var i :| 0 <= i < |blocks| && PathOf(blocks[i]) == path;
      NoProblemKept(blocks, |blocks|, i);
    }
  }

  lemma {:induction false} ProblemsOfBlocks(blocks: seq<Block>, n: nat)
    requires n <= |blocks|
    ensures ProblemsOf(blocks, n) == [] <==> forall i | 0 <= i < n :: KeptAt(blocks, i)
    ensures forall p | p in ProblemsOf(blocks, n) :: p.code != MissingFile
  {
    hide KeptAt, ProblemOf, ProblemsOf;
    ProblemsUnfold(blocks, n);
    if n == 0 {
    } else {
      ProblemsOfBlocks(blocks, n - 1);
    }
  }

  lemma ProblemsUnfold(blocks: seq<Block>, n: nat)
    requires n <= |blocks|
    ensures n == 0 ==> ProblemsOf(blocks, n) == []
    ensures n > 0 ==>
      var problem := ProblemOf(blocks, n - 1);
      && ProblemsOf(blocks, n) == ProblemsOf(blocks, n - 1) + problem
      && (problem == [] <==> KeptAt(blocks, n - 1)) && forall p | p in problem :: p.code != MissingFile
  {
    hide KeptAt, PathOf, ValidPath;
  }

  /** The reader finds no fault but missing files, and a file, exactly when there are blocks and each gives a file. */
  lemma UsableExactly(text: string, expected: seq<string>)
    requires Parse(text, expected).Ok?
    ensures var blocks, parsed := FileBlocksFrom(Split(text, '\n'), 0), Parse(text, expected).value;
      parsed.files != map[] && (forall p | p in parsed.problems :: p.code == MissingFile)
      <==> blocks != [] && forall i | 0 <= i < |blocks| :: KeptAt(blocks, i)
  {
    hide ValidPath, Normalize, FileBlocksFrom, Split, ReadBlocks, KeptAt, Expected, ProblemsOf, ProblemOf, PathOf,
      FileText;
    var blocks := FileBlocksFrom(Split(text, '\n'), 0);
    var r := ReadBlocks(NOTHING, blocks);
    var own, missing := ProblemsOf(blocks, |blocks|), Missing(Expected(expected), r.named);
    ReadExactly(blocks, |blocks|);
    assert blocks[..|blocks|] == blocks;
    ProblemsOfBlocks(blocks, |blocks|);
    MissingExactly(Expected(expected), r.named, "");
    assert own != [] ==> own[0] in own + missing;
    SomeFile(blocks, r.files);
  }

  lemma SomeFile(blocks: seq<Block>, files: map<string, string>)
    requires FilesBy(blocks, |blocks|, files)
    ensures files != map[] <==> exists i | 0 <= i < |blocks| :: KeptAt(blocks, i)
    ensures blocks != [] && (forall i | 0 <= i < |blocks| :: KeptAt(blocks, i)) ==> files != map[]
  {
    hide KeptAt, PathOf, FileText, ValidPath;
    if files != map[] {
      var path :| path in files;
    }
    if blocks != [] && forall i | 0 <= i < |blocks| :: KeptAt(blocks, i) {
      assert KeptAt(blocks, 0);
    }
  }

  lemma {:induction false} NoProblemKept(blocks: seq<Block>, n: nat, i: nat)
    requires i < n <= |blocks| && ProblemsOf(blocks, n) == []
    ensures KeptAt(blocks, i)
    decreases n
  {
    hide KeptAt;
    if i >= n - 1 {
    } else {
      NoProblemKept(blocks, n - 1, i);
    }
  }

  // ----- what the reader makes of lines, one fenced block after another

  // the FILE block a fenced block is: its first line is a FILE line, and the others are its content
  function BlockOf(body: seq<string>, line: nat, width: nat, closed: bool): seq<Block> {
    if body == [] || FileLine(body[0]).None? then []
    else [Block(FileLine(body[0]).value, line, width, if closed then Some(body[1..]) else None)]
  }

  function Shifted(blocks: seq<Block>, n: nat): (shifted: seq<Block>)
    ensures |shifted| == |blocks|
    ensures forall i | 0 <= i < |blocks| :: shifted[i] == blocks[i].(line := blocks[i].line + n)
  {
    seq(|blocks|, i requires 0 <= i < |blocks| => blocks[i].(line := blocks[i].line + n))
  }

  ghost predicate NoneOpens(lines: seq<string>) {
    forall line | line in lines :: OpeningFence(line).None?
  }

  ghost predicate NoneCloses(lines: seq<string>, width: nat) {
    forall line | line in lines :: !Closes(line, width)
  }

  lemma {:induction false} PlainSkipped(lines: seq<string>, from: nat, to: nat)
    requires from <= to <= |lines| && NoneOpens(lines[from..to])
    ensures FileBlocksFrom(lines, from) == FileBlocksFrom(lines, to)
    decreases |lines| - from
  {
    hide FileBlocksFrom, OpeningFence;
    if from == to {
    } else {
      assert lines[from] == lines[from..to][0] && lines[from] in lines[from..to];
      assert forall line | line in lines[from + 1..to] :: line in lines[from..to];
      BlocksUnfold(lines, from);
      PlainSkipped(lines, from + 1, to);
    }
  }

  /** Lines of which none opens a fence hold no block. */
  lemma PlainHoldsNone(lines: seq<string>)
    requires NoneOpens(lines)
    ensures FileBlocksFrom(lines, 0) == []
  {
    hide FileBlocksFrom, OpeningFence;
    assert lines[0..|lines|] == lines;
    PlainSkipped(lines, 0, |lines|);
    BlocksUnfold(lines, |lines|);
  }

  // a closing fence is no FILE line
  lemma ClosingNoFileLine(line: string, width: nat)
    requires Closes(line, width)
    ensures FileLine(line).None?
  {
    hide LeadingRun;
    RunsShape(line);
    var spaces, ticks := LeadingRun(line, ' '), LeadingRun(line[LeadingRun(line, ' ')..], '`');
    assert line[spaces] == '`';
    assert forall i | 0 <= i < spaces :: line[i] == ' ';
    BlanksThen(line, spaces);
  }

  lemma {:induction false} BlanksThen(line: string, n: nat)
    requires n < |line| && (forall i | 0 <= i < n :: line[i] == ' ') && line[n] != ' ' && line[n] != '\t'
    ensures DropBlanks(line) == line[n..]
  {
    if n == 0 {
    } else {
      BlanksThen(line[1..], n - 1);
    }
  }

  /**
   * The first fenced block: it is one FILE block when it begins with a FILE line and none otherwise, and the rest are
   * the blocks of the lines after its closing fence, read as if they stood alone.
   */
  lemma FirstFence(before: seq<string>, open: string, width: nat, body: seq<string>, close: string, after: seq<string>)
    requires NoneOpens(before) && OpeningFence(open) == Some(width)
    requires NoneCloses(body, width) && Closes(close, width)
    ensures FileBlocksFrom(before + [open] + body + [close] + after, 0)
         == BlockOf(body, |before| + 2, width, true)
            + Shifted(FileBlocksFrom(after, 0), |before| + |body| + 2)
  {
    hide FileBlocksFrom, OpeningFence, Closes, FileLine, ClosingIndex, BlockOf, NoneOpens;
    var lines := before + [open] + body + [close] + after;
    var n, c := |before|, |before| + 1 + |body|;
    assert lines[0..n] == before;
    PlainSkipped(lines, 0, n);
    forall i | n + 1 <= i < c
      ensures !Closes(lines[i], width)
    {
      assert lines[i] == body[i - n - 1] && lines[i] in body;
    }
    assert lines[c] == close;
    ClosingIs(lines, n + 1, width, c);
    ClosingNoFileLine(close, width);
    FenceRead(lines, n, width, c, body);
    BlocksUnfold(lines, n);
    assert lines[c + 1..] == after;
    Standing(lines, c + 1, 0);
  }

  lemma FenceRead(lines: seq<string>, n: nat, width: nat, close: nat, body: seq<string>)
    requires n < close < |lines| && ClosingIndex(lines, n + 1, width) == Some(close)
    requires lines[n + 1..close] == body && FileLine(lines[close]).None?
    ensures BlockAt(lines, n, width) == (BlockOf(body, n + 2, width, true), close + 1)
  {
    hide FileLine, ClosingIndex;
    if body != [] {
      assert lines[n + 1] == body[0] && lines[n + 2..close] == body[1..];
    }
  }

  /** A fence that is never closed takes all that follows it, and leaves an unclosed block when it begins a FILE one. */
  lemma LastFence(before: seq<string>, open: string, width: nat, body: seq<string>)
    requires NoneOpens(before) && OpeningFence(open) == Some(width) && NoneCloses(body, width)
    ensures FileBlocksFrom(before + [open] + body, 0) == BlockOf(body, |before| + 2, width, false)
  {
    hide FileBlocksFrom, OpeningFence, Closes, FileLine, ClosingIndex, NoneOpens;
    var lines, n := before + [open] + body, |before|;
    assert lines[0..n] == before;
    PlainSkipped(lines, 0, n);
    forall i | n + 1 <= i < |lines|
      ensures !Closes(lines[i], width)
    {
      assert lines[i] == body[i - n - 1] && lines[i] in body;
    }
    NeverCloses(lines, n + 1, width);
    BlocksUnfold(lines, n);
    BlocksUnfold(lines, |lines|);
    assert body != [] ==> lines[n + 1] == body[0];
  }

  lemma NeverCloses(lines: seq<string>, start: nat, width: nat)
    requires forall i | start <= i < |lines| :: !Closes(lines[i], width)
    ensures ClosingIndex(lines, start, width) == None
  {
    hide Closes;
  }

  lemma {:induction false} ClosingStands(lines: seq<string>, n: nat, start: nat, width: nat)
    requires n <= |lines|
    ensures ClosingIndex(lines, n + start, width)
         == match ClosingIndex(lines[n..], start, width)
            case None => None
            case Some(index) => Some(n + index)
    decreases |lines| - start
  {
    hide Closes;
    if n + start < |lines| {
      assert lines[n..][start] == lines[n + start];
      ClosingStands(lines, n, start + 1, width);
    }
  }

  // what is read from some line on is what the lines from there hold alone
  lemma {:induction false} Standing(lines: seq<string>, n: nat, index: nat)
    requires n + index <= |lines|
    ensures FileBlocksFrom(lines, n + index) == Shifted(FileBlocksFrom(lines[n..], index), n)
    decreases |lines| - index
  {
    hide FileBlocksFrom, OpeningFence, ClosingIndex, FileLine;
    var alone := lines[n..];
    BlocksUnfold(lines, n + index);
    BlocksUnfold(alone, index);
    if n + index < |lines| {
      assert alone[index] == lines[n + index];
      if OpeningFence(alone[index]).None? {
        Standing(lines, n, index + 1);
      } else {
        var width := OpeningFence(alone[index]).value;
        BlockStands(lines, n, index, width);
        var (_, next) := BlockAt(alone, index, width);
        Standing(lines, n, next);
      }
    }
  }

  lemma SameShifted(blocks: seq<Block>, alone: seq<Block>, n: nat)
    requires |blocks| == |alone| <= 1
    requires blocks != [] ==> blocks[0] == alone[0].(line := alone[0].line + n)
    ensures blocks == Shifted(alone, n)
  {
  }

  lemma BlockStands(lines: seq<string>, n: nat, index: nat, width: nat)
    requires n + index < |lines|
    ensures BlockAt(lines, n + index, width)
         == (Shifted(BlockAt(lines[n..], index, width).0, n), n + BlockAt(lines[n..], index, width).1)
  {
    hide ClosingIndex, FileLine;
    var alone := lines[n..];
    ClosingStands(lines, n, index + 1, width);
    assert index + 1 < |alone| ==> alone[index + 1] == lines[n + index + 1];
    var close := ClosingIndex(alone, index + 1, width);
    hide Shifted;
    assert close.Some? && index + 2 <= close.value ==>
      alone[index + 2..close.value] == lines[n + index + 2..n + close.value];
    SameShifted(BlockAt(lines, n + index, width).0, BlockAt(alone, index, width).0, n);
  }

  // ----- a rendered text, line by line

  // the text of a file without its final newline
  function Body(text: string): string {
    var body := WithNewline(text);
    body[..|body| - 1]
  }

  function BlockLines(path: string, text: string): (lines: seq<string>)
    ensures |lines| >= 4
  {
    var fence := Repeated('`', FenceWidth(text));
    [fence + LanguageFor(path), MARKER + " " + path] + Split(Body(text), '\n') + [fence]
  }

  function AllLines(paths: seq<string>, files: map<string, string>): seq<string>
    requires forall path | path in paths :: path in files
  {
    if paths == [] then [""]
    else
      BlockLines(paths[0], files[paths[0]]) + [""] + (if |paths| == 1 then [] else AllLines(paths[1..], files))
  }

  lemma LanguagePlain(path: string)
    ensures '`' !in LanguageFor(path) && '\n' !in LanguageFor(path)
  {
    hide SuffixFrom, Lower, Split;
  }

  lemma BlockSplits(path: string, text: string)
    requires '\n' !in path
    ensures Split(BlockText(path, text), '\n') == BlockLines(path, text) + [""]
  {
    hide Split, LanguageFor, FenceWidth, Body;
    var fence, body := Repeated('`', FenceWidth(text)), Body(text);
    var opening, marker := fence + LanguageFor(path), MARKER + " " + path;
    LanguagePlain(path);
    SplitLines(opening, marker, body, fence);
    BlockTextLines(path, text);
  }

  lemma BlockTextLines(path: string, text: string)
    ensures var fence := Repeated('`', FenceWidth(text));
            BlockText(path, text) == (fence + LanguageFor(path)) + ['\n']
              + ((MARKER + " " + path) + ['\n'] + (Body(text) + ['\n'] + (fence + ['\n'] + "")))
  {
    hide LanguageFor, FenceWidth;
    assert WithNewline(text) == Body(text) + ['\n'];
    assert "// FILE: " == MARKER + " ";
  }

  lemma SplitLines(a: string, b: string, c: string, d: string)
    requires '\n' !in a && '\n' !in b && '\n' !in d
    ensures Split(a + ['\n'] + (b + ['\n'] + (c + ['\n'] + (d + ['\n'] + ""))), '\n')
         == [a, b] + Split(c, '\n') + [d] + [""]
  {
    hide Split;
    var last, third := d + ['\n'] + "", c + ['\n'] + (d + ['\n'] + "");
    SplitPlain("", '\n');
    FirstLine(d, "");
    SplitAppend(c, last, '\n');
    FirstLine(b, third);
    FirstLine(a, b + ['\n'] + third);
  }

  lemma FirstLine(line: string, rest: string)
    requires '\n' !in line
    ensures Split(line + ['\n'] + rest, '\n') == [line] + Split(rest, '\n')
  {
    hide Split;
    SplitPlain(line, '\n');
    SplitAppend(line, rest, '\n');
  }

  lemma {:induction false} BlocksSplit(paths: seq<string>, files: map<string, string>)
    requires forall path | path in paths :: path in files && '\n' !in path
    ensures Split(Blocks(paths, files), '\n') == AllLines(paths, files)
    decreases |paths|
  {
    hide Split, BlockText, BlockLines;
    if paths == [] {
      SplitPlain("", '\n');
    } else {
      var first := BlockText(paths[0], files[paths[0]]);
      BlockSplits(paths[0], files[paths[0]]);
      if |paths| > 1 {
        BlocksSplit(paths[1..], files);
        SplitAppend(first, Blocks(paths[1..], files), '\n');
        assert first + "\n" + Blocks(paths[1..], files) == first + ['\n'] + Blocks(paths[1..], files);
      }
    }
  }

  // ----- the reader on a rendered block

  // no line of a file closes the file's fence
  lemma BodyNeverCloses(text: string, i: nat)
    requires i < |Split(Body(text), '\n')|
    ensures !Closes(Split(Body(text), '\n')[i], FenceWidth(text))
  {
    hide Split, LongestRun, LeadingRun;
    var line := Split(Body(text), '\n')[i];
    PartRun(Body(text), '\n', '`', i);
    SuffixRun(line, LeadingRun(line, ' '), '`');
    if Body(text) != text {
      assert text == Body(text) + "\n";
      LongestRunAppend(Body(text), "\n", '`');
    }
  }

  lemma FenceOpens(width: nat, language: string)
    requires width >= 3 && '`' !in language
    ensures OpeningFence(Repeated('`', width) + language) == Some(width)
  {
    var line := Repeated('`', width) + language;
    assert line[0] == '`';
    assert LeadingRun(line, ' ') == 0 && line[0..] == line;
    RepeatedRun('`', width, language);
    assert line[width..] == language;
  }

  lemma FenceCloses(width: nat)
    requires width >= 3
    ensures Closes(Repeated('`', width), width)
  {
    var line := Repeated('`', width);
    assert line[0] == '`';
    assert LeadingRun(line, ' ') == 0 && line[0..] == line;
    RepeatedRun('`', width, "");
    assert line + "" == line;
    assert line[width..] == "";
  }

  lemma MarkerLine(path: string)
    requires ValidPath(path)
    ensures FileLine(MARKER + " " + path) == Some(path)
    ensures !Closes(MARKER + " " + path, 3)
  {
    hide Split;
    var line := MARKER + " " + path;
    assert line[0] == '/';
    assert DropBlanks(line) == line;
    assert line[|MARKER|..] == [' '] + path;
    StripKeeps(path);
    assert LeadingRun(line, ' ') == 0 && line[0..] == line;
  }

  lemma ClosesWider(line: string, narrow: nat, wide: nat)
    requires narrow <= wide && Closes(line, wide)
    ensures Closes(line, narrow)
  {
  }

  lemma RenderedBlock(lines: seq<string>, index: nat, path: string, text: string)
    requires ValidPath(path)
    requires index + |BlockLines(path, text)| <= |lines|
    requires lines[index..index + |BlockLines(path, text)|] == BlockLines(path, text)
    ensures OpeningFence(lines[index]) == Some(FenceWidth(text))
    ensures BlockAt(lines, index, FenceWidth(text))
         == ([Block(path, index + 2, FenceWidth(text), Some(Split(Body(text), '\n')))],
             index + |BlockLines(path, text)|)
  {
    hide Split, ValidPath, LanguageFor, FenceWidth, Closes, OpeningFence, FileLine, Body, ClosingIndex;
    var width, body := FenceWidth(text), Split(Body(text), '\n');
    var block := BlockLines(path, text);
    var close := index + 2 + |body|;
    FenceAtLeastThree(text);
    SliceIndex(lines, index, block);
    assert block[0] == Repeated('`', width) + LanguageFor(path);
    assert block[1] == MARKER + " " + path;
    assert block[2 + |body|] == Repeated('`', width);
    LanguagePlain(path);
    FenceOpens(width, LanguageFor(path));
    FenceCloses(width);
    MarkerLine(path);
    if Closes(lines[index + 1], width) {
      ClosesWider(lines[index + 1], 3, width);
    }
    forall i | index + 2 <= i < close
      ensures !Closes(lines[i], width)
    {
      assert block[i - index] == body[i - index - 2];
      BodyNeverCloses(text, i - index - 2);
    }
    ClosingIs(lines, index + 1, width, close);
    assert lines[index + 2..close] == block[2..2 + |body|] == body;
  }

  lemma SliceIndex(lines: seq<string>, index: nat, block: seq<string>)
    requires index + |block| <= |lines| && lines[index..index + |block|] == block
    ensures forall i {:trigger block[i]} | 0 <= i < |block| :: lines[index + i] == block[i]
  {
  }

  lemma ClosingIs(lines: seq<string>, start: nat, width: nat, close: nat)
    requires start <= close < |lines| && Closes(lines[close], width)
    requires forall i | start <= i < close :: !Closes(lines[i], width)
    ensures ClosingIndex(lines, start, width) == Some(close)
  {
    hide Closes;
  }

  lemma FenceAtLeastThree(text: string)
    ensures FenceWidth(text) >= 3
  {
  }

  // ----- the reader on a whole rendered text

  ghost predicate Renderable(paths: seq<string>, files: map<string, string>) {
    && NoRepeats(paths)
    && forall path | path in paths :: path in files && ValidPath(path)
  }

  function Rendered(paths: seq<string>, files: map<string, string>): map<string, string>
    requires forall path | path in paths :: path in files
  {
    map path | path in paths :: WithNewline(files[path])
  }

  lemma ValidPathOneLine(path: string)
    requires ValidPath(path)
    ensures '\n' !in path
  {
  }

  lemma ReadsOneBlock(r: Reading, path: string, text: string, line: nat, width: nat)
    requires ValidPath(path) && path !in r.files
    ensures ReadBlock(r, Block(path, line, width, Some(Split(Body(text), '\n'))))
         == Reading(r.files[path := WithNewline(text)], r.named + {path}, r.problems)
  {
    hide Split, ValidPath;
    ValidPathNormal(path);
    JoinSplit(Body(text), '\n');
    assert Body(text) + "\n" == WithNewline(text);
  }

  lemma {:induction false} ReadsRendered(
      r: Reading, lines: seq<string>, index: nat, paths: seq<string>, files: map<string, string>)
    requires Renderable(paths, files) && paths != []
    requires forall path | path in paths :: path !in r.files
    requires index <= |lines| && lines[index..] == AllLines(paths, files)
    ensures ReadBlocks(r, FileBlocksFrom(lines, index))
         == Reading(r.files + Rendered(paths, files), r.named + (set path | path in paths), r.problems)
    decreases |paths|
  {
    hide ValidPath, Split, BlockLines, FenceWidth, Body, ReadBlock, ReadBlocks, FileBlocksFrom, AllLines, WithNewline,
      Rendered;
    var path, rest := paths[0], paths[1..];
    var text := files[path];
    var next := index + |BlockLines(path, text)|;
    AllLinesCons(lines, index, paths, files);
    BlocksThenRest(lines, index, path, text);
    ReadsOneBlock(r, path, text, index + 2, FenceWidth(text));
    var after := Reading(r.files[path := WithNewline(text)], r.named + {path}, r.problems);
    RenderedCons(r, paths, files);
    var block := Block(path, index + 2, FenceWidth(text), Some(Split(Body(text), '\n')));
    ReadFirst(r, block, FileBlocksFrom(lines, next + 1));
    if rest == [] {
      BlocksUnfold(lines, next + 1);
      NothingMore(after, rest, files);
    } else {
      assert forall p | p in rest :: p in paths && p != path;
      ReadsRendered(after, lines, next + 1, rest, files);
    }
  }

  lemma ReadFirst(r: Reading, block: Block, blocks: seq<Block>)
    ensures ReadBlocks(r, [block] + blocks) == ReadBlocks(ReadBlock(r, block), blocks)
  {
    hide ReadBlock;
    assert ([block] + blocks)[1..] == blocks;
  }

  lemma NothingMore(r: Reading, paths: seq<string>, files: map<string, string>)
    requires paths == []
    ensures ReadBlocks(r, []) == r && r.files + Rendered(paths, files) == r.files
    ensures r.named + (set path | path in paths) == r.named
  {
  }

  // where the first rendered block ends, and what follows its blank line
  lemma AllLinesCons(lines: seq<string>, index: nat, paths: seq<string>, files: map<string, string>)
    requires paths != [] && forall path | path in paths :: path in files
    requires index <= |lines| && lines[index..] == AllLines(paths, files)
    ensures var block := BlockLines(paths[0], files[paths[0]]);
      && index + |block| < |lines| && lines[index..index + |block|] == block && lines[index + |block|] == ""
      && (|paths| == 1 ==> |lines| == index + |block| + 1)
      && (|paths| > 1 ==> lines[index + |block| + 1..] == AllLines(paths[1..], files))
  {
    hide BlockLines;
    hide AllLines;
    var tail := if |paths| == 1 then [] else AllLines(paths[1..], files);
    AllLinesUnfold(paths, files);
    SuffixParts(lines, index, BlockLines(paths[0], files[paths[0]]), tail);
  }

  lemma AllLinesUnfold(paths: seq<string>, files: map<string, string>)
    requires paths != [] && forall path | path in paths :: path in files
    ensures AllLines(paths, files)
         == BlockLines(paths[0], files[paths[0]]) + [""] + (if |paths| == 1 then [] else AllLines(paths[1..], files))
  {
  }

  lemma SuffixParts(lines: seq<string>, index: nat, block: seq<string>, tail: seq<string>)
    requires index <= |lines| && lines[index..] == block + [""] + tail
    ensures index + |block| < |lines| && lines[index..index + |block|] == block && lines[index + |block|] == ""
    ensures lines[index + |block| + 1..] == tail && |lines| == index + |block| + 1 + |tail|
  {
    var suffix := lines[index..];
    assert suffix[..|block|] == block && suffix[|block|] == "" && suffix[|block| + 1..] == tail;
  }

  lemma BlocksThenRest(lines: seq<string>, index: nat, path: string, text: string)
    requires ValidPath(path)
    requires var size := |BlockLines(path, text)|;
      index + size < |lines| && lines[index..index + size] == BlockLines(path, text) && lines[index + size] == ""
    ensures var block := Block(path, index + 2, FenceWidth(text), Some(Split(Body(text), '\n')));
      FileBlocksFrom(lines, index) == [block] + FileBlocksFrom(lines, index + |BlockLines(path, text)| + 1)
  {
    hide ValidPath, Split, BlockLines, FenceWidth, Body, FileBlocksFrom, OpeningFence, BlockAt;
    RenderedBlock(lines, index, path, text);
    BlankOpensNothing();
    BlocksUnfold(lines, index);
    BlocksUnfold(lines, index + |BlockLines(path, text)|);
  }

  lemma BlankOpensNothing()
    ensures OpeningFence("") == None
  {
  }

  lemma RenderedCons(r: Reading, paths: seq<string>, files: map<string, string>)
    requires Renderable(paths, files) && paths != []
    ensures r.files[paths[0] := WithNewline(files[paths[0]])] + Rendered(paths[1..], files)
         == r.files + Rendered(paths, files)
    ensures r.named + {paths[0]} + (set path | path in paths[1..]) == r.named + (set path | path in paths)
  {
    hide ValidPath, WithNewline, Rendered;
    FirstAndRest(paths);
    assert paths[0] !in paths[1..];
    RenderedFirst(paths, files);
  }

  lemma FirstAndRest(paths: seq<string>)
    requires paths != []
    ensures (set path | path in paths) == {paths[0]} + (set path | path in paths[1..])
  {
    assert forall p :: p in paths <==> p == paths[0] || p in paths[1..];
  }

  lemma RenderedFirst(paths: seq<string>, files: map<string, string>)
    requires paths != [] && paths[0] !in paths[1..] && forall path | path in paths :: path in files
    ensures Rendered(paths, files) == map[paths[0] := WithNewline(files[paths[0]])] + Rendered(paths[1..], files)
  {
    hide WithNewline;
    assert forall p :: p in paths <==> p == paths[0] || p in paths[1..];
  }

  /**
   * The reader inverts the writer: every file comes back, ending with a newline, whatever backticks and fence-like
   * lines the texts hold, and the only problems are expected files that were not written.
   */
  lemma ParseRender(paths: seq<string>, files: map<string, string>, expected: seq<string>)
    requires Renderable(paths, files) && paths != []
    requires forall path | path in Expected(expected) :: ValidPath(path)
    ensures Render(paths, files).Ok?
    ensures Parse(Render(paths, files).value, expected)
         == Ok(Parsed(Rendered(paths, files), Missing(Expected(expected), set path | path in paths)))
  {
    hide ValidPath, Split, Blocks, AllLines, FileBlocksFrom, ReadBlocks, Rendered, Missing, Expected;
    var text := Blocks(paths, files);
    forall path | path in paths ensures '\n' !in path { ValidPathOneLine(path); }
    BlocksSplit(paths, files);
    var lines := Split(text, '\n');
    assert lines[0..] == lines;
    ReadsRendered(NOTHING, lines, 0, paths, files);
    assert map[] + Rendered(paths, files) == Rendered(paths, files);
    assert {} + (set path | path in paths) == (set path | path in paths);
    assert [] + Missing(Expected(expected), set path | path in paths)
        == Missing(Expected(expected), set path | path in paths);
  }

  // ----- what the reader reads can be written and read again

  ghost predicate Readable(files: map<string, string>) {
    forall path | path in files :: ValidPath(path) && WithNewline(files[path]) == files[path]
  }

  lemma {:induction false} ReadBlocksReadable(r: Reading, blocks: seq<Block>)
    requires Readable(r.files)
    ensures Readable(ReadBlocks(r, blocks).files)
    decreases |blocks|
  {
    hide ValidPath, Normalize, Join;
    if blocks == [] {
    } else {
      ReadBlocksReadable(ReadBlock(r, blocks[0]), blocks[1..]);
    }
  }

  /** Rendering the files of any reply, in any order, and reading them again changes nothing and finds no problem. */
  lemma RenderParsed(reply: string, expected: seq<string>, paths: seq<string>)
    requires Parse(reply, expected).Ok?
    requires NoRepeats(paths) && paths != []
    requires (set path | path in paths) == Parse(reply, expected).value.files.Keys
    ensures var files := Parse(reply, expected).value.files;
      && Render(paths, files).Ok?
      && Parse(Render(paths, files).value, []) == Ok(Parsed(files, []))
  {
    hide ValidPath, ReadBlocks, FileBlocksFrom, Split, WithNewline, Render;
    var files := Parse(reply, expected).value.files;
    ReadBlocksReadable(NOTHING, FileBlocksFrom(Split(reply, '\n'), 0));
    forall path | path in paths
      ensures path in files
    {
      assert path in (set p | p in paths);
    }
    ParseRender(paths, files, []);
    assert Rendered(paths, files) == files by {
      assert forall path :: path in files ==> path in (set p | p in paths);
    }
  }
}
