# A verified model of LASSI-TT's core logic

LASSI-TT translates programs between languages with a language model, builds and runs what comes back, and feeds
errors to the model until the result compiles and runs. This project models the parts of it that hold the hard logic
and proves what they are for. Every model is written from the repository's code; line numbers in the table are those
of the files it names. `dafny verify dfyconfig.toml` checks the whole project.

What is modelled, one group of modules a part:

- **Held-out inputs and their file format** (`lassi/harness/lassi_io.py`). `PcgOrbit`, `PcgOutput` and `PcgDraws`
  are the PCG-XSH-RR 64/32 generator: its state sequence is one cycle through all 2^64 states for every odd
  increment, each output belongs to equally many states, so the rejection loops end and are unbiased. `Floats` is the
  integer-only rounding of a double to f16, bf16, f32 or f64 (the formats other than bf16 are the interchange formats
  of section 3.4 of IEEE 754-2019, the rounding is roundTiesToEven of its section 4.3.1), its inverse, and the ordered
  keys. `UniformInputs` is the plan and the elements of an input. `LassiFile` is the canonical encoder and the strict
  decoder. Doubles are a sign, a significand and an exponent over unbounded integers, and every value is a whole
  number of units of 2^-1126, so comparisons are exact.
- **FILE blocks** (`lassi/core/files.py`). `Texts` and `FileBlocks` are the writer of fenced blocks and the lenient
  reader of model replies.
- **The correction loop** (`lassi/core/stages.py`, `record.py`, `runner.py`). `TrialRecord` is the record with the
  invariant every stage keeps, `Stages` the generate, compile_loop and run_loop stages over one run context, and
  `Runner` the stage order check, the baseline, a trial's run of its stages, and the final block. The model's replies
  are a finite script, after which the backend fails; what a build or a run returns is arbitrary, and any of them may
  raise. The attempts built and run so far are kept as ghost lists, so that "at most once" can be stated.
- **Recipes** (`lassi/core/recipe.py`). `YamlNodes` is the memoised check of a node graph with aliases and cycles,
  against the fully expanded tree; `RecipeOverlay` is the overlay of an `extends` chain with kind switches, the
  defaults and the faithful overrides.
- **The sandbox's pure logic** (`lassi/executors/sandbox.py`). `CopyBack` lists the upper layer and lays it over the
  workdir; `SandboxLines` finds the setup's ready and done lines in a stderr the program also writes to;
  `SandboxClock` classifies the run from clock readings cut to 10 ms.
- **The content store** (`lassi/core/store.py`). `ContentStore` is the concurrent puts as a transition system with
  failures and crashes at every step. The text store and the binary store follow the same steps.
- **Statistics** (`lassi/analysis/stats.py`). `PassAtK` and `WilsonInterval` are in exact arithmetic, a square root
  being the number whose square it is; the code computes with floats, so these say what the formulas mean and not
  what rounding does to them.

`Powers`, `Bitwise`, `Sequences` and `Outcomes` hold shared helpers. Methods model the code that works step by step and are proved
against functions or relations; lemmas then prove what those mean.

## Findings

- An S5 attempt with an error diagnostic is one that `_needs_correction` does not exempt
  (`lassi/core/stages.py:1234-1236`), though its description speaks of attempts that did not build. In the order
  generate, compile_loop, run_loop nothing follows it, but a compile_loop or run_loop listed after run_loop asks for
  its correction. `Stages.RunContext.CompileLoop` and `Stages.RunContext.RunLoop` say when exactly: a clean last
  attempt is superseded if and only if it carries an error and a correction is left. Two inputs lead there, both
  allowed by the interfaces the stages call. One is a build that leaves its artifact beside an error its parser found
  (`lassi/toolchains/_base.py:419-423`) and then runs clean: `Stages.CleanRunAfterBuildError`. The other is a clean
  run reported with an error: `Stages.CleanRunWithError`. No executor here reports that, since
  `lassi/executors/native.py` reports no diagnostics and `lassi/executors/ttsim.py:304-308` calls the run of each
  run-stage error undefined behaviour or a gap.
- The early-exit byte count of `_byte_count` does not check a scalar's size against the limit
  (`lassi/harness/lassi_io.py:196-200`): an 8-byte scalar counts 8 bytes under a limit of 4
  (`LassiFile.ScalarPastLimit`). It is the true count up to the limit and none past it if and only if the shape has a
  dim or the item size is within the limit (`LassiFile.ByteCountExactly`). Both callers compare the result with the
  limit for equality, for which `LassiFile.CountBytes` proves it right for every shape.
- `_write_atomic` removes whatever file has its temporary name when it is done (`lassi/core/store.py:193-195`), and
  after the rename that name is free for another put to take. For any two contents of one folder there is a run in
  which this happens (`ContentStore.ReuseHappens`), and if their hashes differ and the second is not empty the store can
  then come to hold a file under another hash than its own (`ContentStore.StoreBreaks`). `ContentStore.ReuseDecides`
  says when exactly this matters: after a run that reused no name, the store stays intact whatever follows without a
  further reuse, if and only if the next step does not take the name of a put that has renamed its file and not yet
  returned.

## Model

| member | source | states |
|---|---|---|
| `PcgOrbit.FullPeriod` | lassi/harness/lassi_io.py:329-335 | For every odd increment and every state, the state comes back after n steps if and only if 2^64 divides n. |
| `PcgOrbit.StepPermutes` | lassi/harness/lassi_io.py:329-335 | A step is a permutation: each 64-bit state has exactly one predecessor. |
| `PcgOrbit.EachStateOnce` | lassi/harness/lassi_io.py:329-335 | From any state, each state is reached at exactly one point of a period. |
| `PcgOrbit.Jump` | lassi/harness/lassi_io.py:334 | 2^k steps are one affine map, by repeated squaring of the multiplier. |
| `PcgOrbit.DemoStates` | tests/harness/test_lassi_io_inputs.py:67-69 | The multiplier and the seeding give the states of the reference demo, seed 42 on stream 54. |
| `PcgOrbit.DistanceParity` | lassi/harness/lassi_io.py:334 | States of the same parity are an even number of steps apart, which is what a loop drawing two words a turn needs. |
| `PcgOutput.OutputRotates` | lassi/harness/lassi_io.py:333-337 | The masked shift-and-or output is a 32-bit rotation, by the top five bits, of the xorshift of the high bits. |
| `PcgOutput.StateWithSplits` | lassi/harness/lassi_io.py:329-337 | Every rotation field, 32-bit output and low 27 bits occur together in a state: no output is impossible. |
| `PcgOutput.StateFromSplit` | lassi/harness/lassi_io.py:329-337 | And in one state only, so each output belongs to exactly 2^32 states. |
| `PcgDraws.Pcg32.constructor` | lassi/harness/lassi_io.py:318-327 | Seeding gives the reference implementation's state, from zero a step, the seed added, a step, and an odd increment. |
| `PcgDraws.Pcg32.NextU32` | lassi/harness/lassi_io.py:329-335 | A draw is the output of the state before the step, and the state steps once. |
| `PcgDraws.Pcg32.NextU64` | lassi/harness/lassi_io.py:337-340 | A u64 is two draws, the first in the high half, and the state steps twice. |
| `PcgDraws.Bounded` | lassi/harness/lassi_io.py:543-555 | Terminates for every seed and every bound to 2^64; the draws before the taken one are all below the threshold, the taken one is not, and the value is its remainder. |
| `PcgDraws.BoundedU32` | lassi/harness/lassi_io.py:545-550 | The u32 loop ends because the orbit reaches a state whose output is the largest u32, which no threshold rejects. |
| `PcgDraws.BoundedU64` | lassi/harness/lassi_io.py:551-555 | The u64 loop ends for every seed, though it only sees every other state. |
| `PcgDraws.AcceptingState` | lassi/harness/lassi_io.py:329-337 | A state with the largest output exists in each parity class. |
| `PcgDraws.ResiduesEqual` | lassi/harness/lassi_io.py:543-555 | Among the draws at or above the threshold every residue below the bound occurs equally often, for the 32-bit and the 64-bit range alike. |
| `PcgDraws.PeriodResiduesEqual` | lassi/harness/lassi_io.py:543-550 | Over a whole period from any seed, each residue is drawn by the same number of steps, 2^32 times the quotient of 2^32 by the bound. |
| `PcgDraws.PeriodCounts` | lassi/harness/lassi_io.py:329-335 | Over a whole period from any seed, n of the u32 draws come up in n * 2^32 steps, whichever n draws they are. |
| `Floats.FormatsSound` | lassi/harness/lassi_io.py:367-372 | f16, bf16, f32 and f64 are formats every result here holds for. |
| `Floats.FormatsAre` | lassi/harness/lassi_io.py:367-372 | Each of the four formats by its width, the pattern of 1, its least positive value, and the pattern and value of its largest. |
| `Floats.RoundBitsIs` | lassi/harness/lassi_io.py:380-408 | Rounding a double in the finite range never overflows, keeps the sign, and gives the magnitude of the reference definition of nearest, ties to even, on the grid of the format's values. |
| `Floats.RoundsToNearestEven` | lassi/harness/lassi_io.py:380-408 | No finite value of the format is nearer than the rounded one, and when another is as near the rounded pattern is even; through subnormals and carries. |
| `Floats.RoundingMonotone` | lassi/harness/lassi_io.py:380-429 | A larger double never rounds to a smaller key. |
| `Floats.BitsValueExact` | lassi/harness/lassi_io.py:411-418 | A pattern's double has the pattern's sign and exactly its value on the grid. |
| `Floats.PatternInRange` | lassi/harness/lassi_io.py:411-418 | Every finite pattern's value is a double in the format's finite range, so the results on in-range doubles cover all of the format's values. |
| `Floats.RoundTrip` | lassi/harness/lassi_io.py:380-418 | Rounding a finite pattern's value gives the same pattern back, the sign of a zero included. |
| `Floats.KeyOrder` | lassi/harness/lassi_io.py:421-424 | Keys are strictly ordered as the values they stand for. |
| `Floats.KeyValueIsPatternValue` | lassi/harness/lassi_io.py:421-424 | A pattern's key stands for the pattern's value, both zeros for 0. |
| `Floats.FromKeySound` | lassi/harness/lassi_io.py:427-429 | Every key in the finite range gives back a finite pattern with that key. |
| `Floats.RoundedKey` | lassi/harness/lassi_io.py:380-424 | The keys next to a rounded double's key lie strictly on either side of the double. |
| `Floats.LargestValue` | lassi/harness/lassi_io.py:466-468 | The pattern with every exponent bit but the last and every fraction bit set is the format's largest finite value. |
| `UniformInputs.PlanHoldsExactly` | lassi/harness/lassi_io.py:446-476 | A finite pattern's key lies in the plan's key range if and only if its value lies in [lo, hi). |
| `UniformInputs.PlanRefusesExactly` | lassi/harness/lassi_io.py:470-475 | Increasing bounds in range are refused as empty if and only if the format has no value in [lo, hi). |
| `UniformInputs.PlanErrors` | lassi/harness/lassi_io.py:446-476 | Bounds not increasing are refused as such first, then bounds out of range, then a width that is not finite, each exactly. |
| `UniformInputs.ElementInside` | lassi/harness/lassi_io.py:534-538 | Whatever in-range draw comes, the element, clamped or not, decodes to a value v with lo <= v < hi. |
| `UniformInputs.ElementNearest` | lassi/harness/lassi_io.py:534-538 | No value of the format in [lo, hi) is nearer to the draw than the element. |
| `UniformInputs.ElementKey` | lassi/harness/lassi_io.py:534-538 | The element's key is the rounded draw's key clamped to the plan's range, and a rounded draw in range is the element itself, sign of zero included. |
| `UniformInputs.DrawnIsTop` | lassi/harness/lassi_io.py:531-534 | The integer a fraction is made of is the top 24 bits of one word or the top 53 of two, the whole word cut off below them. |
| `UniformInputs.PeriodDrawsEqual` | lassi/harness/lassi_io.py:531-534 | Over a whole period from any seed each integer below 2^24 is drawn by exactly 2^40 steps. |
| `UniformInputs.UniformData` | lassi/harness/lassi_io.py:525-540 | Element i is the element of the integer drawn at the generator's state after i elements, one word or two an element, and lies in [lo, hi). |
| `UniformInputs.IntPlanExactly` | lassi/harness/lassi_io.py:479-493 | An integers entry is accepted exactly when it has values and its type holds every one of them; then its bound is at most 2^64. |
| `UniformInputs.IntTypesHold` | lassi/harness/lassi_io.py:374-375 | i8, u8, i32, u32 and i64 hold exactly the numbers of their widths and signs, and are among the types the plan results hold for. |
| `UniformInputs.ItemSizesAre` | lassi/harness/lassi_io.py:89-101 | Each dtype's item size in bytes is its format's or its integer type's width. |
| `UniformInputs.IntegerData` | lassi/harness/lassi_io.py:558-562 | Each element is lo plus an unbiased draw below hi - lo from the state the element before it left, and lies in [lo, hi). |
| `LassiFile.CountBytes` | lassi/harness/lassi_io.py:187-200 | The early-exit loop returns the limit exactly when the true product of the dims and the item size is the limit. |
| `LassiFile.ByteCountExactly` | lassi/harness/lassi_io.py:187-200 | The count is the true one up to the limit and none past it if and only if the shape has a dim or the item size is within the limit. |
| `LassiFile.ScalarPastLimit` | lassi/harness/lassi_io.py:196-200 | A scalar past the limit is counted all the same. |
| `LassiFile.DecodeEncode` | lassi/harness/lassi_io.py:228-299 | Decoding what the encoder wrote gives back the name, dtype, shape and data, for every array it accepts. |
| `LassiFile.EncodeDecode` | lassi/harness/lassi_io.py:228-299 | Any bytes the decoder accepts are the very bytes the encoder gives for what was read. |
| `LassiFile.PrefixRefused` | lassi/harness/lassi_io.py:257-299 | Cutting an accepted file anywhere makes it refused. |
| `LassiFile.PrefixRefusal` | lassi/harness/lassi_io.py:257-299 | It is refused as truncated when cut inside its header, and for the size of its data when cut after it. |
| `LassiFile.FixedFaults` | lassi/harness/lassi_io.py:260-270 | Any bytes with a fault in the first 20 are refused for the first one: the magic, the version, the dtype code, or the end. |
| `LassiFile.LaterFaults` | lassi/harness/lassi_io.py:271-298 | And any others for the first of: the dims' end, the name's length, its end, its characters, the padding's end, the padding, and the data's size; with none they are accepted. |
| `LassiFile.EncodesExactly` | lassi/harness/lassi_io.py:228-244 | The encoder accepts exactly names of 1 to 255 letters, digits, "_", "." and "-", the nine dtypes, fewer than 2^32 dims each below 2^64, and the bytes such an array takes. |
| `LassiFile.NamedExactly` | lassi/harness/lassi_io.py:89-105 | The nine dtype names, and the code of each in their order. |
| `LassiFile.HeaderLayout` | lassi/harness/lassi_io.py:245-248 | The header byte by byte: the magic, little-endian version, code, rank, dims and name length at their places, the name, and zeros up to the next multiple of 8. |
| `LassiFile.DimPlace` | lassi/harness/lassi_io.py:245 | Dim i is the 8 bytes at 8 i of the dims. |
| `LassiFile.LittleByte` | lassi/harness/lassi_io.py:245 | Byte i of a little-endian number counts 256^i. |
| `LassiFile.HeaderRoundTrip` | lassi/harness/lassi_io.py:245-288 | A written header reads back the same and ends at the same place, whatever follows it. |
| `LassiFile.HeaderReadBack` | lassi/harness/lassi_io.py:257-288 | The bytes up to the end of a header that reads are those of the written header: magic, version, padding and all. |
| `LassiFile.LittleInverse` | lassi/harness/lassi_io.py:245-254 | A number below 256^width reads back from its little-endian bytes. |
| `LassiFile.FromLittleInverse` | lassi/harness/lassi_io.py:250-254 | Bytes are the little-endian form of the number they hold, which fits their width. |
| `FileBlocks.ParseRender` | lassi/core/files.py:107-218 | Parsing rendered files gives back every file with a final newline, whatever backtick runs and fence-like lines they hold, and reports no problem but the expected files that were not written. |
| `FileBlocks.RenderParsed` | lassi/core/files.py:144-218 | Rendering the files read from any reply, in any order, and reading them again gives the same files and no problem. |
| `FileBlocks.ParseExactly` | lassi/core/files.py:175-218 | For every reply: a file is the text of the first closed block naming its path, every other block has its own problem in text order, and an expected file is missing exactly when no block names it. |
| `FileBlocks.UsableExactly` | lassi/core/files.py:200-218 | A reply has some file and no fault but missing files exactly when it has FILE blocks and each of them gives a file. |
| `FileBlocks.NoProblemNoneMissing` | lassi/core/files.py:200-218 | A reply without a problem gave every expected file. |
| `FileBlocks.OpeningExactly` | lassi/core/files.py:90-92 | The opening fence is the pattern: up to three spaces, three or more backticks, and a rest without one. |
| `FileBlocks.ClosingExactly` | lassi/core/files.py:93-95 | The closing fence is the pattern, with whitespace alone after the backticks. |
| `FileBlocks.FileLineExactly` | lassi/core/files.py:98-99 | A FILE line is blanks, the marker, and the path with any whitespace around it. |
| `FileBlocks.BlocksConserved` | lassi/core/files.py:200-304 | Blocks found are files kept plus diagnostics other than missing-file, and only the last block can be unclosed. |
| `FileBlocks.ParseFileBlocks` | lassi/core/files.py:175-218 | The loop over blocks, filling the files, the named paths and the diagnostics, computes the specification's result. |
| `FileBlocks.FindBlocks` | lassi/core/files.py:250-264 | The index scan finds the blocks that FirstFence, LastFence and PlainHoldsNone characterise. |
| `FileBlocks.FirstFence` | lassi/core/files.py:250-264 | The first fenced block of any lines is one FILE block when it begins with a FILE line and none otherwise, and the rest are the blocks of the lines after its closing fence, read as if they stood alone. |
| `FileBlocks.LastFence` | lassi/core/files.py:250-264 | A fence that is never closed takes all lines after it, and leaves one unclosed block when it begins with a FILE line. |
| `FileBlocks.PlainHoldsNone` | lassi/core/files.py:250-264 | Lines of which none opens a fence hold no block. |
| `FileBlocks.FindClosing` | lassi/core/files.py:267-273 | The scan finds the first line that closes the fence, or none when no line does. |
| `FileBlocks.ClosingIndex` | lassi/core/files.py:267-273 | A found line closes a fence of that width, and no line between does. |
| `FileBlocks.BodyNeverCloses` | lassi/core/files.py:107-110 | No line of a file's text closes the fence the writer chooses for it. |
| `FileBlocks.MarkerLine` | lassi/core/files.py:160-164 | The written FILE line reads back the path and never closes a fence. |
| `FileBlocks.RenderedBlock` | lassi/core/files.py:160-164 | Among any lines, a rendered block reads as one block with its path and its text, ending where it was written to end. |
| `FileBlocks.ValidPathNormal` | lassi/core/files.py:113-141 | Normalizing leaves every path the check accepts as it is. |
| `FileBlocks.ValidPathExactly` | lassi/core/files.py:113-141 | A path is valid if and only if it is in normal form with no "..", stripped, of plain characters, with no sign, slash or drive at its start and no segment above 255 bytes. |
| `FileBlocks.ValidPathStays` | lassi/core/files.py:113-141 | A valid path leads down from the folder it starts in, and so does every path it begins with. |
| `FileBlocks.NormalSegments` | lassi/core/files.py:276-284 | The normal form of a relative path has exactly its segments but the empty ones and ".", one for one and in order. |
| `FileBlocks.NormalLeadsSame` | lassi/core/files.py:276-284 | The normal form of a relative path leads where the path does, from any folder. |
| `FileBlocks.FenceWidthIs` | lassi/core/files.py:107-110 | The fence is the least of three or more backticks that the text does not hold in a row. |
| `FileBlocks.LanguageIs` | lassi/core/files.py:102-104 | A block's language is that of the last suffix of the path's last segment in lower case, and text for a segment with no dot or nothing before or after its last one. |
| `Texts.StripIs` | lassi/core/files.py:262 | Stripping takes all the whitespace at both ends away and nothing else. |
| `FileBlocks.Utf8LengthIs` | lassi/core/files.py:113-141 | A segment's bytes are those of its characters, one to four each by code point. |
| `FileBlocks.OnlyLastUnclosed` | lassi/core/files.py:250-264 | A block with no closing fence is the last one found. |
| `Stages.S0HasError` | lassi/core/stages.py:732-751 | An attempt that FILE blocks leave at S0 always carries an error to feed back. |
| `Stages.ParsedStage` | lassi/core/stages.py:732-751 | An attempt read from FILE blocks is S1 exactly when the reply has FILE blocks and each of them gave a file. |
| `Stages.ParsedReported` | lassi/core/stages.py:732-751 | It holds the files read and one error a problem, in order, after a warning for a replaced surrogate. |
| `Stages.FencedReported` | lassi/core/stages.py:754-780 | The attempt of a first fence holds its text as the target, is S1 if and only if there is one, and warns of each quirk once. |
| `Stages.BuiltWhole` | lassi/core/stages.py:732-751 | An attempt read from FILE blocks without an error, the one kind that is built, holds every expected file. |
| `Stages.RunStage` | lassi/core/stages.py:1488-1500 | S1 exactly after a JIT error, whatever else happened; S5 only after a run that ended well with no gap; S4 only after one that did not. |
| `Stages.RunContext.Ask` | lassi/core/stages.py:1631-1651 | The next attempt is exactly the reading of the next reply, the one request for it is recorded, and no other attempt changes. |
| `Stages.RunContext.Generate` | lassi/core/stages.py:1042-1061 | Attempt 0 is exactly the reading of the first reply, asked for by generate; with an attempt already there it fails. |
| `Stages.RunContext.ReplyRefused` | lassi/core/stages.py:754-762 | Only a first-fence recipe whose target is not one file refuses a reply. |
| `Stages.RunContext.AskContext` | lassi/core/stages.py:834-846 | A context request is recorded with no attempt, and nothing else in the trial changes. |
| `Stages.RunContext.BuildLast` | lassi/core/stages.py:1252-1285 | An attempt is built exactly when it has no error and is S1, or S0 under the fence quirk; after it the attempt is S4 with its program kept, or carries an error; it fails exactly when that build raises. |
| `Stages.BuildKeeps` | lassi/core/stages.py:1266-1281 | A build keeps the record's invariant, is the attempt's first, and leaves it S4 if and only if there is a program. |
| `Stages.BuiltReported` | lassi/core/stages.py:1266-1281 | A build adds its diagnostics, then the guard's when there is a program, or one error when there is none and nothing says why. |
| `Stages.RunContext.Correct` | lassi/core/stages.py:1331-1343 | A correction appends one attempt from one reply and builds it, leaving all earlier attempts unchanged. |
| `Stages.RunContext.CompileTurn` | lassi/core/stages.py:1210-1214 | A turn at the cap ends the trial there and changes nothing else; any other appends exactly one attempt from the next reply and builds it. |
| `Stages.RunContext.CompileLoop` | lassi/core/stages.py:1188-1215 | Terminates; returns at an S4 attempt, at the cap with an error remaining, or untouched at S5; on a finished trial it makes no build and no request; and a clean last attempt is superseded if and only if it carries an error and a correction is left. |
| `Stages.RunContext.RunLast` | lassi/core/stages.py:1431-1465 | An S4 attempt always has its program, is run for the first time, and becomes S1, S4 or S5 with its run and an error unless it ran clean or met a simulator gap; it fails exactly when that run raises. |
| `Stages.RunKeeps` | lassi/core/stages.py:1449-1465 | A run keeps the record's invariant, JIT failures that drop the attempt to S1 included. |
| `Stages.RanReported` | lassi/core/stages.py:1449-1465 | A run adds its own diagnostics, one warning a flag that is set, and the run error if and only if it failed with no gap and no JIT error. |
| `Stages.RunContext.CorrectionAsked` | lassi/core/stages.py:1410-1416 | A failed run with no gap and no JIT error that a further attempt follows has that attempt asked for by run_loop. |
| `Stages.RunContext.RunsStay` | lassi/core/stages.py:1370-1417 | What became of each run so far stays true over every later stage. |
| `Stages.RunContext.RunTurn` | lassi/core/stages.py:1398-1416 | One turn ends the loop in one of its ways or leaves a compiled attempt with fewer replies to come; it supersedes no clean attempt. Every run is answered: a simulator gap ends the trial at it, and any other failure but a JIT error ends it at the cap or has run_loop ask for the next attempt. |
| `Stages.RunContext.RunLoop` | lassi/core/stages.py:1370-1417 | Terminates for every script of replies and ends clean, at the cap, at the gap of its last run, crashed past the gate, or stale past the gate, with every run answered as RunTurn says; with a compile-only executor nothing runs; and a clean last attempt is superseded if and only if it carries an error and a correction is left. |
| `Stages.PastGateKeeps` | lassi/core/stages.py:1607-1628 | Past the gate the trial ends as an upstream crash if no attempt ran, and else its last attempt gains the stale-output warning and an earlier attempt's output stands. |
| `Stages.EndsExclude` | lassi/core/stages.py:1370-1417 | The five ways a pass can end exclude one another. |
| `Stages.CleanRunWithError` | lassi/core/stages.py:1234-1236 | A run can be clean and still leave an attempt compile_loop would correct. |
| `Stages.CleanRunAfterBuildError` | lassi/toolchains/_base.py:419-423 | So can a build that leaves its artifact beside an error its parser found. |
| `Stages.CorrectionsMean` | lassi/core/stages.py:1188-1215 | A clean attempt is the last one after compile_loop's corrections if and only if it was before them and either none was made or the last attempt had not run clean; no attempt they append has run. |
| `TrialRecord.StandingIsLastRun` | lassi/core/record.py:677-687 | The standing attempt ran and no later one did; there is none if and only if no attempt ran. |
| `Runner.CheckStages` | lassi/core/runner.py:1016-1046 | The loop with two flags refuses a stage list if and only if it breaks the order rules stated over all pairs of stages, and names the first stage whose addition breaks them. |
| `Runner.OrderedExtends` | lassi/core/runner.py:1030-1046 | What one more stage needs of the list before it, in terms of the two flags. |
| `Runner.KindsOrdered` | lassi/core/runner.py:1016-1046 | A list of the six stages is accepted if and only if baselines come first, each loop after a generate, and at most one generates. |
| `Runner.ReferenceRunEnd` | lassi/core/stages.py:609-635 | A reference run ends nothing if and only if it is clean as run_stage means it, and ends at a gap if and only if it has one. |
| `Runner.Reference` | lassi/core/stages.py:927-966 | What the reference program does decides its end: no program, a gap, a run that is not clean, files that cannot be compared; the target's run is kept even when it fails; an exception of the build or the run is the only error. |
| `Runner.Baseline` | lassi/core/stages.py:883-1007 | Asks the model nothing; ends as the first reference that fails; else the agreement is recorded exactly when both references ran, their files are compared and a tolerance is set, with a note in its place when an output may be cut, and one output past the tolerance ends the trial. |
| `Runner.RunStageOf` | lassi/core/runner.py:1802-1808 | Every stage of an accepted list keeps what must hold between stages, takes one reply a request, leaves the trial as its kind does, answers every run, supersedes a clean attempt exactly as its loop does, and fails only with the backend, an exception of a build or a run, or the fence quirk's target count; only run_loop runs attempts. |
| `Runner.RunTrial` | lassi/core/runner.py:1763-1809 | For every accepted list each attempt is built and run at most once, each S4 attempt has its program, every run is answered, the attempts stay within the cap and a trial ends at the cap, or as an upstream crash, only where those stand; a trial the baseline ends holds no request and no attempt, no attempt past the gate runs when the gate is upstream's; when no loop follows run_loop a clean attempt is the last and run_loop's five ways are the only ones; with a reply for each context request and each attempt to the cap the backend never stops it; and the errors for a missing attempt, a missing program and a wrong index cannot occur. |
| `Runner.CorrectionPass` | lassi/core/runner.py:1802-1808 | With a cap of n, n + 1 replies and an executor that runs programs, generate, compile_loop and run_loop always return unless a build or a run raises, after at most n corrections, in one of the five ways, S5 last only, each attempt answering its own reply and every run answered. |
| `Runner.FinalCounts` | lassi/core/runner.py:1883-1900 | The corrections are one less than the attempt-bearing requests, and the standing attempt is the latest that ran, the last one after a clean run. |
| `YamlNodes.CheckDocument` | lassi/core/recipe.py:627-663 | Terminates on every graph, cyclic ones too; accepts if and only if the graph unfolds into a finite tree of height at most 64 and size at most 100000 with no repeated key, returns its height and size, and lists each node's children at most once. |
| `YamlNodes.NodeChecker.Check` | lassi/core/recipe.py:627-663 | The memoised measures are those of the expansion, whatever the depth the node is reached at; the walk goes no deeper than one past the limit, whatever the graph. |
| `YamlNodes.NodeChecker.Measure` | lassi/core/recipe.py:649-659 | The loop over children adds up the expanded tree's height and size. |
| `YamlNodes.ExpansionUnique` | lassi/core/recipe.py:627-663 | A node has at most one expanded tree. |
| `YamlNodes.MappingExpands` | lassi/core/recipe.py:666-690 | A mapping expands if and only if no two of its entries have equal keys, composite ones aside, and then into the expansions of the values of its other entries, one for one and in order. |
| `YamlNodes.OthersExpand` | lassi/core/recipe.py:672-675 | A list expands into the expansions of its items in order, and a scalar into a tree with no children. |
| `YamlNodes.HeightIsLongest` | lassi/core/recipe.py:635-653 | The height is the length of the longest way down in the expanded tree. |
| `YamlNodes.SizeCountsNodes` | lassi/core/recipe.py:635-653 | The size is the number of nodes of the expanded tree. |
| `YamlNodes.CycleNeverFits` | lassi/core/recipe.py:645-646 | A node that its own items or entries, composite keys aside, lead back to has no finite expansion. |
| `RecipeOverlay.ResolveIdempotent` | lassi/core/recipe.py:755-795 | The resolved mapping, loaded alone under any name, resolves to itself. |
| `RecipeOverlay.SwitchForgets` | lassi/core/recipe.py:798-818 | After a file that switches a section, the section is what it would be had the chain begun there, whatever files follow. |
| `RecipeOverlay.NoKeySurvivesSwitch` | lassi/core/recipe.py:798-818 | Each key left in a switched section was set by the switching file or a later one. |
| `RecipeOverlay.EntrySwitchForgets` | lassi/core/recipe.py:821-835 | The same for one language's entry of two per-language executor sections. |
| `RecipeOverlay.OverlaySection` | lassi/core/recipe.py:798-851 | A kind section of the result depends on that section of the two mappings alone. |
| `RecipeOverlay.MergeAt` | lassi/core/recipe.py:844-851 | At every path of keys, what the child sets stands unless it is a mapping to merge into, and where the child is silent the parent's value stands. |
| `RecipeOverlay.MergeElse` | lassi/core/recipe.py:844-851 | Where the child is not silent its value stands, merged into the parent's when both are mappings. |
| `RecipeOverlay.OverlayAt` | lassi/core/recipe.py:798-818 | One file over the chain at every path of keys: in what it replaces nothing but its own is left; elsewhere what was there stands where it is silent, and what it says where it is not. |
| `RecipeOverlay.ValueStays` | lassi/core/recipe.py:755-763 | A value at a path stays while no file touches it. |
| `RecipeOverlay.LastSetterDecides` | lassi/core/recipe.py:755-763 | At every path of keys the last file to set a value decides it, when no later file says anything of the path or replaces what it is in. |
| `RecipeOverlay.ResolvedLastSetter` | lassi/core/recipe.py:755-795 | So does the resolved recipe, outside the fixes and the loop of a faithful one. |
| `RecipeOverlay.KindDecides` | lassi/core/recipe.py:798-818 | A kind section keeps its inherited keys if and only if the file names the same kind. |
| `RecipeOverlay.EntryKindDecides` | lassi/core/recipe.py:821-841 | So does one language's entry of two per-language executor sections. |
| `RecipeOverlay.DefaultsOnlyFill` | lassi/core/recipe.py:755-795 | Defaults change nothing the chain sets; the project is else the recipe's own name, and each fix left open is on. |
| `RecipeOverlay.KeyComesFromAFile` | lassi/core/recipe.py:844-851 | Merging invents no key: each one of a section was set by some file of the chain. |
| `RecipeOverlay.FaithfulOverrides` | lassi/core/recipe.py:781-795 | A recipe resolved as faithful is uncapped with every fix off, whatever its chain said. |
| `RecipeOverlay.ResolveSettles` | lassi/core/recipe.py:755-795 | A resolved mapping has no extends, a project, a faithful flag, and every fix stated, and agrees with the faithful overrides. |
| `RecipeOverlay.Resolving.MaterializeDefaults` | lassi/core/recipe.py:766-778 | Filling in place changes only what the chain leaves unset, as the value form says. |
| `RecipeOverlay.Resolving.ApplyFaithful` | lassi/core/recipe.py:781-795 | The in-place overrides give the value form's mapping. |
| `RecipeOverlay.ResolveChain` | lassi/core/recipe.py:755-763 | Overlaying from the root down, then defaults and overrides in place, gives the resolved mapping of the chain. |
| `CopyBack.Listing` | lassi/executors/sandbox.py:502-518 | Terminates; lists exactly the folders and files within 32 levels and 1024 bytes of path, once each, parents before children, and as left out exactly the others that lie in a listed folder. |
| `CopyBack.FitsExactly` | lassi/executors/sandbox.py:512 | A path fits if and only if it has at most 32 names and is written with at most 1024 bytes, a slash between each two names. |
| `CopyBack.TotalIsBytes` | lassi/executors/sandbox.py:565 | The total held against the cap is the number of bytes in the listed files, each counted where it is listed. |
| `CopyBack.Workdir.Copy` | lassi/executors/sandbox.py:548-562 | The entries copied so far have landed, a write always has a folder to write in and never replaces an entry of another type, and after a failure, which has its reason, nothing past it has changed but for a temporary file that could not be removed. |
| `CopyBack.Workdir.CopyFile` | lassi/executors/sandbox.py:527-547 | Whatever fails on the way, the target is as it was or holds the first st_size bytes of the source whole; at most st_size bytes are written even when the source grew; the temporary file stays only when it cannot be removed. |
| `CopyBack.Workdir.CopyBlocks` | lassi/executors/sandbox.py:533-539 | The block loop terminates and has written a prefix of the source, never more than the listed size, and all of it up to that size unless a read or a write failed. |
| `CopyBack.Workdir.Create` | lassi/executors/sandbox.py:519-526 | A new file under a name free in the folder, and no other entry touched; none only when the call failed or every name is taken. |
| `CopyBack.Workdir.CopyBack` | lassi/executors/sandbox.py:563-576 | Over the cap nothing changes; else at most the cap is written, whatever the files hold by the time they are read; unless a step fails every listed entry not barred lands with what was read of it; complete if and only if nothing was left out. |
| `CopyBack.CutUnchanged` | lassi/executors/sandbox.py:533-538 | What lands is the listed content itself when no file changed in between. |
| `CopyBack.OverlayExactly` | lassi/executors/sandbox.py:548-562 | A listed entry lands if and only if its place is free or of its type and no folder above it clashes; every other path of the target is unchanged. |
| `CopyBack.OverlayWellFormed` | lassi/executors/sandbox.py:548-562 | The target stays a tree: each entry lies in a folder. |
| `CopyBack.OtherTypesStay` | lassi/executors/sandbox.py:553-560 | An entry of another type than the one over it stays, a symbolic link or special file under a listed file included, and nothing is written under it. |
| `CopyBack.OverlayTwice` | lassi/executors/sandbox.py:548-562 | Copying the same files back again changes nothing. |
| `CopyBack.BarredExactly` | lassi/executors/sandbox.py:549-559 | The blocked set holds a path exactly when it or a folder above it clashes. |
| `SandboxLines.SplitGivesProgram` | lassi/executors/sandbox.py:1149-1170 | For every program stderr, forged markers included, followed by the setup's done line: the setup's readings and mark, and exactly the program's stderr. |
| `SandboxLines.SplitNeedsDoneLine` | lassi/executors/sandbox.py:1149-1170 | A time is read only from a stderr that ends with a done line whose readings do not decrease. |
| `SandboxLines.LastMarker` | lassi/executors/sandbox.py:1162 | No marker begins inside a done line, so the last marker is the line's own. |
| `SandboxLines.DoneLineMatches` | lassi/executors/sandbox.py:405-407 | A done line matches with its own readings and mark. |
| `SandboxLines.MatchIsDoneLine` | lassi/executors/sandbox.py:405-407 | What matches is a done line. |
| `SandboxLines.ReadingSteps` | lassi/executors/sandbox.py:1164-1167 | Every time in 10 ms steps has a reading, and reading it gives that time. |
| `SandboxLines.ReadyRemoved` | lassi/executors/sandbox.py:1131-1146 | The first ready line is the chain's own: what the setup wrote before it and all the program wrote are kept. |
| `SandboxClock.RunReadsProgram` | lassi/executors/sandbox.py:1234-1266 | The report of a sandbox that ran to its end holds the program's whole stderr, the setup's readings and mark, and is a hang or killed exactly by status and steps. |
| `SandboxClock.KilledRunReadsNothing` | lassi/executors/sandbox.py:1245-1264 | After a signal death no line of the program's counts and the output is marked incomplete; the status is 128 + N, or -1 for the runner's own timeout, and a hang or a kill is exactly the whole command's time past the limit, or short of it, at those statuses. |
| `SandboxClock.RefusedExactly` | lassi/executors/sandbox.py:1244-1252 | A command is refused if and only if no line is the ready line, or it exited and its stderr does not end with a done line in order. |
| `SandboxClock.HangExactlyAtLimit` | lassi/executors/sandbox.py:1248-1254 | With both readings floored to 10 ms, a program stopped with 124, 137 or 143 that truly reached the limit is a hang, and one at least 20 ms short never is. |
| `SandboxClock.BudgetBelowCap` | lassi/executors/sandbox.py:998-1018 | A process that keeps within its CPUs meets the wall limit's timeout before the CPU cap. |
| `SandboxClock.WallSeconds` | lassi/executors/sandbox.py:993-995 | The enforced limit is the least whole number of seconds from 1 that is not below the asked one. |
| `SandboxClock.ShellStatus` | lassi/executors/sandbox.py:1116-1128 | The status is -1 if and only if the runner's own timeout expired; a normal exit is unchanged, and death by signal N is 128 + N. |
| `ContentStore.RunKeeps` | lassi/core/store.py:185-195 | Over every run of concurrent puts that reuses no name before its put returns, failures and crashes included, a file at a store path holds exactly the bytes of its hash, and no put's temporary file is another's. |
| `ContentStore.StepKeeps` | lassi/core/store.py:47-81 | Every step that reuses no such name keeps the store intact. |
| `ContentStore.ReuseDecides` | lassi/core/store.py:185-195 | After such a run, the store stays intact whatever follows without a further reuse if and only if the next step reuses no name, where a third put has a content of the folder to do harm with; a reuse leads to a file that holds another content than its hash's. |
| `ContentStore.ReuseHappens` | lassi/core/store.py:185-195 | For any two contents of one folder, a run that reuses no name reaches a state whose next step reuses one. |
| `ContentStore.StoreBreaks` | lassi/core/store.py:185-195 | For two contents of one folder with different hashes, the second not hashed as the empty file, one such reuse leads to a store that is not intact. |
| `ContentStore.StoredStays` | lassi/core/store.py:47-63 | No step loses a stored path, names reused or not. |
| `ContentStore.ReturnedStaysReadable` | lassi/core/store.py:47-81 | Once a put has returned, its content reads back whole in every later state of a run that reuses no name. |
| `ContentStore.NeverMismatched` | lassi/core/store.py:66-81 | No state of a run that reuses no name gives a reader bytes that do not match their hash. |
| `ContentStore.StoredNeverRefused` | lassi/core/store.py:58-63 | In every run a put fails only if its content was not stored by anyone up to then, so concurrent puts of one content all succeed. |
| `PassAtK.PassIsShare` | lassi/analysis/stats.py:47-63 | pass@k is the share of the k-subsets of the samples that hold a correct one, for every set of samples and of correct ones. |
| `PassAtK.SubsetsCounted` | lassi/analysis/stats.py:63 | A set has as many k-subsets as the binomial coefficient says. |
| `PassAtK.PassBounds` | lassi/analysis/stats.py:59-63 | It lies in [0, 1], is c/n at k = 1, and is 1 if and only if the shortcut applies, where the formula gives 1 too. |
| `PassAtK.PassRefuses` | lassi/analysis/stats.py:54-60 | Refused exactly without k >= 1 and 0 <= c <= n, and none exactly with fewer than k samples. |
| `PassAtK.PassGrowsWithCorrect` | lassi/analysis/stats.py:47-63 | It is nondecreasing in the number of correct samples. |
| `PassAtK.PassGrowsWithK` | lassi/analysis/stats.py:47-63 | It is nondecreasing in k. |
| `WilsonInterval.BoundsAreRoots` | lassi/analysis/stats.py:39-44 | The two unclamped bounds are exactly the solutions p of n (rate - p)^2 = z^2 p (1 - p). |
| `WilsonInterval.BoundsHoldRate` | lassi/analysis/stats.py:39-44 | 0 <= low <= rate <= high <= 1. |
| `WilsonInterval.WilsonIsUnclamped` | lassi/analysis/stats.py:44 | For every accepted argument the clamps change nothing. |
| `WilsonInterval.WilsonRefuses` | lassi/analysis/stats.py:31-38 | Refused exactly without a trial, with successes outside them, or with a quantile that is not positive. |
| `WilsonInterval.BoundsGrow` | lassi/analysis/stats.py:39-44 | Both bounds are nondecreasing in successes. |

## Left out

- UniformInputs.UniformData: double-precision arithmetic in `lo + (hi - lo) * u` and in `hi - lo`: the draw is any double in the format's range, and whether `hi - lo` is finite is a parameter of the plan.
- PcgDraws.PeriodResiduesEqual: counts u32 draws over a period; for u64 draws the equal counts are of `PcgDraws.ResiduesEqual`, over the draws' range, since pairs of successive outputs are not known to be equidistributed.
- Input specs: types of Python arguments, seeds outside [0, 2^64), bounds that are no finite doubles, names used twice, the packing of elements into bytes, and the stream derived from sha256 of a name.
- FileBlocks.ParseRender: the order of rendered files is a parameter, where the writer sorts the paths, so it holds for every order; lone surrogates, which the path check refuses, are not characters here.
- Message texts, prompts, the text of diagnostics, unified diffs, run.md and the other presentation.
- The host-compute guard and the stderr fed back with a correction: a guard adds any diagnostics that are no errors, and prompts are not modelled.
- Stages.RunContext.BuildLast: an exception of the toolchain, its files or a guard, like one of the executor in a run, stops the trial with one error; which exception it is, and what a stopped trial leaves behind, are not modelled.
- Exceptions outside builds and runs: a record or a text that cannot be stored, and outputs that cannot be compared.
- The wall limits of an attempt run, and the events sent to observers.
- The oracle stage, its alignment values, and the warnings it adds to attempts after the loops.
- Runner.FinalCounts: the alignment and the wall time of the final block.
- Runner.CheckStages: only the order of stages; the checks of fixes, toolchains, prompts and trial ids are long lists of one-branch refusals.
- Which files a recipe extends, the schema and the required choices; YAML values that are not null, booleans, numbers, text, lists or mappings with text keys.
- YamlNodes.CheckDocument: a scalar key whose explicit tag cannot be read, which stops the load before the check is done.
- The sandbox's shell script, namespaces, mounts, seccomp filter, systemd scope and limits; output capping.
- CopyBack.Workdir.CopyFile: permission bits, and what the temporary names are; a file is read at one moment, so it may have changed since it was listed but not while it is read.
- CopyBack.Listing: the entries of a folder come in any order, where the program sorts them.
- ContentStore.RunKeeps: puts are steps of a state machine and not methods, because their interleaving is the point; sha256 is a function, injective where content is read back; whether mkstemp's random names are reused is a condition; nothing but puts writes in the store, and a folder that cannot be made is a put that fails.
- SandboxClock.Run: a command that does not start, and the measured times' own rounding, are not modelled; times are exact.
- Trial files, the parquet tables, metrics, fragments and the simulator's text scans: copying and grouping that would add easier members.
