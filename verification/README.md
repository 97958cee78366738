# A verified model of the code-optimization benchmark pipeline

The repository measures how fast C++ snippets run. Each snippet is a complete
program, and the pipeline handles it in five stages:

- It cuts the snippet into its `#include` lines, the definitions outside
  `main`, and the body of `main` (`extract`, `findMainBody`, `stripComments`).
- It pastes those parts into a nanobench harness (`renderTemplate`). Many
  snippets can instead be stitched into one test program with a namespace and
  a numbered block per task (`renderTest`, `makeTests`).
- A container compiles and runs the program. The runner splits Docker's
  multiplexed attach stream back into stdout and stderr (`readStreamsFromSock`).
- The runner turns stderr into a stored verdict: compiled, executed, and the
  average runtime (`BenchmarkResult.create`, `toDBDoc`).
- The evaluation tables colour their LaTeX cells by runtime ratio and by the
  answer, given by hand, to whether a task improved (`getColor`, `trfImprovement`,
  `trfRuntimeProp`).

The Dafny modules follow the source files:

| module | file | models |
|---|---|---|
| `Wrappers` | wrappers.dfy | `Option` and `Result`, the error paths the Python code raises on |
| `Text` | text.dfy | Python's `str.find`, `in`, `split`, `join`, `replace`, `strip`, `lstrip` and `str(int)` over `seq<char>` |
| `Patterns` | patterns.dfy | the regular expressions `#include[^\n]*` and `//[^\n]*` written out by hand, for `re.findall` and `re.sub` |
| `StrFormat` | format.dfy | `str.format` (and `%` with a dictionary), both on templates read into pieces and on the raw text with doubled braces |
| `Benchmark` | benchmark.dfy | `src/benchmark.py`: the harness, the container script's stderr, the attach-stream reader, and Docker's framing as its partner |
| `RootBenchmark` | rootbenchmark.dfy | `benchmark.py`: the same reader as a loop returning a dictionary |
| `CodeProcessing` | codeprocessing.dfy | `src/codeProcessing.py` |
| `Script` | script.dfy | `script.py`: the older `findMainBody` returning a dictionary, as a loop |
| `Utils` | utils.dfy | `src/utils.py`: `starmap`, the records, and `BenchmarkResult.create` |
| `RootUtils` | rootutils.dfy | `utils.py`: `toDBDoc` |
| `ProcessExamples` | processexamples.dfy | `src/processExamples.py`: the templates, `renderCode`, `renderTest` and `makeTests` |
| `EvaluateResults` | evaluateresults.dfy | `src/evaluateResults.py`: the colour map and the cell formatters |

Some inputs come from code this model cannot see, so they become parameters:
- `bytes.decode(errors="ignore")` is the parameter `decode`.
- `json.loads(stderr)["runtimeAvg"]` is `readRuntime`, which returns a `JsonRead`.
- `fmtQty` is a parameter.
- The seeded `random.binomialvariate` draws are the sequence `draws`.
- The order in which Python iterates the set of includes is `includeOrder`.
- `extract(stripComments(·))` is the `prepare` argument of `MakeTests`.

Python floats are modelled as `real`, except in the colour scale of the
runtime cells, which takes NaN as a float of its own (`EvaluateResults.Float`):
a failed run's runtime of -1 gives NaN there, and every comparison with NaN is
false. The socket is a finite `seq<bv8>`, and
`recv(n)` takes the next `n` bytes, or what is left.

The two `utils.py` copies differ in one place:
- `utils.py:61` and `utils.py:64` test for the literal markers
  "Compilation failed" and "Execution failed".
- `src/utils.py:84` and `src/utils.py:87` read `Benchmarker.compFailMsg` and
  `Benchmarker.execFailMsg`, which `Benchmarker` does not define.

`Utils.Create` is the corrected version. It uses the literals, which are the
lines the container script writes (`src/benchmark.py:116`, `:121`). It is
therefore also the model of `create` in `utils.py`. See "## Findings".

The behaviour on text without `int main` is also modelled:
- `findMainBody` returns `""` instead of a range; the model returns `None`.
- `extract` then fails reading `bodyStart`; the model returns
  `Err(MainNotFound)`.

## Model

| member | source | states |
|---|---|---|
| Text.Find | src/codeProcessing.py:21-23 | `code.find(pat)` is the lowest index where `pat` occurs, and -1 exactly when it occurs nowhere |
| Text.ReplaceIsJoinOfSplit | src/codeProcessing.py:57 | `s.replace(t, r)` equals `r.join(s.split(t))`: occurrences are found left to right and never overlap |
| Text.ReplaceAbsent | src/codeProcessing.py:57 | a body without `return 0;` is left unchanged by the replacement |
| Text.ReplaceWithItself | src/codeProcessing.py:57 | replacing a target with itself gives back the text |
| Text.JoinSplit | src/codeProcessing.py:57 | splitting at a separator and joining with it gives back the text |
| Text.SplitFirstPiece | src/codeProcessing.py:57 | the first piece of a split runs up to the leftmost occurrence of the separator, or is the whole text when there is none, so a separator that overlaps itself is cut where it first starts |
| Text.SplitPiecesFree | src/codeProcessing.py:57 | no piece of a split contains the separator, so every occurrence was cut out |
| Text.Strip | src/codeProcessing.py:58 | `strip()` returns a slice of the text with only whitespace around it and no whitespace at either end |
| Text.StripOfUnique | src/codeProcessing.py:58 | that description determines the stripped text completely |
| Text.StripIdempotent | src/codeProcessing.py:62 | stripping twice is stripping once |
| Text.StripKeepsPrefix | src/codeProcessing.py:52 | stripping a matched line keeps its `#include` prefix |
| Text.StripNoOccurrence | src/codeProcessing.py:61-62 | stripping cannot create an occurrence the text did not have |
| Text.StripBounds | src/codeProcessing.py:58 | the stripped text is the slice `s[lo..hi]` of the original |
| Text.LStripChar | src/evaluateResults.py:289 | `lstrip("#")` removes exactly the leading run of `#` and leaves a text not starting with `#` |
| Text.NatToStringRoundTrip | src/processExamples.py:134 | `str(n)` for a natural number reads back as `n` |
| Text.NatToStringInjective | src/processExamples.py:134 | different numbers have different decimal texts |
| Text.IntToStringRoundTrip | src/benchmark.py:41-43 | `str(i)` for an integer option value reads back as `i`, sign included |
| Patterns.RestOfLine | src/codeProcessing.py:5-6 | `[^\n]*` takes the longest newline-free prefix, stopping at a newline or the end |
| Patterns.ScanIsLineScan | src/codeProcessing.py:5-6 | the scan cuts the text into gaps and matches that interleave back to the text; each match is the leftmost prefix occurrence and runs to the end of its line |
| Patterns.LineScanUnique | src/codeProcessing.py:5-6 | that description admits only the scan, so it determines what the regex engine returns |
| Patterns.LineMatches | src/codeProcessing.py:52 | every `re.findall` match starts with the prefix and holds no newline |
| Patterns.DeleteLineMatches | src/codeProcessing.py:9-10 | `re.sub(..., "", s)` leaves no occurrence of the prefix and keeps every newline |
| Patterns.DeleteLeavesNoMatch | src/codeProcessing.py:61 | after deleting the matches, no occurrence of the prefix is left, even across a newline |
| Patterns.DeleteKeepsNewlines | src/codeProcessing.py:9-10 | deleting matches keeps the count of newlines |
| StrFormat.FormatStringOfUnparse | src/benchmark.py:37-45 | `str.format` on the written template, doubled braces included, yields the piece-by-piece substitution |
| StrFormat.FormatStringEscaped | src/benchmark.py:17-19 | literal text written with doubled braces comes out with single braces |
| StrFormat.FormatStringField | src/benchmark.py:13-18 | a field named by an identifier is replaced by its value verbatim; braces in the value are not re-read |
| StrFormat.FormatStringPositional | src/benchmark.py:37-45 | a field of digits only, or an empty one, asks for a positional argument, so a call with keyword arguments only fails with an index error whatever the keywords bind |
| StrFormat.DigitFieldNotKeyword | src/benchmark.py:37-45 | `"{0}"` formatted with the keyword `0` bound still fails |
| StrFormat.FormatAppend | src/processExamples.py:156-163 | formatting two templates in a row is formatting each and concatenating |
| Benchmark.HarnessPiecesWellFormed | src/benchmark.py:9-45 | every field of the harness is a plain name bound by `renderTemplate`'s keyword arguments |
| Benchmark.RenderTemplate | src/benchmark.py:35-45 | the rendered harness starts with the three fixed `#include` lines |
| Benchmark.RenderTemplateIsStrFormat | src/benchmark.py:9-45 | rendering is what `str.format` makes of the written harness template |
| Benchmark.DefaultOptionsRendered | src/benchmark.py:53-60 | with default options the harness reads 15 epochs, 10 iterations, 100 ms and the default output template |
| Benchmark.ScriptStderr | src/benchmark.py:107-124 | the container's stderr begins with the compiler's; a failed compile ends it with "Compilation failed"; a clean run adds no marker |
| Benchmark.StreamMask | src/benchmark.py:72-74 | bit 0 of the mask is set iff stdout is requested, bit 1 iff stderr is, and no other bit |
| Benchmark.Recv | src/benchmark.py:77 | `recv(n)` returns the next `min(n, remaining)` bytes |
| Benchmark.BigEndianBytes | src/benchmark.py:81 | reading back the four bytes written for `n` as a big-endian u32 gives `n` |
| Benchmark.DemuxFrame | src/benchmark.py:76-86 | one round reads one complete frame, skips bytes 1-3, and appends the payload to the selected stream |
| Benchmark.DemuxFrames | src/benchmark.py:76-86 | reading a run of frames appends each selected payload, in order, to its stream |
| Benchmark.DemuxEncode | src/benchmark.py:67-90 | round trip: an encoded stream that ends cleanly, or in fewer than 8 stray bytes, reads back as each stream's payloads in order |
| Benchmark.DemuxStopsAtEmptyFrame | src/benchmark.py:82-86 | a frame announcing length 0 ends the read, and later frames are lost |
| Benchmark.DemuxDropsTruncatedFrame | src/benchmark.py:77-86 | a frame cut short by the end of the stream is dropped, not half-delivered |
| Benchmark.DemuxTruncated | src/benchmark.py:78-79 | a proper prefix of one frame ends the read with what was collected |
| Benchmark.DemuxRejectsUnknownStream | src/benchmark.py:83-84 | a selected frame on a stream other than 1 or 2 makes the read fail with an index error |
| Benchmark.DemuxUnknown | src/benchmark.py:84 | the index error names the stream id of that frame |
| Benchmark.CollectUnselected | src/benchmark.py:72-74 | a stream that is not requested collects nothing |
| Benchmark.DemuxAppendsOnly | src/benchmark.py:67-90 | the reader only appends payloads to what the buffers held, and a stream that is not requested keeps what it had |
| Benchmark.DemuxFailsOnlyOnUnknown | src/benchmark.py:76-86 | the read fails only on a requested stream id other than 1 (stdout) and 2 (stderr) |
| Benchmark.ReadStreamsFromSock | src/benchmark.py:67-90 | succeeds exactly when the frame reader does; a stream not requested is decoded from no bytes; a failure names a requested stream other than stdout and stderr (its round trip with the encoder is `ReadStreamsOfEncoded`) |
| Benchmark.ReadStreamsOfEncoded | src/benchmark.py:67-90 | on an encoded stream the reader returns each requested stream's payloads decoded, and a stream not requested decoded from no bytes |
| RootBenchmark.ReadStreamsFromSock | benchmark.py:5-27 | the loop over the socket returns a dictionary with exactly the keys "stdout" and "stderr", equal to what the `src/benchmark.py` reader returns, and fails exactly when it fails |
| CodeProcessing.StripComments | src/codeProcessing.py:6-10 | the result holds no `//` and as many newlines as the input |
| CodeProcessing.StripCommentsNoComment | src/codeProcessing.py:9-10 | text without `//` passes through unchanged |
| CodeProcessing.StripCommentsIdempotent | script.py:57-58 | stripping comments twice is stripping them once |
| CodeProcessing.BalanceAppend | src/codeProcessing.py:34-37 | the brace depth after two texts is the sum of their depths |
| CodeProcessing.IsMainRangeUnique | src/codeProcessing.py:20-48 | the reference description of the range (stop at the first brace that brings the depth back to zero, count the depth-zero characters) leaves no choice |
| CodeProcessing.Walk | src/codeProcessing.py:30-41 | the loop ends between where it resumes and the end of the text, and ends early only on a `}`; the counter never drops below where the scan started |
| CodeProcessing.WalkStopsAtClose | src/codeProcessing.py:30-41 | the loop stops at the first closing brace that returns the depth to zero, or runs off the end, and has counted the characters read at depth zero |
| CodeProcessing.WalkStep | src/codeProcessing.py:30-41 | one character that does not close `main` keeps the loop's depth and counter in step with the text read |
| CodeProcessing.FindMainBody | src/codeProcessing.py:20-48 | no range exactly when `int main` is absent; otherwise `funcStart <= bodyStart <= bodyEnd < funcEnd = bodyEnd + 1` |
| CodeProcessing.FindMainBodyIsMainRange | src/codeProcessing.py:20-48 | the reported range is the one the reference description pins down, anchored at the first `int main` |
| CodeProcessing.FindMainBodyFinds | src/codeProcessing.py:20-48 | any range meeting the description at the first `int main` is the one reported |
| CodeProcessing.MainRangeWellFormed | src/codeProcessing.py:27-41 | in `pre + "int main" + sig + "{" + body + "}" + post` with a balanced body, the braces around the body meet the description |
| CodeProcessing.MainNoEarlyClose | src/codeProcessing.py:36-39 | no brace inside a balanced body ends the loop |
| CodeProcessing.FindMainBodyWellFormed | src/codeProcessing.py:20-48 | for such a program the reported body is exactly the text between the braces, and `funcEnd` is one past the closing brace |
| CodeProcessing.FindMainBodyDecomposes | src/codeProcessing.py:30-41 | when the first brace after `int main` opens and the loop stops at a brace, `bodyStart` is just after that first brace, `bodyEnd` is at a `}`, and the braces between are matched |
| CodeProcessing.MainRangeDecomposes | src/codeProcessing.py:30-41 | the same facts for any range meeting the description |
| CodeProcessing.BodyBalanced | src/codeProcessing.py:34-39 | the text between the opening brace and the brace the loop stops at never closes more than it opened, and closes everything |
| CodeProcessing.FindMainBodyNoBraces | src/codeProcessing.py:27-48 | with no brace after `int main`, `bodyStart = bodyEnd = len(code)` and `funcEnd = len(code) + 1` |
| CodeProcessing.SliceFrom | src/codeProcessing.py:60 | `code[funcEnd:]` is empty when `funcEnd` is past the end |
| CodeProcessing.StripAll | src/codeProcessing.py:52 | each element is stripped, in order |
| CodeProcessing.Includes | src/codeProcessing.py:52 | one entry per `#include` match, in order, each the stripped match, starting with `#include` and on one line |
| CodeProcessing.Definitions | src/codeProcessing.py:60-62 | the definitions hold no `#include` and are already stripped |
| CodeProcessing.MainStatements | src/codeProcessing.py:56-58 | the body is the pieces between the `return 0;` occurrences glued together, then stripped |
| CodeProcessing.Cut | src/codeProcessing.py:52-67 | the three parts cut at a given range meet the include, definition and body facts above |
| CodeProcessing.Extract | src/codeProcessing.py:51-68 | fails exactly when `int main` is absent; otherwise the includes, definitions and body meet the facts above |
| CodeProcessing.ExtractOf | src/codeProcessing.py:51-68 | where `findMainBody` reports a range, `extract` returns the stripped include matches of the whole text, the text outside `main` with its includes deleted and stripped, and the body with every `return 0;` removed and stripped |
| CodeProcessing.ExtractWellFormed | src/codeProcessing.py:51-68 | on a well-formed `main`, the body is exactly the text between its braces and the definitions are exactly the text before and after the function |
| CodeProcessing.ExtractKeepsPlainBody | src/codeProcessing.py:56-58 | a body without `return 0;` or surrounding whitespace comes out as written |
| Script.RangeMap | script.py:22-27 | the dictionary has exactly the four offset keys with the range's values |
| Script.FindMainBody | script.py:3-27 | the loop reports no range exactly when `int main` is absent, and otherwise the range the reference description pins down |
| Script.FindMainBodyAgrees | script.py:3-27 | both copies of `findMainBody` report the same four offsets on every text |
| Utils.Starmap | src/utils.py:10 | `func` is applied to each unpacked pair, in order, one result per pair |
| Utils.StarmapAppend | src/utils.py:10 | mapping a concatenation is concatenating the maps |
| Utils.NewResult | src/utils.py:48-56 | a fresh record keeps the given strings and has compiled and executed false and runtime -1.0 |
| Utils.Classify | utils.py:54-66 | output is stderr; compiled iff no compile marker; executed iff neither marker, the compile marker taking precedence |
| Utils.Create | src/utils.py:69-94 | strings copied and output is stderr; compiled iff no compile marker; executed iff compiled and no execution marker; runtime is the JSON field only when executed and the field was read; fails only on JSON that is not an object |
| Utils.CreateFlagsOrdered | src/utils.py:84-94 | executed implies compiled, and the runtime leaves -1.0 only when executed |
| Utils.CreateCompileMarkerFirst | src/utils.py:84-85 | with the compile marker present the record is the fresh one, whatever else stderr holds |
| Utils.ScriptCompileFailMarked | src/benchmark.py:115-116 | a failed compile leaves the compile marker in stderr |
| Utils.ScriptExecFailMarked | src/benchmark.py:118-121 | a failed run after a clean compile leaves the execution marker and not the compile marker |
| Utils.ScriptCleanUnmarked | src/benchmark.py:107-124 | a clean run leaves neither marker, if the steps print none |
| Utils.CreateOfScript | src/utils.py:84-89 | on the script's stderr, compiled and executed match the two exit codes |
| Utils.CreateAsWritten | src/utils.py:84 | the code as written fails on its first marker test for every input |
| Utils.CreateAsWrittenNeverClassifies | src/utils.py:84-88 | the code as written records no failed run, while the corrected `Create` records every one |
| RootUtils.AsDict | utils.py:41 | `asdict` has one entry per field, holding that field's value |
| RootUtils.ToDBDoc | utils.py:40-44 | the document has every field except `filename`, plus `_key` holding the file name |
| RootUtils.FromToDBDoc | utils.py:40-44 | the stored document reads back as the record, so `toDBDoc` loses nothing |
| RootUtils.ToDBDocInjective | utils.py:40-44 | different records get different documents |
| ProcessExamples.TaskName | src/processExamples.py:134 | task `n`'s namespace is `task` followed by the decimal `n` |
| ProcessExamples.TaskNamesDistinct | src/processExamples.py:134 | different tasks get different namespaces |
| ProcessExamples.NamespaceTemplateFormat | src/processExamples.py:99-103 | the namespace template yields `namespace NAME {`, the indented body and `}` |
| ProcessExamples.NamespaceText | src/processExamples.py:133-136 | task `n`'s definitions are wrapped in `namespace taskN { ... }` |
| ProcessExamples.CodeTemplateFormat | src/processExamples.py:105-111 | the code template yields `// Task N`, a block, the using line and the body |
| ProcessExamples.CodeBlock | src/processExamples.py:138-145 | task `n`'s block is headed `// Task n` and holds its using line and body |
| ProcessExamples.TestTemplateFormat | src/processExamples.py:113-121 | the test template yields the includes, the definitions and `int main () {` around the body |
| ProcessExamples.RenderCode | src/processExamples.py:130-147 | a namespace is made iff the task has definitions; the block uses it iff it was made |
| ProcessExamples.RenderCodeUsingIffNamespace | src/processExamples.py:140-143 | a block opens with `using namespace taskN;` exactly when the task's namespace was emitted |
| ProcessExamples.Enumerate | src/processExamples.py:152 | pairs each task with its number, counting from the start |
| ProcessExamples.Firsts | src/processExamples.py:149 | the first halves of the pairs, in order |
| ProcessExamples.Seconds | src/processExamples.py:149 | the second halves of the pairs, in order |
| ProcessExamples.FilterSomeNamespaces | src/processExamples.py:158-161 | filtering out `None` keeps exactly the emitted namespaces, in task order |
| ProcessExamples.TaskBlocks | src/processExamples.py:149-154 | one block per task, block `i` headed with task number `start + i` |
| ProcessExamples.RenderedParts | src/processExamples.py:149-161 | the unzipped results of `renderCode` are the emitted namespaces and one block per task, numbered from 1 |
| ProcessExamples.RenderTest | src/processExamples.py:123-163 | fails exactly on an empty task list; otherwise the includes, the emitted namespaces joined by newlines, and `main` with the blocks joined by blank lines |
| ProcessExamples.Complement | src/processExamples.py:179 | the second choice is the other version: the two choices sum to one |
| ProcessExamples.ComplementaryVersions | src/processExamples.py:178-187 | together the two tests hold both versions of each example |
| ProcessExamples.Choice | src/processExamples.py:178 | the draw picks the fast version exactly when it is 1 |
| ProcessExamples.PickTasks | src/processExamples.py:176-187 | a finished loop has one pick per example; a failure names an example in range |
| ProcessExamples.PickTasksOk | src/processExamples.py:176-187 | after a finished loop, every pick is the drawn version and its complement, both extracted, and no example failed |
| ProcessExamples.PickTasksErr | src/processExamples.py:176-187 | a stopped loop names the first example whose key mismatches or whose version has no `main` |
| ProcessExamples.PickTasksFailsIff | src/processExamples.py:176-187 | the loop fails exactly when some example fails |
| ProcessExamples.PrepareTask | src/processExamples.py:183-187 | a program without `//` is extracted as it stands; preparing fails exactly when `int main` does not survive comment removal; the helper definitions hold no `#include` line |
| ProcessExamples.PlanOf | src/processExamples.py:168-187 | test 1 goes to `main1.cpp` with the first choices and tasks, test 2 to `main2.cpp` with the complements |
| ProcessExamples.MakeTests | src/processExamples.py:165-187 | on success both tests have one task per example, test 2's choice complements test 1's, and each task is the extracted version; on failure the example named fails and every example before it passed |
| EvaluateResults.GetColor | src/evaluateResults.py:153-163 | a colour returned for a number belongs to an interval that holds it; NaN, which fails both comparisons, gets the first interval's colour |
| EvaluateResults.FirstContaining | src/evaluateResults.py:153-163 | the first interval holding the value, with none before it |
| EvaluateResults.GetColorFromOrdered | src/evaluateResults.py:153-163 | on an ordered map the loop returns the colour of the first interval holding the value |
| EvaluateResults.GetColorOrdered | src/evaluateResults.py:153-163 | hence the early exit of `getColor` is a lookup of the first interval holding the value |
| EvaluateResults.RedGreenOrdered | src/evaluateResults.py:142-150 | the red-green map's intervals are proper and follow each other |
| EvaluateResults.RedGreenNeutral | src/evaluateResults.py:142-150 | ratios in (-0.1, 0.1] and outside [-1, 1] get no colour |
| EvaluateResults.RedGreenGreen | src/evaluateResults.py:142-146 | ratios in [-1, -0.1] get a green shade |
| EvaluateResults.RedGreenRed | src/evaluateResults.py:146-150 | ratios in (0.1, 1] get a red shade |
| EvaluateResults.RedGreenBoundaries | src/evaluateResults.py:143-161 | a shared end point takes the earlier interval's colour, so -0.7 is `#B1D9A3`, -0.1 is `#E4F2D5`, 0.1 is none |
| EvaluateResults.FmtImprovement | src/evaluateResults.py:256-265 | succeeds exactly on "y", "n" and "~", with one of the three circles |
| EvaluateResults.FmtImprovementRoundTrip | src/evaluateResults.py:256-265 | each answer can be read back from its circle |
| EvaluateResults.CirclesDiffer | src/evaluateResults.py:259-264 | the three circles differ from each other and from `\cellcolor` in their second character |
| EvaluateResults.FmtBool | src/evaluateResults.py:268-272 | true is the full circle, false the empty one |
| EvaluateResults.FmtBoolAgrees | src/evaluateResults.py:268-272 | `fmtBool` draws the circles of the answers "y" and "n" |
| EvaluateResults.ColorCellFormat | src/evaluateResults.py:282 | the coloured wrapper yields `\cellcolor[HTML]{color}{content}` |
| EvaluateResults.PlainCellFormat | src/evaluateResults.py:279 | the plain wrapper yields the content alone |
| EvaluateResults.ColorCell | src/evaluateResults.py:282 | a coloured cell is the colour command around the content |
| EvaluateResults.ColorCellStartsWith | src/evaluateResults.py:282 | a coloured cell starts with `\cellcolor` |
| EvaluateResults.PlainCell | src/evaluateResults.py:279 | a plain cell is the content alone; the colour entry is ignored |
| EvaluateResults.PlainCellNotColored | src/evaluateResults.py:279 | a plain cell holding another command is not taken for a coloured one |
| EvaluateResults.StripHashOfColors | src/evaluateResults.py:166-167 | `bad` and `good` lose exactly their `#`, and the empty colour stays empty |
| EvaluateResults.TrfImprovement | src/evaluateResults.py:275-290 | fails exactly on an unknown answer; a fast task's cell is the bare circle; a slow task's cell is coloured bad for "n", good for "y", empty for "~" |
| EvaluateResults.TrfImprovementColoredIff | src/evaluateResults.py:281-289 | a cell is coloured exactly when its task is the slow version |
| EvaluateResults.TrfRuntimeProp | src/evaluateResults.py:298-304 | the formatted ratio, wrapped in the scale's colour without `#` when the scale has one at the mapped ratio |
| EvaluateResults.TrfRuntimePropColoredIff | src/evaluateResults.py:299-304 | with `fmtQty` writing `\num{...}`, the cell is coloured exactly when `getColor` returns a colour |
| EvaluateResults.TrfRuntimePropColoredRange | src/evaluateResults.py:298-304 | hence it is coloured exactly when the mapped ratio lies in [-1, -0.1] or (0.1, 1], or is NaN |
| EvaluateResults.FailedRunCell | src/evaluateResults.py:338-341 | a failed run keeps the runtime -1, so its log ratio and mapped ratio are NaN and its cell takes the scale's first colour, `B1D9A3`, the shade of the best speed-ups |

## Left out

- Container lifecycle (`Benchmarker.run`, `runCode`, the `timeout` wrappers): docker client, `attach_socket`, `sendall` and the half-close are external I/O. The script's stderr is modelled in `ScriptStderr`, from the steps' exit codes and stderr.
- Short reads: a socket `recv` that returns fewer bytes while more are still coming is not modelled; `Recv` takes what is left.
- `bytes.decode(errors="ignore")`, `json.loads` and `fmtQty`: parameters, as said above; UTF-8 decoding and float rounding are not modelled.
- Utils.Create: a JSON field that is not a number is not modelled; `readRuntime` yields a real or one of the three failure outcomes.
- Floating point: numbers are reals and NaN is the one other float value (`EvaluateResults.Float`), so a float rounding at an interval end point (such as the float nearest -0.1) and the infinities are not modelled.
- EvaluateResults.RuntimeLog: takes a positive baseline runtime; a failed baseline run and a zero runtime, whose logarithm is -inf, are not modelled. `np.log10` and `np.atan` on numbers are the parameters `log10` and `scaledAtan`.
- Database access (`DB`, `getExamplesSorted`, `insertExamples`, `insertInto`, `getBenchRuntimesSorted`, `getTaskRuntimes`, `benchmarkExamples`): ArangoDB I/O.
- `runBenchmark`: glue that calls `Extract`, `RenderTemplate`, the container and `Create` in turn; each is modelled.
- ProcessExamples.MakeTests: takes `extract(stripComments(·))` as the parameter `prepare` (`PrepareTask` in the pipeline) and `random.binomialvariate` as the sequence `draws`; writing `main1.cpp`, `main2.cpp` and the two JSON files is left out, and the plans stop before `renderTest`, which `RenderTest` models.
- ProcessExamples.RenderTest: the order in which Python iterates the set of includes is not known, so the caller passes `includeOrder`, which must list that set with no repeats.
- `exampleRegex` scraping (`extractExamples`, the `script.py` main block), `src/applyDiffs.py`, the root `processExamples.py`, and the interactive review and table helpers of `src/evaluateResults.py`: regex-driven scraping, subprocesses, pandas and IPython.
- Comments and string literals in C++ are not understood by `findMainBody`; a brace inside a string or a comment counts, as it does in the source. A stray `}` before the opening brace of `main` also upsets the scan in the source and in the model alike; `FindMainBodyDecomposes` assumes the first brace after `int main` opens.
- Python's `str.split` and `str.replace` with an empty separator are not modelled; the code only uses the non-empty `return 0;`.
- `str.format` fields other than an ASCII identifier or a positional index are answered `UnsupportedField`: attribute and index access, conversions, format specs, and names Python would take as keywords but that hold other characters (such as `-` or non-ASCII letters). A name of non-ASCII decimal digits, which Python also reads as a position, is among them. No template of the pipeline has such a field; all are ASCII letters.
- The nanobench harness and the test templates are modelled as lists of literal pieces and fields; `FormatStringOfUnparse` connects them to the raw template text, but the literal text of the harness is not compared character by character with the source.

## Findings

| source | as written | input that shows it | evidently intended | confidence | as-written member | corrected member |
|---|---|---|---|---|---|---|
| src/utils.py:84 | `create` tests `Benchmarker.compFailMsg in output.stderr`, but `Benchmarker` in `src/benchmark.py` defines no `compFailMsg` (nor `execFailMsg`, line 87) | any call, e.g. stderr "Compilation failed\n": the attribute lookup raises `AttributeError` before any test | test the literals "Compilation failed" and "Execution failed" that the container script writes (`src/benchmark.py:116`, `:121`), as `utils.py:61` and `:64` do | not executed | Utils.CreateAsWritten | Utils.Create |
