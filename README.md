# tson-vscode: a Dafny model of the extension's own text handling

The tson-vscode extension gives VS Code support for TSON documents (`tson`,
one value per file) and TSONL documents (`tsonl`, one value per line). The
TSON language itself lives in the `tson-js` library. Everything the
extension does on its own is modelled here, from `src/extension.ts`:

- **Diagnostics.** `TSONValidator` checks a document. A `tson` document is
  parsed as a whole. A parse error, or a list of them, is reported with the
  error's own range. Any other exception falls back to a bracket-balance
  scanner, `validateBasicBrackets`. A `tsonl` document is checked line by
  line, and each failing line gets column-0 diagnostics.
- **Formatting.** `TSONDocumentFormatter` pretty-prints a whole `tson`
  document and keeps the text when parsing fails. A `tsonl` document is
  compacted line by line.
- **Conversion.** The line-wise and whole-document conversions between
  TSON/TSONL and JSON/JSONL. This covers the new content and the target
  path, whose suffix `.tson`/`.tsonl` or `.json`/`.jsonl` is replaced in any
  letter case.

The modules follow these parts:

| module | file | holds |
|---|---|---|
| `Text` | `text.dfy` | the JavaScript string operations used: `split("\n")`, `join("\n")`, `trim()`, `startsWith`, `endsWith`, ASCII lower-casing in place of `toLowerCase`, decimal rendering |
| `TsonJs` | `tsonjs.dfy` | the interface of `tson-js` and of `JSON` |
| `Diagnostics`, `Editor` | `diagnostics.dfy` | diagnostics and their two constructors; documents |
| `Brackets` | `brackets.dfy` | `validateBasicBrackets` |
| `LineStream` | `linestream.dfy` | the split / trim / pass-through / convert / join loop shared by formatting and both conversions |
| `Formatter` | `formatter.dfy` | `formatTSONText`, `formatTSONLText`, the language dispatch |
| `Validator` | `validator.dfy` | `validateTSONL`, `validateTSON`, `validate`, as the class `TSONValidator` |
| `Convert` | `convert.dfy` | `handleConvertToJson`, `handleConvertToTSON` without the editor |

`TSON.parse`, `TSON.stringify`, `JSON.parse` and `JSON.stringify` are
foreign code. They enter every operation as the fields of a `Codecs` value.
Every property is therefore proved for any behaviour of those functions. A
property that needs a law of the library, such as a value surviving
serialisation and parsing, takes that law as a precondition.

The loops of the source are methods with loop invariants:

- the bracket scanner's nested line and character loops;
- the TSONL validation loop, with its inner loop over an error list;
- the error-list loop of `validateTSON`;
- the line-stream loop.

Each method is proved equal to a specification function. The properties are
then proved about those functions. `TSONValidator` is a class. Its two
diagnostic collections are maps from document URI to diagnostics, and its
methods update them in place.

The source's comments and its code disagree about these line pipelines, and
the model follows the code. The comments say blank and comment lines, and
lines that fail to parse, are kept as they were (`src/extension.ts:286`
"preserve them", `:300` "preserve the original line", `:351` and `:438`
"Keep original line"). The code pushes the *trimmed* line instead
(`:288`, `:301`, `:341`, `:352`, `:428`, `:439`), so such a line loses its
indentation and trailing blanks.

## Model

| member | source | states |
|---|---|---|
| Text.Trim | src/extension.ts:35 | `trim()` never lengthens a line |
| Text.TrimSpec | src/extension.ts:35 | `trim()` removes exactly the leading and trailing JavaScript whitespace: neither end of the result is whitespace, it holds only characters of the input, and it is empty exactly when the input is all whitespace |
| Text.TrimIdempotent | src/extension.ts:284 | trimming a trimmed line changes nothing |
| Text.Join | src/extension.ts:305 | `join("\n")` places a line feed between consecutive pieces; `JoinSplit` and `SplitJoin` prove it the inverse of `split("\n")` on line-feed-free pieces |
| Text.Split | src/extension.ts:31 | `split("\n")` always yields at least one piece, and no piece holds a line feed |
| Text.JoinSplit | src/extension.ts:305 | joining the pieces of a split with line feeds gives back the text |
| Text.SplitJoin | src/extension.ts:305 | splitting a join of line-feed-free pieces gives back the pieces |
| Text.SplitLength | src/extension.ts:31 | a split yields one more piece than the text has line feeds |
| Text.ToLowerAscii | src/extension.ts:414 | ASCII lower-casing keeps the length and maps each ASCII capital to its small letter and every other character to itself (see "Left out" for non-ASCII capitals) |
| Text.NatToString | src/extension.ts:155 | a count renders as a non-empty string of decimal digits |
| Text.NatToStringDecimal | src/extension.ts:155-164 | the rendering of a count is its decimal numeral: read as decimal digits it denotes the count, and it has no leading zero for a count of 1 or more |
| Diagnostics.CreateDiagnostic | src/extension.ts:170-183 | the range is one character wide on one line, starting at (line, character), with the given message |
| Diagnostics.CreateDiagnosticWithError | src/extension.ts:90-105 | the range starts at the error's cursor and ends at its end cursor; without an end cursor it is empty at the start; the message is the error's |
| Diagnostics.FlattenOnLine | src/extension.ts:34-59 | when block j holds only line-j diagnostics, the line-k diagnostics of all blocks laid end to end are exactly block k, and none for a line past the blocks |
| Diagnostics.FlattenOrdered | src/extension.ts:34-59 | diagnostics gathered block by block in line order come in non-decreasing line order |
| Brackets.ValidateBasicBrackets | src/extension.ts:107-168 | the nested scan appends exactly `BracketDiagnostics(text)` to the caller's diagnostics; both counters stay non-negative throughout |
| Brackets.CommentLineIsTrimmedComment | src/extension.ts:121 | the scanner's comment test, `//` right after the leading whitespace, holds exactly when `line.trim().startsWith("//")` does |
| Brackets.ScanLineInto | src/extension.ts:126-146 | the character loop over one line leaves both counters and the pushed diagnostics exactly as the scan of that line from the incoming state gives them |
| Brackets.CommentLinesIgnored | src/extension.ts:119-123 | lines that are comments are skipped: line sequences that agree except on lines that are comments in both scan to the same counters and reports |
| Brackets.CommentEditsInvisible | src/extension.ts:119-123 | changing the text of comment lines, while keeping them comments, leaves the fallback's diagnostics unchanged |
| Brackets.ScanLineNeutral | src/extension.ts:126-131 | characters other than `{ } [ ]` change neither counter and report nothing |
| Brackets.Step | src/extension.ts:127-145 | one character: `{`/`[` raise their counter; `}`/`]` lower it, or, at zero, report "Unexpected closing brace"/"bracket" at (i, j) and leave it at zero; anything else changes nothing. Its properties are proved in `StepBalance`, `StepReports` and `ScanLineNeutral`, and `ScanLineInto` proves the source's decrement-then-reset loop equal to it |
| Brackets.StepBalance | src/extension.ts:126-145 | one character: counter plus closers equals previous counter plus openers plus new "Unexpected closing" reports, for each kind separately |
| Brackets.StepReports | src/extension.ts:128-145 | one character pushes nothing, or, for a `}` or `]`, one report of the matching kind at its own line and column |
| Brackets.ScanLineBalance | src/extension.ts:126-145 | the same balance over the first n characters of a line |
| Brackets.ScanLinesBalance | src/extension.ts:118-147 | the same balance over the first n lines, counting only non-comment lines |
| Brackets.BalanceAcrossLine | src/extension.ts:126-146 | the balance over the text read so far carries over one more non-comment line |
| Brackets.CounterInvariantOfLines | src/extension.ts:118-167 | for any lines and any last line number, the balance holds with the end-of-input reports appended to the scan's reports |
| Brackets.CounterInvariant | src/extension.ts:118-167 | the final brace count equals #`{` − #`}` + #"Unexpected closing brace" over the non-comment text, with the number of reports counted in the complete output; likewise for brackets |
| Brackets.LeftoversAddNoUnexpected | src/extension.ts:149-167 | appending the end-of-input reports leaves both "Unexpected closing" counts unchanged |
| Brackets.LeftoversCarryNoUnexpected | src/extension.ts:149-167 | the end-of-input reports never carry an "Unexpected closing" message |
| Brackets.ScanLineReports | src/extension.ts:126-145 | scanning a line only appends; each new report is at a `}` (brace message) or `]` (bracket message) of that line, one character wide, in strictly increasing column order |
| Brackets.ScanLinesReportClosers | src/extension.ts:118-147 | every report made during the scan sits at a closing character of a line already read, of the matching kind |
| Brackets.ScanLinesReportsInOrder | src/extension.ts:118-147 | the scan's reports come in (line, column) order |
| Brackets.LeftoversAtEnd | src/extension.ts:149-167 | the end-of-input reports sit on the given last line at column 0, one character wide |
| Brackets.ClosingReports | src/extension.ts:118-147 | for a whole text, every scan report sits at a matching closing character of a non-comment line, and the reports are in position order |
| Brackets.EndOfInputReports | src/extension.ts:149-167 | after the scan reports comes exactly one "n unclosed braces" report for a final brace count n > 0, then exactly one "n unclosed brackets" report for a final bracket count n > 0, on line `lines.length - 1` at column 0, and nothing for a count at zero |
| Brackets.BracketDiagnosticsInOrder | src/extension.ts:118-167 | every fallback diagnostic is one character wide on a line of the text, and the start lines never decrease |
| Brackets.ScanLineNoReset | src/extension.ts:126-145 | while no prefix of a line drives a counter below zero, scanning it reports nothing and each counter moves by openers minus closers |
| Brackets.ScanLinesNoReset | src/extension.ts:118-147 | the same over lines, for non-comment text all of whose prefixes are balanced or open |
| Brackets.BalancedHasNoDiagnostics | src/extension.ts:118-167 | text whose non-comment characters have non-negative balance in every prefix and zero balance in total, for both kinds, gets no diagnostic |
| Brackets.ExampleFirstHalf | src/extension.ts:126-131 | on `{"a": [1, 2}` the first six characters leave a brace count of 1, a bracket count of 0 and no report |
| Brackets.ExampleLineScan | src/extension.ts:126-145 | scanning the whole line `{"a": [1, 2}` leaves a brace count of 0, a bracket count of 1 and no report |
| Brackets.SingleLineScan | src/extension.ts:112-167 | a text without a line feed that is not a comment splits into itself alone; its diagnostics are the scan of that line's reports, then the end-of-input reports on line 0 |
| Brackets.OneUnclosedBracket | src/extension.ts:159-167 | a final bracket count of 1 with no open brace yields exactly "1 unclosed brackets" at line 0, column 0 |
| Brackets.IndependentCounters | src/extension.ts:126-167 | the counters are independent: `{"a": [1, 2}` yields exactly one diagnostic, "1 unclosed brackets" at line 0, column 0 |
| LineStream.RewriteAll | src/extension.ts:283-303 | the loop pushes one output line per input line, line k being what the loop body makes of input line k |
| LineStream.RewriteLines | src/extension.ts:280-305 | the loop's joined output equals the pipeline function `Rewrite` |
| LineStream.RewriteAllSingleLines | src/extension.ts:283-303 | when conversion never produces a line feed, no pushed line holds one |
| LineStream.LineStructure | src/extension.ts:280-305 | with single-line conversion output, the output has as many lines as the input, and output line k is what the body makes of input line k |
| LineStream.PassThroughOnly | src/extension.ts:286-290 | text made only of trimmed blank and comment lines comes back unchanged, whatever the conversion does |
| LineStream.RewriteLineStable | src/extension.ts:284-302 | a line the body produced is left alone by the body when the conversion is stable on its own output |
| LineStream.RewriteIdempotent | src/extension.ts:280-305 | for such a conversion, running the pipeline twice gives what running it once gives |
| LineStream.RewriteComposes | src/extension.ts:332-357 | two pipelines in sequence act as one whose line body is their composition, when the first never breaks a line |
| Formatter.FormatTSONText | src/extension.ts:258-274 | `formatTSONText` is the pretty `stringify` of the parsed document, or the text itself when parsing throws; `FormatForLanguage` states both cases and `FormatTSONTextIdempotent` proves formatting idempotent under the pretty round-trip law |
| Formatter.FormatTSONLText | src/extension.ts:276-306 | TSONL formatting is the line pipeline with "parse, then compact `stringify`" as conversion |
| Formatter.FormatTSONLLines | src/extension.ts:280-305 | with single-line compact output: same line count; output line k is the trimmed line k when blank, comment or unparsable, else `stringify(parse(trimmed), false)` |
| Formatter.FormatTSONLIdempotent | src/extension.ts:276-306 | when compact output parses back to the value and is a trimmed single line, formatting twice equals formatting once |
| Formatter.FormatTSONTextIdempotent | src/extension.ts:258-274 | when pretty output parses back to the value, formatting a TSON document twice equals formatting it once |
| Formatter.FormatForLanguage | src/extension.ts:197-223 | formatting is per-line exactly when the language id is "tsonl"; otherwise the result is `stringify(parse(text), true)`, or the text unchanged when parsing throws |
| Validator.ErrorsOnLine | src/extension.ts:49-52 | an error list on line k yields one column-0 diagnostic per error, in order, with that error's message |
| Validator.CollectLine | src/extension.ts:35-58 | one iteration pushes exactly what `LineDiagnostics` gives: nothing for a blank, comment or parsable line; one diagnostic for a single parse error; one per error of a list; "Invalid TSON object in line" otherwise |
| Validator.CollectTsonlDiagnostics | src/extension.ts:29-62 | the loop collects exactly the per-line diagnostics of every line, in line order |
| Validator.LineDiagnosticsAt | src/extension.ts:34-58 | each diagnostic of line k is on line k at column 0, one character wide, and only for a line that is neither blank nor a comment and fails to parse |
| Validator.LineBlocksByLine | src/extension.ts:34-58 | the per-line diagnostics of line k all start on line k |
| Validator.TsonlDiagnosticsAt | src/extension.ts:29-62 | every TSONL diagnostic sits at column 0 of a failing, non-blank, non-comment line, one character wide, and the lines never decrease |
| Validator.LineIsolation | src/extension.ts:29-62 | the diagnostics of a TSONL document that fall on line k are exactly those line k produces on its own |
| Validator.ErrorsWithRanges | src/extension.ts:77-80 | an error list yields one diagnostic per error, in order, with that error's range and message |
| Validator.CollectTsonDiagnostics | src/extension.ts:64-88 | whole-document validation yields nothing for a document that parses, one diagnostic per error for an error list, a single diagnostic for a single error, and the bracket fallback only for any other exception |
| Validator.ParseErrorsReportedAsThrown | src/extension.ts:74-80 | a document failing with a parse error, or a list, gets exactly the errors' own ranges and messages, in order, and no bracket report |
| Validator.TSONValidator.constructor | src/extension.ts:10-17 | both collections start empty |
| Validator.TSONValidator.Validate | src/extension.ts:19-27 | a "tson" document updates only the tson collection, a "tsonl" document only the tsonl collection, and any other language id changes nothing |
| Validator.TSONValidator.ValidateTSONL | src/extension.ts:29-62 | the document's entry in the tsonl collection is replaced by its TSONL diagnostics; nothing else changes |
| Validator.TSONValidator.ValidateTSON | src/extension.ts:64-88 | the document's entry in the tson collection is replaced by its whole-document diagnostics; nothing else changes |
| Convert.ReplaceExtension | src/extension.ts:372-375 | the case-insensitive replace of a trailing `.tson` or `.tsonl` by the target extension, and the same at :459-462 for `.json` or `.jsonl`: `ReplaceMatchedExtension` proves a matched suffix is replaced with the prefix kept, `ReplaceUnmatchedExtension` that any other path is unchanged |
| Convert.ReplaceMatchedExtension | src/extension.ts:372-375 | a path ending in `.tson` or `.tsonl` (or `.json`/`.jsonl`) in any letter case gets the target extension in its place, and everything before the dot is kept |
| Convert.ReplaceUnmatchedExtension | src/extension.ts:459-462 | a path without such a suffix is returned unchanged |
| Convert.ConvertToJson | src/extension.ts:326-375 | TSON-to-JSON conversion yields the target path and content of `ToJson`: line-wise for "tsonl", whole-document otherwise, and nothing when a whole document fails to parse |
| Convert.ConvertToTson | src/extension.ts:412-462 | JSON-to-TSON conversion yields the target path and content of `ToTson`: line-wise exactly when the path ends in `.jsonl`, and nothing when a whole document fails to parse |
| Convert.ToJsonTarget | src/extension.ts:330-375 | a `.tson`/`.tsonl` file whose language id agrees converts to `.json`/`.jsonl` beside it; a whole document converts exactly when it parses |
| Convert.ToTsonTarget | src/extension.ts:414-462 | a `.json`/`.jsonl` file converts to `.tson`/`.tsonl` beside it, the choice made by the lower-case `.jsonl` test; a whole document converts exactly when it parses as JSON |
| Convert.IsJsonlPath | src/extension.ts:414 | `isJSONL`: the lower-cased path ends in `.jsonl`; `JsonlTest` proves that for a JSON-family extension it holds exactly for `.jsonl` in any letter case |
| Convert.JsonlTest | src/extension.ts:414 | for a path ending in `.json` or `.jsonl` in some letter case, the `isJSONL` test holds exactly for the latter |
| Convert.ToJsonKeepsOtherPaths | src/extension.ts:372-375 | a path without a TSON suffix keeps its name, so only the content changes |
| Convert.ToJsonlLines | src/extension.ts:332-357 | JSONL output keeps the line count, and line k is the trimmed line or its compact JSON form |
| Convert.ToTsonlLines | src/extension.ts:419-444 | TSONL output keeps the line count, and line k is the trimmed line or its compact TSON form |
| Convert.JsonlRoundTripLine | src/extension.ts:332-357 | one line converted to JSONL and back is what the TSONL formatter makes of it, given the JSON laws of `JsonlFaithful` |
| Convert.JsonlRoundTripContent | src/extension.ts:419-444 | a TSONL text converted to JSONL and back equals its TSONL formatting |
| Convert.JsonlRoundTrip | src/extension.ts:326-462 | `p.tsonl` converted to JSONL and back is `p.tsonl` again, with the formatted content |
| Convert.ToJsonWhole | src/extension.ts:358-375 | a parsable `p.tson` document converts to `p.json` holding `JSON.stringify(parse(content), null, 2)` |
| Convert.ToTsonWhole | src/extension.ts:445-462 | a `p.json` document that parses as JSON converts to `p.tson` holding `TSON.stringify(value, true)` |
| Convert.JsonRoundTrip | src/extension.ts:358-456 | a parsable `p.tson` converted to JSON and back is `p.tson` again, with the pretty-printed content, when indented JSON parses back to the value |

## Left out

- `TSON.parse`, `TSON.stringify`, `JSON.parse` and `JSON.stringify` are not part of this model. They enter as parameters, and each law a proof needs is a precondition.
- The editor API is left out. A diagnostic is a plain range and message. Its severity (always Error) and source (always "TSON") are not stored. Ranges, text edits and `lineAt` arithmetic are left out. The diagnostic collections are maps from the document's URI.
- `formatTSONDocument` and `formatTSONLDocument` only build a whole-document range, which is left out. The range variant formats the text it is given.
- The conversions' file I/O is left out: `openTextDocument`, `writeFile`, `TextEncoder`, opening the new document. The no-file-selected branch is left out. So are the error, information and console messages, and `console.log` in `createDiagnosticWithError` and `validateTSON`.
- The outer `catch` of both conversions is left out. `TSON.stringify` and `JSON.stringify` are total functions here. An exception from them, or `JSON.stringify` returning `undefined`, is not modelled.
- `activate`, `deactivate` and the language configuration (word pattern, indentation and on-enter rules) are left out. They are declarative registration and hold no logic.
- Text is a sequence of Unicode scalar values. Columns count code points, not UTF-16 code units, so a character outside the Basic Multilingual Plane is one column, not two.
- Text.ToLowerAscii: `toLowerCase()` lower-cases every Unicode capital (`É` to `é`) and can lengthen a string (`İ` to `i` followed by a combining dot); the model folds ASCII letters only. The one use, the `.jsonl` test at `src/extension.ts:414`, has the same outcome either way: only U+0130 and U+212A lower-case into ASCII, to `i` plus a combining dot and to `k`, and neither result ends in a character of `.jsonl`.
- Convert.ReplaceExtension: the regular expression's `/i` flag is modelled as ASCII case folding. For the letters in these patterns this agrees with JavaScript's non-Unicode case-insensitive matching, which refuses to map a non-ASCII character onto an ASCII one.
- Brackets.ValidateBasicBrackets: the caller's array, which the source pushes into in place, is modelled as a sequence. The method returns the old contents followed by the new reports.
