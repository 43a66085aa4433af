# twelflive `runTwelf`, modelled in Dafny

twelflive is a small HTTP server that runs the Twelf logical framework on a
submitted prelude and view file and returns Twelf's verdict as JSON. This
project models the deterministic heart of its `runTwelf` function and of the
`/eval` handler:

- **Exit classification** (`Twelf.Classify`): from the exec error (if any)
  and stderr, either reject the run with one of two process-level messages or
  go on to decode it, marking it `killed` when it ended with the
  resource-limit status 137.
- **Transcript decoding** (`Transcript.Decode`): a fixed, index-based scan of
  the trimmed stdout split into lines — the `Twelf ` banner on line 0,
  acknowledgements (`%% OK %%`) on lines 1–2, the prelude verdict on line 3,
  then either the view file's output between its `[Opening file …]` and
  `[Closing file …]` markers followed by the server answer, or the prelude's
  output up to `%% ABORT %%`. The collected lines are joined with newlines
  and both sandbox paths are replaced by placeholders.
- **Body split** (`Eval.SplitBody`): the request body split on NUL into
  `(prelude, view)`.

JavaScript's semantics that these depend on are modelled in `JsText`:
out-of-range indexing yields `undefined` (an `Option`), `trim` with the
ECMAScript whitespace set, `split` on one character (always at least one
piece), `join`, and `replaceAll` with a literal pattern (left to right,
non-overlapping, and an empty pattern matching at every position). The reply
is `Results.Outcome`: `Decoded(version, preludeLoaded, killed, server,
output)` or `Failed(violation)`, where each `Violation` carries the server's
exact message string.

Two loose spots of the server are reproduced as written:

- The first chatter check joins its two conditions with `&&`, so it fails
  only when NEITHER line 1 nor line 2 acknowledges (`FirstChatterCheck`,
  `OneAcknowledgementSuffices`).
- The prelude path's placeholder is spelled `preulde.elf`
  (`PreludeErrorRedacted`).

Line 0 is rejected when it is `undefined` or empty (`!lines[0]`) or lacks the
`Twelf ` prefix; since the empty string never has that prefix, `HasHeader`
states the check as "present and starts with `Twelf `".

The server has exactly one trailing-token convention: the closing marker must
be the next-to-last line, and the last line is the server answer. A body with
two or more NULs is not rejected: its first part becomes the view and the
rest is dropped.

Redaction is proved complete for the paths the server uses when the system
temporary directory is `/tmp`. They are `<dir>/prelude.elf` and
`<dir>/view.elf`, where `<dir>` is a `mkdtemp` directory `/tmp/twelf-XXXXXX`. For such paths the output contains
neither path, wherever Twelf printed them (`Scenarios.SandboxPathsNeverLeak`).
The general condition is `Transcript.Redactable`. The prelude path must start
with a character found in neither placeholder, and the view path with one not
in `input.elf`; here both start with `/`. No proper suffix of a
path may line up with a placeholder, since a replacement inserted after kept
text could otherwise complete a new occurrence. The property can fail
without that condition: if the directory name contained `preulde.elf`, one
replacement could rebuild the prelude path.

Files: `js_text.dfy` (module `JsText`), `results.dfy` (`Results`),
`transcript.dfy` (`Transcript`), `twelf.dfy` (`Twelf`), `eval.dfy` (`Eval`),
`scenarios.dfy` (`Scenarios`, concrete transcripts).

## Model

| member | source | states |
|---|---|---|
| Twelf.Classify | server.mjs:25-36 | a clean exit with non-empty stderr is rejected as "stderr was nonempty", and only that; a failed exit whose code is not 137 is rejected as "not terminated by SIGKILL", and only that; decoding proceeds exactly for a clean exit with empty stderr or a failure with status 137, and `killed` is set exactly for the latter |
| Twelf.RunTwelf | server.mjs:25-120 | the pure part of a run, decoding the trimmed, newline-split stdout when the classification allows it: each process-level rejection happens exactly when its condition holds (otherwise the transcript is decoded), a decoded reply is marked killed exactly when the exec error was present with status 137, and a decoded reply that was not killed had empty stderr |
| Twelf.TranscriptLines | server.mjs:38 | the trimmed stdout split on newlines always has a line 0 |
| Twelf.FirstLineHeader | server.mjs:38-39 | line 0 of the split transcript starts with `Twelf ` exactly when the trimmed stdout does |
| Twelf.RunTwelfHeader | server.mjs:38-44 | a run that passes the exit classification is rejected as "standard header not provided" exactly when its trimmed stdout does not start with `Twelf `, whether killed or not |
| Transcript.Decode | server.mjs:39-126 | every decoded reply keeps the caller's killed flag, has a banner on line 0, reports as version the trimmed banner line, and says the prelude loaded exactly when line 3 is `%% OK %%`; the decoder never yields the two process-level violations; for redactable sandbox paths the output contains neither path |
| Transcript.VersionIsBanner | server.mjs:45 | the reported version of any decoded reply still starts with the word `Twelf` |
| Transcript.BannerTrim | server.mjs:39-45 | a line that passed the banner check keeps `Twelf` at its head after trimming |
| Transcript.DecodeLoaded | server.mjs:60-102 | after a loaded prelude every decoded reply has `preludeLoaded` set, and the only violations are the second-chatter, opening-marker, closing-marker and next-to-last ones; for redactable paths the output contains neither path |
| Transcript.DecodeUnloaded | server.mjs:103-115 | after a failed prelude load decoding never fails, `preludeLoaded` is false, and the server answer, when present, is `%% ABORT %%`; for redactable paths the output contains neither path |
| Transcript.Scan | server.mjs:80-84 | the scan loop stops at the first index from its start that holds the marker, or at the end of the lines (or where it started if that is already past the end) |
| Transcript.StopsAtUnique | server.mjs:107-111 | the stopping point of a scan is unique, so the output ranges are determined by the transcript |
| Transcript.HeaderCheck | server.mjs:39-44 | the decoder reports "standard header not provided" exactly when line 0 is missing or does not start with `Twelf `, for killed and non-killed runs alike |
| Transcript.FirstChatterCheck | server.mjs:47-55 | "first chatter change was not successful" is reported exactly when the banner is present and both line 1 and line 2 differ from `%% OK %%`; one acknowledgement is enough to continue |
| Transcript.LoadedFraming | server.mjs:60-78 | when line 3 acknowledges the prelude, a line 4 other than `%% OK %%` gives the second-chatter violation, a line 5 other than exactly `[Opening file <view path>]` gives the opening-marker violation, and any decoded reply has the prelude loaded |
| Transcript.LoadedBody | server.mjs:80-102 | with `j` the first index from 6 holding `[Closing file <view path>]`: the output is lines 6 to `j` (so it never contains the marker); without a marker a non-killed run is the closing-marker violation and a killed run is decoded with no server answer; a marker on the next-to-last line gives the last line, unredacted, as server answer; a marker anywhere else is the next-to-last violation |
| Transcript.UnloadedBody | server.mjs:103-115 | when line 3 does not acknowledge the prelude the result is always decoded with `preludeLoaded` false, output lines 4 up to the first `%% ABORT %%` (never including it), and server answer `%% ABORT %%` when that line exists and none otherwise |
| Transcript.Redact | server.mjs:124-125 | the prelude path is replaced first, then the view path; for redactable paths neither path is left in the result |
| Transcript.RenderOutput | server.mjs:122-125 | the collected lines joined by newlines and redacted; for redactable paths the output contains neither path |
| Twelf.SandboxPathsRedactable | server.mjs:11-12 | the two files `prelude.elf` and `view.elf` of an absolute directory that contains neither placeholder are redactable paths |
| Twelf.TmpSandbox | server.mjs:9 | a `mkdtemp` directory `/tmp/twelf-` plus six characters without `/` contains neither placeholder |
| Twelf.PathCannotStraddle | server.mjs:11-12 | a path `dir/name` cannot straddle a `/`-free placeholder when the directory does not contain it and no suffix of the name lines up with it |
| Transcript.RenderOutputPlain | server.mjs:122-125 | when no collected line contains either sandbox path (non-empty, newline-free), the output text is exactly the lines joined with newlines |
| JsText.TrimStart | server.mjs:38 | the result is a suffix of the input that does not start with whitespace, and everything dropped is whitespace |
| JsText.TrimEnd | server.mjs:38 | the result is a prefix of the input that does not end with whitespace, and everything dropped is whitespace |
| JsText.Trim | server.mjs:45 | the result neither starts nor ends with whitespace and an already trimmed string is returned unchanged |
| JsText.TrimSlice | server.mjs:38 | the trimmed string is a contiguous slice of the input, and everything before and after that slice is whitespace |
| JsText.TrimIdempotent | server.mjs:45 | trimming twice is the same as trimming once |
| JsText.TrimKeepsLeadingWord | server.mjs:39-45 | a line starting with `Twelf ` still starts with `Twelf` after trimming, so the version keeps the banner word |
| JsText.At | server.mjs:39-112 | indexing yields a value exactly inside the array, and then the element; outside it yields `undefined`, which no string equals |
| JsText.Join | server.mjs:123 | the empty array joins to the empty string; otherwise the result starts with the first element, followed by the separator when there is a second one |
| JsText.Split | server.mjs:38 | splitting on one character gives at least one piece and no piece contains the separator |
| JsText.JoinSplit | server.mjs:38 | joining the pieces of a split with the separator gives back the original string |
| JsText.SplitJoin | server.mjs:153 | splitting the join of at least one separator-free piece gives back exactly those pieces |
| JsText.SplitFree | server.mjs:157-158 | a string without the separator splits into itself alone |
| JsText.SplitAtFirst | server.mjs:153 | a split stops at the first separator: the text before it is the first piece and the rest is split in turn |
| JsText.SplitFirstPiece | server.mjs:38-39 | the first piece is a prefix of the string that is either all of it or followed by the separator |
| JsText.ReplaceAllAbsent | server.mjs:124-125 | replacing a non-empty pattern that does not occur leaves the text unchanged |
| JsText.ReplaceAll | server.mjs:124-125 | a replacement as long as the pattern keeps the text's length; `ReplaceAllLeftmost`, `ReplaceAllAbsent` and `ReplaceAllLeavesNo` state which occurrences are replaced |
| JsText.ReplaceAllLeavesNo | server.mjs:124-125 | after replacing a pattern by text that lacks its first character and that it cannot straddle, the pattern no longer occurs anywhere, and no other such string that was absent appears |
| JsText.ReplaceAllPrefix | server.mjs:124-125 | a replaced text that starts with a string whose suffixes cannot line up with the replacement comes from a text that started with it |
| JsText.ReplaceAllLeftmost | server.mjs:124-125 | the leftmost occurrence is replaced: the text before it is kept, the occurrence becomes the replacement, and replacement continues after it |
| JsText.ContainsAcrossSeparator | server.mjs:123 | an occurrence in `a + c + b` lies inside `a`, inside `b`, or covers `c` |
| JsText.JoinAbsent | server.mjs:123 | joining with a newline creates no occurrence of a newline-free pattern that none of the lines contains |
| Results.Violation.Message | server.mjs:28-98 | every violation message is `Unexpected response from Twelf: ` followed by the violation's own wording; `MessagesDistinct` states that the message identifies the violation |
| Results.MessagesDistinct | server.mjs:28-98 | different violations send different `msg` strings, so a caller can tell from the message alone which check failed |
| Results.DetailsDistinct | server.mjs:28-98 | the eight wordings after the shared opening are pairwise different |
| Eval.SplitBody | server.mjs:153-158 | neither document of the split body contains a NUL |
| Eval.SplitBodyTwoDocuments | server.mjs:157-158 | a prelude and a view without NULs, joined by one NUL, are split back into exactly that prelude and view |
| Eval.SplitBodyOneDocument | server.mjs:157-158 | a body without NUL is the view, with an empty prelude |
| Eval.SplitBodyExtraDropped | server.mjs:157-158 | a body with two or more NULs is accepted: the text before the first NUL is the view, the prelude is empty, and the rest is dropped |
| Eval.SplitBodyReassembles | server.mjs:153-158 | with at most one NUL nothing is lost: the view is the whole body, or prelude, NUL and view reassemble it |
| Scenarios.ViewChecked | server.mjs:60-126 | an empty prelude loads and the view echoes `OK.` before its closing marker: decoded with `preludeLoaded` true, output `OK.` and the last line as server answer |
| Scenarios.KilledWhileChecking | server.mjs:80-125 | a run killed before the closing marker is decoded with no server answer, and an absolute view path at the head of the partial output becomes `input.elf` |
| Scenarios.OneAcknowledgementSuffices | server.mjs:47-115 | a transcript whose line 1 is not an acknowledgement but whose line 2 is passes the first chatter check; its failed prelude output runs up to `%% ABORT %%`, which becomes the server answer |
| Scenarios.PreludeErrorRedacted | server.mjs:103-125 | when the prelude fails to load and Twelf's error line starts with the prelude path, the decoded output shows it as `preulde.elf`, spelled as in the server, with no server answer |
| Scenarios.SandboxPathsNeverLeak | server.mjs:9-125 | for every transcript run with the sandbox files of a `/tmp/twelf-XXXXXX` directory, a decoded reply's output contains neither the prelude path nor the view path, wherever Twelf printed them |

## Left out

- Creating the temporary directory, writing the two files and removing the directory in the `finally` block (server.mjs:9-14, 127-129): filesystem I/O. The paths are parameters. A failure of `mkdtemp`, of `writeFile` or of the `rm` in the `finally` block makes `runTwelf` reject, and the handler then replies 500 (server.mjs:164-167). None of these failures is modelled.
- Running `/twelf-ulimit.sh` through `exec` (server.mjs:16-23): an external process. Its error, stdout and stderr are parameters; of the error only `code` is modelled.
- The HTTP server, routing, status codes and JSON serialisation (server.mjs:132-181): transport.
- The streaming size limit (server.mjs:143-151): it adds up `chunk.size`, which depends on Node's stream objects rather than on the body.
- The 400 reply for more than two data chunks (server.mjs:154): it counts transport chunks, not NUL-separated parts; `Eval.SplitBody` takes the joined body.
- `console.log` calls: side effects only.
- JavaScript strings are UTF-16; here a character is a Unicode scalar value, which only matters for `trim` and empty-pattern `replaceAll` around surrogate pairs.
- `replaceAll` replacement patterns such as `$&`: the two placeholders contain no `$`, so they are not modelled.
- Transcript.RenderOutput: the output is proved free of both paths only for redactable paths, such as the `mkdtemp` paths under `/tmp`. For contrived paths, for example a directory whose name contains a placeholder, a replacement can form a new occurrence.
