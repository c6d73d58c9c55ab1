# Audio transcript generator: a verified model of the transcription service

This project models the core of `services/geminiService.ts`. That service turns an
audio or video file into a list of transcript segments (`timestamp`, `speaker`, `text`).
It works in four steps:

1. It cuts the file into parts of 10 MiB.
2. It reads each part as base64 with a MIME type worked out from the file.
3. It sends each part to a transcription model.
4. It parses each reply line by line (`[MM:SS] Speaker: text`), shifts the reply's
   timestamps by the time before the part, and appends the result to the transcript.

A part that fails leaves one "System" placeholder segment. After each part that fails
or whose reply has text, the current transcript is handed to the caller.

The model has these modules:

- `Text`: the ECMAScript string primitives the service relies on: one-character
  `split`, `trim`, the `\s` and `.` classes, `toString`, `padStart` and `toLowerCase`.
- `Types`: the `TranscriptSegment` record.
- `TimeCodec`: `parseTimeInSeconds` and `formatTimeFromSeconds`.
- `MimeTypes`: `getMimeType`.
- `TranscriptParser`: `parseTranscript` and its header pattern.
- `Chunking`: the chunk count, the byte ranges and the duration shares.
- `Pipeline`: the loop of `generateVideoTranscript`, as imperative methods proved
  against specification functions.
- `PipelineProperties`: what that loop promises across parts.

The outside world is an input to the loop:

- the total duration of the file;
- one `Outcome` per part: the encode step failed, the request failed, or the reply's text.

The loop's effect on the world is an output: a trace of `Event`s in order. An event is
a status message, a read of bytes `[start, end)` with a MIME type, or a transcript
handed to `onTranscriptUpdate`.

Time values are exact reals. The source's `Math.floor` is the real floor. The source's
`%` is its JavaScript remainder, which for the non-negative operands used here is
`t - d * floor(t / d)`.

## Model

| member | source | states |
|---|---|---|
| Text.Trim | services/geminiService.ts:103 | `trim` cuts only white space from both ends and leaves a piece that neither starts nor ends with white space |
| Text.Split | services/geminiService.ts:49 | `split` yields at least one piece, no piece holds the separator, and joining the pieces with the separator gives the input back |
| Text.SplitJoin | services/geminiService.ts:49 | splitting the join of separator-free pieces gives those pieces back |
| Text.SplitLength | services/geminiService.ts:49-52 | there is one more piece than there are separators |
| Text.SplitLast | services/geminiService.ts:17 | the last piece of a split is the text after the last separator, or the whole text |
| Text.NatToString | services/geminiService.ts:60-61 | `toString` of a whole number gives digits whose decimal value is the number, with no leading zero: a single `0` for 0 |
| Text.PadStart | services/geminiService.ts:60-61 | `padStart` reaches the width by putting fill characters in front and keeps the text as its suffix |
| Text.ToLower | services/geminiService.ts:17 | `toLowerCase` keeps the length, leaves no upper-case ASCII letter, keeps every other character, and moves each upper-case letter to its lower-case partner |
| Text.ToLowerIdempotent | services/geminiService.ts:17 | lower-casing twice is lower-casing once |
| Text.TrimUnchanged | services/geminiService.ts:103 | text that neither starts nor ends with white space is its own trim |
| TimeCodec.ParseTime | services/geminiService.ts:48-53 | no contract of its own: `parseTimeInSeconds`, described by `ParseTimeTwoFields`, `ParseTimeThreeFields` and `ParseTimeOtherFieldCount` |
| TimeCodec.ParseTimeTwoFields | services/geminiService.ts:50 | `MM:SS` reads as minutes * 60 + seconds |
| TimeCodec.ParseTimeThreeFields | services/geminiService.ts:51 | `HH:MM:SS` reads as hours * 3600 + minutes * 60 + seconds |
| TimeCodec.ParseTimeOtherFieldCount | services/geminiService.ts:52 | text without exactly one or two colons reads as 0 |
| TimeCodec.JsRemainder | services/geminiService.ts:57-58 | no contract of its own: `t % d` for non-negative numbers, `t` less the largest multiple of `d` not above it, as `ClockOfMatchesSource` uses it |
| TimeCodec.SplitSeconds | services/geminiService.ts:56-58 | no contract of its own: whole seconds as hours, minutes below 60 and seconds below 60, described by `SplitSecondsUnique` and `SplitSecondsTotal` |
| TimeCodec.ClockOf | services/geminiService.ts:56-58 | no contract of its own: the fields shown for a time are those of its whole seconds; `ClockOfMatchesSource` proves they equal the source's three `Math.floor` expressions |
| TimeCodec.SplitSecondsUnique | services/geminiService.ts:56-58 | the hours/minutes/seconds split is the only one with minutes and seconds below 60 |
| TimeCodec.ClockOfMatchesSource | services/geminiService.ts:56-58 | the fields shown for a time are the source's `floor(t / 3600)`, `floor((t % 3600) / 60)` and `floor(t % 60)` |
| TimeCodec.PaddedDigits | services/geminiService.ts:60-61 | a field below 100 is shown as exactly two digits with that value |
| TimeCodec.TwoDigits | services/geminiService.ts:60-61 | `toString().padStart(2, '0')` of a field below 100 is exactly two decimal digits whose value is the field |
| TimeCodec.FormatClock | services/geminiService.ts:60-66 | no contract of its own: the text built from the fields, described by `FormatClockShort`, `FormatClockLong` and `ParseFormatClock` |
| TimeCodec.FormatClockShort | services/geminiService.ts:60-66 | with no hours the text is `MM:SS` holding the minutes and seconds |
| TimeCodec.FormatClockLong | services/geminiService.ts:60-64 | with hours the text is `H:MM:SS` holding the hours, minutes and seconds |
| TimeCodec.FormatTime | services/geminiService.ts:55-67 | no contract of its own: `formatTimeFromSeconds`, described by `FormatTimeShape`, `ParseFormat` and `FormatParseCanonical` |
| TimeCodec.FormatTimeShape | services/geminiService.ts:55-67 | the text is `MM:SS` exactly when the time is below one hour, `H:MM:SS` otherwise, and its fields hold the time's hours, minutes and seconds |
| TimeCodec.ParseFormatClock | services/geminiService.ts:48-67 | clock text of fields in range parses back to their total of seconds |
| TimeCodec.SplitSecondsTotal | services/geminiService.ts:56-58 | the fields of a split add back up to the seconds |
| TimeCodec.ParseFormat | services/geminiService.ts:48-67 | parsing a formatted time gives its whole seconds |
| TimeCodec.FormatTimeFloor | services/geminiService.ts:55-58 | only the whole seconds of a time show in its text |
| TimeCodec.FormatParseFormat | services/geminiService.ts:48-67 | format, parse, format gives the first text again |
| TimeCodec.FormatParseCanonical | services/geminiService.ts:48-67 | canonical clock text parses to a number and formats back to itself |
| MimeTypes.LastExtension | services/geminiService.ts:17 | `split('.').pop()` holds no dot, is a suffix of the name, and follows its last dot or is the whole name |
| MimeTypes.TypeOfExtension | services/geminiService.ts:18-27 | the switch agrees with the seven-entry extension table and falls back to `audio/mp3`; it never gives "" or `application/octet-stream` |
| MimeTypes.LastExtensionUnique | services/geminiService.ts:17 | the extension is the only dot-free suffix that follows a dot or is the whole name |
| MimeTypes.LowerExtension | services/geminiService.ts:17 | the extension of the lower-cased name is the lower-cased extension |
| MimeTypes.CaseInsensitiveExtension | services/geminiService.ts:17-27 | two named files with the same declared type whose names agree once lower-cased get the same media type |
| MimeTypes.GetMimeType | services/geminiService.ts:11-28 | a declared type other than "" and `application/octet-stream` wins; otherwise a nameless blob gets `audio/mp3` and a named file is typed by its lower-cased last extension; the result is never generic |
| TranscriptParser.ParseText | services/geminiService.ts:97-115 | no contract of its own: the specification of the parse, which `ParseTranscript` computes and `SegmentsFollowHeaders`, `ParsedStampsParse` and the line lemmas describe |
| TranscriptParser.Step | services/geminiService.ts:103-112 | no contract of its own: one line's effect, which `ParseLine` computes and `StepKeepsHeads`, `HeaderLineAppends`, `ContinuationLineMerges` and `BlankLineIgnored` describe |
| TranscriptParser.MatchHeader | services/geminiService.ts:100 | no contract of its own: the header pattern, described by `MatchedStamp`, `SpeakerHasNoColon`, `MatchWellFormedLine`, `BracketedStamp` and `SpeakerMayHoldColon` |
| TranscriptParser.Classify | services/geminiService.ts:103-104 | no contract of its own: a line becomes its trimmed text and the pattern's match on that text, which `Step` then acts on |
| TranscriptParser.HeaderSegment | services/geminiService.ts:105-109 | no contract of its own: the segment of a match holds the timestamp group verbatim and the speaker and text groups trimmed, described by `HeaderLineAppends` and `SegmentsFollowHeaders` |
| TranscriptParser.Fold | services/geminiService.ts:102-113 | no contract of its own: the lines applied one after another by `Step`, in order, described by `FoldSnoc`, `StepKeepsHeads` and `HeadersWellFormed` |
| TranscriptParser.ParseLines | services/geminiService.ts:98-114 | no contract of its own: starting from no segments, the classified lines folded in order, described by `ParseSnoc` and `SegmentsFollowHeaders` |
| TranscriptParser.ParseTranscript | services/geminiService.ts:97-115 | the loop over the lines returns the specified parse of the text |
| TranscriptParser.ParseLine | services/geminiService.ts:103-112 | one line pushes a header's segment, extends the last segment's text, or is dropped |
| TranscriptParser.FoldSnoc | services/geminiService.ts:102-113 | the lines take effect one after another, in order |
| TranscriptParser.ParseSnoc | services/geminiService.ts:102-113 | one more line is one more step on the parse so far |
| TranscriptParser.HeaderLineAppends | services/geminiService.ts:104-109 | a header line appends exactly one segment and leaves the earlier ones unchanged |
| TranscriptParser.ContinuationLineMerges | services/geminiService.ts:110-111 | other non-blank text is added to the last segment's text after a space; the count and the earlier segments stay; before any segment it is dropped |
| TranscriptParser.BlankLineIgnored | services/geminiService.ts:103-112 | a blank line changes nothing |
| TranscriptParser.SegmentsFollowHeaders | services/geminiService.ts:102-114 | there is one segment per header line, in order, with the bracketed timestamp verbatim and the trimmed speaker |
| TranscriptParser.StepKeepsHeads | services/geminiService.ts:104-111 | a step keeps every earlier timestamp and speaker, and a header adds its own |
| TranscriptParser.HeadersWellFormed | services/geminiService.ts:100 | if every header has a timestamp of the pattern's shape, so does every collected header |
| TranscriptParser.ParsedStampsWellFormed | services/geminiService.ts:100-106 | every parsed timestamp has the shape `\d{1,2}:\d{2}` or `\d{1,2}:\d{2}:\d{2}` |
| TranscriptParser.MatchedStamp | services/geminiService.ts:100 | a matched line starts with its timestamp in brackets |
| TranscriptParser.StampParses | services/geminiService.ts:100 | a timestamp of the pattern's shape has two or three fields and parses to a number |
| TranscriptParser.ParsedStampsParse | services/geminiService.ts:214-218 | every parsed timestamp has two or three fields and parses to a number, never NaN or the 0 fallback |
| TranscriptParser.SpeakerHasNoColon | services/geminiService.ts:100 | on a line without line terminators the lazy speaker group holds no colon |
| TranscriptParser.MatchWellFormedLine | services/geminiService.ts:100 | `[ts]`, white space, a colon-free speaker, `:` and a one-line rest match with these groups |
| TranscriptParser.BracketedStamp | services/geminiService.ts:100 | after a bracketed timestamp of the pattern's shape, the rest of the line decides the match |
| TranscriptParser.SpeakerMayHoldColon | services/geminiService.ts:100-103 | `trim` keeps an inner U+2028, so `[00:00] A:B:<U+2028>C` matches with speaker `A:B` and text `C`: the speaker can hold a colon |
| TranscriptParser.SimpleHeader | services/geminiService.ts:100-109 | a line `[ts] S: x` with a short stamp matches with groups `ts`, `S` and `x`, and gives that segment |
| TranscriptParser.TwoHeaderReply | services/geminiService.ts:97-115 | a reply of two such header lines parses to their two segments in line order, whatever their timestamps |
| Chunking.ChunkCount | services/geminiService.ts:147 | the part count is the ceiling of size / 10 MiB: the parts cover the file, and one fewer would not |
| Chunking.ChunkStart | services/geminiService.ts:155 | no contract of its own: `start`, described by `ChunksPartition` and `ByteInOneChunk` |
| Chunking.ChunkEnd | services/geminiService.ts:156 | no contract of its own: `end`, described by `ChunkLength`, `ChunksPartition` and `CoveredPrefix` |
| Chunking.ChunkLength | services/geminiService.ts:155-157 | a part is never empty and holds at most 10 MiB; every part but the last is full, and the last holds the rest |
| Chunking.NoChunksIffEmpty | services/geminiService.ts:147 | there are no parts exactly when the file is empty |
| Chunking.FullChunksUpload | services/geminiService.ts:169 | every part but the last is over the 2 MiB inline limit |
| Chunking.IsUpload | services/geminiService.ts:169 | no contract of its own: a part takes the upload branch exactly when it holds more than the 2 MiB inline limit, described by `FullChunksUpload` and used by `Announce` |
| Chunking.ChunksPartition | services/geminiService.ts:155-157 | the ranges start at 0, each ends where the next starts, the last ends at the size, and none is empty |
| Chunking.ByteInOneChunk | services/geminiService.ts:155-157 | each byte lies in exactly one part, part `b / 10 MiB` |
| Chunking.CoveredPrefix | services/geminiService.ts:155-157 | the first k parts cover bytes up to the end of part k - 1, and all parts cover the file |
| Chunking.ChunkDuration | services/geminiService.ts:161-163 | a part's duration is never negative, is at most the total, and is 0 when the total is unknown |
| Chunking.Share | services/geminiService.ts:161-163 | no contract of its own: the proportional share, described by `ShareBounds`, `ShareAdd` and `ShareWhole` |
| Chunking.ShareBounds | services/geminiService.ts:161-163 | a share of at most the whole file is never negative and never more than the total |
| Chunking.ShareAdd | services/geminiService.ts:161-163 | the shares of byte counts add up |
| Chunking.Offset | services/geminiService.ts:149-244 | `accumulatedTime` is never negative |
| Chunking.OffsetShare | services/geminiService.ts:149-244 | `accumulatedTime` before a part is the share of the bytes before it |
| Chunking.OffsetMonotone | services/geminiService.ts:149-244 | `accumulatedTime` never decreases from part to part |
| Chunking.OffsetFinal | services/geminiService.ts:149-244 | after the last part, `accumulatedTime` is the total duration, or 0 when that is unknown |
| Pipeline.ShiftValue | services/geminiService.ts:217-225 | a shifted number is canonical clock text that parses back to the whole seconds of part start + parsed time; NaN stays NaN |
| Pipeline.ShiftTimestamp | services/geminiService.ts:217-225 | the shifted text of a timestamp that reads as a number is canonical clock text that parses to the whole seconds of part start + its parsed value |
| Pipeline.NaNClockIsNaN | services/geminiService.ts:48-67 | `formatTimeFromSeconds(NaN)` parses back to NaN |
| Pipeline.Shifted | services/geminiService.ts:217-226 | shifting keeps the count, the order, the speakers and the texts |
| Pipeline.Placeholder | services/geminiService.ts:235-239 | no contract of its own: the placeholder segment, described by `FailureAdds` |
| Pipeline.Added | services/geminiService.ts:212-241 | no contract of its own: what one part appends, described by `FailureAdds`, `ReplyAdds` and `SilentAddsNothing` |
| Pipeline.Publishes | services/geminiService.ts:213-240 | no contract of its own: whether a part calls `onTranscriptUpdate`, used by `SilentAddsNothing`, `PartPublishes` and `PublishedIsCurrent` |
| Pipeline.Additions | services/geminiService.ts:151-244 | its definition gives one addition per part; part i adds `Added` at its own `accumulatedTime`, the offset of the bytes before it, and `GenerateTranscript` returns the additions concatenated |
| Pipeline.Accumulated | services/geminiService.ts:228-235 | no contract of its own: `fullTranscript` after some parts is their additions one after the other in part order, described by `AccumulatedAppend` and `AppendOnly` |
| Pipeline.PartLabel | services/geminiService.ts:152 | no contract of its own: `Part <i + 1> of <count>`, both numbers in decimal as `NatToString` states |
| Pipeline.ProcessingMessage | services/geminiService.ts:152 | no contract of its own: the status text `Processing Part <i + 1> of <count>` |
| Pipeline.UploadingMessage | services/geminiService.ts:170 | no contract of its own: the status text `Uploading Part <i + 1> of <count>...` |
| Pipeline.AnalyzingMessage | services/geminiService.ts:200 | no contract of its own: the status text `Analyzing Part <i + 1> of <count>...` |
| Pipeline.Announce | services/geminiService.ts:152-170 | no contract of its own: a part first reports `Processing`, then `Uploading` exactly when it is over the inline limit; `ReadPart` emits it |
| Pipeline.Settle | services/geminiService.ts:200-240 | no contract of its own: a failed encode only publishes; a failed request and a reply first report `Analyzing`; a failed request and a reply with text then publish, and an empty reply publishes nothing; `SettlePart` emits it and `PartPublishes` describes it |
| Pipeline.ChunkEvents | services/geminiService.ts:151-241 | no contract of its own: a part's events in order are its announcement, one read of its byte range with the file's MIME type, and its settlement, described by `PartReads` and `PartPublishes` |
| Pipeline.EventsOf | services/geminiService.ts:151-248 | no contract of its own: the events of the first k parts are each part's events in part order, each carrying the transcript after that part, described by `PublishedIsCurrent` and `ReadsAreChunks` |
| Pipeline.GenerateTranscript | services/geminiService.ts:129-251 | the run returns the parts' additions concatenated in order, and emits the initial status and then each part's events, read with the file's MIME type |
| Pipeline.ProcessParts | services/geminiService.ts:149-248 | the part loop, from an empty transcript and `accumulatedTime` 0, returns the additions of all parts concatenated and appends each part's events in part order |
| Pipeline.ProcessPart | services/geminiService.ts:151-244 | one turn appends the part's addition, emits its events, and advances `accumulatedTime` by the part's duration |
| Pipeline.ReadPart | services/geminiService.ts:152-198 | a part announces itself, announces an upload when it is over the inline limit, and reads bytes `[i * 10 MiB, min(start + 10 MiB, size))` with the MIME type it is given |
| Pipeline.SettlePart | services/geminiService.ts:200-241 | a reply with text appends its shifted segments, an empty reply appends nothing, and a failure appends a placeholder |
| Pipeline.RecordFailure | services/geminiService.ts:232-241 | the catch branch pushes one placeholder and publishes the transcript |
| Pipeline.AppendReply | services/geminiService.ts:212-230 | a reply's parsed and shifted segments are appended and the transcript is published |
| Pipeline.TurnInvariant | services/geminiService.ts:151-248 | one turn keeps the loop invariant: the transcript is the additions so far, and `accumulatedTime` is the offset of the next part |
| PipelineProperties.FailureAdds | services/geminiService.ts:232-239 | a failed part adds one "System" segment stamped in canonical clock text with the part's start in whole seconds, numbered from 1 |
| PipelineProperties.ReplyAdds | services/geminiService.ts:212-228 | an empty reply adds nothing; otherwise one segment per parsed segment, in order, with speaker and text kept and a canonical clock timestamp at part start + parsed time, never before the start |
| PipelineProperties.SilentAddsNothing | services/geminiService.ts:213-240 | a part that publishes nothing adds nothing, and a failed part adds one segment |
| PipelineProperties.PartStampsFromOffset | services/geminiService.ts:217-239 | every segment a part adds is stamped no earlier than that part's `accumulatedTime` |
| PipelineProperties.RepliesKeepLineOrder | services/geminiService.ts:212-228 | a two-line reply whose second stamp reads earlier than its first adds two segments whose stamps go back in time |
| PipelineProperties.BackwardsStamps | services/geminiService.ts:48-53 | `00:10` and `00:05` are short stamps that read as 10 and 5 |
| PipelineProperties.BackwardsReply | services/geminiService.ts:212-228 | the reply `[00:10] A: x` then `[00:05] B: y` adds a segment stamped later than the one after it |
| PipelineProperties.AccumulatedAppend | services/geminiService.ts:228-235 | the transcript of two runs of additions is one after the other |
| PipelineProperties.AppendOnly | services/geminiService.ts:228-235 | the transcript after k parts extends the one after j <= k parts by the additions of parts j to k |
| PipelineProperties.Published | services/geminiService.ts:229-240 | with no update handed out, the last published transcript is empty |
| PipelineProperties.PublishedQuiet | services/geminiService.ts:229-240 | events without an update leave the last published transcript as it was |
| PipelineProperties.PartPublishes | services/geminiService.ts:213-240 | after a part, the last published transcript is the new transcript if the part publishes, and otherwise the earlier one |
| PipelineProperties.PublishedIsCurrent | services/geminiService.ts:228-240 | after each part, the last transcript handed to `onTranscriptUpdate` is the current transcript |
| PipelineProperties.ReadsAppend | services/geminiService.ts:185-194 | helper: the reads of two traces follow one another, used by `PartReads` and `ReadsAreChunks` |
| PipelineProperties.PartReads | services/geminiService.ts:155-198 | each part reads exactly one range, its own, with the file's MIME type |
| PipelineProperties.ReadPlanRanges | services/geminiService.ts:155-157 | read number i covers part i's range |
| PipelineProperties.ReadsAreChunks | services/geminiService.ts:151-198 | the reads of a run are the parts' ranges, once each, in order |
| PipelineProperties.RunPublishesAndReads | services/geminiService.ts:129-251 | over a whole run, the last published transcript is the returned one and the reads are the parts' ranges in order |

The segment record `Types.Segment` is `TranscriptSegment` of `types.ts:11-15`.

## Left out

- The transcription request is an input: the `GoogleGenAI` client, the model name, the
  system prompt, the request body and `response.text` become each part's `Outcome`.
  `withTimeout` and the five-minute `REQUEST_TIMEOUT_MS` become `RequestFailed`.
- `fileToGenerativePart` (`FileReader`, the data URL, base64) is reduced to a read of a
  byte range with a MIME type, or `EncodeFailed`.
- `getAudioDuration` is an input: the total duration. That promise never rejects, so the
  `catch` around it cannot run. Its 2-second timer, the `Audio` element and the object
  URL are not part of this model.
- Console logging, `file.slice`'s copy of `file.type`, and the 500 ms pause after each
  part do not change the transcript and are left out.
- IEEE 754 doubles are modelled as exact reals and whole numbers. Rounding in
  `(chunkBlob.size / file.size) * totalDuration` and in the sum of the durations is not
  modelled, and neither are infinite durations or a NaN `accumulatedTime`.
- TimeCodec.ParseTime: `Number` is modelled on fields of decimal digits, with "" as 0.
  Any other field gives NaN. White space, signs, decimals, exponents and hexadecimal
  forms, which `Number` also accepts, are not modelled. Parsed timestamps only ever
  hold digit fields.
- TimeCodec.FormatTime is defined for times >= 0 only. The loop only ever formats such
  times, apart from `formatTimeFromSeconds(NaN)`, which is modelled as the constant
  "NaN:NaN".
- Text.ToLower lowers ASCII letters only, where `toLowerCase` lowers every Unicode letter.
  A name whose extension needs more than ASCII folding to match the table is resolved
  differently.
- Strings are sequences of characters, not of UTF-16 code units.
- Aliasing is not modelled. In the `catch` branch the source pushes into the array it
  has already handed to `onTranscriptUpdate`, so an earlier snapshot the caller kept
  grows too. The model records each update as a value: the transcript at that moment.
- The UI files and the constants module are not part of this model.

## Notes on the code

- A reply whose text is empty (`if (text)` is false) appends nothing, and it does not
  call `onTranscriptUpdate`. Only the encode step and the request can fail. Parsing and
  shifting cannot throw, so a reply never leads to a placeholder.
- The transcript is not sorted overall. Each part's segments are stamped no earlier
  than the part's start, but they keep the reply's line order. `BackwardsReply` shows a
  reply whose added stamps go back in time.
- The parser's `.` does not match line terminators. So a trimmed line that still holds
  a `\r` or a U+2028 inside it cannot match at the place where `$` needs the end.
  `SpeakerHasNoColon` therefore assumes a line without line terminators, and
  `SpeakerMayHoldColon` shows a line with an inner U+2028 whose speaker holds a colon.
- `getMimeType(file)` depends on the file alone, so its two calls inside the loop
  (lines 185 and 193) give the same text for every part. The model resolves it once,
  in `GenerateTranscript`, and hands it to each part.
- `ClockOf` splits the whole seconds of a time with integer division.
  `ClockOfMatchesSource` proves that this gives the source's floor and remainder
  expressions field by field.
