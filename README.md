# SNAP highlight-clip pipeline: a Dafny model

This project models the deterministic core of a YouTube highlight-clip
pipeline and proves properties of it. The pipeline has four parts:

- **Transcript windowing** (`util/youtube.py`). The video id is cut out of a
  watch URL. Transcript lines are grouped into 60-second windows keyed by
  `int(start // 60)`. Module `YouTube`.
- **Selection glue** (`main.py`). Each language-model map response is split
  on `,` and its tokens are converted with `int()`. The selected windows'
  texts are joined with a blank line as the reduce input. The reduce
  response is parsed the same way. Every selected window becomes a padded
  `(start, end)` time segment. Module `Pipeline`. The language-model
  answers are arbitrary input strings.
- **Clip extraction** (`util/ffmpeg_processor.py`, `util/video_processor.py`).
  Segments are numbered by position and get an `output_<i>.mp4` final path
  and an `output_<i>.mp4.temp.mp4` temporary path. An encoder writes the
  temporary file. It is then moved over the final file, or deleted on
  failure. The moviepy variant first fits the range to the video's length
  and refuses an empty range. `main.py` uses the ffmpeg variant, not the
  moviepy one. The modules are `Clips` (shared numbering and
  paths), `FFmpeg`, `MoviePy` and `Files` (the file system as a mutable map
  from path to contents).
- **URL validation** (`app.py`). This is a substring test, in module `App`.

Support modules:

- `Base` holds Option, Result and the raised exceptions.
- `Strings` holds Python's `in`, `str.split`, `str.join`, `int(str)` and
  `str(int)`.
- `Constants` holds the values of `util/constants.py:2-4`: 60-second
  windows, 10 seconds of padding, a 10-second minimum clip.

How the source's forms are modelled:

- Code that updates state in a loop is a `method` with loop invariants,
  proved against a specification function:
  - `YouTube.GetShortsGroup` against `WindowOrder` and `WindowTexts`.
  - `Pipeline.CollectMapResults` against `ParseAll(AllTokens(..))`.
  - `Clips.BuildSegments`.
- The extractors are classes over a shared `Files.FileSystem`:
  - Each `ProcessSegment` performs the source's exists/remove/rename steps.
    Its ensures equate the new file map with a step function of the old
    one (`FFmpeg.SegmentStep`, `MoviePy.ClipStep`).
  - The properties of the step functions are proved as lemmas.
- The encoder is not run. Each segment's outcome is an input:
  - ffmpeg gives an exit status and what it wrote at the temporary path.
  - moviepy gives what it wrote and whether it raised.
- The source runs the segments concurrently. The model runs them in
  sequence. `ProcessSegments` proves that each segment's two paths end
  exactly as if that segment had run alone on the initial files, and that
  no other path changes. Order and sibling failures therefore cannot
  matter.

What the code does, and what it leaves out, that a reader might expect
otherwise:

- No `-1` tokens are filtered from the map results.
- Nothing is de-duplicated.
- There is no target count, no reduce short-circuit and no truncation of
  the reduce result.
- A token that is not an integer raises ValueError and aborts the run. It
  is not skipped.
- A negative segment start is not clamped to 0.
- The moviepy variant pulls the start back to `duration - 10` and cuts the
  end at `duration`. It raises ValueError on an empty range. It does not
  lengthen short clips.
- The main run reads `shorts_group` after the sentence-splitting step has
  rewritten its values (`util/youtube.py:72`). So `Pipeline.PlanSegments`
  takes the window dictionary as an arbitrary map.

## Model

| member | source | states |
|---|---|---|
| `YouTube.VideoId` | util/youtube.py:13-15 | the id has at most 11 characters; the call fails with IndexError exactly when the URL has no "v=" |
| `YouTube.VideoIdOf` | util/youtube.py:14 | the id is the first 11 (or fewer) characters of the text between the first "v=" and the next "v=" or the end |
| `YouTube.WindowKey` | util/youtube.py:46 | a line starting at `start` seconds belongs to the window `k` with `60k <= start < 60(k+1)` |
| `YouTube.GetShortsGroup` | util/youtube.py:42-50 | the loop builds exactly the windows in first-appearance order; each window's value is its lines' texts space-joined in transcript order; the key set is the set of line keys; keys are distinct and no more than the lines; an empty transcript gives an empty dictionary |
| `YouTube.WindowOrderMembers` | util/youtube.py:46-48 | a key is present iff some line has that key |
| `YouTube.WindowOrderDistinct` | util/youtube.py:47-48 | no key appears twice and there are at most as many keys as lines |
| `YouTube.WindowOrderFirstAppearance` | util/youtube.py:47-48 | of two keys, the earlier one has a line before every line of the later one |
| `YouTube.WindowLinesSpec` | util/youtube.py:43-49 | window `k` holds exactly the lines keyed `k`, in increasing position, and its texts are theirs |
| `YouTube.LineInOneWindow` | util/youtube.py:43-49 | every line lies in the window of its own key and in no other |
| `YouTube.NoKeyNoTexts` | util/youtube.py:47-49 | a key no line has collects no text |
| `YouTube.DurationIrrelevant` | util/youtube.py:45 | transcripts that differ only in line durations group identically |
| `YouTube.WindowKeysNonNegative` | util/youtube.py:46 | with non-negative start times no key is negative, so -1 is never a key |
| `Strings.Contains` | app.py:30 | Python's `sub in s`: true exactly when `sub` occurs in `s` at some index |
| `Strings.Join` | util/youtube.py:50 | definition of `sep.join(parts)`; characterised by `SplitJoin` and `SplitJoinInverse` |
| `Strings.Split` | main.py:54 | definition of `str.split` on a non-empty separator; characterised by `SplitSingle`, `SplitJoin`, `SplitPiecesFree` and `SplitJoinInverse` |
| `Strings.ParseLiteral` | main.py:54 | definition of the decimal-literal grammar `int()` reads (white space stripped, optional sign, digits with single underscores between them); characterised by `LiteralRoundTrip` |
| `Strings.ParseInt` | main.py:54 | definition of `int(token)`: the literal's value, or ValueError (`None`) for a malformed literal or one of more than 4300 digits; characterised by `ParseIntRoundTrip` and `SeparatorNotStripped` |
| `Strings.IntToString` | util/ffmpeg_processor.py:66 | definition of `str(n)`; characterised by `LiteralRoundTrip`, `ParseIntRoundTrip` and `IntToStringInjective` |
| `Strings.SplitSingle` | util/youtube.py:14 | `split` gives one piece exactly when the separator does not occur |
| `Strings.SplitJoin` | main.py:54 | joining the pieces of a split with its separator gives back the text |
| `Strings.SplitPiecesFree` | main.py:54 | no piece of a split contains the separator |
| `Strings.SplitJoinInverse` | main.py:54 | splitting a join of separator-free pieces on a non-self-overlapping separator gives the pieces back |
| `Strings.LiteralRoundTrip` | util/ffmpeg_processor.py:66-68 | the printed form of any integer is a decimal literal denoting that integer |
| `Strings.ParseIntRoundTrip` | main.py:54 | `int(str(n)) == n` for every integer of at most 4300 digits, negative ones included; for a longer one `int` raises ValueError |
| `Strings.ParseIntPadded` | main.py:54 | white space around a printed integer within the digit limit is stripped, so `int(" 3")` and `int("3\n")` read the integer |
| `Strings.UnderscoreRules` | main.py:54 | `int("1_0")` is 10, while `int("1__0")` and `int("_1")` raise |
| `Strings.SeparatorNotStripped` | main.py:54 | `int("\x1c5")` raises: U+001C is white space to `str.isspace` but `int()` does not strip it |
| `Strings.IntToStringInjective` | util/ffmpeg_processor.py:58 | different integers print differently |
| `Pipeline.ParseAll` | main.py:54 | definition of `list(map(int, tokens))`; characterised by `ParseAllSpec` and `ParseAllAppend` |
| `Pipeline.ParseIndices` | main.py:62-63 | definition of one response parsed, `list(map(int, response.split(",")))`; characterised by `FormatParseRoundTrip`, `SentinelAndDuplicatesKept` and `EmptyResponseRaises` |
| `Pipeline.AllTokens` | main.py:52-54 | definition of the tokens of all map responses in response order; characterised by `AllTokensAppend` and `CollectMapResults` |
| `Pipeline.ParseAllSpec` | main.py:54 | `list(map(int, tokens))` succeeds iff every token is an integer literal, then gives each token's value in order; otherwise it raises ValueError for the first bad token |
| `Pipeline.ParseAllAppend` | main.py:53-54 | converting a concatenation gives the first list's error, else the second's, else the concatenated values |
| `Pipeline.AllTokensAppend` | main.py:53-54 | the token list of consecutive batches of responses is the concatenation of their token lists |
| `Pipeline.CollectMapResults` | main.py:52-54 | the `extend` loop yields exactly the conversion of all responses' tokens in response order, or the first ValueError |
| `Pipeline.CollectStep` | main.py:53-54 | one more response either raises its ValueError or extends the list with its values |
| `Pipeline.CollectAbort` | main.py:53-54 | an error among the first responses is the error of the whole map list |
| `Pipeline.MapResultsKeepEverything` | main.py:52-54 | the map list has one entry per token, each the token's value; -1 and duplicates stay |
| `Pipeline.ParseAllValues` | main.py:54 | tokens that each read as the matching value convert to exactly those values |
| `Pipeline.FormatParseRoundTrip` | main.py:54 | a comma-joined list of printed integers, none longer than 4300 digits, parses back to exactly that list |
| `Pipeline.FormatExample` | main.py:54 | the indices -1, 3, 3 print as "-1,3,3" |
| `Pipeline.SentinelAndDuplicatesKept` | main.py:54 | "-1,3,3" parses to [-1, 3, 3] |
| `Pipeline.EmptyResponseRaises` | main.py:54 | an empty response raises ValueError for the empty token |
| `Pipeline.Lookups` | main.py:58 | the lookups succeed iff every index is a window key, giving each index's text in order; otherwise KeyError for the first missing index |
| `Pipeline.ReduceInput` | main.py:58 | the reduce input is the selected texts in index order joined by a blank line, or KeyError for the first missing index |
| `Pipeline.SentinelAborts` | main.py:58 | a -1 in the map list aborts the run when no window key is negative |
| `Pipeline.SegmentOf` | main.py:67-73 | a segment starts 10 seconds before its window and lasts the window plus 10 seconds on each side |
| `Pipeline.TimeSegments` | main.py:67-73 | one segment per selected index, in the same order |
| `Pipeline.SegmentRoundTrip` | main.py:68-71 | every segment spans 80 seconds and its window can be read back from its start |
| `Pipeline.LineInsideSegment` | main.py:67-73 | every line of a selected window starts at least 10 seconds inside its segment |
| `Pipeline.SegmentExamples` | main.py:67-73 | index 2 gives (110, 190); index 0 gives (-10, 70), unclamped |
| `Pipeline.PlanSegments` | main.py:52-82 | the run yields the first error in order (map parsing, reduce lookup, reduce parsing) or the whole plan; there is one segment per reduce token, with that token's window |
| `Clips.BuildSegments` | util/ffmpeg_processor.py:45-49 | one segment per time range, numbered by position, times copied unchanged |
| `Clips.OutputPath` | util/ffmpeg_processor.py:58 | definition of the final path, the directory joined with `output_<index>.mp4`; characterised by `StemTails`, `OutputPathInjective`, `TempNeverFinal` and `OwnersDisjoint` |
| `Clips.TempPath` | util/ffmpeg_processor.py:59 | definition of the temporary path, the final path followed by `.temp.mp4`; characterised by `StemTails`, `TempPathInjective`, `TempNeverFinal` and `OwnersDisjoint` |
| `Clips.StemTails` | util/ffmpeg_processor.py:58-59 | two segment paths that agree as text have the same index and suffix |
| `Clips.TempNeverFinal` | util/ffmpeg_processor.py:58-59 | no temporary path equals any final path |
| `Clips.OutputPathInjective` | util/ffmpeg_processor.py:58 | equal final paths have equal indices |
| `Clips.TempPathInjective` | util/ffmpeg_processor.py:59 | equal temporary paths have equal indices |
| `Clips.OwnersDisjoint` | util/video_processor.py:58-59 | no path belongs to two segments |
| `Clips.Publish` | util/ffmpeg_processor.py:88-90 | after remove-then-rename the final path holds the temporary file's contents, the temporary file is gone, nothing else changes |
| `Files.FileSystem.Exists` | util/ffmpeg_processor.py:87-88 | definition of `os.path.exists`: the path is in the file map |
| `Files.FileSystem.Write` | util/video_processor.py:93-100 | the encoder writing its output creates or overwrites exactly that path with what it wrote, nothing else changes |
| `Files.FileSystem.Remove` | util/ffmpeg_processor.py:89 | `os.remove` deletes exactly that path |
| `Files.FileSystem.Rename` | util/ffmpeg_processor.py:90 | `os.rename` moves the contents onto the target, replacing it |
| `FFmpeg.Command` | util/ffmpeg_processor.py:62-76 | definition of the ffmpeg argument list; characterised by `CommandArguments`, `CommandFixedArguments` and `CommandInjective` |
| `FFmpeg.CommandArguments` | util/ffmpeg_processor.py:62-76 | the command has 21 arguments: `-ss` with a literal denoting the start, `-i` with the input, `-t` with one denoting end minus start; the temporary path comes last |
| `FFmpeg.SegmentStep` | util/ffmpeg_processor.py:87-97 | definition of the files after one segment; characterised by `PublishReplacesFinal`, `FailureKeepsFinal`, `SegmentFrame`, `SegmentLocal` and `SegmentIdempotent` |
| `FFmpeg.CommandFixedArguments` | util/ffmpeg_processor.py:63-76 | every other argument is the same for all segments |
| `FFmpeg.CommandInjective` | util/ffmpeg_processor.py:63-76 | two commands are equal iff they agree on input, start, duration and temporary path |
| `FFmpeg.PublishReplacesFinal` | util/ffmpeg_processor.py:87-90 | with exit status 0 and a temporary file, the final path afterwards holds the temporary contents (any earlier final replaced) and the temporary file is gone |
| `FFmpeg.FailureKeepsFinal` | util/ffmpeg_processor.py:91-97 | otherwise the temporary file is gone and the final path is exactly as before |
| `FFmpeg.SegmentFrame` | util/ffmpeg_processor.py:87-97 | a segment changes no path but its own two |
| `FFmpeg.SegmentLocal` | util/ffmpeg_processor.py:87-97 | what a segment leaves at its paths depends only on what was there before |
| `FFmpeg.SegmentIdempotent` | util/ffmpeg_processor.py:87-90 | repeating a segment with the same outcome leaves the same files |
| `FFmpeg.FFmpegProcessor.ProcessSegment` | util/ffmpeg_processor.py:58-97 | issues the segment's command and changes the files exactly as the segment step says |
| `FFmpeg.FFmpegProcessor.ProcessSegments` | util/ffmpeg_processor.py:45-50 | one command per range with the position as index; each segment's paths end as if it ran alone; all other paths unchanged |
| `FFmpeg.Isolation` | util/ffmpeg_processor.py:45-50 | processing one more segment keeps earlier segments' results and leaves unowned paths untouched |
| `MoviePy.ClampRange` | util/video_processor.py:86-90 | the start is at most the requested start and at most duration-10, and equals one of them; the end is at most the requested end and at most the duration, and equals one of them; an accepted range is non-empty; ValueError exactly when the requested end is at or before both the start and duration-10 |
| `MoviePy.NegativeStartKept` | util/video_processor.py:86 | a negative start below duration-10 survives unchanged |
| `MoviePy.PaddedSegmentsNeverRefused` | util/video_processor.py:86-90 | an 80-second padded segment as main.py:67-73 computes it would never be refused by the moviepy clamp; the main run itself uses the ffmpeg extractor |
| `MoviePy.ClipStep` | util/video_processor.py:71-106 | definition of the files after one segment; characterised by `ClipPublishes`, `NoTempNoChange`, `ClipFailureKeepsFinal`, `RefusedWritesNothing`, `ClipFrame`, `ClipLocal` and `ClipIdempotent` |
| `MoviePy.ClipPublishes` | util/video_processor.py:103-106 | a clip written without error is published: final holds the temporary contents, temporary file gone |
| `MoviePy.NoTempNoChange` | util/video_processor.py:103 | with no temporary file and no exception nothing changes |
| `MoviePy.ClipFailureKeepsFinal` | util/video_processor.py:71-74 | after a refused range or an exception the final path is as before and the temporary file is gone |
| `MoviePy.RefusedWritesNothing` | util/video_processor.py:89-90 | a refused range only removes a stale temporary file |
| `MoviePy.ClipFrame` | util/video_processor.py:71-106 | a segment changes no path but its own two |
| `MoviePy.ClipLocal` | util/video_processor.py:71-106 | what a segment leaves at its paths depends only on what was there before |
| `MoviePy.ClipIdempotent` | util/video_processor.py:103-106 | repeating a segment with the same outcome leaves the same files |
| `MoviePy.VideoProcessor.ProcessSegment` | util/video_processor.py:52-106 | returns the fitted range (or its error) and changes the files exactly as the clip step says; a video that cannot be opened is a run that raised and wrote nothing, and the range returned then is one the source never computes |
| `MoviePy.VideoProcessor.ProcessSegments` | util/video_processor.py:45-50 | one fitted range per time range; each segment's paths end as if it ran alone; all other paths unchanged |
| `MoviePy.ClipIsolation` | util/video_processor.py:45-50 | processing one more segment keeps earlier segments' results and leaves unowned paths untouched |
| `App.ValidateYoutubeUrl` | app.py:30 | accepted iff the URL contains "youtube.com/watch?v=" or "youtu.be/" |
| `App.AcceptsWatchUrl` | app.py:30 | any text around the watch marker is accepted, even with nothing after "v=" |
| `App.AcceptsShortUrl` | app.py:30 | any text around the short-link marker is accepted |
| `App.AcceptedInContext` | app.py:30 | adding text around an accepted URL keeps it accepted |
| `App.RefusesWithoutMarker` | app.py:30 | a URL without the letter "y" contains neither marker and is refused |
| `App.ShortLinkHasNoVideoId` | app.py:30 | a youtu.be link is accepted, yet id extraction on it raises IndexError |
| `App.EmptyWatchIdAccepted` | app.py:30 | the bare watch marker is accepted and yields an empty id |

## Left out

- The Streamlit interface, directory setup and cleanup, and the displaying of results (`app.py` apart from line 30) are user interface and file bookkeeping.
- The language-model chains and prompts (`util/chain.py`) are foreign calls. Their answers are arbitrary strings given as inputs.
- Chunking with `RecursiveCharacterTextSplitter` (`main.py:43-44`) is a foreign library, so the map responses are taken directly as input.
- Transcript fetching and its Korean-to-English fallback (`util/youtube.py:17-27`) are network I/O. The transcript is an input.
- Kiwi sentence splitting (`util/youtube.py:53-73`) is a foreign NLP library.
- `video.category`, `video.shorts_all_text` and `download_video` are used by `main.py` but util/youtube.py does not define them. They are not part of this model.
- `asyncio.gather`, `create_subprocess_exec` and the thread pool are concurrency. Segments run in sequence, and the isolation contract of `ProcessSegments` is what makes this faithful.
- ffmpeg and moviepy encoding are foreign media tools. Each run is given as an exit status or exception plus what it wrote at the temporary path. A process that cannot be started counts as a failing run that wrote nothing.
- `FFmpeg.SegmentFrame` and `MoviePy.ClipFrame` cover only the paths the code names. Files the media tools create and delete on their own (moviepy's temporary audio file, for instance) are not modelled, because the tools are not part of this model.
- `os.makedirs` in `_create_output_dir` is file I/O. The output directory is an opaque path prefix.
- Exceptions raised by `os.remove` or `os.rename` themselves (permissions, races) are not modelled.
- The printing of errors and timings is output only.
- `YouTube.WindowKey`: start times are exact reals. Floating-point rounding of `start // 60` is not modelled.
- `MoviePy.ClampRange`: the video's duration is whole seconds. moviepy's floating-point duration is not modelled.
- `Strings.IntToString`: `str()` raising ValueError for an integer of more than 4300 digits is not modelled. The integers printed are segment indices and times.
- `Strings.ParseInt`: the digit limit is Python's default of 4300. A limit changed with `sys.set_int_max_str_digits` is not modelled.
- `Strings.ParseInt` accepts ASCII digits only. Python's `int()` also accepts other Unicode decimal digits, and that is not modelled.
