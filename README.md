# StickmanStudios generation core in Dafny

This project models the server-side core of StickmanStudios, which turns a
text script into a narrated stickman video, and proves properties of it.

- **`VideoGenerator`** (`video_generator.dfy`) models `generateVideo`, the pipeline.
  - It creates the output and temporary directories, normalises the script
    into trimmed non-empty lines, and rejects a script that has none.
  - For each line in order it asks for a scene description and draws and
    writes `frame_<i>.png`.
  - It narrates the lines joined by `". "`, probes the narration's duration
    and splits it evenly over the frames.
  - It has the encoder write `video_<timestamp>.mp4`, deletes the temporary
    files and returns the URL and the duration.
  - `Pipeline` states a whole run as a function of the script, the
    progress-handler flag and an environment `Env` of collaborators.
  - A run is its result or thrown error, the progress events and the
    outside calls (`Effect`s).
  - `GenerateVideo` is the imperative procedure, proved equal to `Pipeline`.
    It runs its image loop in `GenerateImages` and its later stages and
    cleanup loop in `FinishVideo`.
- **`Gemini`** (`gemini.dfy`) models `generateStickmanPrompt`, the description
  stage.
  - The process-wide `lastRequestTime` is a field of the class `GeminiClient`.
  - The method applies the 6500 ms rate limiter, classifies a failure as a
    quota error by its markers, and extracts `retry in ([\d.]+)s` and parses it
    as `parseFloat` does.
  - It retries once after `ceil(seconds * 1000)` ms and wraps every other error
    as `Gemini API error: …`.
  - The clock readings and the outcomes of the two possible `generateContent`
    calls are inputs.
  - `Invoke` states a call as a function. The method is proved equal to it.
- **`ImageGenerator`** (`image_generator.dfy`) models `generateStickmanImage`.
  - The pose comes from the keywords `waving` and `jumping` in the lower-cased
    description.
  - The caption is wrapped greedily with an abstract width function `measure`:
    at most 1100 units per line unless the line is a single word, the first
    baseline at 650 and 30 units between lines.
  - `DrawCaption` is the wrap loop, proved equal to the recursive `Caption`.
- **`Text`** (`text.dfy`) and **`Wrappers`** (`wrappers.dfy`) hold what the
  three share.
  - `Text` has ASCII `trim`, `split` on one character, `join`, `includes`,
    ASCII `toLowerCase` and decimal rendering of whole numbers.
  - `Wrappers` has `Option`, `Result` and `Outcome`.

Some behaviour of the code worth stating plainly, since the model follows it:
- Limiter grants, the first request of each call, are at least 6500 ms apart
  (`gemini.ts:23-33`). A quota retry does not go through the limiter: it
  follows the server's retry delay, which may be 1000 ms, 0 or `NaN`
  (`gemini.ts:67-76`).
- Nothing is cleaned up when a stage throws: there is no `try`/`finally` around
  the stages, so the frames and the narration stay on disk.
- A quota failure that cannot be retried is rethrown as an ordinary wrapped
  error. No distinct error type exists.
- The image stage does no rate limiting of its own.
- A description made only of whitespace is not an error: the call returns the
  empty string it trims to.

## Model

| member | source | states |
|---|---|---|
| Text.Trim | server/services/videoGenerator.ts:38 | the result has no leading or trailing whitespace; it is the slice of the input left after removing the leading and trailing whitespace; it is empty exactly when the input is all whitespace |
| Text.Split | server/services/videoGenerator.ts:37 | at least one piece; no piece contains the separator; the pieces joined with the separator give the input back |
| Text.SplitConcat | server/services/videoGenerator.ts:37 | splitting at a separator occurrence splits the two sides independently |
| Text.SplitJoin | server/services/videoGenerator.ts:36-37 | splitting a join of separator-free parts gives the parts back |
| Text.JoinShape | server/services/videoGenerator.ts:78 | a join of one or more parts starts with the first part, ends with the last, and is as long as the parts plus one separator between each pair of neighbours |
| Text.JoinSnoc | server/services/videoGenerator.ts:78 | one more part adds the separator and that part at the end, as the array method builds the string from the left |
| Text.Contains | server/services/imageGenerator.ts:38 | true exactly when the substring occurs at some index |
| Text.ToLower | server/services/imageGenerator.ts:38 | same length as the input, lower-cased character by character |
| Text.NatToString | server/services/videoGenerator.ts:60 | the rendering is one or more decimal digits, and a single digit exactly when the number is below 10 |
| Text.NatToStringInjective | server/services/videoGenerator.ts:60 | two numbers with the same decimal rendering are equal |
| ImageGenerator.SelectPose | server/services/imageGenerator.ts:38-54 | both arms get the same angle, the raised one exactly when the lower-cased description contains "waving"; the leg spread is 80 exactly when it contains "jumping", and 50 otherwise |
| ImageGenerator.LegEnds | server/services/imageGenerator.ts:56-66 | both feet are 150 below the centre; they are symmetric about the centre's vertical and `legSpread` apart |
| ImageGenerator.DrawCaption | server/services/imageGenerator.ts:72-88 | the wrap loop draws exactly the caption `Caption` defines |
| ImageGenerator.CaptionSpellsDescription | server/services/imageGenerator.ts:73-88 | the drawn lines, concatenated in order, are the description followed by one space: no word is lost, duplicated or reordered |
| ImageGenerator.CaptionBaselines | server/services/imageGenerator.ts:75-88 | at least one line is drawn; every line is centred at x 640; line k sits on baseline 650 + 30k |
| ImageGenerator.CaptionLinesFit | server/services/imageGenerator.ts:77-86 | every drawn line is non-empty, and it either measures at most 1100 or is a single word |
| ImageGenerator.CaptionFlushesOnOverflow | server/services/imageGenerator.ts:80-83 | a line is drawn before the end only when it is non-empty and appending the next line's first word makes it wider than 1100 |
| ImageGenerator.GenerateStickmanImage | server/services/imageGenerator.ts:10-92 | the frame is 1280x720, with the selected pose and the wrapped caption |
| Gemini.WaitTime | server/services/gemini.ts:23-31 | no wait when no request was made before; otherwise the wait is exactly enough to reach 6500 ms after the last request, or zero when that has already passed |
| Gemini.CeilDiv | server/services/gemini.ts:28 | the quotient rounded up: (q-1)*b < a <= q*b |
| Gemini.FindRetryFrom | server/services/gemini.ts:67 | the leftmost match of `retry in ([\d.]+)s` at or after an offset, or none when nothing matches there |
| Gemini.RetryCapture | server/services/gemini.ts:67-68 | a capture exists exactly when the pattern matches somewhere; a capture is non-empty and made of digits and dots; it is the run of digits and dots after the leftmost `retry in ` that matches |
| Gemini.ParseFloat | server/services/gemini.ts:69 | NaN exactly when the capture starts with neither a digit nor a dot followed by a digit; any other value is non-negative |
| Gemini.FractionDigits | server/services/gemini.ts:69 | the digits after the point are worth their value as a whole number over ten to the number of digits |
| Gemini.ParseWhole | server/services/gemini.ts:69 | the decimal rendering of a whole number parses back to that number |
| Gemini.ParseDecimal | server/services/gemini.ts:69 | `whole.fraction` followed by a non-digit or nothing parses to the whole part plus the fraction's value; the rest of the capture is ignored |
| Gemini.ParseDecimalValue | server/services/gemini.ts:69 | the same value written out: whole part plus the fraction's digits over ten to their number |
| Gemini.RetryDelayWhole | server/services/gemini.ts:67-69 | an interval of n whole seconds is a wait of 1000 n ms |
| Gemini.RetryDelayExamples | server/services/gemini.ts:67-69 | `retry in 2s` waits 2000 ms and `retry in 1.5s` waits 1500 ms |
| Gemini.Ceil | server/services/gemini.ts:69 | the least whole number not below its argument |
| Gemini.RetryDelay | server/services/gemini.ts:69 | NaN exactly when parsing fails; otherwise the seconds times 1000, rounded up to a whole millisecond |
| Gemini.IsQuotaMessage | server/services/gemini.ts:66 | a quota failure exactly when `RESOURCE_EXHAUSTED` or `Quota exceeded` occurs at some index of the message |
| Gemini.QuotaMarkerAnywhere | server/services/gemini.ts:66 | a message holding either marker, with any text before and after it, is a quota failure |
| Gemini.WrapError | server/services/gemini.ts:92 | the thrown message is `Gemini API error: ` followed by the original message, or by `Failed to generate image description` when that message is empty; the detail is never empty |
| Gemini.Recover | server/services/gemini.ts:66-92 | retry exactly when the message has a quota marker and matches the retry pattern, with the delay of the leftmost match; otherwise rethrow `Gemini API error: ` and the message |
| Gemini.GeminiClient.constructor | server/services/gemini.ts:6 | the stored time starts at 0 |
| Gemini.GeminiClient.GenerateStickmanPrompt | server/services/gemini.ts:12-94 | the result, the waits and requests, the notices and the new stored time are those `Invoke` gives for the old stored time |
| Gemini.MissingKeyTouchesNothing | server/services/gemini.ts:16-20 | without a key the call fails with "GOOGLE_AI_API_KEY is not set"; it makes no request, sends no notice and leaves the stored time as it was |
| Gemini.AtMostTwoRequests | server/services/gemini.ts:23-76 | the call first waits `WaitTime` when that is positive and then makes a request; it makes two requests exactly when it retries and one otherwise; the stored time becomes the clock after the wait, or after the retry wait when it retries |
| Gemini.EmptyResponseIsWrapped | server/services/gemini.ts:57-92 | an empty first response fails with "Gemini API error: Gemini API returned empty response" after one request |
| Gemini.TextIsReturnedTrimmed | server/services/gemini.ts:57-63 | a first response with text is returned trimmed after one request |
| Gemini.QuotaErrorRetriedOnce | server/services/gemini.ts:66-89 | a quota error with an interval ends with a wait of that delay and a second request; there are exactly two requests; the stored time is reset after the wait; the retry's text is returned trimmed, an empty retry fails unwrapped, and a thrown retry error propagates unwrapped |
| Gemini.OtherErrorRethrown | server/services/gemini.ts:66-92 | any other error, including a quota error without an interval, is rethrown wrapped after one request |
| Gemini.LimiterNoticeSeconds | server/services/gemini.ts:26-28 | the limiter's notice shows the one whole number of seconds s with (s-1)*1000 < wait <= s*1000 |
| Gemini.RetryNoticeSeconds | server/services/gemini.ts:69-71 | the retry notice shows a wait of whole milliseconds in seconds rounded up in the same way |
| Gemini.ProgressNotices | server/services/gemini.ts:25-72 | with a handler, the call sends the limiter's notice exactly when it waits, then the retry notice for the delay exactly when it retries; without a handler it sends none |
| Gemini.GrantsAreSpaced | server/services/gemini.ts:23-33 | for one serial caller on a monotone clock, consecutive grants are at least 6500 ms apart, and the first is at least 6500 ms after an earlier request |
| VideoGenerator.NormaliseScript | server/services/videoGenerator.ts:36-39 | every line is non-empty and trimmed and holds no line break |
| VideoGenerator.BlankScriptIsEmpty | server/services/videoGenerator.ts:36-43 | no line survives exactly when the script is all whitespace |
| VideoGenerator.NormaliseAtBreak | server/services/videoGenerator.ts:36-39 | normalising two texts joined by a line break gives the lines of the first followed by the lines of the second |
| VideoGenerator.NormaliseOneLine | server/services/videoGenerator.ts:36-39 | a text without a line break gives its trimmed self, or nothing when it is all whitespace |
| VideoGenerator.NarrationAppend | server/services/videoGenerator.ts:78 | the narration of no lines is empty and of one line is that line; each further line adds `. ` and the line at the end, so every line is spoken once and in order |
| VideoGenerator.NarrationLength | server/services/videoGenerator.ts:78 | the narration of one or more lines is as long as the lines plus two characters for each `. ` between them |
| VideoGenerator.NormaliseJoinedLines | server/services/videoGenerator.ts:36-39 | normalising lines that are already non-empty, trimmed and break-free, joined by line breaks, gives the same lines in the same order |
| VideoGenerator.FramePaths | server/services/videoGenerator.ts:60 | n paths, path i being `<temp>/frame_<i>.png` |
| VideoGenerator.Frames | server/services/videoGenerator.ts:100-103 | one frame per image path, in order, each lasting the given duration |
| VideoGenerator.FrameDurationsSumToTotal | server/services/videoGenerator.ts:90-103 | frames of `total / n` each sum exactly to `total` |
| VideoGenerator.ImagesProgress | server/services/videoGenerator.ts:46-68 | the images-stage progress lies in [0, 100], is 0 before any frame and exactly 100 after the last |
| VideoGenerator.ImagesProgressIncreases | server/services/videoGenerator.ts:66 | each frame strictly raises the images-stage progress |
| VideoGenerator.LineEvents | server/services/videoGenerator.ts:64-68 | one event per line, event i reporting line i |
| VideoGenerator.SuccessEventsShape | server/services/videoGenerator.ts:46-125 | a successful run with a handler emits n + 6 events: images at 0 and at k/n*100 after frame k, ending at 100; then audio 0, audio 100, video 0, video 100, complete 100 |
| VideoGenerator.SuccessEventsWellOrdered | server/services/videoGenerator.ts:46-125 | those events go through images, audio, video and complete in order, and within a stage progress never goes back |
| VideoGenerator.WellOrderedPrefix | server/services/videoGenerator.ts:46-125 | any prefix of a well-ordered event sequence is well ordered |
| VideoGenerator.Unlinks | server/services/videoGenerator.ts:116-119 | one deletion per path, in order |
| VideoGenerator.GenerateImages | server/services/videoGenerator.ts:52-69 | the loop ends as the image-loop function `ImagesFrom` says |
| VideoGenerator.FinishVideo | server/services/videoGenerator.ts:71-130 | the stages after the images and the cleanup loop produce what `AfterImages` says |
| VideoGenerator.GenerateVideo | server/services/videoGenerator.ts:20-131 | result, events and effects are those of `Pipeline` |
| VideoGenerator.ImageEffectsInterleaved | server/services/videoGenerator.ts:53-62 | over i lines the loop makes exactly 2i outside calls: line k's description request, then the write of frame k drawn from that description, before line k + 1 |
| VideoGenerator.ImagesFromEnd | server/services/videoGenerator.ts:53-69 | the loop either gets through every line, or stops at the first line whose description or frame write fails, with that error, after writing and reporting every earlier line |
| VideoGenerator.ImagesFromPaths | server/services/videoGenerator.ts:52-62 | a finished loop recorded one image path per line |
| VideoGenerator.SetupFailureStops | server/services/videoGenerator.ts:25-33 | a failing directory creation throws with no events and only directory calls |
| VideoGenerator.BlankScriptRejected | server/services/videoGenerator.ts:28-57 | once the directories exist, an all-whitespace script throws "Script is empty" with no event and no call after the directories; any other script's first call after them asks for the first line's description |
| VideoGenerator.AfterImagesFailure | server/services/videoGenerator.ts:71-107 | a later stage that throws stops the events at a prefix of audio 0, audio 100, video 0, video 100; it only appends to the effects and deletes nothing |
| VideoGenerator.AfterImagesSuccess | server/services/videoGenerator.ts:71-130 | a successful finish synthesises the narration once and writes and probes the audio; it encodes n frames of `total / n` into `video_<now>.mp4`, deletes every frame and the audio, and returns the URL and `total` |
| VideoGenerator.FailedRunDeletesNothing | server/services/videoGenerator.ts:53-119 | a run that throws deletes no file |
| VideoGenerator.FailedRunEventsArePrefix | server/services/videoGenerator.ts:46-125 | the events of a run that throws are a prefix of a successful run's, and none without a handler |
| VideoGenerator.SuccessfulRun | server/services/videoGenerator.ts:20-131 | a successful run had every collaborator succeed; its events are the n + 6 success events; its calls are the directories, the interleaved describe-and-write per line, synthesis, audio write, probe, one encode of n frames of `total / n`, and the deletion of every frame and the audio; it returns `/generated/video_<now>.mp4` and `total` |
| VideoGenerator.TempFilesDistinct | server/services/videoGenerator.ts:60-119 | the frame paths and the audio path are pairwise different, so cleanup deletes each temporary file exactly once |
| VideoGenerator.UrlNamesOutputFile | server/services/videoGenerator.ts:105-128 | the returned URL, under the served `public` directory, is the path the encoder wrote |

## Left out

- Floating point: `parseFloat(x) * 1000`, the progress percentages and the frame duration `totalDuration / imagePaths.length` (`videoGenerator.ts:91`) are exact reals. IEEE rounding is not modelled. For instance, `2.007 * 1000` is 2007.0000000000002 in IEEE doubles, which `Math.ceil` turns into 2008 where the model gives 2007. Likewise ten frames of a one-second narration each last 0.1 s, and in doubles these add up to 0.9999999999999999 rather than 1.
- VideoGenerator.FrameDurationsSumToTotal: the exact sum holds for reals only. In IEEE doubles the frames' durations may add up to slightly less or more than the total, as in the example above.
- Unicode: `trim` and `toLowerCase` cover ASCII whitespace and ASCII letters only.
- Canvas rendering: strokes, arcs, `Math.cos`/`Math.sin`, fonts and PNG encoding are not modelled. The image is its size, its pose and its caption draws; `measureText` is the abstract `measure`.
- Paths: `path.join` is plain concatenation with `/`; its normalisation of `.`, `..` and repeated separators is not modelled.
- Collaborators: `mkdir`, `writeFile`, `generateAudio`, `getAudioDuration`, `createVideo`, `Date.now` and `existsSync` are oracles in `Env`.
  - Deletions are recorded as effects, but their outcomes are not modelled, because the source ignores them.
- Description stage inside the pipeline: `Env.describe` is an oracle indexed by line. It is not composed with `GeminiClient`, whose behaviour is proved on its own.
- Concurrency: callers racing on `lastRequestTime` are not modelled. `GrantsAreSpaced` covers one serial caller.
- Client construction: `new GoogleGenAI(...)` (`gemini.ts:35-38`) runs outside the `try`, after `lastRequestTime` is set. If the constructor threw, its error would propagate unwrapped with the request time already recorded. The model treats construction as unable to fail.
- The prompt text and the model name sent to `generateContent` are not modelled. A request is identified by its script line.
- Ordering of events against outside calls: a run's events and its effects are two separate sequences. That the "Generated image k" event comes after frame k's write and before line k + 1's description request, or that "complete" comes after the deletions, is not stated.
- Progress handler: `onProgress` is a flag saying whether a handler was passed. A handler that throws is not modelled.
- Timers: `delay(ms)` is a `Wait` step, and the clock readings after each wait are inputs. A `NaN` wait appears as `Wait(NotANumber)`.
- The client UI (the creator page and the video preview) is not part of this model.
