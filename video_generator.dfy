/** The generation pipeline: `generateVideo` turns a script into a narrated
    stickman video. It normalises the script into lines, asks for a scene
    description and draws a frame for each line in order, synthesises one
    narration, splits its duration evenly over the frames, has the encoder
    stitch the video, deletes the temporary files and returns the video's URL.

    Every collaborator the pipeline calls (directory checks, the description
    stage, file writes, speech synthesis, the duration probe, the encoder, the
    clock) is an oracle in `Env`; what the pipeline does to the outside world is
    recorded as a sequence of `Effect`s, and the progress handler's calls as a
    sequence of `GenerationProgress` events. `Pipeline` states the whole run as
    a function; `GenerateVideo` is the imperative procedure, proved equal to it. */
module VideoGenerator {
  import opened Wrappers
  import opened Text
  import ImageGenerator

  datatype Stage = Images | Audio | Video | Complete

  datatype GenerationProgress = GenerationProgress(stage: Stage, progress: real, message: string)

  datatype VideoGenerationResult = VideoGenerationResult(videoUrl: string, duration: real)

  datatype VideoFrame = VideoFrame(imagePath: string, duration: real)

  /** A call that reaches outside the pipeline. */
  datatype Effect =
    | MakeDir(path: string)
    | Describe(line: string)
    | WriteImage(path: string, image: ImageGenerator.Image)
    | Synthesize(text: string)
    | WriteAudio(path: string)
    | ProbeDuration(path: string)
    | Encode(frames: seq<VideoFrame>, audioPath: string, outputPath: string)
    | Unlink(path: string)

  /** The collaborators: what each answers when the pipeline calls it. Deleting
      a file is not here because its outcome is ignored. */
  datatype Env = Env(
    cwd: string,
    dirExists: string -> bool,
    mkdir: string -> Outcome<string>,
    describe: (nat, string) -> Result<string, string>,
    measure: string -> real,
    writeFile: string -> Outcome<string>,
    synthesize: string -> Outcome<string>,
    probeDuration: string -> Result<real, string>,
    now: nat,
    encode: (seq<VideoFrame>, string, string) -> Outcome<string>)

  /** A whole run: the result or the error thrown, the progress events and the effects. */
  datatype Run = Run(result: Result<VideoGenerationResult, string>, events: seq<GenerationProgress>, effects: seq<Effect>)

  const EmptyScript: string := "Script is empty"

  // ---------------------------------------------------------------------------
  // Paths

  function OutputDir(cwd: string): string { cwd + "/public/generated" }
  function TempDir(cwd: string): string { cwd + "/temp_video" }
  function FramePath(tempDir: string, i: nat): string { tempDir + "/frame_" + NatToString(i) + ".png" }
  function AudioPath(tempDir: string): string { tempDir + "/audio.mp3" }
  function OutputPath(outputDir: string, timestamp: nat): string { outputDir + "/video_" + NatToString(timestamp) + ".mp4" }
  function VideoUrl(timestamp: nat): string { "/generated/video_" + NatToString(timestamp) + ".mp4" }

  function FramePaths(tempDir: string, n: nat): (paths: seq<string>)
    ensures |paths| == n && forall k :: 0 <= k < n ==> paths[k] == FramePath(tempDir, k)
  {
    seq(n, k requires 0 <= k < n => FramePath(tempDir, k))
  }

  // ---------------------------------------------------------------------------
  // Script normalisation and narration

  /** What one piece contributes: its trimmed text, or nothing when it is blank. */
  function KeptPiece(piece: string): seq<string> {
    var t := Trim(piece);
    if t == [] then [] else [t]
  }

  /** The pieces, trimmed, with those that trim to nothing dropped, in order. */
  function KeepNonBlank(pieces: seq<string>): (lines: seq<string>)
    ensures |lines| <= |pieces|
    ensures forall k :: 0 <= k < |lines| ==> lines[k] != [] && IsTrimmed(lines[k])
    decreases |pieces|
  {
    if pieces == [] then []
    else
      KeptPiece(pieces[0]) + KeepNonBlank(pieces[1..])
  }

  /** Trimming keeps no character the string did not have. */
  lemma TrimKeepsOut(s: string, c: char)
    requires c !in s
    ensures c !in Trim(s)
  {
    var t := Trim(s);
    var i := SkipSpace(s, 0);
    forall k | 0 <= k < |t| ensures t[k] != c {
      assert t[k] == s[i + k];
    }
  }

  lemma {:induction false} KeepNonBlankKeepsOut(pieces: seq<string>, c: char)
    requires forall j :: 0 <= j < |pieces| ==> c !in pieces[j]
    ensures forall k :: 0 <= k < |KeepNonBlank(pieces)| ==> c !in KeepNonBlank(pieces)[k]
    decreases |pieces|
  {
    if pieces != [] {
      TrimKeepsOut(pieces[0], c);
      KeepNonBlankKeepsOut(pieces[1..], c);
    }
  }

  /** Nothing is kept exactly when every piece is all whitespace. */
  lemma {:induction false} KeepNonBlankEmpty(pieces: seq<string>)
    ensures KeepNonBlank(pieces) == [] <==> forall j :: 0 <= j < |pieces| ==> AllSpace(pieces[j])
    decreases |pieces|
  {
    if pieces != [] {
      KeepNonBlankEmpty(pieces[1..]);
      if AllSpace(pieces[0]) && forall j :: 0 <= j < |pieces[1..]| ==> AllSpace(pieces[1..][j]) {
        forall j | 0 < j < |pieces| ensures AllSpace(pieces[j]) {
          assert pieces[j] == pieces[1..][j - 1];
        }
      }
    }
  }

  /** `script.split("\n").map(trim).filter(non-empty)`: non-empty trimmed lines
      without line breaks. */
  function NormaliseScript(script: string): (lines: seq<string>)
    ensures forall k :: 0 <= k < |lines| ==> lines[k] != [] && IsTrimmed(lines[k]) && '\n' !in lines[k]
  {
    var pieces := Split(script, '\n');
    KeepNonBlankKeepsOut(pieces, '\n');
    KeepNonBlank(pieces)
  }

  /** Blank pieces are dropped one by one, so the pieces of two parts are kept
      as the kept pieces of each. */
  lemma {:induction false} KeepNonBlankConcat(x: seq<string>, y: seq<string>)
    ensures KeepNonBlank(x + y) == KeepNonBlank(x) + KeepNonBlank(y)
    decreases |x|
  {
    if x == [] {
      assert x + y == y;
    } else {
      KeepNonBlankConcat(x[1..], y);
      ConsConcat(x, y);
      KeepNonBlankStep(x);
      KeepNonBlankStep(x + y);
      AppendAssoc(KeptPiece(x[0]), KeepNonBlank(x[1..]), KeepNonBlank(y));
    }
  }

  lemma KeepNonBlankStep(pieces: seq<string>)
    requires pieces != []
    ensures KeepNonBlank(pieces) == KeptPiece(pieces[0]) + KeepNonBlank(pieces[1..])
  {
  }

  /** The lines of a script with a line break are those of the text before it
      followed by those of the text after it: no line is lost, blank ones are
      dropped and the order is kept. */
  lemma NormaliseAtBreak(a: string, b: string)
    ensures NormaliseScript(a + "\n" + b) == NormaliseScript(a) + NormaliseScript(b)
  {
    SplitConcat(a, '\n', b);
    KeepNonBlankConcat(Split(a, '\n'), Split(b, '\n'));
  }

  /** A script without a line break is one line: dropped when it is all
      whitespace, and otherwise kept trimmed. */
  lemma NormaliseOneLine(s: string)
    requires '\n' !in s
    ensures NormaliseScript(s) == (if AllSpace(s) then [] else [Trim(s)])
  {
    SplitWithoutSeparator(s, '\n');
    assert [s][1..] == [];
  }

  /** A join is all whitespace exactly when its parts are and, if there are two or
      more parts, its separator is. */
  lemma {:induction false} AllSpaceJoin(parts: seq<string>, sep: string)
    requires AllSpace(sep)
    ensures AllSpace(Join(parts, sep)) <==> forall j :: 0 <= j < |parts| ==> AllSpace(parts[j])
    decreases |parts|
  {
    if |parts| > 1 {
      AllSpaceJoin(parts[1..], sep);
      var p, rest := parts[0], Join(parts[1..], sep);
      AllSpaceConcat(p, sep);
      AllSpaceConcat(p + sep, rest);
      if forall j :: 0 <= j < |parts[1..]| ==> AllSpace(parts[1..][j]) {
        forall j | 0 <= j < |parts| && j > 0 ensures AllSpace(parts[j]) {
          assert parts[j] == parts[1..][j - 1];
        }
      }
    }
  }

  lemma AllSpaceConcat(a: string, b: string)
    ensures AllSpace(a + b) <==> AllSpace(a) && AllSpace(b)
  {
    if AllSpace(a + b) {
      forall k | 0 <= k < |b| ensures IsSpace(b[k]) {
        assert b[k] == (a + b)[|a| + k];
      }
      forall k | 0 <= k < |a| ensures IsSpace(a[k]) {
        assert a[k] == (a + b)[k];
      }
    }
  }

  /** The script is rejected as empty exactly when it is all whitespace. */
  lemma BlankScriptIsEmpty(script: string)
    ensures NormaliseScript(script) == [] <==> AllSpace(script)
  {
    var pieces := Split(script, '\n');
    AllSpaceJoin(pieces, "\n");
    KeepNonBlankEmpty(pieces);
  }

  lemma TrimOfTrimmed(s: string)
    requires IsTrimmed(s)
    ensures Trim(s) == s
  {
    assert SkipSpace(s, 0) == 0;
    assert SkipSpaceBack(s, 0, |s|) == |s|;
  }

  lemma {:induction false} KeepNonBlankOfLines(lines: seq<string>)
    requires forall k :: 0 <= k < |lines| ==> lines[k] != [] && IsTrimmed(lines[k])
    ensures KeepNonBlank(lines) == lines
    decreases |lines|
  {
    if lines != [] {
      TrimOfTrimmed(lines[0]);
      KeepNonBlankOfLines(lines[1..]);
      assert lines == [lines[0]] + lines[1..];
    }
  }

  /** Normalisation keeps the lines and their order: normalising the
      newline-joined form of a list of non-empty trimmed lines gives it back,
      so in particular normalising is idempotent. */
  lemma NormaliseJoinedLines(lines: seq<string>)
    requires forall k :: 0 <= k < |lines| ==> lines[k] != [] && IsTrimmed(lines[k]) && '\n' !in lines[k]
    ensures NormaliseScript(Join(lines, "\n")) == lines
  {
    if lines == [] {
      assert Split([], '\n') == [[]];
      assert AllSpace([]);
    } else {
      SplitJoin(lines, '\n');
      KeepNonBlankOfLines(lines);
    }
  }

  /** The narration: the lines joined by ". ". */
  function Narration(lines: seq<string>): string {
    Join(lines, ". ")
  }

  /** The narration of no lines is empty, of one line is that line, and each
      further line adds ". " and the line at the end: every line is spoken,
      once and in order. */
  lemma NarrationAppend(lines: seq<string>, line: string)
    ensures Narration([]) == [] && Narration([line]) == line
    ensures lines != [] ==> Narration(lines + [line]) == Narration(lines) + ". " + line
  {
    if lines != [] {
      JoinSnoc(lines, line, ". ");
    }
  }

  /** The narration of non-empty lines is as long as the lines plus two
      characters for each ". " between them. */
  lemma NarrationLength(lines: seq<string>)
    requires lines != []
    ensures |Narration(lines)| == TotalLength(lines) + 2 * (|lines| - 1)
  {
    JoinShape(lines, ". ");
  }

  // ---------------------------------------------------------------------------
  // Frame timing

  /** `imagePaths.map(imagePath => ({imagePath, duration}))`. */
  function Frames(imagePaths: seq<string>, frameDuration: real): (frames: seq<VideoFrame>)
    ensures |frames| == |imagePaths|
    ensures forall k :: 0 <= k < |frames| ==> frames[k] == VideoFrame(imagePaths[k], frameDuration)
  {
    seq(|imagePaths|, k requires 0 <= k < |imagePaths| => VideoFrame(imagePaths[k], frameDuration))
  }

  function TotalDuration(frames: seq<VideoFrame>): real
    decreases |frames|
  {
    if frames == [] then 0.0 else frames[0].duration + TotalDuration(frames[1..])
  }

  lemma {:induction false} TotalOfEqualDurations(frames: seq<VideoFrame>, d: real)
    requires forall k :: 0 <= k < |frames| ==> frames[k].duration == d
    ensures TotalDuration(frames) == |frames| as real * d
    decreases |frames|
  {
    if frames != [] {
      TotalOfEqualDurations(frames[1..], d);
    }
  }

  /** Each of the n frames lasts `total / n`, so the frames last `total` together. */
  lemma FrameDurationsSumToTotal(imagePaths: seq<string>, total: real)
    requires |imagePaths| > 0
    ensures var frames := Frames(imagePaths, total / |imagePaths| as real);
      |frames| == |imagePaths| && TotalDuration(frames) == total
  {
    var n := |imagePaths| as real;
    var frames := Frames(imagePaths, total / n);
    TotalOfEqualDurations(frames, total / n);
    assert n * (total / n) == total;
  }

  // ---------------------------------------------------------------------------
  // Progress events

  function Emit(onProgress: bool, event: GenerationProgress): seq<GenerationProgress> {
    if onProgress then [event] else []
  }

  const ImagesStarted := GenerationProgress(Images, 0.0, "Generating stickman images...")
  const AudioStarted := GenerationProgress(Audio, 0.0, "Converting script to speech...")
  const AudioDone := GenerationProgress(Audio, 100.0, "Audio generated successfully")
  const VideoStarted := GenerationProgress(Video, 0.0, "Stitching video together...")
  const VideoDone := GenerationProgress(Video, 100.0, "Video created successfully")
  const Completed := GenerationProgress(Complete, 100.0, "Video generation complete!")

  /** The images stage's progress after `k` of `n` frames, in percent. */
  function ImagesProgress(k: nat, n: nat): (p: real)
    requires n > 0
    ensures k <= n ==> 0.0 <= p <= 100.0
    ensures k == 0 ==> p == 0.0
    ensures k == n ==> p == 100.0
  {
    var q := k as real / n as real;
    assert q * n as real == k as real;
    (k as real / n as real) * 100.0
  }

  /** Each frame moves the images stage's progress strictly forward. */
  lemma ImagesProgressIncreases(k: nat, n: nat)
    requires k < n
    ensures ImagesProgress(k, n) < ImagesProgress(k + 1, n)
  {
    var a, b := k as real / n as real, (k + 1) as real / n as real;
    assert a * n as real == k as real && b * n as real == (k + 1) as real;
    assert (b - a) * n as real == 1.0;
  }

  /** The event after line `i` of `n` has its frame. */
  function LineDone(i: nat, n: nat): GenerationProgress
    requires i < n
  {
    GenerationProgress(Images, ImagesProgress(i + 1, n),
                       "Generated image " + NatToString(i + 1) + " of " + NatToString(n))
  }

  function LineEvents(n: nat): (events: seq<GenerationProgress>)
    ensures |events| == n && forall i :: 0 <= i < n ==> events[i] == LineDone(i, n)
  {
    seq(n, i requires 0 <= i < n => LineDone(i, n))
  }

  /** The events of the stages after the images, in order. */
  const LaterEvents: seq<GenerationProgress> := [AudioStarted, AudioDone, VideoStarted, VideoDone, Completed]

  /** Every event of a successful run with a progress handler, in order. */
  function SuccessEvents(n: nat): seq<GenerationProgress> {
    [ImagesStarted] + LineEvents(n) + LaterEvents
  }

  function Rank(stage: Stage): nat {
    match stage
    case Images => 0
    case Audio => 1
    case Video => 2
    case Complete => 3
  }

  /** A successful run with a handler emits n + 6 events: n + 1 for the images
      stage, at 0 and then at `(k / n) * 100` after the k-th frame, ending at
      exactly 100, followed by audio 0, audio 100, video 0, video 100 and
      complete 100. */
  lemma SuccessEventsShape(n: nat)
    requires n > 0
    ensures var events := SuccessEvents(n);
      && |events| == n + 6
      && (forall k :: 0 <= k <= n ==> events[k].stage == Images && events[k].progress == ImagesProgress(k, n))
      && events[n].progress == 100.0
      && events[n + 1..] == LaterEvents
  {
    var events := SuccessEvents(n);
    forall k | 0 < k <= n
      ensures events[k].stage == Images && events[k].progress == ImagesProgress(k, n)
    {
      assert events[k] == LineEvents(n)[k - 1];
    }
    assert events[n + 1..] == LaterEvents;
  }

  /** Events go through the stages in the order images, audio, video, complete;
      within a stage progress never goes back; every progress is in [0, 100]. */
  ghost predicate WellOrdered(events: seq<GenerationProgress>) {
    && (forall k :: 0 < k < |events| ==> Rank(events[k - 1].stage) <= Rank(events[k].stage))
    && (forall k :: 0 < k < |events| && events[k - 1].stage == events[k].stage ==> events[k - 1].progress <= events[k].progress)
    && (forall k :: 0 <= k < |events| ==> 0.0 <= events[k].progress <= 100.0)
  }

  /** The images stage's events strictly increase. */
  lemma ImagesEventsIncrease(n: nat)
    requires n > 0
    ensures forall k :: 0 < k <= n ==> SuccessEvents(n)[k - 1].progress < SuccessEvents(n)[k].progress
  {
    forall k | 0 < k <= n ensures SuccessEvents(n)[k - 1].progress < SuccessEvents(n)[k].progress {
      ImagesEventStep(n, k);
    }
  }

  lemma ImagesEventStep(n: nat, k: nat)
    requires 0 < k <= n
    ensures SuccessEvents(n)[k - 1].progress < SuccessEvents(n)[k].progress
  {
    var events := SuccessEvents(n);
    assert events[k - 1].progress == ImagesProgress(k - 1, n) by {
      SuccessEventsShape(n);
    }
    assert events[k].progress == ImagesProgress(k, n) by {
      SuccessEventsShape(n);
    }
    ImagesProgressIncreases(k - 1, n);
  }

  lemma LaterEventsAt(n: nat)
    requires n > 0
    ensures |SuccessEvents(n)| == n + 6
    ensures forall k :: 0 <= k <= n ==> SuccessEvents(n)[k].stage == Images && 0.0 <= SuccessEvents(n)[k].progress <= 100.0
    ensures forall k :: n < k < n + 6 ==> SuccessEvents(n)[k] == LaterEvents[k - n - 1]
  {
    SuccessEventsShape(n);
    var events := SuccessEvents(n);
    forall k | n < k < n + 6 ensures events[k] == LaterEvents[k - n - 1] {
      assert events[k] == events[n + 1..][k - n - 1];
    }
  }

  /** The events of a successful run are well ordered. */
  lemma SuccessEventsWellOrdered(n: nat)
    requires n > 0
    ensures WellOrdered(SuccessEvents(n))
  {
    ImagesEventsIncrease(n);
    LaterEventsAt(n);
    var events := SuccessEvents(n);
    forall k | 0 < k < |events| ensures Rank(events[k - 1].stage) <= Rank(events[k].stage) {
      if k > n + 1 {
        assert events[k - 1] == LaterEvents[k - n - 2];
      }
    }
    forall k | 0 < k < |events| && events[k - 1].stage == events[k].stage
      ensures events[k - 1].progress <= events[k].progress
    {
      if k > n + 1 {
        assert events[k - 1] == LaterEvents[k - n - 2];
      }
    }
  }

  /** A prefix of a well-ordered event sequence is well ordered: whatever stage
      a run fails in, what it emitted respects the order. */
  lemma WellOrderedPrefix(events: seq<GenerationProgress>, m: nat)
    requires WellOrdered(events) && m <= |events|
    ensures WellOrdered(events[..m])
  {
  }

  // ---------------------------------------------------------------------------
  // The run as a function

  function EnsureDirEffects(path: string, env: Env): seq<Effect> {
    if env.dirExists(path) then [] else [MakeDir(path)]
  }

  function EnsureDir(path: string, env: Env): Outcome<string> {
    if env.dirExists(path) then Pass else env.mkdir(path)
  }

  /** The directory checks and creations, up to the first failing `mkdir`. */
  function SetupEffects(env: Env): seq<Effect> {
    EnsureDirEffects(OutputDir(env.cwd), env)
    + (if EnsureDir(OutputDir(env.cwd), env).Fail? then [] else EnsureDirEffects(TempDir(env.cwd), env))
  }

  /** What has been produced when the image loop is at some line. */
  datatype ImagesAcc = ImagesAcc(imagePaths: seq<string>, events: seq<GenerationProgress>, effects: seq<Effect>)

  /** How the image loop ends: after every line, or with the error thrown at line `at`. */
  datatype ImagesEnd = Finished(acc: ImagesAcc) | Aborted(acc: ImagesAcc, error: string, at: nat)

  /** The image loop from line `i` on: describe the line, draw and write its
      frame, record the path and report progress; the first error ends it. */
  function ImagesFrom(lines: seq<string>, tempDir: string, onProgress: bool, env: Env, i: nat, acc: ImagesAcc): ImagesEnd
    requires i <= |lines|
    decreases |lines| - i
  {
    if i == |lines| then Finished(acc)
    else
      var described := env.describe(i, lines[i]);
      var effects := acc.effects + [Describe(lines[i])];
      if described.Failure? then Aborted(acc.(effects := effects), described.error, i)
      else
        var path := FramePath(tempDir, i);
        var effects' := effects + [WriteImage(path, ImageGenerator.Render(described.value, env.measure))];
        var written := env.writeFile(path);
        if written.Fail? then Aborted(acc.(effects := effects'), written.error, i)
        else
          ImagesFrom(lines, tempDir, onProgress, env, i + 1,
                     ImagesAcc(acc.imagePaths + [path], acc.events + Emit(onProgress, LineDone(i, |lines|)), effects'))
  }

  function Unlinks(paths: seq<string>): (effects: seq<Effect>)
    ensures |effects| == |paths| && forall k :: 0 <= k < |paths| ==> effects[k] == Unlink(paths[k])
  {
    seq(|paths|, k requires 0 <= k < |paths| => Unlink(paths[k]))
  }

  /** The run after the image loop: narration, duration, encoding, cleanup. */
  function AfterImages(lines: seq<string>, outputDir: string, tempDir: string, onProgress: bool, env: Env, acc: ImagesAcc): Run
    requires |acc.imagePaths| > 0
  {
    var audioPath := AudioPath(tempDir);
    var narration := Narration(lines);
    var events := acc.events + Emit(onProgress, AudioStarted);
    var effects := acc.effects + [Synthesize(narration)];
    var synthesized := env.synthesize(narration);
    if synthesized.Fail? then Run(Failure(synthesized.error), events, effects)
    else
      var effects := effects + [WriteAudio(audioPath)];
      var written := env.writeFile(audioPath);
      if written.Fail? then Run(Failure(written.error), events, effects)
      else
        var events := events + Emit(onProgress, AudioDone);
        var effects := effects + [ProbeDuration(audioPath)];
        var probed := env.probeDuration(audioPath);
        if probed.Failure? then Run(Failure(probed.error), events, effects)
        else
          var totalDuration := probed.value;
          var frames := Frames(acc.imagePaths, totalDuration / |acc.imagePaths| as real);
          var events := events + Emit(onProgress, VideoStarted);
          var outputPath := OutputPath(outputDir, env.now);
          var effects := effects + [Encode(frames, audioPath, outputPath)];
          var encoded := env.encode(frames, audioPath, outputPath);
          if encoded.Fail? then Run(Failure(encoded.error), events, effects)
          else
            var events := events + Emit(onProgress, VideoDone) + Emit(onProgress, Completed);
            var effects := effects + Unlinks(acc.imagePaths + [audioPath]);
            Run(Success(VideoGenerationResult(VideoUrl(env.now), totalDuration)), events, effects)
  }

  /** Where the image loop starts: nothing drawn, the stage announced, the directories made. */
  function StartAcc(onProgress: bool, env: Env): ImagesAcc {
    ImagesAcc([], Emit(onProgress, ImagesStarted), SetupEffects(env))
  }

  /** The whole run of `generateVideo(script, onProgress)`. */
  function Pipeline(script: string, onProgress: bool, env: Env): Run {
    var outputDir := OutputDir(env.cwd);
    var tempDir := TempDir(env.cwd);
    var setup := SetupEffects(env);
    if EnsureDir(outputDir, env).Fail? then Run(Failure(EnsureDir(outputDir, env).error), [], setup)
    else if EnsureDir(tempDir, env).Fail? then Run(Failure(EnsureDir(tempDir, env).error), [], setup)
    else
      var lines := NormaliseScript(script);
      if lines == [] then Run(Failure(EmptyScript), [], setup)
      else
        match ImagesFrom(lines, tempDir, onProgress, env, 0, StartAcc(onProgress, env))
        case Aborted(acc, error, _) => Run(Failure(error), acc.events, acc.effects)
        case Finished(acc) =>
          assert |acc.imagePaths| == |lines| by {
            ImagesFromPaths(lines, tempDir, onProgress, env, 0, StartAcc(onProgress, env));
          }
          AfterImages(lines, outputDir, tempDir, onProgress, env, acc)
  }

  /** The accumulator after line `i` has its frame. */
  function NextAcc(lines: seq<string>, tempDir: string, onProgress: bool, env: Env, i: nat, acc: ImagesAcc): ImagesAcc
    requires i < |lines| && env.describe(i, lines[i]).Success?
  {
    ImagesAcc(acc.imagePaths + [FramePath(tempDir, i)], acc.events + Emit(onProgress, LineDone(i, |lines|)),
              acc.effects + LineEffects(lines, tempDir, env, i))
  }

  lemma ImagesFromStep(lines: seq<string>, tempDir: string, onProgress: bool, env: Env, i: nat, acc: ImagesAcc)
    requires i < |lines| && env.describe(i, lines[i]).Success? && env.writeFile(FramePath(tempDir, i)).Pass?
    ensures ImagesFrom(lines, tempDir, onProgress, env, i, acc) == ImagesFrom(lines, tempDir, onProgress, env, i + 1, NextAcc(lines, tempDir, onProgress, env, i, acc))
  {
    var l := LineEffects(lines, tempDir, env, i);
    assert acc.effects + [l[0]] + [l[1]] == acc.effects + l;
  }

  /** A line whose description or frame write fails ends the loop there. */
  lemma ImagesFromStops(lines: seq<string>, tempDir: string, onProgress: bool, env: Env, i: nat, acc: ImagesAcc)
    requires i < |lines| && LineError(lines, tempDir, env, i).Some?
    ensures ImagesFrom(lines, tempDir, onProgress, env, i, acc)
         == Aborted(acc.(effects := acc.effects + FailedLineEffects(lines, tempDir, env, i)), LineError(lines, tempDir, env, i).value, i)
  {
    if env.describe(i, lines[i]).Success? {
      var l := LineEffects(lines, tempDir, env, i);
      assert acc.effects + [l[0]] + [l[1]] == acc.effects + l;
    }
  }

  lemma {:induction false} ImagesFromPaths(lines: seq<string>, tempDir: string, onProgress: bool, env: Env, i: nat, acc: ImagesAcc)
    requires i <= |lines|
    ensures var end := ImagesFrom(lines, tempDir, onProgress, env, i, acc);
      end.Finished? ==> |end.acc.imagePaths| == |acc.imagePaths| + |lines| - i
    decreases |lines| - i
  {
    if i < |lines| && env.describe(i, lines[i]).Success? && env.writeFile(FramePath(tempDir, i)).Pass? {
      ImagesFromStep(lines, tempDir, onProgress, env, i, acc);
      ImagesFromPaths(lines, tempDir, onProgress, env, i + 1, NextAcc(lines, tempDir, onProgress, env, i, acc));
    }
  }

  // ---------------------------------------------------------------------------
  // The procedure

  /** Stage 1: for each line in order, describe it, draw its frame, write the
      frame to the temporary directory and report progress; the first error
      ends the stage. */
  method GenerateImages(scriptLines: seq<string>, tempDir: string, onProgress: bool, env: Env, start: ImagesAcc)
    returns (end: ImagesEnd)
    ensures end == ImagesFrom(scriptLines, tempDir, onProgress, env, 0, start)
  {
    var imagePaths, events, effects := start.imagePaths, start.events, start.effects;
    for i := 0 to |scriptLines|
      invariant ImagesFrom(scriptLines, tempDir, onProgress, env, 0, start)
             == ImagesFrom(scriptLines, tempDir, onProgress, env, i, ImagesAcc(imagePaths, events, effects))
    {
      ghost var before := ImagesAcc(imagePaths, events, effects);
      var line := scriptLines[i];
      effects := effects + [Describe(line)];
      var described := env.describe(i, line);
      if described.Failure? {
        ImagesFromStops(scriptLines, tempDir, onProgress, env, i, before);
        return Aborted(ImagesAcc(imagePaths, events, effects), described.error, i);
      }
      var description := described.value;

      var imagePath := FramePath(tempDir, i);
      var image := ImageGenerator.GenerateStickmanImage(description, env.measure);
      effects := effects + [WriteImage(imagePath, image)];
      var written := env.writeFile(imagePath);
      if written.Fail? {
        ImagesFromStops(scriptLines, tempDir, onProgress, env, i, before);
        assert effects == before.effects + LineEffects(scriptLines, tempDir, env, i);
        return Aborted(ImagesAcc(imagePaths, events, effects), written.error, i);
      }
      imagePaths := imagePaths + [imagePath];

      if onProgress {
        events := events + [LineDone(i, |scriptLines|)];
      }
      ImagesFromStep(scriptLines, tempDir, onProgress, env, i, before);
      assert effects == before.effects + LineEffects(scriptLines, tempDir, env, i);
      assert ImagesAcc(imagePaths, events, effects) == NextAcc(scriptLines, tempDir, onProgress, env, i, before);
    }
    return Finished(ImagesAcc(imagePaths, events, effects));
  }

  /** Stages 2 and 3 and the cleanup: narrate the script, split the narration's
      duration over the frames, encode the video and delete the temporary files. */
  method FinishVideo(scriptLines: seq<string>, outputDir: string, tempDir: string, onProgress: bool, env: Env, acc: ImagesAcc)
    returns (run: Run)
    requires |acc.imagePaths| > 0
    ensures run == AfterImages(scriptLines, outputDir, tempDir, onProgress, env, acc)
  {
    var imagePaths, events, effects := acc.imagePaths, acc.events, acc.effects;
    if onProgress {
      events := events + [AudioStarted];
    }
    var fullScript := Join(scriptLines, ". ");
    var audioPath := AudioPath(tempDir);
    effects := effects + [Synthesize(fullScript)];
    var synthesized := env.synthesize(fullScript);
    if synthesized.Fail? {
      return Run(Failure(synthesized.error), events, effects);
    }
    effects := effects + [WriteAudio(audioPath)];
    var audioWritten := env.writeFile(audioPath);
    if audioWritten.Fail? {
      return Run(Failure(audioWritten.error), events, effects);
    }
    if onProgress {
      events := events + [AudioDone];
    }

    effects := effects + [ProbeDuration(audioPath)];
    var probed := env.probeDuration(audioPath);
    if probed.Failure? {
      return Run(Failure(probed.error), events, effects);
    }
    var totalDuration := probed.value;
    var frameDuration := totalDuration / |imagePaths| as real;

    if onProgress {
      events := events + [VideoStarted];
    }
    var frames := Frames(imagePaths, frameDuration);
    var timestamp := env.now;
    var outputPath := OutputPath(outputDir, timestamp);
    effects := effects + [Encode(frames, audioPath, outputPath)];
    var encoded := env.encode(frames, audioPath, outputPath);
    if encoded.Fail? {
      return Run(Failure(encoded.error), events, effects);
    }
    if onProgress {
      events := events + [VideoDone];
    }

    // Deletion failures are ignored, so deleting always moves on
    ghost var beforeCleanup := effects;
    for k := 0 to |imagePaths|
      invariant effects == beforeCleanup + Unlinks(imagePaths[..k])
    {
      assert imagePaths[..k + 1] == imagePaths[..k] + [imagePaths[k]];
      effects := effects + [Unlink(imagePaths[k])];
    }
    assert imagePaths[..|imagePaths|] == imagePaths;
    effects := effects + [Unlink(audioPath)];
    assert Unlinks(imagePaths) + [Unlink(audioPath)] == Unlinks(imagePaths + [audioPath]);

    if onProgress {
      events := events + [Completed];
    }
    return Run(Success(VideoGenerationResult(VideoUrl(timestamp), totalDuration)), events, effects);
  }

  /** `generateVideo(script, onProgress)`; `onProgress` says whether a progress
      handler was passed. */
  method GenerateVideo(script: string, onProgress: bool, env: Env)
    returns (result: Result<VideoGenerationResult, string>, events: seq<GenerationProgress>, effects: seq<Effect>)
    ensures Run(result, events, effects) == Pipeline(script, onProgress, env)
  {
    events, effects := [], [];
    var outputDir := OutputDir(env.cwd);
    var tempDir := TempDir(env.cwd);

    if !env.dirExists(outputDir) {
      effects := effects + [MakeDir(outputDir)];
      var made := env.mkdir(outputDir);
      if made.Fail? {
        result := Failure(made.error);
        return;
      }
    }
    if !env.dirExists(tempDir) {
      effects := effects + [MakeDir(tempDir)];
      var made := env.mkdir(tempDir);
      if made.Fail? {
        result := Failure(made.error);
        return;
      }
    }
    assert effects == SetupEffects(env);

    var scriptLines := NormaliseScript(script);
    if |scriptLines| == 0 {
      result := Failure(EmptyScript);
      return;
    }

    if onProgress {
      events := events + [ImagesStarted];
    }
    var start := ImagesAcc([], events, effects);
    assert start == StartAcc(onProgress, env);
    assert EnsureDir(outputDir, env).Pass? && EnsureDir(tempDir, env).Pass?;
    var images := GenerateImages(scriptLines, tempDir, onProgress, env, start);
    match images
    case Aborted(acc, error, _) =>
      result, events, effects := Failure(error), acc.events, acc.effects;
    case Finished(acc) =>
      ImagesFromPaths(scriptLines, tempDir, onProgress, env, 0, start);
      var run := FinishVideo(scriptLines, outputDir, tempDir, onProgress, env, acc);
      assert run == Pipeline(script, onProgress, env);
      result, events, effects := run.result, run.events, run.effects;
  }

  // ---------------------------------------------------------------------------
  // Properties of a run

  /** Every line before `i` was described. */
  ghost predicate DescribedUpTo(lines: seq<string>, env: Env, i: nat)
    requires i <= |lines|
  {
    forall k :: 0 <= k < i ==> env.describe(k, lines[k]).Success?
  }

  /** What the image loop does for line `k` when its description succeeds. */
  function LineEffects(lines: seq<string>, tempDir: string, env: Env, k: nat): seq<Effect>
    requires k < |lines| && env.describe(k, lines[k]).Success?
  {
    [Describe(lines[k]), WriteImage(FramePath(tempDir, k), ImageGenerator.Render(env.describe(k, lines[k]).value, env.measure))]
  }

  /** What the image loop does for lines [0, i) when all of them succeed. */
  function ImageEffects(lines: seq<string>, tempDir: string, env: Env, i: nat): seq<Effect>
    requires i <= |lines| && DescribedUpTo(lines, env, i)
  {
    if i == 0 then [] else ImageEffects(lines, tempDir, env, i - 1) + LineEffects(lines, tempDir, env, i - 1)
  }

  /** The image loop calls out twice per line and strictly in line order: it
      asks for line k's description, then writes frame k drawn from it, before
      it touches line k + 1. */
  lemma ImageEffectsInterleaved(lines: seq<string>, tempDir: string, env: Env, i: nat)
    requires i <= |lines| && DescribedUpTo(lines, env, i)
    ensures var effects := ImageEffects(lines, tempDir, env, i);
      && |effects| == 2 * i
      && forall k :: 0 <= k < i ==>
           && effects[2 * k] == Describe(lines[k])
           && effects[2 * k + 1] == WriteImage(FramePath(tempDir, k), ImageGenerator.Render(env.describe(k, lines[k]).value, env.measure))
  {
    ImageEffectsByLine(lines, tempDir, env, i);
    var effects := ImageEffects(lines, tempDir, env, i);
    forall k | 0 <= k < i
      ensures effects[2 * k] == Describe(lines[k])
      ensures effects[2 * k + 1] == WriteImage(FramePath(tempDir, k), ImageGenerator.Render(env.describe(k, lines[k]).value, env.measure))
    {
      assert effects[2 * k] == LineEffects(lines, tempDir, env, k)[0];
    }
  }

  lemma {:induction false} ImageEffectsLength(lines: seq<string>, tempDir: string, env: Env, i: nat)
    requires i <= |lines| && DescribedUpTo(lines, env, i)
    ensures |ImageEffects(lines, tempDir, env, i)| == 2 * i
  {
    if i > 0 {
      ImageEffectsLength(lines, tempDir, env, i - 1);
    }
  }

  /** Line k's two effects sit at positions 2k and 2k + 1. */
  lemma {:induction false} ImageEffectsAt(lines: seq<string>, tempDir: string, env: Env, i: nat, k: nat)
    requires k < i <= |lines| && DescribedUpTo(lines, env, i)
    ensures |ImageEffects(lines, tempDir, env, i)| == 2 * i
    ensures ImageEffects(lines, tempDir, env, i)[2 * k] == LineEffects(lines, tempDir, env, k)[0]
    ensures ImageEffects(lines, tempDir, env, i)[2 * k + 1] == LineEffects(lines, tempDir, env, k)[1]
  {
    ImageEffectsLength(lines, tempDir, env, i);
    ImageEffectsLength(lines, tempDir, env, i - 1);
    var before := ImageEffects(lines, tempDir, env, i - 1);
    var last := LineEffects(lines, tempDir, env, i - 1);
    assert ImageEffects(lines, tempDir, env, i) == before + last;
    if k < i - 1 {
      ImageEffectsAt(lines, tempDir, env, i - 1, k);
    }
  }

  lemma ImageEffectsByLine(lines: seq<string>, tempDir: string, env: Env, i: nat)
    requires i <= |lines| && DescribedUpTo(lines, env, i)
    ensures var effects := ImageEffects(lines, tempDir, env, i);
      && |effects| == 2 * i
      && forall k :: 0 <= k < i ==>
           effects[2 * k] == LineEffects(lines, tempDir, env, k)[0] && effects[2 * k + 1] == LineEffects(lines, tempDir, env, k)[1]
  {
    ImageEffectsLength(lines, tempDir, env, i);
    forall k | 0 <= k < i
      ensures ImageEffects(lines, tempDir, env, i)[2 * k] == LineEffects(lines, tempDir, env, k)[0]
      ensures ImageEffects(lines, tempDir, env, i)[2 * k + 1] == LineEffects(lines, tempDir, env, k)[1]
    {
      ImageEffectsAt(lines, tempDir, env, i, k);
    }
  }

  /** The effects the failing line `at` got through: its description request,
      and its frame write when the description came back. */
  function FailedLineEffects(lines: seq<string>, tempDir: string, env: Env, at: nat): seq<Effect>
    requires at < |lines|
  {
    if env.describe(at, lines[at]).Failure? then [Describe(lines[at])] else LineEffects(lines, tempDir, env, at)
  }

  /** The error line `at` throws, if any. */
  function LineError(lines: seq<string>, tempDir: string, env: Env, at: nat): Option<string>
    requires at < |lines|
  {
    var described := env.describe(at, lines[at]);
    if described.Failure? then Some(described.error)
    else
      var written := env.writeFile(FramePath(tempDir, at));
      if written.Fail? then Some(written.error) else None
  }

  /** The image loop has got through lines [0, i) from `base`, and then done `tail`. */
  ghost predicate ImagesSoFar(lines: seq<string>, tempDir: string, onProgress: bool, env: Env, i: nat, base: ImagesAcc, acc: ImagesAcc, tail: seq<Effect>)
    requires i <= |lines|
  {
    && DescribedUpTo(lines, env, i)
    && (forall k :: 0 <= k < i ==> LineError(lines, tempDir, env, k) == None)
    && acc.imagePaths == base.imagePaths + FramePaths(tempDir, i)
    && acc.events == base.events + (if onProgress then LineEvents(|lines|)[..i] else [])
    && acc.effects == base.effects + ImageEffects(lines, tempDir, env, i) + tail
  }

  /** The image loop either gets through every line, or stops at the first line
      whose description or frame write fails, with that error, having written
      the frames of the lines before it and reported their progress. */
  lemma {:induction false} ImagesFromEnd(lines: seq<string>, tempDir: string, onProgress: bool, env: Env, i: nat, base: ImagesAcc, acc: ImagesAcc)
    requires i <= |lines| && ImagesSoFar(lines, tempDir, onProgress, env, i, base, acc, [])
    ensures match ImagesFrom(lines, tempDir, onProgress, env, i, acc)
      case Finished(a) => ImagesSoFar(lines, tempDir, onProgress, env, |lines|, base, a, [])
      case Aborted(a, e, at) =>
        && i <= at < |lines|
        && ImagesSoFar(lines, tempDir, onProgress, env, at, base, a, FailedLineEffects(lines, tempDir, env, at))
        && LineError(lines, tempDir, env, at) == Some(e)
    decreases |lines| - i
  {
    if i < |lines| {
      if LineError(lines, tempDir, env, i) == None {
        var next := NextAcc(lines, tempDir, onProgress, env, i, acc);
        ImagesFromStep(lines, tempDir, onProgress, env, i, acc);
        ImagesSoFarStep(lines, tempDir, onProgress, env, i, base, acc);
        ImagesFromEnd(lines, tempDir, onProgress, env, i + 1, base, next);
      } else {
        ImagesStopAt(lines, tempDir, onProgress, env, i, base, acc);
      }
    }
  }

  /** The line that fails ends the loop with what came before it and its own
      effects up to the failure. */
  lemma ImagesStopAt(lines: seq<string>, tempDir: string, onProgress: bool, env: Env, i: nat, base: ImagesAcc, acc: ImagesAcc)
    requires i < |lines| && ImagesSoFar(lines, tempDir, onProgress, env, i, base, acc, [])
    requires LineError(lines, tempDir, env, i).Some?
    ensures var end := ImagesFrom(lines, tempDir, onProgress, env, i, acc);
      && end.Aborted? && end.at == i && LineError(lines, tempDir, env, i) == Some(end.error)
      && ImagesSoFar(lines, tempDir, onProgress, env, i, base, end.acc, FailedLineEffects(lines, tempDir, env, i))
  {
    ImagesFromStops(lines, tempDir, onProgress, env, i, acc);
    AppendNil(base.effects + ImageEffects(lines, tempDir, env, i));
    AppendAssoc(base.effects, ImageEffects(lines, tempDir, env, i), FailedLineEffects(lines, tempDir, env, i));
  }

  /** One more line through the image loop keeps `ImagesSoFar`. */
  lemma ImagesSoFarStep(lines: seq<string>, tempDir: string, onProgress: bool, env: Env, i: nat, base: ImagesAcc, acc: ImagesAcc)
    requires i < |lines| && ImagesSoFar(lines, tempDir, onProgress, env, i, base, acc, [])
    requires LineError(lines, tempDir, env, i) == None
    ensures ImagesSoFar(lines, tempDir, onProgress, env, i + 1, base, NextAcc(lines, tempDir, onProgress, env, i, acc), [])
  {
    var next := NextAcc(lines, tempDir, onProgress, env, i, acc);
    assert next.imagePaths == acc.imagePaths + [FramePath(tempDir, i)];
    FramePathsStep(base.imagePaths, acc.imagePaths, tempDir, i);
    assert next.events == acc.events + Emit(onProgress, LineDone(i, |lines|));
    LineEventsStep(base.events, acc.events, onProgress, |lines|, i);
    assert next.effects == acc.effects + LineEffects(lines, tempDir, env, i);
    AppendNil(base.effects + ImageEffects(lines, tempDir, env, i));
    ImageEffectsStep(base.effects, acc.effects, lines, tempDir, env, i);
    AppendNil(base.effects + ImageEffects(lines, tempDir, env, i + 1));
  }

  lemma FramePathsStep(basePaths: seq<string>, paths: seq<string>, tempDir: string, i: nat)
    requires paths == basePaths + FramePaths(tempDir, i)
    ensures paths + [FramePath(tempDir, i)] == basePaths + FramePaths(tempDir, i + 1)
  {
    FramePathsSnoc(tempDir, i);
  }

  lemma LineEventsStep(baseEvents: seq<GenerationProgress>, events: seq<GenerationProgress>, onProgress: bool, n: nat, i: nat)
    requires i < n
    requires events == baseEvents + (if onProgress then LineEvents(n)[..i] else [])
    ensures events + Emit(onProgress, LineDone(i, n)) == baseEvents + (if onProgress then LineEvents(n)[..i + 1] else [])
  {
    LineEventsSnoc(n, i);
  }

  lemma ImageEffectsStep(baseEffects: seq<Effect>, effects: seq<Effect>, lines: seq<string>, tempDir: string, env: Env, i: nat)
    requires i < |lines| && DescribedUpTo(lines, env, i + 1)
    requires effects == baseEffects + ImageEffects(lines, tempDir, env, i)
    ensures effects + LineEffects(lines, tempDir, env, i) == baseEffects + ImageEffects(lines, tempDir, env, i + 1)
  {
    AppendAssoc(baseEffects, ImageEffects(lines, tempDir, env, i), LineEffects(lines, tempDir, env, i));
  }

  lemma FramePathsSnoc(tempDir: string, i: nat)
    ensures FramePaths(tempDir, i + 1) == FramePaths(tempDir, i) + [FramePath(tempDir, i)]
  {
  }

  lemma LineEventsSnoc(n: nat, i: nat)
    requires i < n
    ensures LineEvents(n)[..i + 1] == LineEvents(n)[..i] + [LineDone(i, n)]
  {
  }

  lemma TakeWhole<T>(s: seq<T>)
    ensures s[..|s|] == s
  {
  }

  lemma AppendNil<T>(s: seq<T>)
    ensures s + [] == s
  {
  }

  lemma AppendAssoc<T>(a: seq<T>, b: seq<T>, c: seq<T>)
    ensures a + b + c == a + (b + c)
  {
  }

  /** Both directories exist or were made. */
  predicate SetupSucceeds(env: Env) {
    EnsureDir(OutputDir(env.cwd), env).Pass? && EnsureDir(TempDir(env.cwd), env).Pass?
  }

  /** A directory that cannot be made ends the run before anything else: the
      error is thrown, no progress is reported and nothing but directory
      creation was attempted. */
  lemma SetupFailureStops(script: string, onProgress: bool, env: Env)
    requires !SetupSucceeds(env)
    ensures var run := Pipeline(script, onProgress, env);
      && run.result.Failure?
      && run.events == []
      && 1 <= |run.effects| <= 2
      && forall k :: 0 <= k < |run.effects| ==> run.effects[k].MakeDir?
  {
  }

  /** The image stage from its start, for a run that has lines. */
  lemma ImagesStage(script: string, onProgress: bool, env: Env)
    requires SetupSucceeds(env) && NormaliseScript(script) != []
    ensures var lines := NormaliseScript(script);
      var tempDir, base := TempDir(env.cwd), StartAcc(onProgress, env);
      match ImagesFrom(lines, tempDir, onProgress, env, 0, base)
      case Finished(a) => ImagesSoFar(lines, tempDir, onProgress, env, |lines|, base, a, [])
      case Aborted(a, e, at) =>
        && at < |lines|
        && ImagesSoFar(lines, tempDir, onProgress, env, at, base, a, FailedLineEffects(lines, tempDir, env, at))
        && LineError(lines, tempDir, env, at) == Some(e)
  {
    var lines := NormaliseScript(script);
    var tempDir, base := TempDir(env.cwd), StartAcc(onProgress, env);
    assert FramePaths(tempDir, 0) == [];
    assert LineEvents(|lines|)[..0] == [];
    assert base.effects == base.effects + ImageEffects(lines, tempDir, env, 0) + [];
    ImagesFromEnd(lines, tempDir, onProgress, env, 0, base, base);
  }

  /** The run after the images when one of the later collaborators throws: the
      error propagates, the later stages' events stop where it happened and
      nothing is deleted. */
  lemma AfterImagesFailure(lines: seq<string>, outputDir: string, tempDir: string, onProgress: bool, env: Env, acc: ImagesAcc)
    requires |acc.imagePaths| > 0
    requires AfterImages(lines, outputDir, tempDir, onProgress, env, acc).result.Failure?
    ensures var run := AfterImages(lines, outputDir, tempDir, onProgress, env, acc);
      && |acc.events| <= |run.events| <= |acc.events| + 4
      && run.events == acc.events + (if onProgress then LaterEvents[..|run.events| - |acc.events|] else [])
      && |acc.effects| <= |run.effects|
      && run.effects[..|acc.effects|] == acc.effects
      && (forall k :: |acc.effects| <= k < |run.effects| ==> !run.effects[k].Unlink?)
      && (NoDeletion(acc.effects) ==> NoDeletion(run.effects))
  {
    var run := AfterImages(lines, outputDir, tempDir, onProgress, env, acc);
    if onProgress {
      var m := |run.events| - |acc.events|;
      assert LaterEvents[..1] == [AudioStarted];
      assert LaterEvents[..2] == [AudioStarted, AudioDone];
      assert LaterEvents[..3] == [AudioStarted, AudioDone, VideoStarted];
    }
  }

  /** The run after the images when every later collaborator succeeds. */
  lemma AfterImagesSuccess(lines: seq<string>, outputDir: string, tempDir: string, onProgress: bool, env: Env, acc: ImagesAcc)
    requires |acc.imagePaths| > 0
    requires AfterImages(lines, outputDir, tempDir, onProgress, env, acc).result.Success?
    ensures var audioPath := AudioPath(tempDir);
      && env.synthesize(Narration(lines)).Pass?
      && env.writeFile(audioPath).Pass?
      && env.probeDuration(audioPath).Success?
      && var total := env.probeDuration(audioPath).value;
         var frames := Frames(acc.imagePaths, total / |acc.imagePaths| as real);
         var outputPath := OutputPath(outputDir, env.now);
         var run := AfterImages(lines, outputDir, tempDir, onProgress, env, acc);
         && env.encode(frames, audioPath, outputPath).Pass?
         && run.result.value == VideoGenerationResult(VideoUrl(env.now), total)
         && run.events == acc.events + (if onProgress then LaterEvents else [])
         && run.effects == acc.effects
              + [Synthesize(Narration(lines)), WriteAudio(audioPath), ProbeDuration(audioPath), Encode(frames, audioPath, outputPath)]
              + Unlinks(acc.imagePaths + [audioPath])
  {
  }

  /** How a run ends: before the image stage, or after it stops or finishes. */
  lemma PipelineCases(script: string, onProgress: bool, env: Env)
    ensures var run, lines := Pipeline(script, onProgress, env), NormaliseScript(script);
      if !SetupSucceeds(env) || lines == [] then
        run.result.Failure? && run.events == [] && run.effects == SetupEffects(env)
      else
        var end := ImagesFrom(lines, TempDir(env.cwd), onProgress, env, 0, StartAcc(onProgress, env));
        && (end.Aborted? ==> run == Run(Failure(end.error), end.acc.events, end.acc.effects))
        && (end.Finished? ==>
              |end.acc.imagePaths| == |lines| && run == AfterImages(lines, OutputDir(env.cwd), TempDir(env.cwd), onProgress, env, end.acc))
  {
    var lines := NormaliseScript(script);
    if SetupSucceeds(env) && lines != [] {
      ImagesFromPaths(lines, TempDir(env.cwd), onProgress, env, 0, StartAcc(onProgress, env));
    }
  }

  /** No file is deleted. */
  predicate NoDeletion(effects: seq<Effect>) {
    forall k :: 0 <= k < |effects| ==> !effects[k].Unlink?
  }

  /** The effects of an image loop that stopped at line `at` start with
      `base`'s, then line 0's description request, and add no deletion. */
  lemma AbortedEffects(lines: seq<string>, tempDir: string, onProgress: bool, env: Env, base: ImagesAcc, a: ImagesAcc, at: nat)
    requires at < |lines| && ImagesSoFar(lines, tempDir, onProgress, env, at, base, a, FailedLineEffects(lines, tempDir, env, at))
    ensures |a.effects| > |base.effects| && a.effects[..|base.effects|] == base.effects
    ensures a.effects[|base.effects|] == Describe(lines[0])
    ensures forall k :: |base.effects| <= k < |a.effects| ==> !a.effects[k].Unlink?
    ensures NoDeletion(base.effects) ==> NoDeletion(a.effects)
  {
    var rest := ImageEffects(lines, tempDir, env, at) + FailedLineEffects(lines, tempDir, env, at);
    AbortedRest(lines, tempDir, env, at);
    assert a.effects == base.effects + rest;
    ExtendedEffects(base.effects, rest);
  }

  /** What the image loop did when it stopped at line `at`: line 0's
      description request first, and no deletion. */
  lemma AbortedRest(lines: seq<string>, tempDir: string, env: Env, at: nat)
    requires at < |lines| && DescribedUpTo(lines, env, at)
    ensures var rest := ImageEffects(lines, tempDir, env, at) + FailedLineEffects(lines, tempDir, env, at);
      rest != [] && rest[0] == Describe(lines[0]) && NoDeletion(rest)
  {
    var done := ImageEffects(lines, tempDir, env, at);
    var tail := FailedLineEffects(lines, tempDir, env, at);
    ImagesEffectsNoUnlink(lines, tempDir, env, at);
    if at == 0 {
      assert done == [];
    } else {
      ImageEffectsAt(lines, tempDir, env, at, 0);
    }
    assert NoDeletion(tail);
    NoDeletionAppend(done, tail);
  }

  lemma NoDeletionAppend(a: seq<Effect>, b: seq<Effect>)
    requires NoDeletion(a) && NoDeletion(b)
    ensures NoDeletion(a + b)
  {
    forall k | 0 <= k < |a + b| ensures !(a + b)[k].Unlink? {
      if k >= |a| {
        assert (a + b)[k] == b[k - |a|];
      }
    }
  }

  /** Effects that extend `base` by `rest`. */
  lemma ExtendedEffects(base: seq<Effect>, rest: seq<Effect>)
    requires NoDeletion(rest) && rest != []
    ensures |base + rest| > |base| && (base + rest)[..|base|] == base && (base + rest)[|base|] == rest[0]
    ensures forall k :: |base| <= k < |base + rest| ==> !(base + rest)[k].Unlink?
    ensures NoDeletion(base) ==> NoDeletion(base + rest)
  {
    forall k | |base| <= k < |base + rest| ensures !(base + rest)[k].Unlink? {
      assert (base + rest)[k] == rest[k - |base|];
    }
    if NoDeletion(base) {
      NoDeletionAppend(base, rest);
    }
  }

  /** The effects of an image loop that got through every line start with
      `base`'s, then line 0's description request, and add no deletion. */
  lemma FinishedEffects(lines: seq<string>, tempDir: string, onProgress: bool, env: Env, base: ImagesAcc, a: ImagesAcc)
    requires lines != [] && ImagesSoFar(lines, tempDir, onProgress, env, |lines|, base, a, [])
    ensures |a.effects| > |base.effects| && a.effects[..|base.effects|] == base.effects
    ensures a.effects[|base.effects|] == Describe(lines[0])
    ensures forall k :: |base.effects| <= k < |a.effects| ==> !a.effects[k].Unlink?
    ensures NoDeletion(base.effects) ==> NoDeletion(a.effects)
  {
    var done := ImageEffects(lines, tempDir, env, |lines|);
    ImagesEffectsNoUnlink(lines, tempDir, env, |lines|);
    ImageEffectsAt(lines, tempDir, env, |lines|, 0);
    assert a.effects == base.effects + done;
    ExtendedEffects(base.effects, done);
  }

  lemma SuccessEventsPrefix(n: nat, m: nat)
    requires m <= n
    ensures SuccessEvents(n)[..m + 1] == [ImagesStarted] + LineEvents(n)[..m]
  {
    var events := SuccessEvents(n);
    assert forall k :: 0 < k <= m ==> events[k] == LineEvents(n)[k - 1];
  }

  lemma SuccessEventsLaterPrefix(n: nat, m: nat)
    requires m <= 5
    ensures SuccessEvents(n)[..n + 1 + m] == [ImagesStarted] + LineEvents(n) + LaterEvents[..m]
  {
    var events := SuccessEvents(n);
    assert forall k :: 0 < k <= n ==> events[k] == LineEvents(n)[k - 1];
    assert forall k :: n < k < n + 1 + m ==> events[k] == LaterEvents[k - n - 1];
  }

  /** The run after the images only adds to the effects so far. */
  lemma AfterImagesExtends(lines: seq<string>, outputDir: string, tempDir: string, onProgress: bool, env: Env, acc: ImagesAcc)
    requires |acc.imagePaths| > 0
    ensures var run := AfterImages(lines, outputDir, tempDir, onProgress, env, acc);
      |acc.effects| < |run.effects| && run.effects[..|acc.effects|] == acc.effects
  {
    var run := AfterImages(lines, outputDir, tempDir, onProgress, env, acc);
    if run.result.Failure? {
      AfterImagesFailure(lines, outputDir, tempDir, onProgress, env, acc);
    } else {
      AfterImagesSuccess(lines, outputDir, tempDir, onProgress, env, acc);
    }
  }

  /** Once the directories are in place, a script that is all whitespace is
      rejected with "Script is empty" before anything else happens, and any
      other script has its first line sent to the description stage first. */
  lemma BlankScriptRejected(script: string, onProgress: bool, env: Env)
    requires SetupSucceeds(env)
    ensures AllSpace(script) ==> Pipeline(script, onProgress, env) == Run(Failure(EmptyScript), [], SetupEffects(env))
    ensures !AllSpace(script) ==>
      var run, setup := Pipeline(script, onProgress, env), SetupEffects(env);
      |run.effects| > |setup| && run.effects[..|setup|] == setup && run.effects[|setup|] == Describe(NormaliseScript(script)[0])
  {
    BlankScriptIsEmpty(script);
    if !AllSpace(script) {
      var lines := NormaliseScript(script);
      var tempDir, base := TempDir(env.cwd), StartAcc(onProgress, env);
      PipelineStages(script, onProgress, env);
      StagesStartWithDescription(lines, OutputDir(env.cwd), tempDir, onProgress, env, base,
                                 ImagesFrom(lines, tempDir, onProgress, env, 0, base), Pipeline(script, onProgress, env));
    }
  }

  /** The image stage's first effect is the request for line 0's description,
      and the stages only append to what came before. */
  lemma StagesStartWithDescription(lines: seq<string>, outputDir: string, tempDir: string, onProgress: bool, env: Env,
                                   base: ImagesAcc, end: ImagesEnd, run: Run)
    requires lines != [] && StagesFrom(lines, outputDir, tempDir, onProgress, env, base, end, run)
    ensures |run.effects| > |base.effects| && run.effects[..|base.effects|] == base.effects
    ensures run.effects[|base.effects|] == Describe(lines[0])
  {
    if end.Aborted? {
      AbortedEffects(lines, tempDir, onProgress, env, base, end.acc, end.at);
    } else {
      var a := end.acc;
      FinishedEffects(lines, tempDir, onProgress, env, base, a);
      AfterImagesExtends(lines, outputDir, tempDir, onProgress, env, a);
      assert run.effects[|base.effects|] == run.effects[..|a.effects|][|base.effects|];
      assert run.effects[..|base.effects|] == run.effects[..|a.effects|][..|base.effects|];
    }
  }

  /** A run that throws deletes nothing: the temporary files stay behind. */
  lemma FailedRunDeletesNothing(script: string, onProgress: bool, env: Env)
    requires Pipeline(script, onProgress, env).result.Failure?
    ensures NoDeletion(Pipeline(script, onProgress, env).effects)
  {
    var lines := NormaliseScript(script);
    SetupDeletesNothing(env);
    if SetupSucceeds(env) && lines != [] {
      var tempDir, base := TempDir(env.cwd), StartAcc(onProgress, env);
      PipelineStages(script, onProgress, env);
      StagesDeleteNothing(lines, OutputDir(env.cwd), tempDir, onProgress, env, base,
                          ImagesFrom(lines, tempDir, onProgress, env, 0, base), Pipeline(script, onProgress, env));
    } else {
      PipelineCases(script, onProgress, env);
    }
  }

  lemma SetupDeletesNothing(env: Env)
    ensures NoDeletion(SetupEffects(env))
  {
  }

  /** A run whose directories exist and whose script has lines is its image
      loop followed by the later stages. */
  lemma PipelineStages(script: string, onProgress: bool, env: Env)
    requires SetupSucceeds(env) && NormaliseScript(script) != []
    ensures var lines, tempDir, base := NormaliseScript(script), TempDir(env.cwd), StartAcc(onProgress, env);
      StagesFrom(lines, OutputDir(env.cwd), tempDir, onProgress, env, base,
                 ImagesFrom(lines, tempDir, onProgress, env, 0, base), Pipeline(script, onProgress, env))
  {
    ImagesStage(script, onProgress, env);
    PipelineCases(script, onProgress, env);
  }

  /** `run` is what the image loop, started from `base` and ending with `end`,
      and the stages after it produce. */
  ghost predicate StagesFrom(lines: seq<string>, outputDir: string, tempDir: string, onProgress: bool, env: Env,
                             base: ImagesAcc, end: ImagesEnd, run: Run)
  {
    && (end.Aborted? ==>
          && end.at < |lines|
          && ImagesSoFar(lines, tempDir, onProgress, env, end.at, base, end.acc, FailedLineEffects(lines, tempDir, env, end.at))
          && run.effects == end.acc.effects)
    && (end.Finished? ==>
          && ImagesSoFar(lines, tempDir, onProgress, env, |lines|, base, end.acc, [])
          && |end.acc.imagePaths| == |lines| > 0
          && run == AfterImages(lines, outputDir, tempDir, onProgress, env, end.acc))
  }

  /** The image and later stages of a run that throws add no deletion. */
  lemma StagesDeleteNothing(lines: seq<string>, outputDir: string, tempDir: string, onProgress: bool, env: Env,
                            base: ImagesAcc, end: ImagesEnd, run: Run)
    requires lines != [] && NoDeletion(base.effects) && run.result.Failure?
    requires StagesFrom(lines, outputDir, tempDir, onProgress, env, base, end, run)
    ensures NoDeletion(run.effects)
  {
    if end.Aborted? {
      AbortedEffects(lines, tempDir, onProgress, env, base, end.acc, end.at);
    } else {
      FinishedEffects(lines, tempDir, onProgress, env, base, end.acc);
      AfterImagesFailure(lines, outputDir, tempDir, onProgress, env, end.acc);
    }
  }

  /** The progress a run that throws reported is a prefix of a successful
      run's: it stops where the error happened. */
  lemma FailedRunEventsArePrefix(script: string, onProgress: bool, env: Env)
    requires Pipeline(script, onProgress, env).result.Failure?
    ensures var run, n := Pipeline(script, onProgress, env), |NormaliseScript(script)|;
      && |run.events| <= |SuccessEvents(n)|
      && run.events == (if onProgress then SuccessEvents(n)[..|run.events|] else [])
  {
    var run := Pipeline(script, onProgress, env);
    var lines := NormaliseScript(script);
    var n := |lines|;
    PipelineCases(script, onProgress, env);
    if SetupSucceeds(env) && lines != [] {
      var tempDir, base := TempDir(env.cwd), StartAcc(onProgress, env);
      ImagesStage(script, onProgress, env);
      match ImagesFrom(lines, tempDir, onProgress, env, 0, base)
      case Aborted(a, e, at) =>
        StoppedEvents(a.events, onProgress, n, at);
      case Finished(a) =>
        AfterImagesFailure(lines, OutputDir(env.cwd), tempDir, onProgress, env, a);
        FailedLaterEvents(a.events, run.events, onProgress, n);
    }
  }

  /** The events of an image stage that stopped at line `at`. */
  lemma StoppedEvents(events: seq<GenerationProgress>, onProgress: bool, n: nat, at: nat)
    requires at < n
    requires events == Emit(onProgress, ImagesStarted) + (if onProgress then LineEvents(n)[..at] else [])
    ensures |events| <= |SuccessEvents(n)| && events == (if onProgress then SuccessEvents(n)[..|events|] else [])
  {
    if onProgress {
      SuccessEventsPrefix(n, at);
    }
  }

  /** The events of a run that finished its images and then failed. */
  lemma FailedLaterEvents(imagesEvents: seq<GenerationProgress>, events: seq<GenerationProgress>, onProgress: bool, n: nat)
    requires imagesEvents == Emit(onProgress, ImagesStarted) + (if onProgress then LineEvents(n)[..n] else [])
    requires |imagesEvents| <= |events| <= |imagesEvents| + 4
    requires events == imagesEvents + (if onProgress then LaterEvents[..|events| - |imagesEvents|] else [])
    ensures |events| <= |SuccessEvents(n)| && events == (if onProgress then SuccessEvents(n)[..|events|] else [])
  {
    if onProgress {
      assert LineEvents(n)[..n] == LineEvents(n);
      SuccessEventsLaterPrefix(n, |events| - |imagesEvents|);
    }
  }

  lemma {:induction false} ImagesEffectsNoUnlink(lines: seq<string>, tempDir: string, env: Env, i: nat)
    requires i <= |lines| && DescribedUpTo(lines, env, i)
    ensures NoDeletion(ImageEffects(lines, tempDir, env, i))
  {
    if i > 0 {
      ImagesEffectsNoUnlink(lines, tempDir, env, i - 1);
      NoDeletionAppend(ImageEffects(lines, tempDir, env, i - 1), LineEffects(lines, tempDir, env, i - 1));
    }
  }

  /** A successful run got an answer from every collaborator: it described
      every line and wrote its frame (in the order `ImageEffectsInterleaved`
      gives), narrated the lines joined by ". " once, gave each frame an equal
      share of the narration's duration, encoded the video once, deleted every
      frame and the narration, reported every progress event, and returns the
      URL of the timestamped video with the narration's duration. */
  lemma SuccessfulRun(script: string, onProgress: bool, env: Env)
    requires Pipeline(script, onProgress, env).result.Success?
    ensures SetupSucceeds(env)
    ensures var lines := NormaliseScript(script);
      var n, tempDir := |lines|, TempDir(env.cwd);
      var audioPath := AudioPath(tempDir);
      && n > 0
      && DescribedUpTo(lines, env, n)
      && (forall k :: 0 <= k < n ==> LineError(lines, tempDir, env, k) == None)
      && env.probeDuration(audioPath).Success?
      && var total := env.probeDuration(audioPath).value;
         var run := Pipeline(script, onProgress, env);
         && run.result.value == VideoGenerationResult(VideoUrl(env.now), total)
         && run.events == (if onProgress then SuccessEvents(n) else [])
         && run.effects == SetupEffects(env) + ImageEffects(lines, tempDir, env, n)
              + [Synthesize(Narration(lines)), WriteAudio(audioPath), ProbeDuration(audioPath),
                 Encode(Frames(FramePaths(tempDir, n), total / n as real), audioPath, OutputPath(OutputDir(env.cwd), env.now))]
              + Unlinks(FramePaths(tempDir, n) + [audioPath])
  {
    var lines := NormaliseScript(script);
    var n, tempDir := |lines|, TempDir(env.cwd);
    var base := StartAcc(onProgress, env);
    ImagesStage(script, onProgress, env);
    match ImagesFrom(lines, tempDir, onProgress, env, 0, base)
    case Finished(a) =>
      ImagesFromPaths(lines, tempDir, onProgress, env, 0, base);
      AfterImagesSuccess(lines, OutputDir(env.cwd), tempDir, onProgress, env, a);
      assert a.imagePaths == FramePaths(tempDir, n);
      assert a.effects == SetupEffects(env) + ImageEffects(lines, tempDir, env, n);
      TakeWhole(LineEvents(n));
  }

  /** Frame paths are pairwise different and different from the narration's
      path, so the cleanup deletes each temporary file exactly once. */
  lemma TempFilesDistinct(tempDir: string, n: nat)
    ensures var paths := FramePaths(tempDir, n) + [AudioPath(tempDir)];
      forall a, b :: 0 <= a < b < |paths| ==> paths[a] != paths[b]
  {
    var paths := FramePaths(tempDir, n) + [AudioPath(tempDir)];
    forall a, b | 0 <= a < b < |paths| ensures paths[a] != paths[b] {
      if b < n {
        FramePathInjective(tempDir, a, b);
        assert paths[a] == FramePath(tempDir, a) && paths[b] == FramePath(tempDir, b);
      } else {
        FrameIsNotAudio(tempDir, a);
      }
    }
  }

  lemma FramePathInjective(tempDir: string, i: nat, j: nat)
    ensures FramePath(tempDir, i) == FramePath(tempDir, j) ==> i == j
  {
    if FramePath(tempDir, i) == FramePath(tempDir, j) {
      FramePathsAgree(tempDir, i, j);
    }
  }

  lemma FramePathsAgree(tempDir: string, i: nat, j: nat)
    requires FramePath(tempDir, i) == FramePath(tempDir, j)
    ensures i == j
  {
    var prefix := tempDir + "/frame_";
    var si, sj := NatToString(i), NatToString(j);
    var p, q := FramePath(tempDir, i), FramePath(tempDir, j);
    assert p == prefix + si + ".png" && q == prefix + sj + ".png";
    assert |si| == |sj|;
    assert si == p[|prefix|..|prefix| + |si|];
    assert sj == q[|prefix|..|prefix| + |sj|];
    NatToStringInjective(i, j);
  }

  lemma FrameIsNotAudio(tempDir: string, i: nat)
    ensures FramePath(tempDir, i) != AudioPath(tempDir)
  {
    assert FramePath(tempDir, i)[|tempDir| + 1] == 'f';
    assert AudioPath(tempDir)[|tempDir| + 1] == 'a';
  }

  /** The returned URL names the file the encoder wrote, as served from the
      public directory. */
  lemma UrlNamesOutputFile(cwd: string, timestamp: nat)
    ensures OutputPath(OutputDir(cwd), timestamp) == cwd + "/public" + VideoUrl(timestamp)
  {
  }
}
