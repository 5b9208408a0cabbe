/**
 * What one call of `processFile` in src/hooks/useMangaProcessor.ts does, as a function of the state
 * it starts from, the dropped file and the foreign services: the sequence of states it publishes
 * with `setState`, and the list it hands to the archive writer, if it gets that far.
 * The class in module MangaProcessor is proved to follow this specification.
 */
module ProcessorRun {
  import opened Wrappers
  import opened BrowserTypes
  import opened ArchiveService
  import opened ImageService
  import opened ProcessorHelpers
  import JsArray

  // ---------------------------------------------------------------------------
  // State
  // ---------------------------------------------------------------------------

  /** `ProcessorStatus`. */
  datatype ProcessorStatus = Idle | Extracting | Processing | Compressing | Done | Error

  /** `ProcessorState`: one snapshot of the hook's state. */
  datatype ProcessorState = ProcessorState(
    status: ProcessorStatus,
    progress: int,
    error: Option<string>,
    resultBlob: Option<Blob>,
    fileName: string,
    fileCount: int,
    currentFile: string)

  /** `INITIAL_STATE`. */
  const InitialState: ProcessorState := ProcessorState(Idle, 0, None, None, "", 0, "")

  const NoImagesMessage: string :=
    "No images found in the archive. Please ensure the ZIP contains image files."

  const DefaultErrorMessage: string := "An unexpected error occurred during processing."

  /**
   * What the pipeline calls but cannot see: the settings of the render that created `processFile`,
   * JSZip's `loadAsync`, `imageCompression`, and `createArchive` (JSZip's `generateAsync`).
   * Each may throw, which the model writes as a `Failure` carrying the error's message.
   */
  datatype Env = Env(
    settings: ResizeSettings,
    loadArchive: WebFile -> Result<Zip>,
    compress: Compressor,
    createArchive: seq<ProcessedFile> -> Result<Blob>)

  /** `err.message || '...'`: the message shown for a caught error. */
  function ErrorText(message: string): (text: string)
    ensures text != ""
    ensures message != "" ==> text == message
  {
    if message != "" then message else DefaultErrorMessage
  }

  /** The state the `catch` block publishes. */
  function Failed(s: ProcessorState, message: string): (r: ProcessorState)
    ensures r.status == Error && r.error.Some? && r.error.value != ""
    ensures message != "" ==> r.error == Some(message)
    ensures && r.progress == s.progress && r.resultBlob == s.resultBlob && r.fileName == s.fileName
            && r.fileCount == s.fileCount && r.currentFile == s.currentFile
  {
    s.(status := Error, error := Some(ErrorText(message)))
  }

  // ---------------------------------------------------------------------------
  // The pieces of a run
  // ---------------------------------------------------------------------------

  /** `imagePaths`: the listed non-directory paths that are images, in archive order. */
  function ImagePaths(zip: Zip): (paths: seq<string>)
    ensures forall k :: 0 <= k < |paths| ==> paths[k] in zip.files && !zip.files[paths[k]].dir
    ensures forall k :: 0 <= k < |paths| ==> IsImageFile(paths[k])
    ensures forall p :: p in paths <==> p in zip.files && !zip.files[p].dir && IsImageFile(p)
  {
    JsArray.Filter(GetFilePaths(zip), IsImageFile)
  }

  /** The image paths come each once, in the order of `Object.keys(zip.files)`. */
  lemma ImagePathsInOrder(zip: Zip)
    ensures JsArray.Distinct(ImagePaths(zip)) && JsArray.SameOrder(ImagePaths(zip), zip.names)
  {
    var files := GetFilePaths(zip);
    GetFilePathsInOrder(zip);
    JsArray.FilterInOrder(files, IsImageFile);
    JsArray.SameOrderOfPart(ImagePaths(zip), files, zip.names);
  }

  /** The message of the TypeError V8 throws for `zip.files[path].async(...)` when `path` is not a key. */
  const MissingEntryMessage: string := "Cannot read properties of undefined (reading 'async')"

  /** The processing of one image: turns a listed path into an output entry, or fails. */
  type ImageStep = string -> Result<ProcessedFile>

  /** One loop iteration: read the entry, resize it, and place it at the rewritten path. */
  function ProcessImage(zip: Zip, path: string, env: Env): (r: Result<ProcessedFile>)
    ensures r.Success? ==> r.value.path == UpdatePath(path, ConvertedFilename(ExtractFilename(path)))
  {
    if path !in zip.files then Failure(MissingEntryMessage)
    else
    match zip.files[path].data
    case Failure(e) => Failure(e)
    case Success(blob) =>
      match ResizeImage(blob, env.settings, ExtractFilename(path), env.compress)
      case Failure(e) => Failure(e)
      case Success(resized) => Success(ProcessedFile(UpdatePath(path, resized.filename), resized.blob))
  }

  /**
   * An image succeeds exactly when its entry is listed, reads, and resizes; the entry then holds the
   * compressor's blob, and each failure passes on the message of the step that threw.
   */
  lemma ProcessImageOutcome(zip: Zip, path: string, env: Env)
    ensures path !in zip.files ==> ProcessImage(zip, path, env) == Failure(MissingEntryMessage)
    ensures path in zip.files ==>
      (ProcessImage(zip, path, env).Success? <==>
        zip.files[path].data.Success? &&
        ResizeImage(zip.files[path].data.value, env.settings, ExtractFilename(path), env.compress).Success?)
    ensures ProcessImage(zip, path, env).Success? ==>
      path in zip.files && zip.files[path].data.Success? &&
      ProcessImage(zip, path, env).value.data ==
        ResizeImage(zip.files[path].data.value, env.settings, ExtractFilename(path), env.compress).value.blob
    ensures path in zip.files && zip.files[path].data.Failure? ==>
      ProcessImage(zip, path, env) == Failure(zip.files[path].data.error)
    ensures (path in zip.files && zip.files[path].data.Success? &&
             ResizeImage(zip.files[path].data.value, env.settings, ExtractFilename(path), env.compress).Failure?) ==>
      ProcessImage(zip, path, env) ==
        Failure(ResizeImage(zip.files[path].data.value, env.settings, ExtractFilename(path), env.compress).error)
  {
  }

  /** All images or nothing: the processed list when every image succeeds, else the first failure. */
  function ProcessAll(paths: seq<string>, step: ImageStep): (r: Result<seq<ProcessedFile>>)
    ensures r.Success? ==> |r.value| == |paths|
  {
    if paths == [] then Success([])
    else
      match step(paths[0])
      case Failure(e) => Failure(e)
      case Success(first) =>
        match ProcessAll(paths[1..], step)
        case Failure(e) => Failure(e)
        case Success(rest) => Success([first] + rest)
  }

  /** `done` followed by the outcome's list; a failure is passed on. */
  function Prefixed(done: seq<ProcessedFile>, r: Result<seq<ProcessedFile>>): Result<seq<ProcessedFile>>
  {
    match r
    case Failure(e) => Failure(e)
    case Success(files) => Success(done + files)
  }

  /** What the `for` loop publishes from iteration `i` on, its last state, and how it ends. */
  datatype Loop = Loop(trace: seq<ProcessorState>, last: ProcessorState, outcome: Result<seq<ProcessedFile>>)

  /**
   * The `for` loop from iteration `i`, starting in state `s` with `done` already processed: each
   * iteration publishes the current file name, then (if the image succeeds) the new progress.
   */
  function ImageLoop(s: ProcessorState, paths: seq<string>, i: nat, done: seq<ProcessedFile>, step: ImageStep)
    : (l: Loop)
    requires i <= |paths|
    ensures l.outcome.Success? ==> |l.trace| == 2 * (|paths| - i) && |l.outcome.value| == |done| + |paths| - i
    decreases |paths| - i
  {
    if i == |paths| then Loop([], s, Success(done))
    else
      var s1 := s.(currentFile := ExtractFilename(paths[i]));
      match step(paths[i])
      case Failure(e) => Loop([s1], s1, Failure(e))
      case Success(file) =>
        var s2 := s1.(progress := CalculateProgress(i + 1, |paths|));
        var rest := ImageLoop(s2, paths, i + 1, done + [file], step);
        Loop([s1, s2] + rest.trace, rest.last, rest.outcome)
  }

  /** What a run publishes, and the list it hands to `createArchive` (`None`: never called). */
  datatype Run = Run(trace: seq<ProcessorState>, written: Option<seq<ProcessedFile>>)

  /** The state published on entering `extracting`: only four fields are reset. */
  function StartState(prev: ProcessorState, file: WebFile): (s1: ProcessorState)
    ensures s1.status == Extracting && s1.error == None && s1.progress == 0
    ensures s1.fileName == GenerateOutputFilename(file.name)
    ensures s1.resultBlob == prev.resultBlob && s1.fileCount == prev.fileCount && s1.currentFile == prev.currentFile
  {
    prev.(status := Extracting, error := None, progress := 0, fileName := GenerateOutputFilename(file.name))
  }

  /** The loop body as the run uses it. */
  function ImageStepOf(zip: Zip, env: Env): ImageStep
  {
    path => ProcessImage(zip, path, env)
  }

  /**
   * What a run publishes after the loop: on success the `compressing` state and then `done` or the
   * `catch` block's state; on failure only the `catch` block's state.
   */
  function Finish(last: ProcessorState, outcome: Result<seq<ProcessedFile>>,
                  write: seq<ProcessedFile> -> Result<Blob>): (tail: seq<ProcessorState>)
    ensures |tail| >= 1
    ensures tail[|tail| - 1].status == Done <==> outcome.Success? && write(outcome.value).Success?
  {
    match outcome
    case Failure(e) => [Failed(last, e)]
    case Success(files) =>
      var s3 := last.(status := Compressing);
      match write(files)
      case Failure(e) => [s3, Failed(s3, e)]
      case Success(blob) => [s3, s3.(status := Done, resultBlob := Some(blob))]
  }

  /** The state published on entering `processing`. */
  function ProcessingState(s1: ProcessorState, paths: seq<string>): (s2: ProcessorState)
    ensures s2.status == Processing && s2.fileCount == |paths|
    ensures s2.progress == s1.progress && s2.error == s1.error && s2.resultBlob == s1.resultBlob
    ensures s2.fileName == s1.fileName && s2.currentFile == s1.currentFile
  {
    s1.(status := Processing, fileCount := |paths|)
  }

  /**
   * The run once the archive is loaded and its image paths are listed, starting from the state `s1`
   * published on entering `extracting`; `write` is `createArchive`.
   */
  function StagesFrom(s1: ProcessorState, paths: seq<string>, step: ImageStep,
                      write: seq<ProcessedFile> -> Result<Blob>): (r: Run)
    ensures |r.trace| >= 2 && r.trace[0] == s1
  {
    if paths == [] then Run([s1, Failed(s1, NoImagesMessage)], None)
    else
      var s2 := ProcessingState(s1, paths);
      var loop := ImageLoop(s2, paths, 0, [], step);
      var written := match loop.outcome case Success(files) => Some(files) case Failure(_) => None;
      Run([s1, s2] + loop.trace + Finish(loop.last, loop.outcome, write), written)
  }

  /** One whole call of `processFile`, from the state `prev`. */
  function RunSpec(prev: ProcessorState, file: WebFile, env: Env): (r: Run)
    ensures |r.trace| >= 2 && r.trace[0] == StartState(prev, file)
  {
    var s1 := StartState(prev, file);
    match env.loadArchive(file)
    case Failure(e) => Run([s1, Failed(s1, e)], None)
    case Success(zip) => StagesFrom(s1, ImagePaths(zip), ImageStepOf(zip, env), env.createArchive)
  }

  /** The last state a run publishes: where the hook is left. */
  function FinalState(r: Run): ProcessorState
    requires |r.trace| >= 1
  {
    r.trace[|r.trace| - 1]
  }

  // ---------------------------------------------------------------------------
  // All or nothing
  // ---------------------------------------------------------------------------

  /**
   * The processed list exists exactly when every image succeeds, and then has one entry per path,
   * in order.
   */
  lemma {:induction false} ProcessAllEachImage(paths: seq<string>, step: ImageStep)
    ensures ProcessAll(paths, step).Success? <==> forall k :: 0 <= k < |paths| ==> step(paths[k]).Success?
    ensures ProcessAll(paths, step).Success? ==>
      |ProcessAll(paths, step).value| == |paths|
      && forall k :: 0 <= k < |paths| ==> ProcessAll(paths, step).value[k] == step(paths[k]).value
  {
    if paths != [] {
      ProcessAllEachImage(paths[1..], step);
      assert forall k :: 1 <= k < |paths| ==> paths[k] == paths[1..][k - 1];
    }
  }

  /** A failed run of the images reports the error of the first image that failed. */
  lemma {:induction false} ProcessAllFirstFailure(paths: seq<string>, step: ImageStep)
    requires ProcessAll(paths, step).Failure?
    ensures exists k :: (0 <= k < |paths|
      && step(paths[k]) == Failure(ProcessAll(paths, step).error)
      && forall j :: 0 <= j < k ==> step(paths[j]).Success?)
  {
    if step(paths[0]).Success? {
      var tail := paths[1..];
      ProcessAllFirstFailure(tail, step);
      var k :| 0 <= k < |tail| && step(tail[k]) == Failure(ProcessAll(tail, step).error)
        && forall j :: 0 <= j < k ==> step(tail[j]).Success?;
      assert paths[k + 1] == tail[k];
      assert forall j :: 1 <= j < k + 1 ==> paths[j] == tail[j - 1];
    } else {
      assert step(paths[0]) == Failure(ProcessAll(paths, step).error);
    }
  }

  /** The loop ends the way `ProcessAll` does on the paths it has left. */
  lemma {:induction false} ImageLoopOutcome(
    s: ProcessorState, paths: seq<string>, i: nat, done: seq<ProcessedFile>, step: ImageStep)
    requires i <= |paths|
    ensures ImageLoop(s, paths, i, done, step).outcome == Prefixed(done, ProcessAll(paths[i..], step))
    decreases |paths| - i
  {
    if i < |paths| {
      if step(paths[i]).Failure? {
        assert paths[i..][0] == paths[i];
      } else {
        var s2 := s.(currentFile := ExtractFilename(paths[i]), progress := CalculateProgress(i + 1, |paths|));
        ImageLoopOutcome(s2, paths, i + 1, done + [step(paths[i]).value], step);
        ImageLoopOutcomeStep(s, paths, i, done, step);
      }
    } else {
      assert done + [] == done;
    }
  }

  /** The inductive step of `ImageLoopOutcome`, for an image that succeeds. */
  lemma ImageLoopOutcomeStep(
    s: ProcessorState, paths: seq<string>, i: nat, done: seq<ProcessedFile>, step: ImageStep)
    requires i < |paths| && step(paths[i]).Success?
    requires var s2 := s.(currentFile := ExtractFilename(paths[i]), progress := CalculateProgress(i + 1, |paths|));
      ImageLoop(s2, paths, i + 1, done + [step(paths[i]).value], step).outcome
        == Prefixed(done + [step(paths[i]).value], ProcessAll(paths[i + 1..], step))
    ensures ImageLoop(s, paths, i, done, step).outcome == Prefixed(done, ProcessAll(paths[i..], step))
  {
    var file := step(paths[i]).value;
    var rest := ProcessAll(paths[i + 1..], step);
    assert ProcessAll(paths[i..], step) == Prefixed([file], rest) by {
      assert paths[i..][0] == paths[i];
      assert paths[i..][1..] == paths[i + 1..];
    }
    if rest.Success? {
      assert done + [file] + rest.value == done + ([file] + rest.value);
    }
  }

  // ---------------------------------------------------------------------------
  // What the loop publishes
  // ---------------------------------------------------------------------------

  /** `t` differs from `s` in the current file name and the progress only. */
  predicate SameRun(s: ProcessorState, t: ProcessorState)
  {
    t == s.(currentFile := t.currentFile, progress := t.progress)
  }

  /** After image `i + j`, the loop has reported its file name and then the matching progress. */
  predicate ReportsImage(t: seq<ProcessorState>, paths: seq<string>, i: nat, j: nat)
  {
    2 * j + 1 < |t| && i + j < |paths|
    && t[2 * j].currentFile == ExtractFilename(paths[i + j])
    && t[2 * j + 1].currentFile == ExtractFilename(paths[i + j])
    && t[2 * j + 1].progress == CalculateProgress(i + j + 1, |paths|)
  }

  /** The loop changes nothing but the current file name and the progress. */
  lemma {:induction false} ImageLoopKeepsRun(
    s: ProcessorState, paths: seq<string>, i: nat, done: seq<ProcessedFile>, step: ImageStep)
    requires i <= |paths|
    ensures var l := ImageLoop(s, paths, i, done, step);
      && (forall k :: 0 <= k < |l.trace| ==> SameRun(s, l.trace[k]))
      && SameRun(s, l.last)
      && l.last == (if l.trace == [] then s else l.trace[|l.trace| - 1])
    decreases |paths| - i
  {
    if i < |paths| && step(paths[i]).Success? {
      var l := ImageLoop(s, paths, i, done, step);
      var s1 := s.(currentFile := ExtractFilename(paths[i]));
      var s2 := s1.(progress := CalculateProgress(i + 1, |paths|));
      var rest := ImageLoop(s2, paths, i + 1, done + [step(paths[i]).value], step);
      ImageLoopKeepsRun(s2, paths, i + 1, done + [step(paths[i]).value], step);
      assert l.trace == [s1, s2] + rest.trace;
      assert forall k :: 2 <= k < |l.trace| ==> l.trace[k] == rest.trace[k - 2];
    }
  }

  /**
   * The loop's progress stays between where it started and 100 and never decreases; a loop that
   * gets through every image publishes two states per image and ends at 100.
   */
  lemma {:induction false} ImageLoopProgress(
    s: ProcessorState, paths: seq<string>, i: nat, done: seq<ProcessedFile>, step: ImageStep)
    requires i <= |paths| && |paths| > 0
    requires s.progress == CalculateProgress(i, |paths|)
    ensures var l := ImageLoop(s, paths, i, done, step);
      && (forall k :: 0 <= k < |l.trace| ==> s.progress <= l.trace[k].progress <= 100)
      && (forall k :: 0 <= k < |l.trace| - 1 ==> l.trace[k].progress <= l.trace[k + 1].progress)
      && (l.outcome.Success? ==> l.last.progress == 100 && |l.trace| == 2 * (|paths| - i))
    decreases |paths| - i
  {
    if i < |paths| && step(paths[i]).Success? {
      var l := ImageLoop(s, paths, i, done, step);
      var s1 := s.(currentFile := ExtractFilename(paths[i]));
      var s2 := s1.(progress := CalculateProgress(i + 1, |paths|));
      ProgressMonotone(i, i + 1, |paths|);
      var rest := ImageLoop(s2, paths, i + 1, done + [step(paths[i]).value], step);
      ImageLoopProgress(s2, paths, i + 1, done + [step(paths[i]).value], step);
      assert l.trace == [s1, s2] + rest.trace;
      assert forall k :: 2 <= k < |l.trace| ==> l.trace[k] == rest.trace[k - 2];
    }
  }

  /** Reports of the later images carry over to a trace with one more image's states in front. */
  lemma ReportsShift(t: seq<ProcessorState>, rest: seq<ProcessorState>, paths: seq<string>, i: nat, next: nat)
    requires next == i + 1 && i < |paths| && |t| >= 2 && t[2..] == rest
    requires ReportsImage(t, paths, i, 0)
    requires forall j :: 0 <= j < |paths| - next ==> ReportsImage(rest, paths, next, j)
    ensures forall j :: 0 <= j < |paths| - i ==> ReportsImage(t, paths, i, j)
  {
    forall j | 1 <= j < |paths| - i ensures ReportsImage(t, paths, i, j) {
      assert ReportsImage(rest, paths, next, j - 1);
      assert t[2 * j] == rest[2 * (j - 1)];
      assert t[2 * j + 1] == rest[2 * (j - 1) + 1];
    }
  }

  /** A loop that gets through every image has reported each one's name, then its progress, in order. */
  lemma {:induction false} ImageLoopReports(
    s: ProcessorState, paths: seq<string>, i: nat, done: seq<ProcessedFile>, step: ImageStep)
    requires i <= |paths|
    requires ImageLoop(s, paths, i, done, step).outcome.Success?
    ensures forall j :: 0 <= j < |paths| - i ==> ReportsImage(ImageLoop(s, paths, i, done, step).trace, paths, i, j)
    decreases |paths| - i
  {
    if i < |paths| {
      var l := ImageLoop(s, paths, i, done, step);
      var s1 := s.(currentFile := ExtractFilename(paths[i]));
      var s2 := s1.(progress := CalculateProgress(i + 1, |paths|));
      var rest := ImageLoop(s2, paths, i + 1, done + [step(paths[i]).value], step);
      ImageLoopReports(s2, paths, i + 1, done + [step(paths[i]).value], step);
      assert l.trace == [s1, s2] + rest.trace;
      ReportsShift(l.trace, rest.trace, paths, i, i + 1);
    }
  }

  /** A loop that stops at a failure stops at the first image that failed, and names that image. */
  lemma {:induction false} ImageLoopFailure(
    s: ProcessorState, paths: seq<string>, i: nat, done: seq<ProcessedFile>, step: ImageStep)
    requires i <= |paths|
    requires ImageLoop(s, paths, i, done, step).outcome.Failure?
    ensures var l := ImageLoop(s, paths, i, done, step);
      exists k :: (i <= k < |paths|
        && step(paths[k]) == Failure(l.outcome.error)
        && (forall j :: i <= j < k ==> step(paths[j]).Success?)
        && l.last.currentFile == ExtractFilename(paths[k]))
    decreases |paths| - i
  {
    if step(paths[i]).Success? {
      var s2 := s.(currentFile := ExtractFilename(paths[i])).(progress := CalculateProgress(i + 1, |paths|));
      ImageLoopFailure(s2, paths, i + 1, done + [step(paths[i]).value], step);
    } else {
      assert step(paths[i]) == Failure(ImageLoop(s, paths, i, done, step).outcome.error);
    }
  }

  // ---------------------------------------------------------------------------
  // What a run publishes
  // ---------------------------------------------------------------------------

  /** The status changes `processFile` makes between two states it publishes one after the other. */
  predicate Transition(from: ProcessorStatus, to: ProcessorStatus)
  {
    match from
    case Extracting => to == Processing || to == Error
    case Processing => to == Processing || to == Compressing || to == Error
    case Compressing => to == Done || to == Error
    case _ => false
  }

  /** Every status change in `t` is one `processFile` makes. */
  predicate Chain(t: seq<ProcessorState>)
  {
    forall k :: 0 <= k < |t| - 1 ==> Transition(t[k].status, t[k + 1].status)
  }

  /** The progress in `t` stays within 0..100 and never goes back. */
  predicate Rising(t: seq<ProcessorState>)
  {
    && (forall k :: 0 <= k < |t| ==> 0 <= t[k].progress <= 100)
    && (forall k :: 0 <= k < |t| - 1 ==> t[k].progress <= t[k + 1].progress)
  }

  /** Two chains joined by an allowed change form one chain. */
  lemma ChainAppend(a: seq<ProcessorState>, b: seq<ProcessorState>)
    requires Chain(a) && Chain(b) && a != [] && b != []
    requires Transition(a[|a| - 1].status, b[0].status)
    ensures Chain(a + b)
  {
    assert forall k :: |a| <= k < |a + b| ==> (a + b)[k] == b[k - |a|];
  }

  /** Two rising sequences joined without a drop form one rising sequence. */
  lemma RisingAppend(a: seq<ProcessorState>, b: seq<ProcessorState>)
    requires Rising(a) && Rising(b) && a != [] && b != []
    requires a[|a| - 1].progress <= b[0].progress
    ensures Rising(a + b)
  {
    assert forall k :: |a| <= k < |a + b| ==> (a + b)[k] == b[k - |a|];
  }

  /** The processing stage as `ImageLoopKeepsRun` and `ImageLoopProgress` describe it. */
  lemma StageShape(s2: ProcessorState, l: Loop)
    requires s2.status == Processing && s2.progress == 0
    requires forall k :: 0 <= k < |l.trace| ==> SameRun(s2, l.trace[k])
    requires SameRun(s2, l.last) && l.last == (if l.trace == [] then s2 else l.trace[|l.trace| - 1])
    requires forall k :: 0 <= k < |l.trace| ==> s2.progress <= l.trace[k].progress <= 100
    requires forall k :: 0 <= k < |l.trace| - 1 ==> l.trace[k].progress <= l.trace[k + 1].progress
    ensures Chain([s2] + l.trace) && Rising([s2] + l.trace)
    ensures ([s2] + l.trace)[|l.trace|] == l.last && l.last.status == Processing
  {
    var m := [s2] + l.trace;
    assert forall k :: 1 <= k < |m| ==> m[k] == l.trace[k - 1];
    assert forall k :: 0 <= k < |m| ==> m[k].status == Processing;
  }

  /** The states the processing stage publishes, from entering it to its last image. */
  lemma ProcessingStage(s2: ProcessorState, paths: seq<string>, step: ImageStep)
    requires s2.status == Processing && s2.progress == 0 && |paths| > 0
    ensures var l := ImageLoop(s2, paths, 0, [], step);
      && Chain([s2] + l.trace) && Rising([s2] + l.trace)
      && ([s2] + l.trace)[|l.trace|] == l.last && l.last.status == Processing
  {
    ImageLoopKeepsRun(s2, paths, 0, [], step);
    ImageLoopProgress(s2, paths, 0, [], step);
    StageShape(s2, ImageLoop(s2, paths, 0, [], step));
  }

  /** The states after the loop only change the status, in allowed steps, and keep the progress. */
  lemma FinishFacts(last: ProcessorState, outcome: Result<seq<ProcessedFile>>,
                    write: seq<ProcessedFile> -> Result<Blob>)
    ensures var tail := Finish(last, outcome, write);
      && Chain(tail) && Transition(Processing, tail[0].status)
      && (tail[|tail| - 1].status == Done || tail[|tail| - 1].status == Error)
      && (forall k :: 0 <= k < |tail| ==> tail[k].progress == last.progress)
      && (forall k :: 0 <= k < |tail| ==>
            tail[k].currentFile == last.currentFile && tail[k].fileCount == last.fileCount)
  {
  }

  /** A whole run put together from its stages follows the stages in order, with rising progress. */
  lemma ComposeStages(s1: ProcessorState, middle: seq<ProcessorState>, tail: seq<ProcessorState>)
    requires s1.status == Extracting && s1.progress == 0
    requires middle != [] && middle[0].status == Processing
    requires Chain(middle) && Rising(middle) && middle[|middle| - 1].status == Processing
    requires tail != [] && Chain(tail) && Transition(Processing, tail[0].status)
    requires forall k :: 0 <= k < |tail| ==> tail[k].progress == middle[|middle| - 1].progress
    ensures Chain([s1] + middle + tail) && Rising([s1] + middle + tail)
  {
    ChainAppend([s1], middle);
    RisingAppend([s1], middle);
    ChainAppend([s1] + middle, tail);
    RisingAppend([s1] + middle, tail);
  }

  /** From `extracting` on, the stages follow one another in order, the progress only rises, and the
   *  run ends in `done` or `error`. */
  lemma StagesFollowStateMachine(s1: ProcessorState, paths: seq<string>, step: ImageStep,
                                 write: seq<ProcessedFile> -> Result<Blob>)
    requires s1.status == Extracting && s1.progress == 0
    ensures Chain(StagesFrom(s1, paths, step, write).trace)
    ensures Rising(StagesFrom(s1, paths, step, write).trace)
    ensures var t := StagesFrom(s1, paths, step, write).trace;
      t[|t| - 1].status == Done || t[|t| - 1].status == Error
  {
    if paths != [] {
      var s2 := ProcessingState(s1, paths);
      var loop := ImageLoop(s2, paths, 0, [], step);
      var middle := [s2] + loop.trace;
      var tail := Finish(loop.last, loop.outcome, write);
      ProcessingStage(s2, paths, step);
      FinishFacts(loop.last, loop.outcome, write);
      ComposeStages(s1, middle, tail);
      assert [s1] + middle + tail == [s1, s2] + loop.trace + tail;
    }
  }

  /** A run starts extracting, moves forward through the stages only, and stops in `done` or `error`. */
  lemma RunFollowsStateMachine(prev: ProcessorState, file: WebFile, env: Env)
    ensures RunSpec(prev, file, env).trace[0].status == Extracting
    ensures Chain(RunSpec(prev, file, env).trace)
    ensures FinalState(RunSpec(prev, file, env)).status == Done || FinalState(RunSpec(prev, file, env)).status == Error
  {
    match env.loadArchive(file)
    case Failure(e) =>
    case Success(zip) =>
      StagesFollowStateMachine(StartState(prev, file), ImagePaths(zip), ImageStepOf(zip, env), env.createArchive);
  }

  /** The progress a run shows starts at 0, stays within 0..100, and never goes back. */
  lemma RunProgressRises(prev: ProcessorState, file: WebFile, env: Env)
    ensures RunSpec(prev, file, env).trace[0].progress == 0
    ensures Rising(RunSpec(prev, file, env).trace)
  {
    match env.loadArchive(file)
    case Failure(e) =>
    case Success(zip) =>
      StagesFollowStateMachine(StartState(prev, file), ImagePaths(zip), ImageStepOf(zip, env), env.createArchive);
  }

  // ---------------------------------------------------------------------------
  // How a run ends
  // ---------------------------------------------------------------------------

  /** Every state in `t` shows the output name, the error and the result blob of `s`. */
  predicate Carries(s: ProcessorState, t: seq<ProcessorState>)
  {
    forall k :: 0 <= k < |t| ==>
      t[k].fileName == s.fileName && t[k].error == s.error && t[k].resultBlob == s.resultBlob
  }

  /** Every state of `t` but the last shows the output name, the error and the result of `s`. */
  predicate CarriesUntilLast(s: ProcessorState, t: seq<ProcessorState>)
  {
    |t| >= 1 && Carries(s, t[..|t| - 1])
  }

  /**
   * The last state of `t` keeps the output name of `s`, and is either an error with a message and
   * the result of `s`, or `done` with the error of `s` and a result.
   */
  predicate EndsReported(s: ProcessorState, t: seq<ProcessorState>)
  {
    && |t| >= 1
    && var final := t[|t| - 1];
      && final.fileName == s.fileName
      && (final.status == Error ==> final.error.Some? && final.error.value != "" && final.resultBlob == s.resultBlob)
      && (final.status == Done ==> final.error == s.error && final.resultBlob.Some?)
  }

  /** Only the last state after the loop sets an error or a result, and an error comes with a message. */
  lemma FinishCarries(last: ProcessorState, outcome: Result<seq<ProcessedFile>>,
                      write: seq<ProcessedFile> -> Result<Blob>)
    ensures CarriesUntilLast(last, Finish(last, outcome, write))
    ensures EndsReported(last, Finish(last, outcome, write))
  {
  }

  /** The loop keeps the output name, the error and the result it starts with. */
  lemma LoopCarries(s2: ProcessorState, l: Loop)
    requires forall k :: 0 <= k < |l.trace| ==> SameRun(s2, l.trace[k])
    ensures Carries(s2, [s2] + l.trace)
  {
    assert forall k :: 1 <= k < |[s2] + l.trace| ==> ([s2] + l.trace)[k] == l.trace[k - 1];
  }

  /** A run put together from its stages carries the start state's name, error and result to the end. */
  lemma ComposeCarries(s1: ProcessorState, middle: seq<ProcessorState>, tail: seq<ProcessorState>)
    requires Carries(s1, middle) && CarriesUntilLast(s1, tail) && EndsReported(s1, tail)
    ensures CarriesUntilLast(s1, [s1] + middle + tail) && EndsReported(s1, [s1] + middle + tail)
  {
    var t := [s1] + middle + tail;
    assert t[|t| - 1] == tail[|tail| - 1];
    assert forall k :: 1 <= k <= |middle| ==> t[k] == middle[k - 1];
    assert forall k :: |middle| < k < |t| - 1 ==> t[k] == tail[..|tail| - 1][k - |middle| - 1];
  }

  /** `Carries` and `EndsReported` look only at the output name, the error and the result. */
  lemma CarriesSameFields(s: ProcessorState, s': ProcessorState, t: seq<ProcessorState>)
    requires s.fileName == s'.fileName && s.error == s'.error && s.resultBlob == s'.resultBlob
    ensures Carries(s, t) ==> Carries(s', t)
    ensures EndsReported(s, t) ==> EndsReported(s', t)
  {
  }

  /** The facts of `StagesCarry` for a run put together from a loop `l` and what follows it. */
  lemma CarryAfterLoop(s1: ProcessorState, s2: ProcessorState, l: Loop, write: seq<ProcessedFile> -> Result<Blob>)
    requires s2.fileName == s1.fileName && s2.error == s1.error && s2.resultBlob == s1.resultBlob
    requires forall k :: 0 <= k < |l.trace| ==> SameRun(s2, l.trace[k])
    requires SameRun(s2, l.last)
    ensures CarriesUntilLast(s1, [s1, s2] + l.trace + Finish(l.last, l.outcome, write))
    ensures EndsReported(s1, [s1, s2] + l.trace + Finish(l.last, l.outcome, write))
  {
    var tail := Finish(l.last, l.outcome, write);
    LoopCarries(s2, l);
    CarriesSameFields(s2, s1, [s2] + l.trace);
    FinishCarries(l.last, l.outcome, write);
    CarriesSameFields(l.last, s1, tail[..|tail| - 1]);
    CarriesSameFields(l.last, s1, tail);
    ComposeCarries(s1, [s2] + l.trace, tail);
    assert [s1] + ([s2] + l.trace) + tail == [s1, s2] + l.trace + tail;
  }

  /** Until its last state, a run shows the start state's output name, error and result. */
  lemma StagesCarry(s1: ProcessorState, paths: seq<string>, step: ImageStep,
                    write: seq<ProcessedFile> -> Result<Blob>)
    ensures CarriesUntilLast(s1, StagesFrom(s1, paths, step, write).trace)
    ensures EndsReported(s1, StagesFrom(s1, paths, step, write).trace)
  {
    if paths != [] {
      var s2 := ProcessingState(s1, paths);
      var loop := ImageLoop(s2, paths, 0, [], step);
      ImageLoopKeepsRun(s2, paths, 0, [], step);
      CarryAfterLoop(s1, s2, loop, write);
    }
  }

  /**
   * `r` stopped at image `k`, the first whose processing failed: it ends in `error` with that
   * image's message, still naming that image, and wrote nothing.
   */
  predicate StopsAtImage(r: Run, paths: seq<string>, step: ImageStep, k: int)
  {
    && 0 <= k < |paths|
    && step(paths[k]).Failure?
    && (forall j :: 0 <= j < k ==> step(paths[j]).Success?)
    && |r.trace| >= 1
    && r.trace[|r.trace| - 1].status == Error
    && r.trace[|r.trace| - 1].error == Some(ErrorText(step(paths[k]).error))
    && r.trace[|r.trace| - 1].currentFile == ExtractFilename(paths[k])
    && r.written == None
  }

  /** A run whose images do not all succeed stops at the first failing one. */
  lemma StagesImageFailure(s1: ProcessorState, paths: seq<string>, step: ImageStep,
                           write: seq<ProcessedFile> -> Result<Blob>)
    requires paths != [] && ProcessAll(paths, step).Failure?
    ensures exists k :: StopsAtImage(StagesFrom(s1, paths, step, write), paths, step, k)
  {
    var s2 := ProcessingState(s1, paths);
    var loop := ImageLoop(s2, paths, 0, [], step);
    ImageLoopOutcome(s2, paths, 0, [], step);
    assert paths[0..] == paths;
    ImageLoopFailure(s2, paths, 0, [], step);
    var k :| 0 <= k && k < |paths| && step(paths[k]) == Failure(loop.outcome.error)
      && (forall j :: 0 <= j < k ==> step(paths[j]).Success?)
      && loop.last.currentFile == ExtractFilename(paths[k]);
    var r := StagesFrom(s1, paths, step, write);
    assert r.trace[|r.trace| - 1] == Failed(loop.last, loop.outcome.error);
    assert StopsAtImage(r, paths, step, k);
  }

  /** The loop succeeds exactly when every image does, and then hands the whole list to the writer. */
  lemma StagesWriteAll(s1: ProcessorState, paths: seq<string>, step: ImageStep,
                       write: seq<ProcessedFile> -> Result<Blob>)
    requires paths != [] && ProcessAll(paths, step).Success?
    ensures var r := StagesFrom(s1, paths, step, write);
      var final := r.trace[|r.trace| - 1];
      && r.written == Some(ProcessAll(paths, step).value)
      && (final.status == Done <==> write(ProcessAll(paths, step).value).Success?)
      && (final.status == Done ==> final.resultBlob == Some(write(ProcessAll(paths, step).value).value))
      && (final.status == Error ==> final.error == Some(ErrorText(write(ProcessAll(paths, step).value).error)))
      && r.trace[|r.trace| - 2].status == Compressing
  {
    var s2 := ProcessingState(s1, paths);
    ImageLoopOutcome(s2, paths, 0, [], step);
    assert paths[0..] == paths;
    assert [] + ProcessAll(paths, step).value == ProcessAll(paths, step).value;
  }

  /** The end of a run whose loop got through all `paths`, put together from its parts. */
  lemma SuccessShape(s1: ProcessorState, s2: ProcessorState, l: Loop, tail: seq<ProcessorState>,
                     paths: seq<string>)
    requires paths != [] && |l.trace| == 2 * |paths| && l.last == l.trace[|l.trace| - 1]
    requires forall j :: 0 <= j < |paths| ==> ReportsImage(l.trace, paths, 0, j)
    requires tail != [] && tail[|tail| - 1].currentFile == l.last.currentFile
    requires tail[|tail| - 1].progress == l.last.progress && tail[|tail| - 1].fileCount == l.last.fileCount
    ensures var t := [s1, s2] + l.trace + tail;
      && t[|t| - 1].currentFile == ExtractFilename(paths[|paths| - 1])
      && t[|t| - 1].progress == l.last.progress
      && t[|t| - 1].fileCount == l.last.fileCount
      && forall j :: 0 <= j < |paths| ==> ReportsImage(t[2..], paths, 0, j)
  {
    var t := [s1, s2] + l.trace + tail;
    assert t[|t| - 1] == tail[|tail| - 1];
    assert ReportsImage(l.trace, paths, 0, |paths| - 1);
    assert t[2..] == l.trace + tail;
    forall j | 0 <= j < |paths| ensures ReportsImage(t[2..], paths, 0, j) {
      assert ReportsImage(l.trace, paths, 0, j);
      assert t[2..][2 * j] == l.trace[2 * j] && t[2..][2 * j + 1] == l.trace[2 * j + 1];
    }
  }

  /**
   * A run whose images all succeed ends having reported every image and full progress, with the
   * image count set.
   */
  lemma StagesReportAll(s1: ProcessorState, paths: seq<string>, step: ImageStep,
                        write: seq<ProcessedFile> -> Result<Blob>)
    requires s1.progress == 0
    requires paths != [] && ProcessAll(paths, step).Success?
    ensures var t := StagesFrom(s1, paths, step, write).trace;
      && t[|t| - 1].fileCount == |paths|
      && t[|t| - 1].currentFile == ExtractFilename(paths[|paths| - 1])
      && t[|t| - 1].progress == 100
      && forall j :: 0 <= j < |paths| ==> ReportsImage(t[2..], paths, 0, j)
  {
    var s2 := ProcessingState(s1, paths);
    var loop := ImageLoop(s2, paths, 0, [], step);
    assert loop.outcome.Success? by {
      ImageLoopOutcome(s2, paths, 0, [], step);
      assert paths[0..] == paths;
    }
    ImageLoopKeepsRun(s2, paths, 0, [], step);
    ImageLoopProgress(s2, paths, 0, [], step);
    ImageLoopReports(s2, paths, 0, [], step);
    FinishFacts(loop.last, loop.outcome, write);
    SuccessShape(s1, s2, loop, Finish(loop.last, loop.outcome, write), paths);
  }

  // ---------------------------------------------------------------------------
  // Whole runs
  // ---------------------------------------------------------------------------

  /** The archive has an entry worth processing: a listed file, not a folder, that is an image. */
  predicate HasImageEntry(zip: Zip)
  {
    exists p <- zip.names :: !zip.files[p].dir && IsImageFile(p)
  }

  /** The image list is empty exactly when the archive has no image entry. */
  lemma ImagePathsEmptyIff(zip: Zip)
    ensures ImagePaths(zip) == [] <==> !HasImageEntry(zip)
  {
    if HasImageEntry(zip) {
      var p :| p in zip.names && !zip.files[p].dir && IsImageFile(p);
      assert p in ImagePaths(zip);
    }
    if ImagePaths(zip) != [] {
      var p := ImagePaths(zip)[0];
      assert p in zip.files && !zip.files[p].dir && IsImageFile(p);
    }
  }

  /** An archive that cannot be loaded ends the run at once, in `error` with the loader's message. */
  lemma UnreadableArchiveFails(prev: ProcessorState, file: WebFile, env: Env)
    requires env.loadArchive(file).Failure?
    ensures var r := RunSpec(prev, file, env);
      && r.trace == [StartState(prev, file), Failed(StartState(prev, file), env.loadArchive(file).error)]
      && FinalState(r).status == Error
      && FinalState(r).error == Some(ErrorText(env.loadArchive(file).error))
      && r.written == None
  {
  }

  /**
   * A loaded archive gets to the processing stage exactly when it has an image entry; without one,
   * the run ends in `error` with the no-images message and writes nothing.
   */
  lemma EmptyArchiveFails(prev: ProcessorState, file: WebFile, env: Env)
    requires env.loadArchive(file).Success?
    ensures var r := RunSpec(prev, file, env);
      && (r.trace[1].status == Processing <==> HasImageEntry(env.loadArchive(file).value))
      && (!HasImageEntry(env.loadArchive(file).value) ==>
            && r.trace == [StartState(prev, file), Failed(StartState(prev, file), NoImagesMessage)]
            && FinalState(r).error == Some(NoImagesMessage)
            && r.written == None)
  {
    ImagePathsEmptyIff(env.loadArchive(file).value);
  }

  /** A loaded archive hands the run over to its stages. */
  lemma RunSpecLoaded(prev: ProcessorState, file: WebFile, env: Env)
    requires env.loadArchive(file).Success?
    ensures var zip := env.loadArchive(file).value;
      RunSpec(prev, file, env) == StagesFrom(StartState(prev, file), ImagePaths(zip), ImageStepOf(zip, env), env.createArchive)
  {
  }

  /**
   * When an image cannot be read or resized, the run stops at the first such image: it ends in
   * `error` with that image's message, still naming that image, and nothing is written.
   */
  lemma ImageFailureStopsRun(prev: ProcessorState, file: WebFile, env: Env)
    requires env.loadArchive(file).Success?
    requires var zip := env.loadArchive(file).value;
      exists k :: 0 <= k < |ImagePaths(zip)| && ProcessImage(zip, ImagePaths(zip)[k], env).Failure?
    ensures var zip := env.loadArchive(file).value;
      exists k :: StopsAtImage(RunSpec(prev, file, env), ImagePaths(zip), ImageStepOf(zip, env), k)
  {
    var zip := env.loadArchive(file).value;
    var paths := ImagePaths(zip);
    var step := ImageStepOf(zip, env);
    assert ProcessAll(paths, step).Failure? by {
      ProcessAllEachImage(paths, step);
      var k :| 0 <= k < |paths| && ProcessImage(zip, paths[k], env).Failure?;
      assert step(paths[k]).Failure?;
    }
    RunSpecLoaded(prev, file, env);
    StagesImageFailure(StartState(prev, file), paths, step, env.createArchive);
  }

  /**
   * A run ends in `done` exactly when the archive loads, has images, every image is processed and
   * the output archive is written.
   */
  lemma RunSucceedsIff(prev: ProcessorState, file: WebFile, env: Env)
    ensures FinalState(RunSpec(prev, file, env)).status == Done <==>
      && env.loadArchive(file).Success?
      && var zip := env.loadArchive(file).value;
        var all := ProcessAll(ImagePaths(zip), ImageStepOf(zip, env));
        && ImagePaths(zip) != []
        && all.Success?
        && env.createArchive(all.value).Success?
  {
    if env.loadArchive(file).Success? {
      var zip := env.loadArchive(file).value;
      var paths := ImagePaths(zip);
      var step := ImageStepOf(zip, env);
      if paths != [] {
        if ProcessAll(paths, step).Success? {
          StagesWriteAll(StartState(prev, file), paths, step, env.createArchive);
        } else {
          StagesImageFailure(StartState(prev, file), paths, step, env.createArchive);
        }
      }
    }
  }

  /**
   * A run that ends in `done` has written one entry per image, in archive order, each the resized
   * image at its path with a `.png` name turned into `.jpg`; the result is the written archive, the
   * progress is 100, and every image was reported by name and progress in turn.
   */
  lemma SuccessfulRun(prev: ProcessorState, file: WebFile, env: Env)
    requires FinalState(RunSpec(prev, file, env)).status == Done
    ensures env.loadArchive(file).Success?
    ensures var zip := env.loadArchive(file).value;
      var paths := ImagePaths(zip);
      var r := RunSpec(prev, file, env);
      var final := FinalState(r);
      && paths != []
      && r.written.Some?
      && |r.written.value| == |paths|
      && (forall k :: 0 <= k < |paths| ==> ProcessImage(zip, paths[k], env) == Success(r.written.value[k]))
      && (forall k :: 0 <= k < |paths| ==> r.written.value[k].path == ConvertedFilename(paths[k]))
      && final.resultBlob.Some?
      && env.createArchive(r.written.value) == Success(final.resultBlob.value)
      && final.error == None
      && final.fileName == GenerateOutputFilename(file.name)
      && final.fileCount == |paths|
      && final.progress == 100
      && final.currentFile == ExtractFilename(paths[|paths| - 1])
      && forall j :: 0 <= j < |paths| ==> ReportsImage(r.trace[2..], paths, 0, j)
  {
    RunSucceedsIff(prev, file, env);
    var zip := env.loadArchive(file).value;
    var paths := ImagePaths(zip);
    var step := ImageStepOf(zip, env);
    var s1 := StartState(prev, file);
    StagesWriteAll(s1, paths, step, env.createArchive);
    StagesReportAll(s1, paths, step, env.createArchive);
    StagesCarry(s1, paths, step, env.createArchive);
    ProcessAllEachImage(paths, step);
    var files := ProcessAll(paths, step).value;
    forall k | 0 <= k < |paths| ensures files[k].path == ConvertedFilename(paths[k]) {
      RewrittenImagePath(paths[k]);
    }
  }

  /**
   * Every state but the last shows what the start state does: the new output name, no error, and
   * the previous result. The last state keeps the name and is either an error with a message and
   * the previous result, or `done` with no error and a result.
   */
  lemma RunReportsErrors(prev: ProcessorState, file: WebFile, env: Env)
    ensures CarriesUntilLast(StartState(prev, file), RunSpec(prev, file, env).trace)
    ensures EndsReported(StartState(prev, file), RunSpec(prev, file, env).trace)
  {
    if env.loadArchive(file).Success? {
      var zip := env.loadArchive(file).value;
      RunSpecLoaded(prev, file, env);
      StagesCarry(StartState(prev, file), ImagePaths(zip), ImageStepOf(zip, env), env.createArchive);
    } else {
      assert RunSpec(prev, file, env).trace[..1] == [StartState(prev, file)];
    }
  }

  /** A run that fails only at writing the archive ends in `error` with the writer's message. */
  lemma WriteFailureFails(prev: ProcessorState, file: WebFile, env: Env)
    requires env.loadArchive(file).Success?
    requires var zip := env.loadArchive(file).value;
      var all := ProcessAll(ImagePaths(zip), ImageStepOf(zip, env));
      ImagePaths(zip) != [] && all.Success? && env.createArchive(all.value).Failure?
    ensures var zip := env.loadArchive(file).value;
      var all := ProcessAll(ImagePaths(zip), ImageStepOf(zip, env));
      var r := RunSpec(prev, file, env);
      && r.written == Some(all.value)
      && FinalState(r).status == Error
      && FinalState(r).error == Some(ErrorText(env.createArchive(all.value).error))
  {
    var zip := env.loadArchive(file).value;
    RunSpecLoaded(prev, file, env);
    StagesWriteAll(StartState(prev, file), ImagePaths(zip), ImageStepOf(zip, env), env.createArchive);
    StagesFollowStateMachine(StartState(prev, file), ImagePaths(zip), ImageStepOf(zip, env), env.createArchive);
  }

  /**
   * A state the hook can rest in between calls: idle, done with a result, or failed with a
   * message, with the progress a percentage and an error shown exactly in the `error` status.
   */
  predicate Settled(s: ProcessorState)
  {
    && (s.status == Idle || s.status == Done || s.status == Error)
    && 0 <= s.progress <= 100
    && (s.error.Some? <==> s.status == Error)
    && (s.status == Done ==> s.resultBlob.Some?)
  }

  /** Every run leaves the hook settled, whatever state it started from. */
  lemma RunEndsSettled(prev: ProcessorState, file: WebFile, env: Env)
    ensures Settled(FinalState(RunSpec(prev, file, env)))
  {
    var t := RunSpec(prev, file, env).trace;
    RunFollowsStateMachine(prev, file, env);
    RunProgressRises(prev, file, env);
    RunReportsErrors(prev, file, env);
    assert 0 <= t[|t| - 1].progress <= 100;
  }
}
