/**
 * The `useMangaProcessor` hook of src/hooks/useMangaProcessor.ts as an object: the fields of its
 * state, `processFile` and `reset`. Each `setState` call becomes an update of the fields followed
 * by appending the new state to the ghost `history`, so that a call of `ProcessFile` can be proved
 * to publish exactly the states `RunSpec` describes; the ghost `archiveWrites` records every list
 * handed to `createArchive`.
 */
module MangaProcessor {
  import opened Wrappers
  import opened BrowserTypes
  import opened ArchiveService
  import opened ImageService
  import opened ProcessorHelpers
  import opened ProcessorRun
  import JsArray

  // ---------------------------------------------------------------------------
  // The loop of `processFile`, one iteration at a time
  // ---------------------------------------------------------------------------

  /** The loop `l` with the states `pre` published before it. */
  function After(pre: seq<ProcessorState>, l: Loop): Loop
  {
    Loop(pre + l.trace, l.last, l.outcome)
  }

  /** The list `createArchive` was handed, as a sequence of zero or one calls. */
  function Writes(written: Option<seq<ProcessedFile>>): seq<seq<ProcessedFile>>
  {
    match written
    case None => []
    case Some(files) => [files]
  }

  /** An iteration whose image succeeds publishes the file name, then the progress, and goes on. */
  lemma ImageLoopStep(s: ProcessorState, paths: seq<string>, i: nat, done: seq<ProcessedFile>,
                      step: ImageStep, pre: seq<ProcessorState>)
    requires i < |paths| && step(paths[i]).Success?
    ensures var current := s.(currentFile := ExtractFilename(paths[i]));
      var next := current.(progress := CalculateProgress(i + 1, |paths|));
      After(pre, ImageLoop(s, paths, i, done, step))
        == After(pre + [current] + [next], ImageLoop(next, paths, i + 1, done + [step(paths[i]).value], step))
  {
    var current := s.(currentFile := ExtractFilename(paths[i]));
    var next := current.(progress := CalculateProgress(i + 1, |paths|));
    var rest := ImageLoop(next, paths, i + 1, done + [step(paths[i]).value], step);
    assert pre + ([current, next] + rest.trace) == (pre + [current] + [next]) + rest.trace;
  }

  /** An iteration whose image fails publishes the file name and ends the loop with that failure. */
  lemma ImageLoopStop(s: ProcessorState, paths: seq<string>, i: nat, done: seq<ProcessedFile>,
                      step: ImageStep, pre: seq<ProcessorState>)
    requires i < |paths| && step(paths[i]).Failure?
    ensures var current := s.(currentFile := ExtractFilename(paths[i]));
      After(pre, ImageLoop(s, paths, i, done, step)) == Loop(pre + [current], current, Failure(step(paths[i]).error))
  {
  }

  /** Publishing states one at a time after `h + pre` is publishing them after `h`, as part of `pre`. */
  lemma PublishedAfter(h: seq<ProcessorState>, pre: seq<ProcessorState>, more: seq<ProcessorState>)
    ensures h + pre + more == h + (pre + more)
  {
  }

  /** The states published during a run, after those published before it. */
  lemma PublishedRun(h: seq<ProcessorState>, start: seq<ProcessorState>, middle: seq<ProcessorState>,
                     tail: seq<ProcessorState>)
    ensures h + start + middle + tail == h + (start + middle + tail)
  {
  }

  /** After the state `s1`, the stages publish `processing`, the loop's states and what follows it. */
  lemma StagesAfterStart(s1: ProcessorState, paths: seq<string>, step: ImageStep,
                         write: seq<ProcessedFile> -> Result<Blob>)
    requires paths != []
    ensures var loop := ImageLoop(ProcessingState(s1, paths), paths, 0, [], step);
      var stages := StagesFrom(s1, paths, step, write);
      && stages.trace[1..] == [ProcessingState(s1, paths)] + loop.trace + Finish(loop.last, loop.outcome, write)
      && stages.written == (if loop.outcome.Success? then Some(loop.outcome.value) else None)
    ensures var loop := ImageLoop(ProcessingState(s1, paths), paths, 0, [], step);
      var tail := Finish(loop.last, loop.outcome, write);
      var stages := StagesFrom(s1, paths, step, write);
      stages.trace[|stages.trace| - 1] == tail[|tail| - 1]
  {
    var loop := ImageLoop(ProcessingState(s1, paths), paths, 0, [], step);
    var tail := Finish(loop.last, loop.outcome, write);
    var rest := [ProcessingState(s1, paths)] + loop.trace + tail;
    var t := StagesFrom(s1, paths, step, write).trace;
    assert t == [s1] + rest;
    assert t[|t| - 1] == rest[|rest| - 1] == tail[|tail| - 1];
  }

  /** Without image paths, the stages publish only the `catch` block's state after `s1`. */
  lemma StagesWithoutImages(s1: ProcessorState, step: ImageStep, write: seq<ProcessedFile> -> Result<Blob>)
    ensures StagesFrom(s1, [], step, write) == Run([s1, Failed(s1, NoImagesMessage)], None)
    ensures StagesFrom(s1, [], step, write).trace[1..] == [Failed(s1, NoImagesMessage)]
  {
  }

  /** A run that loads `zip` is its start state followed by what the stages publish after it. */
  lemma RunAfterStart(prev: ProcessorState, file: WebFile, env: Env, zip: Zip)
    requires env.loadArchive(file) == Success(zip)
    ensures var stages := StagesFrom(StartState(prev, file), ImagePaths(zip), ImageStepOf(zip, env), env.createArchive);
      var run := RunSpec(prev, file, env);
      && run.trace == [StartState(prev, file)] + stages.trace[1..]
      && FinalState(run) == stages.trace[|stages.trace| - 1]
      && run.written == stages.written
  {
    RunSpecLoaded(prev, file, env);
    var stages := StagesFrom(StartState(prev, file), ImagePaths(zip), ImageStepOf(zip, env), env.createArchive);
    FirstThenRest(stages.trace);
  }

  /** A non-empty trace is its first state followed by the rest. */
  lemma FirstThenRest(t: seq<ProcessorState>)
    requires |t| >= 1
    ensures t == [t[0]] + t[1..]
  {
  }

  // ---------------------------------------------------------------------------
  // The hook
  // ---------------------------------------------------------------------------

  /** `useMangaProcessor`: the hook's `state`, replaced by `processFile` and `reset`. */
  class MangaProcessor {
    /** The value of `useState<ProcessorState>`. */
    var state: ProcessorState
    /** Every state published with `setState`, oldest first. */
    ghost var history: seq<ProcessorState>
    /** Every list handed to `createArchive`, oldest first. */
    ghost var archiveWrites: seq<seq<ProcessedFile>>

    /** `useState(INITIAL_STATE)`. */
    constructor ()
      ensures state == InitialState && Settled(state)
      ensures history == [] && archiveWrites == []
    {
      state := InitialState;
      history := [];
      archiveWrites := [];
    }

    /** `setState`: replaces the state and publishes it. */
    method SetState(next: ProcessorState)
      modifies this
      ensures state == next
      ensures history == old(history) + [next]
      ensures archiveWrites == old(archiveWrites)
    {
      state := next;
      history := history + [next];
    }

    /** The `catch` block: publishes `error` with the message of what was thrown. */
    method Fail(message: string)
      modifies this
      ensures state == Failed(old(state), message)
      ensures history == old(history) + [state]
      ensures archiveWrites == old(archiveWrites)
    {
      SetState(state.(status := Error, error := Some(ErrorText(message))));
    }

    /**
     * The `for` loop of `processFile`: publishes the states `ImageLoop` describes and returns how it
     * ends, a failure standing for the error the loop throws at the first image it cannot process.
     */
    method ProcessImages(imagePaths: seq<string>, step: ImageStep)
      returns (outcome: Result<seq<ProcessedFile>>)
      modifies this
      ensures var l := ImageLoop(old(state), imagePaths, 0, [], step);
        && history == old(history) + l.trace
        && state == l.last
        && outcome == l.outcome
      ensures archiveWrites == old(archiveWrites)
    {
      ghost var whole := ImageLoop(state, imagePaths, 0, [], step);
      ghost var pre: seq<ProcessorState> := [];
      var processedFiles: seq<ProcessedFile> := [];
      var i := 0;
      while i < |imagePaths|
        invariant i <= |imagePaths|
        invariant whole == After(pre, ImageLoop(state, imagePaths, i, processedFiles, step))
        invariant history == old(history) + pre
        invariant archiveWrites == old(archiveWrites)
      {
        ghost var before := state;
        ghost var earlier := pre;
        var path := imagePaths[i];
        var filename := ExtractFilename(path);
        PublishedAfter(old(history), pre, [state.(currentFile := filename)]);
        SetState(state.(currentFile := filename));
        pre := pre + [state];

        // Read the entry, resize it and rewrite its path; what any of these throws ends the loop.
        var processed := step(path);
        if processed.Failure? {
          ImageLoopStop(before, imagePaths, i, processedFiles, step, earlier);
          return Failure(processed.error);
        }
        ImageLoopStep(before, imagePaths, i, processedFiles, step, earlier);
        processedFiles := processedFiles + [processed.value];
        var next := state.(progress := CalculateProgress(i + 1, |imagePaths|));
        PublishedAfter(old(history), pre, [next]);
        SetState(next);
        pre := pre + [next];
        i := i + 1;
      }
      assert pre + [] == pre;
      return Success(processedFiles);
    }

    /**
     * Stages 3 and 4 of `processFile`: publishes `compressing`, hands `files` to `createArchive`,
     * and publishes `done` with the archive or the `catch` block's state, as `Finish` describes.
     */
    method Compress(files: seq<ProcessedFile>, createArchive: seq<ProcessedFile> -> Result<Blob>)
      modifies this
      ensures var tail := Finish(old(state), Success(files), createArchive);
        && history == old(history) + tail
        && state == tail[|tail| - 1]
      ensures archiveWrites == old(archiveWrites) + [files]
    {
      // ===== Stage 3: Compress =====
      SetState(state.(status := Compressing));
      archiveWrites := archiveWrites + [files];
      var finalBlob := createArchive(files);
      if finalBlob.Failure? {
        Fail(finalBlob.error);
        return;
      }

      // ===== Done =====
      SetState(state.(status := Done, resultBlob := Some(finalBlob.value)));
    }

    /**
     * What `processFile` does once the loop is over: the `catch` block when the loop threw, and
     * otherwise the compression stage, as `Finish` describes.
     */
    method Conclude(outcome: Result<seq<ProcessedFile>>, createArchive: seq<ProcessedFile> -> Result<Blob>)
      modifies this
      ensures var tail := Finish(old(state), outcome, createArchive);
        && history == old(history) + tail
        && state == tail[|tail| - 1]
      ensures archiveWrites == old(archiveWrites) + (if outcome.Success? then [outcome.value] else [])
    {
      if outcome.Failure? {
        Fail(outcome.error);
      } else {
        Compress(outcome.value, createArchive);
      }
    }

    /**
     * The part of `processFile` after the image paths are listed: fails when there are none, runs
     * the loop with `step` as its body and writes the archive with `createArchive`. Publishes the
     * states `StagesFrom` describes after the current one, and hands `createArchive` the list it
     * describes.
     */
    method RunStages(imagePaths: seq<string>, step: ImageStep,
                     createArchive: seq<ProcessedFile> -> Result<Blob>)
      modifies this
      ensures var stages := StagesFrom(old(state), imagePaths, step, createArchive);
        && history == old(history) + stages.trace[1..]
        && state == stages.trace[|stages.trace| - 1]
        && archiveWrites == old(archiveWrites) + Writes(stages.written)
    {
      ghost var s1 := state;
      if |imagePaths| == 0 {
        Fail(NoImagesMessage);
        StagesWithoutImages(s1, step, createArchive);
        return;
      }

      // ===== Stage 2: Process Images =====
      SetState(ProcessingState(state, imagePaths));
      ghost var s2 := state;
      ghost var loop := ImageLoop(s2, imagePaths, 0, [], step);
      ghost var tail := Finish(loop.last, loop.outcome, createArchive);
      StagesAfterStart(s1, imagePaths, step, createArchive);
      PublishedRun(old(history), [s2], loop.trace, tail);
      var processed := ProcessImages(imagePaths, step);
      Conclude(processed, createArchive);
    }

    /**
     * `processFile`: publishes exactly the states `RunSpec` describes and hands `createArchive`
     * exactly the list it describes, leaving the hook in the last of those states.
     */
    method ProcessFile(file: WebFile, env: Env)
      modifies this
      ensures history == old(history) + RunSpec(old(state), file, env).trace
      ensures state == FinalState(RunSpec(old(state), file, env))
      ensures archiveWrites == old(archiveWrites) + Writes(RunSpec(old(state), file, env).written)
    {
      ghost var prev := state;
      // ===== Stage 1: Extract =====
      SetState(state.(status := Extracting, error := None, progress := 0,
                      fileName := GenerateOutputFilename(file.name)));
      assert state == StartState(prev, file);

      var loaded := env.loadArchive(file);
      if loaded.Failure? {
        Fail(loaded.error);
        return;
      }
      var zip := loaded.value;
      var allPaths := GetFilePaths(zip);
      var imagePaths := JsArray.Filter(allPaths, IsImageFile);
      assert imagePaths == ImagePaths(zip);
      RunAfterStart(prev, file, env, zip);
      ghost var stages := StagesFrom(state, imagePaths, ImageStepOf(zip, env), env.createArchive);
      PublishedAfter(old(history), [state], stages.trace[1..]);
      RunStages(imagePaths, ImageStepOf(zip, env), env.createArchive);
    }

    /** `reset`: publishes `INITIAL_STATE`. */
    method Reset()
      modifies this
      ensures state == InitialState && Settled(state)
      ensures history == old(history) + [InitialState]
      ensures archiveWrites == old(archiveWrites)
    {
      SetState(InitialState);
    }
  }
}
