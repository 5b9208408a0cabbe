# mangaone — the archive processing pipeline, in Dafny

mangaone is a browser application that takes a manga archive (`.zip` or `.cbz`). It shrinks every
page image inside, turns PNG pages into JPEG, and offers the result back as `<name>_resized.zip`.
This project models the checkable core of the application and proves properties about it:

- **The `useMangaProcessor` hook** (src/hooks/useMangaProcessor.ts).
  - Its pure helpers: output-name derivation, path splitting on `/`, `updatePath` and the progress
    percentage.
  - `INITIAL_STATE`, and the `processFile` / `reset` state machine over `ProcessorState`:
    `idle → extracting → processing → compressing → done`, with `error` reachable from anywhere in
    the `try` block.
- **Entry classification and the rename policy** (src/services/imageService.ts).
  - `isImageFile`, with its system-file markers and its image-extension allow-list.
  - The part of `resizeImage` that picks the `File` type, builds the compressor options and renames
    `.png` to `.jpg`.
- **`getFilePaths`** (src/services/archiveService.ts), over an abstract loaded archive.

## Modules

- `Wrappers`: `Option` and `Result`. A thrown JavaScript error is a `Failure` carrying its message.
- `JsString`, `JsArray`: the JavaScript built-ins the core relies on, with their contracts.
  - `toLowerCase`, `endsWith`, `includes`, `lastIndexOf`, `split` and `join`.
  - `Array.prototype.filter`.
- `BrowserTypes`: `Blob` (bytes and MIME type) and `File`.
- `ArchiveService`: a loaded JSZip archive.
  - It holds its entry names in `Object.keys` order and a map from each name to its entry.
  - An entry is a folder flag plus the entry's data, or the error reading it throws.
- `ImageService`: the code of `isImageFile` and `resizeImage`. The `imageCompression` library is a
  parameter of `ResizeImage`.
- `ProcessorHelpers`: the pure helpers of useMangaProcessor.ts.
- `ProcessorRun`: the specification of one call of `processFile`.
  - `ProcessorState` is the state record.
  - `RunSpec(prev, file, env)` is the sequence of states the call publishes with `setState`, plus the
    list it hands to `createArchive` (`None` when it never gets there).
  - It is built from `ImageLoop` (the `for` loop), `Finish` (compression, `done` and the `catch`
    block) and `StagesFrom` (everything after the paths are listed).
  - The lemmas about runs live here.
- `MangaProcessor`: the hook as the class `MangaProcessor`.
  - `state` is the value `useState` holds, one `ProcessorState` record replaced on each `setState`,
    as in the source.
  - The ghost field `history` records every published state.
  - The ghost field `archiveWrites` records every list handed to `createArchive`.
  - The `ProcessFile` method runs the pipeline step by step: one `SetState` per `setState` call, and
    a `while` loop over the image paths that pushes onto `processedFiles`.
  - It is proved to publish exactly `RunSpec(old(state), file, env).trace` and to end in its last
    state. So every lemma about `RunSpec` is a property of the method.
  - `ProcessFile` delegates to smaller methods: `ProcessImages` (the loop), `Compress`, `Conclude`
    and `RunStages`. These are written over any per-image step and any archive writer.
    `ProcessFile` passes them the real step (`ProcessImage`) and the real `createArchive`.

What the model takes as parameters, bundled in `Env`:

- the `settings` the hook was created with;
- `loadArchive` (JSZip's `loadAsync`);
- the `imageCompression` call;
- `createArchive` (JSZip's `generateAsync`).

Each of these may fail with a message, as each may throw in the source.

Three facts about the code shape the model:

- Entering `extracting` resets only `status`, `error`, `progress` and `fileName`. `resultBlob`,
  `fileCount` and `currentFile` carry over from the previous run (`StartState`).
- There is no cancellation and no generation token. `reset` does not stop a run.
- Settings are not validated.

## Model

| member | source | states |
|---|---|---|
| JsString.ToLowerCase | src/services/imageService.ts:52 | case-insensitive comparison maps exactly `A`–`Z` to `a`–`z`, character by character, keeping the length |
| JsString.EndsWithAppend | src/hooks/useMangaProcessor.ts:51 | any string followed by a suffix ends with that suffix, which is why every output name ends with `_resized.zip` |
| JsString.Includes | src/services/imageService.ts:85-87 | `includes` holds exactly when the pattern occurs at some index |
| JsString.LastIndexOf | src/hooks/useMangaProcessor.ts:67 | `lastIndexOf('/')` is -1 exactly when there is no `/`; otherwise it is the index of a `/` with none after it |
| JsString.Split | src/hooks/useMangaProcessor.ts:59 | `split('/')` gives at least one piece, and no piece contains `/` |
| JsString.JoinSplit | src/hooks/useMangaProcessor.ts:59 | joining the pieces of `split('/')` with `/` gives the string back |
| JsString.LastSplitPiece | src/hooks/useMangaProcessor.ts:59 | the last piece of `split('/')` is everything after the last `/` |
| JsArray.Filter | src/hooks/useMangaProcessor.ts:120 | `filter` keeps exactly the elements that pass the test, and every kept element passes it |
| JsArray.FilterAppend | src/hooks/useMangaProcessor.ts:120 | filtering a concatenation is the concatenation of the filtered parts, so `filter` keeps order and repetitions |
| JsArray.FilterSingleton | src/hooks/useMangaProcessor.ts:120 | a one-element list keeps its element exactly when it passes |
| JsArray.FilterInOrder | src/services/archiveService.ts:53 | filtering a list without repetitions keeps each passing element once, in its original order |
| JsArray.FilterEmpty | src/hooks/useMangaProcessor.ts:120-122 | the filtered list is empty exactly when no element passes the test |
| ArchiveService.GetFilePaths | src/services/archiveService.ts:52-54 | the result lists exactly the archive's entries that are not folders, and each is a key of `zip.files` |
| ArchiveService.GetFilePathsInOrder | src/services/archiveService.ts:52-54 | each such entry is listed once, in the order of `Object.keys(zip.files)` |
| ImageService.IsImageFile | src/services/imageService.ts:83-95 | an accepted name contains neither `__MACOSX` nor `.DS_Store`, has a `.` and does not end with `/` |
| ImageService.IsImageFileByExtension | src/services/imageService.ts:83-95 | a name is accepted if and only if it contains no system-file marker and its last extension, lower-cased, is one of jpg, jpeg, png, gif, bmp, webp, tiff, tif, svg |
| ImageService.SuffixIsLastExtension | src/services/imageService.ts:94 | a name ending in `.` plus a dot-free extension (any case) has that extension as its last one |
| ImageService.LastExtensionIsSuffix | src/services/imageService.ts:94 | a name with a dot ends, lower-cased, with `.` followed by its lower-cased last extension |
| ImageService.UpperCaseExtensionAccepted | src/services/imageService.ts:94 | `page.PNG` is an image: the extension is compared case-insensitively |
| ImageService.InnerExtensionIgnored | src/services/imageService.ts:94 | `page.png.txt` is not an image: only the last extension counts |
| ImageService.BareExtensionRejected | src/services/imageService.ts:94 | `png` without a dot is not an image |
| ImageService.MetadataFolderRejected | src/services/imageService.ts:85-91 | a `__MACOSX/` entry is rejected whatever its extension |
| ImageService.ConvertedFilename | src/services/imageService.ts:52-72 | a `.png` name (any case) keeps all but its last four characters, which become `.jpg`; any other name is unchanged; the result never ends with `.png` |
| ImageService.ConvertedFilenameIdempotent | src/services/imageService.ts:70-72 | renaming a renamed name changes nothing |
| ImageService.FileTypeFor | src/services/imageService.ts:55-57 | the `File` type is the blob's type, or `image/jpeg` when that is empty |
| ImageService.CompressionOptionsFor | src/services/imageService.ts:59-65 | the options carry `maxLongEdge` and `quality` unchanged, use a web worker, and force `image/jpeg` exactly for PNG names |
| ImageService.ResizeImage | src/services/imageService.ts:47-75 | resizing succeeds exactly when the compressor does and then returns its blob under the converted name; the compressor's failure is passed on |
| ProcessorHelpers.GenerateOutputFilename | src/hooks/useMangaProcessor.ts:40-52 | the output name always ends with `_resized.zip` |
| ProcessorHelpers.OutputFilenameDropsArchiveExtension | src/hooks/useMangaProcessor.ts:50-52 | exactly one trailing `.zip`/`.cbz`, in any case, is replaced by `_resized.zip`, and all before it is kept |
| ProcessorHelpers.OutputFilenameKeepsOtherNames | src/hooks/useMangaProcessor.ts:50-52 | a name without that extension gets `_resized.zip` appended |
| ProcessorHelpers.OutputFilenameOfZip | src/hooks/useMangaProcessor.ts:50-52 | `manga.zip` becomes `manga_resized.zip` |
| ProcessorHelpers.OutputFilenameOfUpperCaseCbz | src/hooks/useMangaProcessor.ts:50-52 | `book.CBZ` becomes `book_resized.zip` |
| ProcessorHelpers.ExtractDirectory | src/hooks/useMangaProcessor.ts:66-68 | the directory is the prefix up to and including the last `/`, or empty when there is none |
| ProcessorHelpers.ExtractFilenameAfterLastSlash | src/hooks/useMangaProcessor.ts:58-60 | the file name is everything after the last `/`, or the whole path when it ends with `/` |
| ProcessorHelpers.DirectoryAndFilename | src/hooks/useMangaProcessor.ts:58-68 | for a path not ending in `/`, directory plus file name is the path and the file name has no `/`; for a path ending in `/` the file name falls back to the whole path |
| ProcessorHelpers.UpdatePath | src/hooks/useMangaProcessor.ts:74-77 | the result is the directory of the original path followed by the new name |
| ProcessorHelpers.UpdatePathWithOwnName | src/hooks/useMangaProcessor.ts:58-77 | putting a path's own file name back gives the path |
| ProcessorHelpers.UpdatePathSplitsBack | src/hooks/useMangaProcessor.ts:58-77 | after an update with a `/`-free name, the directory is unchanged and the file name is the new one |
| ProcessorHelpers.PngPathHasPngName | src/services/imageService.ts:52 | a path ends in `.png` exactly when its file name does |
| ProcessorHelpers.ImagePathDoesNotEndWithSlash | src/services/imageService.ts:94 | an eligible image path never ends with `/` |
| ProcessorHelpers.RewrittenImagePath | src/hooks/useMangaProcessor.ts:137-151 | the path written for an image is the listed path with a final `.png` turned into `.jpg` |
| ProcessorHelpers.RewrittenFilePath | src/hooks/useMangaProcessor.ts:137-151 | the same for any path not ending in `/` |
| ProcessorHelpers.ConvertedAfterDirectory | src/hooks/useMangaProcessor.ts:151 | converting the file name behind its directory converts the whole path |
| ProcessorHelpers.CalculateProgress | src/hooks/useMangaProcessor.ts:83-85 | progress is 0 with nothing done, 100 with everything done, and within 0..100 in between |
| ProcessorHelpers.ProgressRounds | src/hooks/useMangaProcessor.ts:83-85 | progress is `100 * current / total` rounded to the nearest whole number, halves up (`Math.round`) |
| ProcessorHelpers.ProgressMonotone | src/hooks/useMangaProcessor.ts:83-85 | progress never goes down as `current` grows |
| ProcessorRun.ErrorText | src/hooks/useMangaProcessor.ts:180 | the shown error is never empty, and is the thrown message when that is not empty |
| ProcessorRun.Failed | src/hooks/useMangaProcessor.ts:176-182 | the `catch` block's state is `error` with a non-empty message (the thrown one when it is not empty), every other field kept |
| ProcessorRun.StartState | src/hooks/useMangaProcessor.ts:110-116 | entering `extracting` clears the error, sets progress 0 and the output name, and carries over the result, the file count and the current file |
| ProcessorRun.ProcessingState | src/hooks/useMangaProcessor.ts:127-131 | entering `processing` sets the file count to the number of images before any is processed, and keeps progress, error, result, output name and current file as they were |
| ProcessorRun.ImagePaths | src/hooks/useMangaProcessor.ts:118-120 | the paths processed are exactly the archive's non-folder entries that are images |
| ProcessorRun.ImagePathsInOrder | src/hooks/useMangaProcessor.ts:118-120 | each image path is listed once, in the order of `Object.keys(zip.files)` |
| ProcessorRun.ImagePathsEmptyIff | src/hooks/useMangaProcessor.ts:119-122 | there is nothing to process exactly when the archive has no image entry |
| ProcessorRun.ProcessImage | src/hooks/useMangaProcessor.ts:143-156 | a processed image is placed at `updatePath(path, converted file name)` |
| ProcessorRun.ProcessImageOutcome | src/hooks/useMangaProcessor.ts:143-156 | an image succeeds exactly when its entry is listed, reads and resizes; the entry then holds the compressor's blob; a failure carries the message of the step that threw (reading the entry, or `imageCompression`) |
| ProcessorRun.ProcessAll | src/hooks/useMangaProcessor.ts:133-163 | when every image succeeds there is one processed entry per path |
| ProcessorRun.ImageLoop | src/hooks/useMangaProcessor.ts:133-163 | a loop that gets through every image publishes two states per image and adds one entry per image to those already processed |
| ProcessorRun.Finish | src/hooks/useMangaProcessor.ts:165-182 | after the loop at least one state is published, and the last is `done` exactly when the loop and the archive writer both succeed |
| ProcessorRun.StagesFrom | src/hooks/useMangaProcessor.ts:122-174 | the run after listing starts from the `extracting` state it is given and publishes at least one more state |
| ProcessorRun.RunSpec | src/hooks/useMangaProcessor.ts:107-183 | a run first publishes `extracting` with the old state's other fields and publishes at least one more state |
| ProcessorRun.ProcessAllEachImage | src/hooks/useMangaProcessor.ts:133-163 | all images are processed exactly when every one succeeds; then there is one output entry per path, in listed order |
| ProcessorRun.ProcessAllFirstFailure | src/hooks/useMangaProcessor.ts:135-163 | a failed processing carries the error of the first image that fails, all earlier ones having succeeded |
| ProcessorRun.ImageLoopOutcome | src/hooks/useMangaProcessor.ts:133-163 | the loop ends with the processed list, or the first failure, that processing all images gives |
| ProcessorRun.ImageLoopKeepsRun | src/hooks/useMangaProcessor.ts:140-162 | the loop changes only the current file name and the progress, and its last state is the last it publishes |
| ProcessorRun.ImageLoopProgress | src/hooks/useMangaProcessor.ts:159-162 | progress in the loop stays within 0..100 and never goes down; a loop that completes publishes two states per image and ends at 100 |
| ProcessorRun.ImageLoopReports | src/hooks/useMangaProcessor.ts:137-162 | a loop that completes publishes, for each image in order, its file name and then `calculateProgress(i + 1, n)` |
| ProcessorRun.ImageLoopFailure | src/hooks/useMangaProcessor.ts:135-163 | a loop that fails stops at the first failing image with that image's error, its file name still shown |
| ProcessorRun.StagesFollowStateMachine | src/hooks/useMangaProcessor.ts:122-182 | after `extracting`, each status change is one the pipeline makes, progress rises within 0..100, and the run ends in `done` or `error` |
| ProcessorRun.RunFollowsStateMachine | src/hooks/useMangaProcessor.ts:107-183 | a run starts in `extracting`, moves only `extracting → processing → compressing → done`, with `error` possible from each, and ends in `done` or `error` |
| ProcessorRun.RunProgressRises | src/hooks/useMangaProcessor.ts:110-162 | a run's progress starts at 0, stays within 0..100 and never goes down |
| ProcessorRun.StagesCarry | src/hooks/useMangaProcessor.ts:127-182 | before the last state nothing changes the output name, the error or the result; the last is an error with a message and the old result, or `done` with a result |
| ProcessorRun.RunReportsErrors | src/hooks/useMangaProcessor.ts:107-182 | a run sets no error and no result before its last state; a failing run keeps the old result and shows a non-empty message |
| ProcessorRun.StagesImageFailure | src/hooks/useMangaProcessor.ts:135-182 | when an image fails, the run ends in `error` with that image's message, showing its file name, and never calls `createArchive` |
| ProcessorRun.StagesWriteAll | src/hooks/useMangaProcessor.ts:165-174 | when every image succeeds, `createArchive` receives the whole processed list, `compressing` comes just before the end, and the run is `done` exactly when writing succeeds, with the written archive stored; otherwise it shows the writer's error message, or the default text |
| ProcessorRun.WriteFailureFails | src/hooks/useMangaProcessor.ts:165-182 | a run whose only failure is writing the archive hands the writer the full list and ends in `error` with the writer's message |
| ProcessorRun.StagesReportAll | src/hooks/useMangaProcessor.ts:127-174 | after a successful loop the file count is the number of images, the shown file is the last image's name and progress is 100 |
| ProcessorRun.UnreadableArchiveFails | src/hooks/useMangaProcessor.ts:118-182 | an archive that cannot be loaded ends the run in `error` with the load error's message, right after `extracting` |
| ProcessorRun.EmptyArchiveFails | src/hooks/useMangaProcessor.ts:119-182 | the run reaches `processing` exactly when the archive has an image entry; otherwise it ends at once in `error` with "No images found…" and writes nothing |
| ProcessorRun.RunSpecLoaded | src/hooks/useMangaProcessor.ts:118-120 | once loaded, a run is the stages over the archive's image paths with the real processing step and archive writer |
| ProcessorRun.ImageFailureStopsRun | src/hooks/useMangaProcessor.ts:135-182 | if any image cannot be processed, the run stops at the first one that fails, in `error` with its message, and never calls `createArchive` |
| ProcessorRun.RunSucceedsIff | src/hooks/useMangaProcessor.ts:107-183 | a run ends `done` if and only if the archive loads, has images, every image is processed and the archive is written |
| ProcessorRun.SuccessfulRun | src/hooks/useMangaProcessor.ts:107-174 | a run that ends `done` wrote one entry per image, in listed order, at its converted path; stored the written archive; shows no error, the output name, the image count, progress 100 and the last image's name |
| ProcessorRun.RunEndsSettled | src/hooks/useMangaProcessor.ts:107-183 | every run ends in `done` or `error`, with progress in 0..100; an error is shown exactly in `error`, and `done` has a result |
| MangaProcessor.MangaProcessor.constructor | src/hooks/useMangaProcessor.ts:101 | the hook starts in `INITIAL_STATE`, with nothing published and nothing written |
| MangaProcessor.MangaProcessor.SetState | src/hooks/useMangaProcessor.ts:101 | `setState` replaces the state and publishes the new one |
| MangaProcessor.MangaProcessor.Fail | src/hooks/useMangaProcessor.ts:176-182 | the `catch` block publishes `error` with the message, keeping every other field |
| MangaProcessor.MangaProcessor.ProcessImages | src/hooks/useMangaProcessor.ts:133-163 | the loop publishes exactly the states `ImageLoop` describes and returns its outcome |
| MangaProcessor.MangaProcessor.Compress | src/hooks/useMangaProcessor.ts:165-182 | publishes `compressing`, hands the list to `createArchive` once, then publishes `done` with the archive or `error` |
| MangaProcessor.MangaProcessor.Conclude | src/hooks/useMangaProcessor.ts:163-182 | after the loop: `error` when it failed, otherwise the compression stage |
| MangaProcessor.MangaProcessor.RunStages | src/hooks/useMangaProcessor.ts:122-182 | after listing, publishes exactly the states `StagesFrom` describes and writes what it describes |
| MangaProcessor.MangaProcessor.ProcessFile | src/hooks/useMangaProcessor.ts:107-183 | `processFile` publishes exactly the states `RunSpec` describes, ends in its last state, and calls `createArchive` only with the list it describes |
| MangaProcessor.MangaProcessor.Reset | src/hooks/useMangaProcessor.ts:189-191 | `reset` publishes `INITIAL_STATE`: idle, progress 0, no error or result, empty names, file count 0 |

## Left out

- `loadAsync`, `generateAsync` and `imageCompression` are parameters that may fail.
  - JSZip's container parsing and serialisation and the image scaling are not modelled.
  - `loadArchive` and `createArchive` (src/services/archiveService.ts:29-46) are therefore not
    modelled beyond that.
- Async and React mechanics are not modelled.
  - Each `await` is an ordinary call.
  - Each `setState(prev => …)` is a replacement of the current state, applied in order.
  - Render batching and a `reset` that overlaps an in-flight run are not modelled.
- ProcessorHelpers.CalculateProgress rounds the exact ratio, halves up, as
  `(200 * current + total) / (2 * total)`.
  - The source rounds the double-precision product `(current / total) * 100`. At an exact half
    that product can fall just below `.5`, so the source can come out one lower.
  - For example, 23 of 40 gives 57 in the source (`57.49999999999999` rounded) and 58 in the model.
  - The bounds, the values at 0 and at `total`, and monotonicity hold for both.
- `toLowerCase` is modelled on ASCII letters only. Unicode case mapping is not modelled.
- Strings are sequences of Unicode scalar values, while JavaScript strings are UTF-16 code units.
  - Every slice the model takes falls at an ASCII `/` or `.`, or takes the last four characters
    of a name ending in an ASCII extension, so both agree on well-formed names.
  - A lone surrogate cannot be represented.
- The order of `Object.keys(zip.files)` is the abstract `names` sequence of the archive.
- A listed path missing from `zip.files` fails with a TypeError. Its message is written as V8 words
  it; other engines word it differently. A well-formed archive never has such a path.
- Two images whose rewritten paths coincide (`a.png` and `a.jpg`) give two entries with the same
  path. What `generateAsync` does with them is not modelled.
- Settings are not validated and no error kinds are told apart, because the code does neither.
- The user interface in src/App.tsx is not part of this model. This covers rendering, the settings
  form and the download. Its `isValidArchiveFile` check is case-sensitive, unlike the
  case-insensitive stripping in `generateOutputFilename`.
- ProcessorHelpers.ExtractFilename has no `ensures` of its own. Its meaning is the lemma
  `ExtractFilenameAfterLastSlash`, with `DirectoryAndFilename`, `UpdatePathWithOwnName` and
  `UpdatePathSplitsBack`. Kept as lemmas, these facts stay out of the proofs about the run loop,
  which would otherwise exceed the resource limit.
- ImageService.ResizeImage does not model the pixel scaling or the quality; these happen inside
  `imageCompression`.
