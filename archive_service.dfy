/**
 * The loaded ZIP archive (src/services/archiveService.ts), abstractly.
 * JSZip's parser and writer are not modelled: loading and writing are parameters of the pipeline
 * (see ProcessorRun.Env). What is modelled is the shape the pipeline reads: `zip.files`, an
 * object from entry path to entry, whose keys come in the archive's order.
 */
module ArchiveService {
  import opened Wrappers
  import opened BrowserTypes
  import JsArray

  /** One entry of `zip.files`; reading its content (`async('blob')`) may fail. */
  datatype ZipObject = ZipObject(dir: bool, data: Result<Blob>)

  /** `zip.files` as its ordered keys and its key-to-entry map. */
  datatype ZipContents = ZipContents(names: seq<string>, files: map<string, ZipObject>)

  /** The keys are exactly the entries' paths, each listed once. */
  predicate WellFormed(z: ZipContents)
  {
    && (forall p <- z.names :: p in z.files)
    && (forall p <- z.files.Keys :: p in z.names)
    && (forall i, j :: 0 <= i < j < |z.names| ==> z.names[i] != z.names[j])
  }

  /** A loaded archive. */
  type Zip = z: ZipContents | WellFormed(z) witness ZipContents([], map[])

  /** An entry ready for the output archive. */
  datatype ProcessedFile = ProcessedFile(path: string, data: Blob)

  /** `getFilePaths`: the paths of the non-directory entries, in archive order. */
  function GetFilePaths(zip: Zip): (paths: seq<string>)
    ensures forall k :: 0 <= k < |paths| ==> paths[k] in zip.files && !zip.files[paths[k]].dir
    ensures forall p :: p in paths <==> p in zip.files && !zip.files[p].dir
  {
    JsArray.Filter(zip.names, p => p in zip.files && !zip.files[p].dir)
  }

  /** `getFilePaths` lists each non-directory entry once, in the order of `Object.keys(zip.files)`. */
  lemma GetFilePathsInOrder(zip: Zip)
    ensures JsArray.Distinct(GetFilePaths(zip)) && JsArray.SameOrder(GetFilePaths(zip), zip.names)
  {
    JsArray.FilterInOrder(zip.names, p => p in zip.files && !zip.files[p].dir);
  }
}
