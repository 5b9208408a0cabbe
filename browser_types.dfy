/** The browser values that flow through the pipeline. */
module BrowserTypes {

  /** A `Blob`: raw bytes and a MIME type (`""` when unknown). */
  datatype Blob = Blob(bytes: seq<bv8>, mimeType: string)

  /** A `File`: a blob with a name, as the drop zone hands it over or as `new File(...)` builds it. */
  datatype WebFile = WebFile(content: seq<bv8>, name: string, mimeType: string)
}
