/**
 * Entry classification and the rename policy of src/services/imageService.ts.
 * The `browser-image-compression` call is a parameter (`Compressor`): it may fail, and what it
 * does to the pixels is not modelled.
 */
module ImageService {
  import opened Wrappers
  import opened BrowserTypes
  import opened JsString

  /** `ResizeSettings`: the longest allowed edge in pixels and the JPEG quality. */
  datatype ResizeSettings = ResizeSettings(maxLongEdge: int, quality: real)

  /** `ResizedImageResult`: the compressed image and its (possibly renamed) file name. */
  datatype ResizedImageResult = ResizedImageResult(blob: Blob, filename: string)

  /** The options record handed to the compressor; `fileType` is `undefined` unless converting. */
  datatype CompressionOptions = CompressionOptions(
    maxWidthOrHeight: int,
    useWebWorker: bool,
    initialQuality: real,
    fileType: Option<string>)

  /** `imageCompression(file, options)`: foreign, may throw. */
  type Compressor = (WebFile, CompressionOptions) -> Result<Blob>

  /** `IMAGE_EXTENSIONS`, the alternatives of the extension pattern, in lower case. */
  const ImageExtensions: seq<string> := ["jpg", "jpeg", "png", "gif", "bmp", "webp", "tiff", "tif", "svg"]

  /** `SYSTEM_FILE_PATTERNS`: path fragments of macOS metadata. */
  const SystemFilePatterns: seq<string> := ["__MACOSX", ".DS_Store"]

  const JpegMimeType: string := "image/jpeg"

  // ---------------------------------------------------------------------------
  // Classification
  // ---------------------------------------------------------------------------

  /** Some system-file pattern occurs in the name (case-sensitive). */
  predicate IsSystemFile(filename: string)
  {
    exists pattern <- SystemFilePatterns :: Includes(filename, pattern)
  }

  /** The extension pattern, anchored at the end and matched ignoring case. */
  predicate HasImageExtension(filename: string)
  {
    exists ext <- ImageExtensions :: EndsWith(ToLowerCase(filename), "." + ext)
  }

  /** `isImageFile`: not a system file, and ends with `.` and an allowed extension. */
  function IsImageFile(filename: string): (b: bool)
    ensures b ==> !Includes(filename, "__MACOSX") && !Includes(filename, ".DS_Store")
    ensures b ==> '.' in filename && filename[|filename| - 1] != '/'
  {
    if IsSystemFile(filename) then false
    else
      HasExtensionEndsWithoutSlash(filename);
      HasImageExtension(filename)
  }

  /** A name with an image extension ends with a letter and contains a dot. */
  lemma HasExtensionEndsWithoutSlash(filename: string)
    ensures HasImageExtension(filename) ==> '.' in filename && filename[|filename| - 1] != '/'
  {
    if HasImageExtension(filename) {
      var ext :| ext in ImageExtensions && EndsWith(ToLowerCase(filename), "." + ext);
      var d := |filename| - |ext| - 1;
      assert ToLowerCase(filename)[d] == '.';
      assert filename[d] == '.';
      assert ToLowerCase(filename)[|filename| - 1] == ext[|ext| - 1];
    }
  }

  /** What follows the last dot of a name (the whole name when it has none). */
  function ExtensionOf(filename: string): string
  {
    filename[LastIndexOf(filename, '.') + 1..]
  }

  /** No allowed extension contains a dot. */
  lemma ExtensionsHaveNoDot()
    ensures forall ext <- ImageExtensions :: '.' !in ext
  {
  }

  /** A name that ends with `.` and a dot-free `ext` (ignoring case) has `ext` as its last extension. */
  lemma {:induction false} SuffixIsLastExtension(filename: string, ext: string)
    requires '.' !in ext && EndsWith(ToLowerCase(filename), "." + ext)
    ensures '.' in filename && ToLowerCase(ExtensionOf(filename)) == ext
  {
    var lower := ToLowerCase(filename);
    var d := |filename| - |ext| - 1;
    assert lower[d] == '.';
    assert filename[d] == '.';
    forall j | d < j < |filename| ensures filename[j] != '.' {
      assert lower[j] == ext[j - d - 1];
    }
    LastIndexOfUnique(filename, '.', d);
    LowerCaseOfSuffix(filename, d + 1);
    assert lower[d + 1..] == ext;
  }

  /** A name whose last extension lower-cases to `ext` ends with `.` and `ext`, ignoring case. */
  lemma LastExtensionIsSuffix(filename: string)
    requires '.' in filename
    ensures EndsWith(ToLowerCase(filename), "." + ToLowerCase(ExtensionOf(filename)))
  {
    var d := LastIndexOf(filename, '.');
    LowerCaseOfSuffix(filename, d + 1);
    DotBeforeSuffix(ToLowerCase(filename), d, ToLowerCase(ExtensionOf(filename)));
  }

  /** A string ends with whatever follows one of its dots, dot included. */
  lemma DotBeforeSuffix(s: string, d: nat, rest: string)
    requires d < |s| && s[d] == '.' && s[d + 1..] == rest
    ensures EndsWith(s, "." + rest)
  {
    assert s[d..] == "." + rest;
  }

  /**
   * The classifier, restated through the extension after the last dot: a name is an image exactly
   * when it is not a system file, has a dot, and its last extension, lower-cased, is allowed.
   */
  lemma {:induction false} IsImageFileByExtension(filename: string)
    ensures IsImageFile(filename) <==>
      !IsSystemFile(filename) && '.' in filename && ToLowerCase(ExtensionOf(filename)) in ImageExtensions
  {
    if HasImageExtension(filename) {
      var ext :| ext in ImageExtensions && EndsWith(ToLowerCase(filename), "." + ext);
      ExtensionsHaveNoDot();
      SuffixIsLastExtension(filename, ext);
    }
    if '.' in filename && ToLowerCase(ExtensionOf(filename)) in ImageExtensions {
      LastExtensionIsSuffix(filename);
    }
  }

  /** An upper-case extension is accepted. */
  lemma UpperCaseExtensionAccepted()
    ensures IsImageFile("page.PNG")
  {
    assert !Includes("page.PNG", "__MACOSX") by {
      assert "page.PNG"[..8][0] != "__MACOSX"[0];
    }
    assert !Includes("page.PNG", ".DS_Store");
    assert !IsSystemFile("page.PNG");
    var lower := ToLowerCase("page.PNG");
    assert lower[4] == '.' && lower[5] == 'p' && lower[6] == 'n' && lower[7] == 'g';
    assert lower[4..] == "." + "png";
    assert "png" in ImageExtensions;
    assert EndsWith(lower, "." + "png");
  }

  /** Only the last extension counts. */
  lemma InnerExtensionIgnored()
    ensures !IsImageFile("page.png.txt")
  {
    var name := "page.png.txt";
    assert name[9..] == "txt";
    assert name[8] == '.';
    LastIndexOfUnique(name, '.', 8);
    assert ExtensionOf(name) == "txt";
    var lower := ToLowerCase("txt");
    assert lower[0] == 't' && lower[1] == 'x' && lower[2] == 't';
    assert lower == "txt";
    assert lower !in ImageExtensions;
    IsImageFileByExtension(name);
  }

  /** A bare extension without its dot is not an image. */
  lemma BareExtensionRejected()
    ensures !IsImageFile("png")
  {
  }

  /** Anything under a macOS metadata folder is skipped, whatever its extension. */
  lemma MetadataFolderRejected()
    ensures !IsImageFile("__MACOSX/page.jpg")
  {
  }

  // ---------------------------------------------------------------------------
  // The rename and options of resizeImage
  // ---------------------------------------------------------------------------

  /** `isPng`: the lower-cased name ends with `.png`. */
  predicate IsPng(filename: string)
  {
    EndsWith(ToLowerCase(filename), ".png")
  }

  /** The returned file name: a final `.png` (any case) becomes `.jpg`, other names are kept. */
  function ConvertedFilename(filename: string): (r: string)
    ensures |r| == |filename|
    ensures !IsPng(r)
    ensures IsPng(filename) ==> r[..|r| - 4] == filename[..|filename| - 4] && r[|r| - 4..] == ".jpg"
    ensures !IsPng(filename) ==> r == filename
  {
    if IsPng(filename) then
      var r := filename[..|filename| - 4] + ".jpg";
      assert ToLowerCase(r)[|r| - 2] == 'p';
      r
    else filename
  }

  /** Renaming twice is renaming once. */
  lemma ConvertedFilenameIdempotent(filename: string)
    ensures ConvertedFilename(ConvertedFilename(filename)) == ConvertedFilename(filename)
  {
  }

  /** The type given to the `File` wrapper: the blob's own type, `image/jpeg` when it has none. */
  function FileTypeFor(blobType: string): (t: string)
    ensures t != ""
    ensures blobType != "" ==> t == blobType
    ensures blobType == "" ==> t == JpegMimeType
  {
    if blobType != "" then blobType else JpegMimeType
  }

  /** The options record: the settings are passed through, and JPEG output is forced for PNGs only. */
  function CompressionOptionsFor(settings: ResizeSettings, filename: string): (o: CompressionOptions)
    ensures o.maxWidthOrHeight == settings.maxLongEdge && o.initialQuality == settings.quality
    ensures o.useWebWorker
    ensures o.fileType.Some? <==> IsPng(filename)
    ensures o.fileType.Some? ==> o.fileType.value == JpegMimeType
  {
    CompressionOptions(
      maxWidthOrHeight := settings.maxLongEdge,
      useWebWorker := true,
      initialQuality := settings.quality,
      fileType := if IsPng(filename) then Some(JpegMimeType) else None)
  }

  /**
   * `resizeImage`: wrap the blob in a `File`, compress it with the options above, and return the
   * compressed blob under the converted name; a failure of the compressor is passed on.
   */
  function ResizeImage(blob: Blob, settings: ResizeSettings, filename: string, compress: Compressor)
    : (r: Result<ResizedImageResult>)
    ensures var out := compress(WebFile(blob.bytes, filename, FileTypeFor(blob.mimeType)),
                                CompressionOptionsFor(settings, filename));
      && (r.Success? <==> out.Success?)
      && (r.Failure? ==> r.error == out.error)
      && (r.Success? ==> r.value.blob == out.value && r.value.filename == ConvertedFilename(filename))
  {
    var file := WebFile(blob.bytes, filename, FileTypeFor(blob.mimeType));
    var options := CompressionOptionsFor(settings, filename);
    match compress(file, options)
    case Failure(e) => Failure(e)
    case Success(resized) => Success(ResizedImageResult(resized, ConvertedFilename(filename)))
  }
}
