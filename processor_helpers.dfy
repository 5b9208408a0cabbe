/**
 * The pure helpers of src/hooks/useMangaProcessor.ts: the output name, path splitting and
 * rewriting, and the progress percentage.
 */
module ProcessorHelpers {
  import opened JsString
  import ImageService

  /** `OUTPUT_FILE_SUFFIX`. */
  const OutputFileSuffix: string := "_resized.zip"

  /** The name ends with `.zip` or `.cbz`, in any letter case (the `/\.(zip|cbz)$/i` pattern). */
  predicate HasArchiveExtension(name: string)
  {
    EndsWith(ToLowerCase(name), ".zip") || EndsWith(ToLowerCase(name), ".cbz")
  }

  /** `generateOutputFilename`: drop one trailing archive extension, then append the suffix. */
  function GenerateOutputFilename(inputFilename: string): (r: string)
    ensures EndsWith(r, OutputFileSuffix)
  {
    var stem := if HasArchiveExtension(inputFilename) then inputFilename[..|inputFilename| - 4] else inputFilename;
    EndsWithAppend(stem, OutputFileSuffix);
    stem + OutputFileSuffix
  }

  /** Exactly one archive extension is removed, whatever its letter case, and the rest is kept. */
  lemma {:induction false} OutputFilenameDropsArchiveExtension(stem: string, ext: string)
    requires ToLowerCase(ext) == ".zip" || ToLowerCase(ext) == ".cbz"
    ensures GenerateOutputFilename(stem + ext) == stem + OutputFileSuffix
  {
    var name := stem + ext;
    LowerCaseOfSuffix(name, |stem|);
    assert name[|stem|..] == ext;
    assert name[..|name| - 4] == stem;
  }

  /** Any other name is kept whole. */
  lemma OutputFilenameKeepsOtherNames(name: string)
    requires !HasArchiveExtension(name)
    ensures GenerateOutputFilename(name) == name + OutputFileSuffix
  {
  }

  /** `manga.zip` becomes `manga_resized.zip`. */
  lemma OutputFilenameOfZip()
    ensures GenerateOutputFilename("manga.zip") == "manga_resized.zip"
  {
    assert ToLowerCase(".zip") == ".zip" by {
      var ext := ToLowerCase(".zip");
      assert ext[0] == '.' && ext[1] == 'z' && ext[2] == 'i' && ext[3] == 'p';
    }
    OutputFilenameDropsArchiveExtension("manga", ".zip");
    assert "manga" + ".zip" == "manga.zip";
    assert "manga" + OutputFileSuffix == "manga_resized.zip";
  }

  /** Upper-case `.CBZ` is dropped too. */
  lemma OutputFilenameOfUpperCaseCbz()
    ensures GenerateOutputFilename("book.CBZ") == "book_resized.zip"
  {
    assert ToLowerCase(".CBZ") == ".cbz" by {
      var ext := ToLowerCase(".CBZ");
      assert ext[0] == '.' && ext[1] == 'c' && ext[2] == 'b' && ext[3] == 'z';
    }
    OutputFilenameDropsArchiveExtension("book", ".CBZ");
    assert "book" + ".CBZ" == "book.CBZ";
    assert "book" + OutputFileSuffix == "book_resized.zip";
  }

  /** `extractDirectory`: everything up to and including the last `/`, or `""`. */
  function ExtractDirectory(path: string): (dir: string)
    ensures '/' !in path ==> dir == ""
    ensures '/' in path ==> |dir| > 0 && dir[|dir| - 1] == '/'
    ensures dir <= path && '/' !in path[|dir|..]
  {
    path[..LastIndexOf(path, '/') + 1]
  }

  /** `extractFilename`: the last piece of `path.split('/')`, or the whole path when that piece is empty. */
  function ExtractFilename(path: string): (name: string)
  {
    var pieces := Split(path, '/');
    if pieces[|pieces| - 1] == "" then path else pieces[|pieces| - 1]
  }

  /**
   * The file name is everything after the last `/` (the whole path when there is none), except
   * for a path ending with `/`, whose file name is the whole path.
   */
  lemma ExtractFilenameAfterLastSlash(path: string)
    ensures !EndsWithSlash(path) ==> ExtractFilename(path) == path[LastIndexOf(path, '/') + 1..]
    ensures EndsWithSlash(path) ==> ExtractFilename(path) == path
  {
    LastSplitPiece(path, '/');
  }

  /** The path ends with a `/` (then its last piece is empty). */
  predicate EndsWithSlash(path: string)
  {
    |path| > 0 && path[|path| - 1] == '/'
  }

  /**
   * A path not ending in `/` is its directory followed by its file name, and the file name has no
   * `/`; a path ending in `/` is its own file name.
   */
  lemma {:induction false} DirectoryAndFilename(path: string)
    ensures !EndsWithSlash(path) ==> ExtractDirectory(path) + ExtractFilename(path) == path
    ensures !EndsWithSlash(path) ==> '/' !in ExtractFilename(path)
    ensures EndsWithSlash(path) ==> ExtractFilename(path) == path
  {
    LastSplitPiece(path, '/');
    var d := LastIndexOf(path, '/');
    ExtractFilenameAfterLastSlash(path);
    if path[d + 1..] == "" {
      assert d + 1 == |path|;
    } else {
      assert path[..d + 1] + path[d + 1..] == path;
    }
  }

  /** `updatePath`: keep the directory of `originalPath`, swap in `newFilename`. */
  function UpdatePath(originalPath: string, newFilename: string): (r: string)
    ensures |r| == |ExtractDirectory(originalPath)| + |newFilename|
    ensures r[..|ExtractDirectory(originalPath)|] == ExtractDirectory(originalPath)
    ensures r[|ExtractDirectory(originalPath)|..] == newFilename
  {
    ExtractDirectory(originalPath) + newFilename
  }

  /** Putting back a path's own file name gives the path back. */
  lemma UpdatePathWithOwnName(path: string)
    requires !EndsWithSlash(path)
    ensures UpdatePath(path, ExtractFilename(path)) == path
  {
    DirectoryAndFilename(path);
  }

  /** After an update with a `/`-free name, the directory is the old one and the file name the new one. */
  lemma {:induction false} UpdatePathSplitsBack(path: string, name: string)
    requires '/' !in name && name != ""
    ensures ExtractDirectory(UpdatePath(path, name)) == ExtractDirectory(path)
    ensures ExtractFilename(UpdatePath(path, name)) == name
  {
    var dir := ExtractDirectory(path);
    var p := UpdatePath(path, name);
    assert p[|p| - 1] == name[|name| - 1];
    if '/' in dir {
      assert p[|dir| - 1] == '/';
      LastIndexOfUnique(p, '/', |dir| - 1);
    } else {
      assert dir == [];
      assert p == name;
    }
    DirectoryAndFilename(p);
  }

  /** A path ends with `.png` (any case) exactly when its file name does. */
  lemma {:induction false} PngPathHasPngName(dir: string, name: string)
    requires dir == "" || dir[|dir| - 1] == '/'
    requires '/' !in name
    ensures ImageService.IsPng(dir + name) <==> ImageService.IsPng(name)
  {
    var path := dir + name;
    var lower := ToLowerCase(path);
    LowerCaseOfSuffix(path, |dir|);
    assert path[|dir|..] == name;
    if |name| >= 4 {
      assert ToLowerCase(name)[|name| - 4..] == lower[|path| - 4..];
    }
  }

  /** An eligible image path names a file, not a directory. */
  lemma ImagePathDoesNotEndWithSlash(path: string)
    requires ImageService.IsImageFile(path)
    ensures !EndsWithSlash(path)
  {
  }

  /**
   * The path the pipeline writes for an image: its directory followed by the converted file name.
   * For an eligible image this is the whole path with a final `.png` turned into `.jpg`.
   */
  lemma RewrittenImagePath(path: string)
    requires ImageService.IsImageFile(path)
    ensures UpdatePath(path, ImageService.ConvertedFilename(ExtractFilename(path)))
         == ImageService.ConvertedFilename(path)
  {
    ImagePathDoesNotEndWithSlash(path);
    RewrittenFilePath(path);
  }

  /** The same for any path that does not end with `/`. */
  lemma RewrittenFilePath(path: string)
    requires !EndsWithSlash(path)
    ensures UpdatePath(path, ImageService.ConvertedFilename(ExtractFilename(path)))
         == ImageService.ConvertedFilename(path)
  {
    DirectoryAndFilename(path);
    ConvertedAfterDirectory(ExtractDirectory(path), ExtractFilename(path));
  }

  /** Converting a file name behind its directory converts the whole path. */
  lemma ConvertedAfterDirectory(dir: string, name: string)
    requires dir == "" || dir[|dir| - 1] == '/'
    requires '/' !in name
    ensures dir + ImageService.ConvertedFilename(name) == ImageService.ConvertedFilename(dir + name)
  {
    PngPathHasPngName(dir, name);
    if ImageService.IsPng(name) {
      var newName := ImageService.ConvertedFilename(name);
      var newPath := ImageService.ConvertedFilename(dir + name);
      assert |name| >= 4 && |newPath| == |dir| + |name|;
      JoinedRename(dir, name, newName, newPath);
    }
  }

  /** Renaming the end of a name renames the end of any path ending in it. */
  lemma JoinedRename(dir: string, name: string, newName: string, newPath: string)
    requires |name| >= 4 && |newName| == |name| && |newPath| == |dir| + |name|
    requires newName[..|name| - 4] == name[..|name| - 4] && newName[|name| - 4..] == ".jpg"
    requires newPath[..|newPath| - 4] == (dir + name)[..|newPath| - 4] && newPath[|newPath| - 4..] == ".jpg"
    ensures dir + newName == newPath
  {
    forall k | 0 <= k < |newPath| ensures (dir + newName)[k] == newPath[k] {
      if k < |dir| {
        assert newPath[k] == newPath[..|newPath| - 4][k];
      } else if k < |newPath| - 4 {
        assert newPath[k] == newPath[..|newPath| - 4][k];
        assert newName[k - |dir|] == newName[..|name| - 4][k - |dir|];
      } else {
        assert newPath[k] == newPath[|newPath| - 4..][k - (|newPath| - 4)];
        assert newName[k - |dir|] == newName[|name| - 4..][k - |dir| - (|name| - 4)];
      }
    }
  }

  /**
   * `calculateProgress`: `Math.round(current / total * 100)`, i.e. the nearest whole percentage,
   * halves rounded up.
   */
  function CalculateProgress(current: int, total: int): (percent: int)
    requires total > 0
    ensures 0 <= current <= total ==> 0 <= percent <= 100
    ensures current == 0 ==> percent == 0
    ensures current == total ==> percent == 100
  {
    RoundedPercentBounds(current, total);
    (200 * current + total) / (2 * total)
  }

  lemma RoundedPercentBounds(current: int, total: int)
    requires total > 0
    ensures var percent := (200 * current + total) / (2 * total);
      && (0 <= current <= total ==> 0 <= percent <= 100)
      && (current == 0 ==> percent == 0)
      && (current == total ==> percent == 100)
  {
    var n, d := 200 * current + total, 2 * total;
    var percent := n / d;
    DivisionBounds(n, d);
    if 0 <= current <= total {
      if percent < 0 {
        MulMonotone(d, percent, -1);
      }
      if percent > 100 {
        MulMonotone(d, 101, percent);
      }
    }
    if current == 0 && percent != 0 {
      if percent < 0 {
        MulMonotone(d, percent, -1);
      } else {
        MulMonotone(d, 1, percent);
      }
    }
    if current == total && percent != 100 {
      if percent < 100 {
        MulMonotone(d, percent, 99);
      } else {
        MulMonotone(d, 101, percent);
      }
    }
  }

  /** Floor division brackets its dividend. */
  lemma DivisionBounds(n: int, d: int)
    requires d > 0
    ensures d * (n / d) <= n < d * (n / d) + d
  {
  }

  /** The percentage is the nearest whole number to `100 * current / total`, halves rounded up. */
  lemma ProgressRounds(current: int, total: int)
    requires total > 0
    ensures var percent := CalculateProgress(current, total);
      2 * total * percent <= 200 * current + total < 2 * total * (percent + 1)
  {
  }

  /** Progress never goes down as more images complete. */
  lemma {:induction false} ProgressMonotone(c1: int, c2: int, total: int)
    requires total > 0 && c1 <= c2
    ensures CalculateProgress(c1, total) <= CalculateProgress(c2, total)
  {
    var p1, p2 := CalculateProgress(c1, total), CalculateProgress(c2, total);
    ProgressRounds(c1, total);
    ProgressRounds(c2, total);
    if p1 > p2 {
      MulMonotone(2 * total, p2 + 1, p1);
    }
  }

  lemma MulMonotone(k: int, a: int, b: int)
    requires k > 0 && a <= b
    ensures k * a <= k * b
  {
  }
}
