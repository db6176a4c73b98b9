/** Text extraction: the dispatch of one file to image OCR or to the PDF
    extractor by its suffix, and the directory variant that extracts every path
    under a directory. The file system, the image-OCR engine and the set of image
    suffixes are inputs of the model. */
module OcrExtractor {
  import opened Wrappers
  import opened Paths

  /** The exceptions the extractor lets escape. */
  datatype ExtractError =
    | FileNotFound(path: Path)             // FileNotFoundError, for a file or a directory
    | UnsupportedFileType(suffix: string)  // ValueError: a suffix neither image nor PDF
    | NotADirectory(path: Path)            // ValueError: the directory variant got a non-directory
    | ImageOcrFailed(path: Path)           // whatever opening or reading the image raised

  /** What extraction sees of the world: the file system's answers, the
      recursive listing of every path below a directory (the glob), the image
      suffixes it supports (lower-case, with their dot) and the image-OCR
      engine, which gives the image's text or `None` when it raises. */
  datatype Environment = Environment(
    fileExists: Path -> bool,
    isDir: Path -> bool,
    glob: Path -> seq<Path>,
    imageTypes: set<string>,
    imageOcr: Path -> Option<string>)

  /** A Python dict from path to text, in insertion order: each key at most once. */
  type TextPerFile = seq<(Path, string)>

  predicate DistinctKeys(d: TextPerFile) {
    forall i, j :: 0 <= i < j < |d| ==> d[i].0 != d[j].0
  }

  function Keys(d: TextPerFile): set<Path> {
    set e | e in d :: e.0
  }

  lemma KeysCons(d: TextPerFile)
    requires d != []
    ensures Keys(d) == {d[0].0} + Keys(d[1..])
  {
    assert d == [d[0]] + d[1..];
  }

  lemma DistinctCons(d: TextPerFile)
    requires d != []
    ensures DistinctKeys(d) <==> DistinctKeys(d[1..]) && d[0].0 !in Keys(d[1..])
  {
    if DistinctKeys(d[1..]) && d[0].0 !in Keys(d[1..]) {
      forall i, j | 0 <= i < j < |d| ensures d[i].0 != d[j].0 {
        if i == 0 {
          assert d[j] == d[1..][j - 1];
        } else {
          assert d[i] == d[1..][i - 1] && d[j] == d[1..][j - 1];
        }
      }
    }
  }

  /** `d[k] = v`: an existing key keeps its place and takes the new value; a
      new key goes at the end. */
  function Put(d: TextPerFile, k: Path, v: string): (r: TextPerFile)
    requires DistinctKeys(d)
    ensures DistinctKeys(r)
    ensures Keys(r) == Keys(d) + {k}
    ensures k !in Keys(d) ==> r == d + [(k, v)]
    ensures forall e :: e in r ==> if e.0 == k then e.1 == v else e in d
    decreases |d|
  {
    if d == [] then [(k, v)]
    else if d[0].0 == k then
      var r := [(k, v)] + d[1..];
      KeysCons(d); KeysCons(r); DistinctCons(d); DistinctCons(r);
      assert r[1..] == d[1..];
      r
    else
      DistinctCons(d);
      var rest := Put(d[1..], k, v);
      var r := [d[0]] + rest;
      KeysCons(d); KeysCons(r); DistinctCons(r);
      assert r[1..] == rest;
      assert d == [d[0]] + d[1..];
      r
  }

  /** `extract_text(file_path)`: a missing path raises first; then the
      lower-cased suffix picks image OCR, the PDF extractor (which returns ""),
      or a `ValueError`. */
  function ExtractText(p: Path, env: Environment): (r: Result<string, ExtractError>)
    ensures !env.fileExists(p) ==> r == Failure(FileNotFound(p))
    ensures r.Success? ==> env.fileExists(p) && (Lower(Suffix(p)) in env.imageTypes || Lower(Suffix(p)) == ".pdf")
    ensures r == Failure(UnsupportedFileType(Suffix(p)))
            <==> env.fileExists(p) && Lower(Suffix(p)) !in env.imageTypes && Lower(Suffix(p)) != ".pdf"
  {
    if !env.fileExists(p) then Failure(FileNotFound(p))
    else if Lower(Suffix(p)) in env.imageTypes then
      match env.imageOcr(p)
      case Some(text) => Success(text)
      case None => Failure(ImageOcrFailed(p))
    else if Lower(Suffix(p)) == ".pdf" then Success("")
    else Failure(UnsupportedFileType(Suffix(p)))
  }

  /** A per-file extraction step, such as `extract_text` in a fixed environment. */
  type Extractor = Path -> Result<string, ExtractError>

  /** `extract_text` with the environment fixed. */
  function TextExtractor(env: Environment): Extractor {
    p => ExtractText(p, env)
  }

  /** The loop of `extract_all_documents`: every path, in order, through
      `extract` into the result dict; the first error ends it. */
  function ExtractEach(paths: seq<Path>, extract: Extractor): (r: Result<TextPerFile, ExtractError>)
    ensures r.Success? ==> DistinctKeys(r.value)
    decreases |paths|
  {
    if paths == [] then Success([])
    else
      match ExtractEach(paths[..|paths| - 1], extract)
      case Failure(e) => Failure(e)
      case Success(result) =>
        var p := paths[|paths| - 1];
        match extract(p)
        case Failure(e) => Failure(e)
        case Success(text) => Success(Put(result, p, text))
  }

  /** `extract_all_documents(dir_path)`: a missing directory raises
      FileNotFoundError, an existing non-directory raises ValueError, and
      otherwise every globbed path is extracted, any error escaping. */
  method ExtractAllDocuments(dir: Path, env: Environment) returns (r: Result<TextPerFile, ExtractError>)
    ensures !env.fileExists(dir) ==> r == Failure(FileNotFound(dir))
    ensures env.fileExists(dir) && !env.isDir(dir) ==> r == Failure(NotADirectory(dir))
    ensures env.fileExists(dir) && env.isDir(dir) ==> r == ExtractEach(env.glob(dir), TextExtractor(env))
  {
    if !env.fileExists(dir) {
      return Failure(FileNotFound(dir));
    }
    if !env.isDir(dir) {
      return Failure(NotADirectory(dir));
    }
    var result: TextPerFile := [];
    var filePaths := env.glob(dir);
    for i := 0 to |filePaths|
      invariant ExtractEach(filePaths[..i], TextExtractor(env)) == Success(result)
    {
      var filePath := filePaths[i];
      ExtractEachStep(filePaths, TextExtractor(env), i);
      // The text is extracted twice; the first result only matters through its error.
      var first := ExtractText(filePath, env);
      if first.Failure? {
        ExtractEachFailurePersists(filePaths, TextExtractor(env), i + 1);
        return Failure(first.error);
      }
      var text := ExtractText(filePath, env);
      result := Put(result, filePath, text.value);
    }
    assert filePaths[..|filePaths|] == filePaths;
    r := Success(result);
  }

  /** One more path: the run over the longer prefix extends the shorter one's result. */
  lemma ExtractEachStep(paths: seq<Path>, extract: Extractor, i: nat)
    requires i < |paths|
    ensures ExtractEach(paths[..i + 1], extract) ==
              match ExtractEach(paths[..i], extract)
              case Failure(e) => Failure(e)
              case Success(result) =>
                match extract(paths[i])
                case Failure(e) => Failure(e)
                case Success(text) => Success(Put(result, paths[i], text))
  {
    assert paths[..i + 1][..i] == paths[..i];
  }

  /** Once a prefix of the paths has failed, the whole run fails with the same error. */
  lemma {:induction false} ExtractEachFailurePersists(paths: seq<Path>, extract: Extractor, k: nat)
    requires k <= |paths|
    requires ExtractEach(paths[..k], extract).Failure?
    ensures ExtractEach(paths, extract) == ExtractEach(paths[..k], extract)
    decreases |paths| - k
  {
    if k < |paths| {
      assert paths[..k + 1][..k] == paths[..k];
      ExtractEachFailurePersists(paths, extract, k + 1);
    } else {
      assert paths[..k] == paths;
    }
  }

  /** The existence check comes first: a missing path raises FileNotFoundError
      whatever its suffix. */
  lemma MissingPathRaisesFirst(p: Path, env: Environment)
    requires !env.fileExists(p)
    ensures ExtractText(p, env) == Failure(FileNotFound(p))
  {
  }

  /** An existing path with an image suffix, in any case, goes to image OCR:
      it succeeds exactly when the OCR engine does, with the engine's text. */
  lemma ImageSuffixRoutesToOcr(p: Path, env: Environment)
    requires env.fileExists(p) && Lower(Suffix(p)) in env.imageTypes
    ensures ExtractText(p, env).Success? <==> env.imageOcr(p).Some?
    ensures ExtractText(p, env).Success? ==> ExtractText(p, env).value == env.imageOcr(p).value
  {
  }

  /** An existing path whose suffix is ".pdf" in any case, and not an image
      suffix, goes to the PDF extractor, which gives the empty text. */
  lemma PdfSuffixGivesEmptyText(p: Path, env: Environment)
    requires env.fileExists(p) && Lower(Suffix(p)) == ".pdf" && ".pdf" !in env.imageTypes
    ensures ExtractText(p, env) == Success("")
  {
  }

  /** Any other suffix of an existing path raises ValueError naming the suffix. */
  lemma OtherSuffixUnsupported(p: Path, env: Environment)
    requires env.fileExists(p) && Lower(Suffix(p)) !in env.imageTypes && Lower(Suffix(p)) != ".pdf"
    ensures ExtractText(p, env) == Failure(UnsupportedFileType(Suffix(p)))
  {
  }

  /** An existing text file is refused: "requirements.txt" raises ValueError. */
  lemma TextFileUnsupported(env: Environment)
    requires env.fileExists("requirements.txt") && ".txt" !in env.imageTypes
    ensures ExtractText("requirements.txt", env) == Failure(UnsupportedFileType(".txt"))
  {
    LowerKeeps(".txt");
    var p: Path := "requirements.txt";
    assert Suffix(p) == ".txt" by {
      assert p[13..] == "txt";
      SuffixAt(p, 12);
    }
    OtherSuffixUnsupported(p, env);
  }

  /** The distinct paths of a sequence. */
  function PathSet(paths: seq<Path>): set<Path> {
    set q | q in paths
  }

  /** The distinct paths of a non-empty sequence are those before its last one, and the last. */
  lemma LastPath(paths: seq<Path>)
    requires paths != []
    ensures PathSet(paths) == PathSet(paths[..|paths| - 1]) + {paths[|paths| - 1]}
  {
    var init := paths[..|paths| - 1];
    forall q | q in paths ensures q in init || q == paths[|paths| - 1] {
      var i :| 0 <= i < |paths| && paths[i] == q;
      if i < |paths| - 1 {
        assert init[i] == q;
      }
    }
  }

  /** Every one of `paths` extracts without error. */
  predicate AllExtract(paths: seq<Path>, extract: Extractor) {
    forall i :: 0 <= i < |paths| ==> extract(paths[i]).Success?
  }

  /** The loop runs to the end exactly when every path extracts. */
  lemma {:induction false} ExtractEachSucceedsIffAll(paths: seq<Path>, extract: Extractor)
    ensures ExtractEach(paths, extract).Success? <==> AllExtract(paths, extract)
    decreases |paths|
  {
    if paths != [] {
      var init := paths[..|paths| - 1];
      var p := paths[|paths| - 1];
      ExtractEachSucceedsIffAll(init, extract);
      ExtractEachSucceedsStep(paths, extract);
      AllExtractStep(paths, extract);
    }
  }

  /** Every path of a non-empty list extracts when every path before the last
      one does and the last one does. */
  lemma AllExtractStep(paths: seq<Path>, extract: Extractor)
    requires paths != []
    ensures AllExtract(paths, extract)
            <==> AllExtract(paths[..|paths| - 1], extract) && extract(paths[|paths| - 1]).Success?
  {
    var init := paths[..|paths| - 1];
    assert forall i :: 0 <= i < |init| ==> init[i] == paths[i];
  }

  /** The run over a non-empty list completes when the run before its last path
      completes and that path extracts. */
  lemma ExtractEachSucceedsStep(paths: seq<Path>, extract: Extractor)
    requires paths != []
    ensures ExtractEach(paths, extract).Success?
            <==> ExtractEach(paths[..|paths| - 1], extract).Success? && extract(paths[|paths| - 1]).Success?
  {
  }

  /** Every entry of `d` holds its key's extracted text. */
  predicate EntriesExtracted(d: TextPerFile, extract: Extractor) {
    forall e :: e in d ==> extract(e.0) == Success(e.1)
  }

  /** A completed run holds one entry per distinct path. */
  lemma {:induction false} ExtractEachKeys(paths: seq<Path>, extract: Extractor)
    requires ExtractEach(paths, extract).Success?
    ensures Keys(ExtractEach(paths, extract).value) == PathSet(paths)
    decreases |paths|
  {
    if paths != [] {
      var init := paths[..|paths| - 1];
      var p := paths[|paths| - 1];
      ExtractEachKeys(init, extract);
      var before := ExtractEach(init, extract).value;
      var after := Put(before, p, extract(p).value);
      assert ExtractEach(paths, extract).value == after;
      LastPath(paths);
    }
  }

  /** Each entry of a completed run holds its path's extracted text. */
  lemma {:induction false} ExtractEachValues(paths: seq<Path>, extract: Extractor)
    requires ExtractEach(paths, extract).Success?
    ensures EntriesExtracted(ExtractEach(paths, extract).value, extract)
    decreases |paths|
  {
    if paths != [] {
      var init := paths[..|paths| - 1];
      var p := paths[|paths| - 1];
      ExtractEachValues(init, extract);
      var before := ExtractEach(init, extract).value;
      var after := Put(before, p, extract(p).value);
      assert ExtractEach(paths, extract).value == after;
      forall e | e in after ensures extract(e.0) == Success(e.1) {
        if e.0 != p {
          assert e in before;
        }
      }
    }
  }

  /** A failed run fails with the error of the first path that does not
      extract: no partial dict comes back. */
  lemma {:induction false} ExtractEachFirstError(paths: seq<Path>, extract: Extractor)
    requires ExtractEach(paths, extract).Failure?
    ensures exists i :: 0 <= i < |paths| && extract(paths[i]) == Failure(ExtractEach(paths, extract).error)
                        && forall j :: 0 <= j < i ==> extract(paths[j]).Success?
    decreases |paths|
  {
    var init := paths[..|paths| - 1];
    var last := |paths| - 1;
    if ExtractEach(init, extract).Failure? {
      ExtractEachFirstError(init, extract);
      var i :| 0 <= i < |init| && extract(init[i]) == Failure(ExtractEach(init, extract).error)
               && forall j :: 0 <= j < i ==> extract(init[j]).Success?;
      assert paths[i] == init[i];
      assert forall j :: 0 <= j < i ==> paths[j] == init[j];
    } else {
      ExtractEachSucceedsIffAll(init, extract);
      assert forall j :: 0 <= j < last ==> paths[j] == init[j];
    }
  }
}
