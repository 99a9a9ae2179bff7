/**
 * The file-handling half of `pdf_loader.py`: cleaning text files, the PDF
 * download cache, text extraction and saving the extracted text.
 *
 * Each operation that changes the file system is a `Store` method, and its
 * outcome is specified by a function on `Disk` values; the properties are
 * proved about those functions. PyMuPDF is the caller-supplied `render`,
 * which gives the text of each page of a document, or None when the bytes do
 * not open as a document.
 */
module PdfLoader {
  import opened Results
  import opened Text
  import opened Storage
  import opened Web
  import opened TextCleaning

  const RAW_DIR: Path := "data/raw_papers"
  const PROCESSED_DIR: Path := "data/processed"

  // ---------------------------------------------------------------------
  // clean_file / clean_files
  // ---------------------------------------------------------------------

  /** `clean_file(path)`: the cleaned text of a regular UTF-8 file. */
  function CleanFile(d: Disk, path: Path, codec: Codec): (r: Result<string>)
    ensures !d.IsFile(path) ==> r == Err(FileNotFound(path))
    ensures d.IsFile(path) && ReadText(codec, d.files[path]).None? ==> r == Err(UnicodeDecode(path))
    ensures d.IsFile(path) && ReadText(codec, d.files[path]).Some? ==> r == Ok(CleanText(ReadText(codec, d.files[path]).value))
  {
    if !d.Exists(path) || !d.IsFile(path) then
      Err(FileNotFound(path))
    else
      match ReadText(codec, d.files[path])
      case None => Err(UnicodeDecode(path))
      case Some(text) => Ok(CleanText(text))
  }

  /** What `clean_file` returns has the properties of every cleaned text. */
  lemma CleanFileOutput(d: Disk, path: Path, codec: Codec)
    requires CleanFile(d, path, codec).Ok?
    ensures var t := CleanFile(d, path, codec).value;
      NoEdgeSpace(t) && forall c :: c in t ==> !IsTypographic(c) && c != '\t' && !IsDigit(c)
  {
    var text := ReadText(codec, d.files[path]).value;
    CleanTextStripped(text);
  }

  /** The argument of `clean_files`: one path, or a list of them. */
  datatype PathArg = Single(path: Path) | Many(paths: seq<Path>)

  function Paths(arg: PathArg): seq<Path> {
    match arg
    case Single(p) => [p]
    case Many(ps) => ps
  }

  /**
   * The list comprehension of `clean_files`: one cleaned text per path, in
   * order, or the exception of the first path that fails.
   */
  function CleanAll(d: Disk, paths: seq<Path>, codec: Codec): (r: Result<seq<string>>)
    ensures r.Ok? <==> forall i :: 0 <= i < |paths| ==> CleanFile(d, paths[i], codec).Ok?
    ensures r.Ok? ==> |r.value| == |paths| && forall i :: 0 <= i < |paths| ==> CleanFile(d, paths[i], codec) == Ok(r.value[i])
    ensures r.Err? ==> exists k :: 0 <= k < |paths| && CleanFile(d, paths[k], codec) == Err(r.error)
                                 && forall j :: 0 <= j < k ==> CleanFile(d, paths[j], codec).Ok?
  {
    Collect(paths, p => CleanFile(d, p, codec))
  }

  /**
   * `clean_files(file_paths)`: a single path is a one-element list; one
   * cleaned text per path, or the exception of the first path that fails.
   */
  function CleanFiles(d: Disk, arg: PathArg, codec: Codec): (r: Result<seq<string>>)
    ensures arg.Single? ==> Paths(arg) == [arg.path]
    ensures r.Ok? <==> forall i :: 0 <= i < |Paths(arg)| ==> CleanFile(d, Paths(arg)[i], codec).Ok?
    ensures r.Ok? ==> |r.value| == |Paths(arg)|
                      && forall i :: 0 <= i < |Paths(arg)| ==> CleanFile(d, Paths(arg)[i], codec) == Ok(r.value[i])
    ensures r.Err? ==> exists k :: 0 <= k < |Paths(arg)| && CleanFile(d, Paths(arg)[k], codec) == Err(r.error)
                                 && forall j :: 0 <= j < k ==> CleanFile(d, Paths(arg)[j], codec).Ok?
  {
    CleanAll(d, Paths(arg), codec)
  }

  /** A single path is cleaned as a one-element list. */
  lemma CleanFilesSingle(d: Disk, path: Path, codec: Codec)
    ensures CleanFile(d, path, codec).Ok? ==> CleanFiles(d, Single(path), codec) == Ok([CleanFile(d, path, codec).value])
    ensures CleanFile(d, path, codec).Err? ==> CleanFiles(d, Single(path), codec) == Err(CleanFile(d, path, codec).error)
  {
    var ps := [path];
    assert Paths(Single(path)) == ps && ps[0] == path;
    var r := CleanAll(d, ps, codec);
    if r.Ok? {
      assert r.value == [r.value[0]];
    }
  }

  /** A failure anywhere fails the whole call: no partial list is returned. */
  lemma CleanFilesMissing(d: Disk, paths: seq<Path>, k: nat, codec: Codec)
    requires k < |paths| && !d.IsFile(paths[k])
    ensures CleanFiles(d, Many(paths), codec).Err?
    ensures CleanFiles(d, Many(paths), codec).error.FileNotFound?
            || exists j :: 0 <= j < k && CleanFile(d, paths[j], codec) == Err(CleanFiles(d, Many(paths), codec).error)
  {
    var r := CleanAll(d, paths, codec);
    assert CleanFiles(d, Many(paths), codec) == r;
    assert CleanFile(d, paths[k], codec) == Err(FileNotFound(paths[k]));
    assert r.Err?;
    var j :| 0 <= j < |paths| && CleanFile(d, paths[j], codec) == Err(r.error)
             && forall i :: 0 <= i < j ==> CleanFile(d, paths[i], codec).Ok?;
    if j == k {
      assert r.error == FileNotFound(paths[k]);
    } else {
      assert j < k;
    }
  }

  // ---------------------------------------------------------------------
  // extract_text
  // ---------------------------------------------------------------------

  /** The page texts joined in order: what `text += page.get_text()` builds. */
  function Concat(pages: seq<string>): (r: string)
    ensures forall c :: c in r ==> exists i :: 0 <= i < |pages| && c in pages[i]
  {
    if pages == [] then ""
    else
      var front := pages[..|pages| - 1];
      assert forall i :: 0 <= i < |front| ==> front[i] == pages[i];
      Concat(front) + pages[|pages| - 1]
  }

  lemma {:induction false} ConcatAppend(a: seq<string>, b: seq<string>)
    ensures Concat(a + b) == Concat(a) + Concat(b)
    decreases |b|
  {
    if b == [] {
      assert a + b == a;
    } else {
      var front := b[..|b| - 1];
      assert (a + b)[..|a + b| - 1] == a + front;
      ConcatAppend(a, front);
    }
  }

  /** What `extract_text(path)` returns or raises. */
  function ExtractedText(d: Disk, path: Path, render: Bytes -> Option<seq<string>>): (r: Result<string>)
    ensures !d.Exists(path) ==> r == Err(FileNotFound(path))
    ensures d.Exists(path) && (!d.IsFile(path) || render(d.files[path]).None?) ==> r == Err(ExtractionFailed(path))
    ensures d.IsFile(path) && render(d.files[path]).Some? ==> r == Ok(Strip(Concat(render(d.files[path]).value)))
    ensures r.Ok? ==> NoEdgeSpace(r.value)
  {
    if !d.Exists(path) then Err(FileNotFound(path))
    else if !d.IsFile(path) then Err(ExtractionFailed(path))
    else
      match render(d.files[path])
      case None => Err(ExtractionFailed(path))
      case Some(pages) => Ok(Strip(Concat(pages)))
  }

  /** `extract_text(pdf_path)`: the page loop. */
  method ExtractText(fs: Store, path: Path, render: Bytes -> Option<seq<string>>) returns (r: Result<string>)
    ensures r == ExtractedText(fs.Value(), path, render)
  {
    if path !in fs.files && path !in fs.dirs {
      return Err(FileNotFound(path));
    }
    if path !in fs.files {
      return Err(ExtractionFailed(path));
    }
    var doc := render(fs.files[path]);
    if doc.None? {
      return Err(ExtractionFailed(path));
    }
    var pages := doc.value;
    var text := "";
    var i := 0;
    while i < |pages|
      invariant 0 <= i <= |pages|
      invariant text == Concat(pages[..i])
    {
      ConcatAppend(pages[..i], [pages[i]]);
      assert pages[..i + 1] == pages[..i] + [pages[i]];
      text := text + pages[i];
      i := i + 1;
    }
    assert pages[..i] == pages;
    return Ok(Strip(text));
  }

  // ---------------------------------------------------------------------
  // save_processed_text
  // ---------------------------------------------------------------------

  /** `PROCESSED_DIR / f"{pdf_path.stem}.txt"`. */
  function ProcessedPath(pdfPath: Path): (r: Path)
    ensures StartsWith(r, PROCESSED_DIR + "/")
    ensures Name(r) == Stem(pdfPath) + ".txt"
  {
    KnownSuffixes();
    JoinFile(PROCESSED_DIR, Stem(pdfPath), ".txt")
  }

  /**
   * What `save_processed_text` returns and the disk it leaves. The `clean`
   * flag is not a parameter: the code that would have used it is commented
   * out, so the text is saved exactly as extracted.
   */
  function SaveOutcome(d: Disk, pdfPath: Path, render: Bytes -> Option<seq<string>>, codec: Codec): (o: (Result<Path>, Disk))
    ensures o.0.Ok? <==> ExtractedText(d, pdfPath, render).Ok? && ProcessedPath(pdfPath) !in d.dirs
    ensures o.0.Ok? ==> o.0.value == ProcessedPath(pdfPath)
    ensures o.0.Ok? ==> o.1 == d.(files := d.files[ProcessedPath(pdfPath) := codec.encode(ExtractedText(d, pdfPath, render).value)])
    ensures o.0.Err? ==> o.1 == d
    ensures ExtractedText(d, pdfPath, render).Err? ==> o.0.error == ExtractedText(d, pdfPath, render).error
    ensures ExtractedText(d, pdfPath, render).Ok? && o.0.Err? ==> o.0.error == IsADirectory(ProcessedPath(pdfPath))
  {
    match ExtractedText(d, pdfPath, render)
    case Err(e) => (Err(e), d)
    case Ok(text) =>
      var out := ProcessedPath(pdfPath);
      if out in d.dirs then (Err(IsADirectory(out)), d)
      else (Ok(out), d.(files := d.files[out := codec.encode(text)]))
  }

  /** Once the text is extracted, only the kind of the processed path decides the outcome. */
  lemma SaveOutcomeOfText(d: Disk, pdfPath: Path, render: Bytes -> Option<seq<string>>, codec: Codec, text: string)
    requires ExtractedText(d, pdfPath, render) == Ok(text)
    ensures var out := ProcessedPath(pdfPath);
      SaveOutcome(d, pdfPath, render, codec)
      == if out in d.dirs then (Err(IsADirectory(out)), d) else (Ok(out), d.(files := d.files[out := codec.encode(text)]))
  {
  }

  /** Saving keeps the disk well formed and touches only the processed path. */
  lemma SaveKeepsValid(d: Disk, pdfPath: Path, render: Bytes -> Option<seq<string>>, codec: Codec)
    requires d.Valid()
    ensures var o := SaveOutcome(d, pdfPath, render, codec);
      && o.1.Valid() && o.1.dirs == d.dirs && o.1.requests == d.requests
      && forall p :: p != ProcessedPath(pdfPath) && p in d.files ==> p in o.1.files && o.1.files[p] == d.files[p]
  {
  }

  /**
   * The saved file holds the UTF-8 bytes of the extracted text; `read_text`
   * gives that text back with its carriage returns read as newlines, and
   * `clean_file` on it gives the cleaned translated text. Text without a
   * '\r' comes back as it was.
   */
  lemma SavedTextReadsBack(d: Disk, pdfPath: Path, render: Bytes -> Option<seq<string>>, codec: Codec)
    requires Lossless(codec)
    requires SaveOutcome(d, pdfPath, render, codec).0.Ok?
    ensures var o := SaveOutcome(d, pdfPath, render, codec);
      var text := ExtractedText(d, pdfPath, render).value;
      && codec.decode(o.1.files[o.0.value]) == Some(text)
      && ReadText(codec, o.1.files[o.0.value]) == Some(UniversalNewlines(text))
      && CleanFile(o.1, o.0.value, codec) == Ok(CleanText(UniversalNewlines(text)))
      && ('\r' !in text ==> CleanFile(o.1, o.0.value, codec) == Ok(CleanText(text)))
  {
  }

  /** `save_processed_text(pdf_path, clean)`. */
  method SaveProcessedText(fs: Store, pdfPath: Path, clean: bool, render: Bytes -> Option<seq<string>>, codec: Codec)
    returns (r: Result<Path>)
    modifies fs
    ensures (r, fs.Value()) == SaveOutcome(old(fs.Value()), pdfPath, render, codec)
    ensures old(fs.Valid()) ==> fs.Valid()
  {
    ghost var d := fs.Value();
    var text :- ExtractText(fs, pdfPath, render);
    var out := ProcessedPath(pdfPath);
    SaveOutcomeOfText(d, pdfPath, render, codec, text);
    if out in fs.dirs {
      return Err(IsADirectory(out));
    }
    fs.Write(out, codec.encode(text));
    return Ok(out);
  }

  // ---------------------------------------------------------------------
  // download_pdf
  // ---------------------------------------------------------------------

  /** `RAW_DIR / f"{arxiv_id}.pdf"`. */
  function RawPath(arxivId: string): (r: Path)
    ensures StartsWith(r, RAW_DIR + "/")
    ensures '/' !in arxivId ==> Name(r) == arxivId + ".pdf"
  {
    KnownSuffixes();
    if '/' in arxivId then JoinPath(RAW_DIR, arxivId + ".pdf") else JoinFile(RAW_DIR, arxivId, ".pdf")
  }

  /** The cache file of a paper is named after its id, so its stem gives the id back. */
  lemma RawPathStem(arxivId: string)
    requires arxivId != [] && '/' !in arxivId
    ensures Stem(RawPath(arxivId)) == arxivId
  {
    KnownSuffixes();
    StemOfJoin(RAW_DIR, arxivId, ".pdf");
  }

  /** The processed text of a cached paper goes to `data/processed/{arxiv_id}.txt`. */
  lemma ProcessedPathOfRawPath(arxivId: string)
    requires arxivId != [] && '/' !in arxivId
    ensures ProcessedPath(RawPath(arxivId)) == JoinPath(PROCESSED_DIR, arxivId + ".txt")
  {
    RawPathStem(arxivId);
  }

  /** `not getattr(paper, "pdf_url", None)`: no URL, or the empty one. */
  predicate NoUrl(pdfUrl: Option<string>) {
    pdfUrl.None? || pdfUrl.value == ""
  }

  /** What `download_pdf` returns and the disk it leaves; `respond` answers `requests.get`. */
  function DownloadOutcome(d: Disk, arxivId: string, pdfUrl: Option<string>, respond: string -> Response)
    : (o: (Result<Option<Path>>, Disk))
    ensures NoUrl(pdfUrl) ==> o == (Ok(None), d)
    ensures !NoUrl(pdfUrl) && d.Exists(RawPath(arxivId)) ==> o == (Ok(Some(RawPath(arxivId))), d)
    ensures !NoUrl(pdfUrl) && !d.Exists(RawPath(arxivId)) ==>
      var resp := respond(pdfUrl.value);
      && o.1.requests == d.requests + 1 && o.1.dirs == d.dirs
      && (IsHttpError(resp.status) ==> o.0 == Err(HttpStatus(resp.status)) && o.1.files == d.files)
      && (!IsHttpError(resp.status) ==> o.0 == Ok(Some(RawPath(arxivId))) && o.1.files == d.files[RawPath(arxivId) := resp.content])
  {
    if NoUrl(pdfUrl) then (Ok(None), d)
    else
      var path := RawPath(arxivId);
      if d.Exists(path) then (Ok(Some(path)), d)
      else
        var d1 := d.(requests := d.requests + 1);
        match RaiseForStatus(respond(pdfUrl.value))
        case Err(e) => (Err(e), d1)
        case Ok(content) => (Ok(Some(path)), d1.(files := d1.files[path := content]))
  }

  /** A download writes at most the cache path, issues at most one request, and keeps the disk well formed. */
  lemma DownloadFrame(d: Disk, arxivId: string, pdfUrl: Option<string>, respond: string -> Response)
    requires d.Valid()
    ensures var o := DownloadOutcome(d, arxivId, pdfUrl, respond);
      && o.1.Valid() && o.1.dirs == d.dirs && d.requests <= o.1.requests <= d.requests + 1
      && (forall p :: p != RawPath(arxivId) ==> (p in o.1.files <==> p in d.files))
      && (forall p :: p != RawPath(arxivId) && p in d.files ==> o.1.files[p] == d.files[p])
      && (o.0.Ok? && o.0.value.Some? ==> o.1.Exists(RawPath(arxivId)))
  {
  }

  /**
   * A second call with the same paper never fetches: after a first call that
   * returned a path, the second returns the same path and leaves the disk as
   * it is.
   */
  lemma {:induction false} DownloadTwice(d: Disk, arxivId: string, pdfUrl: Option<string>, respond: string -> Response)
    requires DownloadOutcome(d, arxivId, pdfUrl, respond).0.Ok?
    ensures var o1 := DownloadOutcome(d, arxivId, pdfUrl, respond);
      var o2 := DownloadOutcome(o1.1, arxivId, pdfUrl, respond);
      o2 == o1
  {
    var o1 := DownloadOutcome(d, arxivId, pdfUrl, respond);
    if !NoUrl(pdfUrl) {
      assert o1.1.Exists(RawPath(arxivId));
    }
  }

  /** An error status is raised before anything is written. */
  lemma ErrorStatusWritesNothing(d: Disk, arxivId: string, url: string, respond: string -> Response)
    requires url != "" && !d.Exists(RawPath(arxivId)) && IsHttpError(respond(url).status)
    ensures var o := DownloadOutcome(d, arxivId, Some(url), respond);
      o.0 == Err(HttpStatus(respond(url).status)) && o.1.files == d.files && !o.1.Exists(RawPath(arxivId))
  {
  }

  /** `download_pdf(paper)`. */
  method DownloadPdf(fs: Store, arxivId: string, pdfUrl: Option<string>, respond: string -> Response)
    returns (r: Result<Option<Path>>)
    modifies fs
    ensures (r, fs.Value()) == DownloadOutcome(old(fs.Value()), arxivId, pdfUrl, respond)
    ensures old(fs.Valid()) ==> fs.Valid()
  {
    ghost var d := fs.Value();
    if d.Valid() { DownloadFrame(d, arxivId, pdfUrl, respond); }
    if pdfUrl.None? || pdfUrl.value == "" {
      return Ok(None);
    }
    var path := RawPath(arxivId);
    if path in fs.files || path in fs.dirs {
      return Ok(Some(path));
    }
    fs.requests := fs.requests + 1;
    var resp := respond(pdfUrl.value);
    var content :- RaiseForStatus(resp);
    fs.Write(path, content);
    return Ok(Some(path));
  }
}
