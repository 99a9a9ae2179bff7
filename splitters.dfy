/**
 * Chunking a cleaned text file into a JSON Lines file.
 *
 * The text splitter (a `RecursiveCharacterTextSplitter` configured with
 * 500-character chunks overlapping by 100) is the parameter `split`, and
 * `json.dumps` of one record is the parameter `serialize`. What the model
 * pins down is the rest: which file is read, which file is written, which
 * record goes on which line, and that the output is truncated first.
 */
module Splitters {
  import opened Results
  import opened Text
  import opened Storage
  import PdfLoader

  /** `Path("data") / "chunks"`. */
  const CHUNKS_DIR: Path := "data/chunks"

  /** The splitter's configuration. */
  const CHUNK_SIZE := 500
  const CHUNK_OVERLAP := 100

  /** Consecutive chunks share less than a whole chunk, so the splitter always makes progress. */
  lemma OverlapBelowSize()
    ensures 0 <= CHUNK_OVERLAP < CHUNK_SIZE
  {
  }

  /** One line of the output: the dictionary `record` of `split_and_save`. */
  datatype ChunkRecord = ChunkRecord(paperId: string, chunkId: nat, text: string, source: string)

  /** The records of one file, one per chunk, numbered from 0. */
  function Records(stem: string, source: Path, chunks: seq<string>): (rs: seq<ChunkRecord>)
    ensures |rs| == |chunks|
    ensures forall i :: 0 <= i < |rs| ==> rs[i] == ChunkRecord(stem, i, chunks[i], source)
  {
    seq(|chunks|, i requires 0 <= i < |chunks| => ChunkRecord(stem, i, chunks[i], source))
  }

  lemma {:induction false} RecordsPrefix(stem: string, source: Path, chunks: seq<string>, i: nat)
    requires i < |chunks|
    ensures Records(stem, source, chunks)[..i + 1]
         == Records(stem, source, chunks)[..i] + [ChunkRecord(stem, i, chunks[i], source)]
  {
    var rs := Records(stem, source, chunks);
    assert rs[i] == ChunkRecord(stem, i, chunks[i], source);
    assert rs[..i + 1] == rs[..i] + [rs[i]];
  }

  /** `CHUNKS_DIR / f"{file_path.stem}.jsonl"`. */
  function ChunkPath(path: Path): (r: Path)
    ensures StartsWith(r, CHUNKS_DIR + "/")
    ensures Name(r) == Stem(path) + ".jsonl"
  {
    KnownSuffixes();
    JoinFile(CHUNKS_DIR, Stem(path), ".jsonl")
  }

  /** The written text: every serialized record followed by a newline. */
  function Lines(serialize: ChunkRecord -> string, rs: seq<ChunkRecord>): string {
    if rs == [] then "" else serialize(rs[0]) + "\n" + Lines(serialize, rs[1..])
  }

  /** The bytes written: the encoding of every line, one `f.write` after another. */
  function EncodedLines(codec: Codec, serialize: ChunkRecord -> string, rs: seq<ChunkRecord>): Bytes {
    if rs == [] then [] else codec.encode(serialize(rs[0]) + "\n") + EncodedLines(codec, serialize, rs[1..])
  }

  /** One more `f.write` appends one more encoded line. */
  lemma {:induction false} EncodedLinesAppend(codec: Codec, serialize: ChunkRecord -> string, rs: seq<ChunkRecord>, r: ChunkRecord)
    ensures EncodedLines(codec, serialize, rs + [r]) == EncodedLines(codec, serialize, rs) + codec.encode(serialize(r) + "\n")
  {
    if rs == [] {
      assert rs + [r] == [r];
      assert [r][1..] == rs;
    } else {
      assert (rs + [r])[1..] == rs[1..] + [r];
      EncodedLinesAppend(codec, serialize, rs[1..], r);
    }
  }

  /** Written line by line or all at once, a lossless codec gives the same bytes. */
  lemma {:induction false} EncodedLinesLossless(codec: Codec, serialize: ChunkRecord -> string, rs: seq<ChunkRecord>)
    requires Lossless(codec)
    ensures EncodedLines(codec, serialize, rs) == codec.encode(Lines(serialize, rs))
  {
    if rs == [] {
      EncodeEmpty(codec);
    } else {
      EncodedLinesLossless(codec, serialize, rs[1..]);
      var line := serialize(rs[0]) + "\n";
      assert Lines(serialize, rs) == line + Lines(serialize, rs[1..]);
      assert codec.encode(line + Lines(serialize, rs[1..])) == codec.encode(line) + codec.encode(Lines(serialize, rs[1..]));
    }
  }

  /** The lines of a text, each without its terminating newline; a last unterminated line counts too. */
  function SplitLines(s: string): seq<string>
    decreases |s|
  {
    if s == "" then []
    else
      match IndexOf(s, '\n')
      case None => [s]
      case Some(k) => [s[..k]] + SplitLines(s[k + 1..])
  }

  /**
   * `json.dumps` without `indent` escapes newlines and carriage returns, so
   * no serialized record spans two lines or changes when read in text mode.
   */
  ghost predicate SingleLine(serialize: ChunkRecord -> string) {
    forall r :: '\n' !in serialize(r) && '\r' !in serialize(r)
  }

  /** JSON Lines text holds no carriage return, so text-mode reading leaves it as written. */
  lemma {:induction false} LinesHaveNoCarriageReturn(serialize: ChunkRecord -> string, rs: seq<ChunkRecord>)
    requires SingleLine(serialize)
    ensures '\r' !in Lines(serialize, rs)
  {
    if rs != [] {
      LinesHaveNoCarriageReturn(serialize, rs[1..]);
      assert '\r' !in serialize(rs[0]);
    }
  }

  /** Reading JSON Lines back gives the serialized records, one per line, in order. */
  lemma {:induction false} SplitLinesOfLines(serialize: ChunkRecord -> string, rs: seq<ChunkRecord>)
    requires SingleLine(serialize)
    ensures |SplitLines(Lines(serialize, rs))| == |rs|
    ensures forall i :: 0 <= i < |rs| ==> SplitLines(Lines(serialize, rs))[i] == serialize(rs[i])
  {
    if rs != [] {
      SplitLinesOfLines(serialize, rs[1..]);
      SplitLinesOfLinesStep(serialize, rs);
    }
  }

  /** One step of `SplitLinesOfLines`: the first record is split off and the rest read as before. */
  lemma SplitLinesOfLinesStep(serialize: ChunkRecord -> string, rs: seq<ChunkRecord>)
    requires SingleLine(serialize) && rs != []
    requires |SplitLines(Lines(serialize, rs[1..]))| == |rs| - 1
    requires forall i :: 0 <= i < |rs| - 1 ==> SplitLines(Lines(serialize, rs[1..]))[i] == serialize(rs[1..][i])
    ensures |SplitLines(Lines(serialize, rs))| == |rs|
    ensures forall i :: 0 <= i < |rs| ==> SplitLines(Lines(serialize, rs))[i] == serialize(rs[i])
  {
    var ls := SplitLines(Lines(serialize, rs[1..]));
    var whole := SplitLines(Lines(serialize, rs));
    LinesSplitOff(serialize, rs);
    assert whole == [serialize(rs[0])] + ls;
    forall i | 1 <= i < |rs| ensures whole[i] == serialize(rs[i]) {
      assert whole[i] == ls[i - 1];
      assert rs[i] == rs[1..][i - 1];
    }
  }

  /** The first serialized record is the first line. */
  lemma LinesSplitOff(serialize: ChunkRecord -> string, rs: seq<ChunkRecord>)
    requires SingleLine(serialize) && rs != []
    ensures SplitLines(Lines(serialize, rs)) == [serialize(rs[0])] + SplitLines(Lines(serialize, rs[1..]))
  {
    var first := serialize(rs[0]);
    var rest := Lines(serialize, rs[1..]);
    assert Lines(serialize, rs) == first + "\n" + rest;
    SplitLinesCons(first, rest);
  }

  /** A first line without a newline is split off, and the rest is split on. */
  lemma SplitLinesCons(first: string, rest: string)
    requires '\n' !in first
    ensures SplitLines(first + "\n" + rest) == [first] + SplitLines(rest)
  {
    var s := first + "\n" + rest;
    AppendAssoc(first, "\n", rest);
    IndexOfAt(first, '\n', "\n" + rest);
    assert s[|first| + 1..] == rest;
  }

  /** `split_and_save` with the output path and the stem already worked out. */
  function SplitInto(d: Disk, path: Path, out: Path, stem: string, split: string -> seq<string>,
                     serialize: ChunkRecord -> string, codec: Codec): (o: (Result<Path>, Disk))
    ensures !d.IsFile(path) ==> o == (Err(FileNotFound(path)), d)
    ensures d.IsFile(path) && ReadText(codec, d.files[path]).None? ==> o == (Err(UnicodeDecode(path)), d)
    ensures d.IsFile(path) && ReadText(codec, d.files[path]).Some? && out in d.dirs ==> o == (Err(IsADirectory(out)), d)
    ensures o.0.Ok? <==> d.IsFile(path) && ReadText(codec, d.files[path]).Some? && out !in d.dirs
    ensures o.0.Ok? ==>
      && o.0.value == out
      && o.1 == d.(files := d.files[out := EncodedLines(codec, serialize, Records(stem, path, split(ReadText(codec, d.files[path]).value)))])
  {
    if !d.Exists(path) || !d.IsFile(path) then (Err(FileNotFound(path)), d)
    else
      match ReadText(codec, d.files[path])
      case None => (Err(UnicodeDecode(path)), d)
      case Some(text) =>
        if out in d.dirs then (Err(IsADirectory(out)), d)
        else
          var rs := Records(stem, path, split(text));
          (Ok(out), d.(files := d.files[out := EncodedLines(codec, serialize, rs)]))
  }

  /** What `split_and_save` returns and the disk it leaves. */
  function SplitOutcome(d: Disk, path: Path, split: string -> seq<string>, serialize: ChunkRecord -> string, codec: Codec)
    : (o: (Result<Path>, Disk))
    ensures !d.IsFile(path) ==> o == (Err(FileNotFound(path)), d)
    ensures d.IsFile(path) && ReadText(codec, d.files[path]).None? ==> o == (Err(UnicodeDecode(path)), d)
    ensures d.IsFile(path) && ReadText(codec, d.files[path]).Some? && ChunkPath(path) in d.dirs ==>
      o == (Err(IsADirectory(ChunkPath(path))), d)
    ensures o.0.Ok? <==> d.IsFile(path) && ReadText(codec, d.files[path]).Some? && ChunkPath(path) !in d.dirs
    ensures o.0.Ok? ==>
      && o.0.value == ChunkPath(path)
      && o.1 == d.(files := d.files[ChunkPath(path) :=
           EncodedLines(codec, serialize, Records(Stem(path), path, split(ReadText(codec, d.files[path]).value)))])
  {
    SplitInto(d, path, ChunkPath(path), Stem(path), split, serialize, codec)
  }

  /** `split_and_save(file_path)`. */
  method SplitAndSave(fs: Store, path: Path, split: string -> seq<string>, serialize: ChunkRecord -> string, codec: Codec)
    returns (r: Result<Path>)
    modifies fs
    ensures (r, fs.Value()) == SplitOutcome(old(fs.Value()), path, split, serialize, codec)
    ensures old(fs.Valid()) ==> fs.Valid()
  {
    ghost var d := fs.Value();
    if d.Valid() { SplitFrame(d, path, split, serialize, codec); }
    if !fs.Value().Exists(path) || !fs.Value().IsFile(path) {
      return Err(FileNotFound(path));
    }
    var decoded := ReadText(codec, fs.files[path]);
    if decoded.None? {
      return Err(UnicodeDecode(path));
    }
    var chunks := split(decoded.value);
    var out := ChunkPath(path);
    if out in fs.dirs {
      return Err(IsADirectory(out));
    }
    WriteRecords(fs, out, Stem(path), path, chunks, serialize, codec);
    return Ok(out);
  }

  /**
   * `with output_path.open("w") as f:` and its loop: the file is truncated,
   * then record i is written as line i.
   */
  method WriteRecords(fs: Store, out: Path, stem: string, source: Path, chunks: seq<string>,
                      serialize: ChunkRecord -> string, codec: Codec)
    modifies fs
    ensures fs.Value() == old(fs.Value()).(files := old(fs.files)[out :=
              EncodedLines(codec, serialize, Records(stem, source, chunks))])
    ensures old(fs.Valid()) && out !in old(fs.dirs) ==> fs.Valid()
  {
    ghost var d := fs.Value();
    if d.Valid() && out !in d.dirs { WriteFrame(d, out, EncodedLines(codec, serialize, Records(stem, source, chunks))); }
    ghost var rs := Records(stem, source, chunks);
    fs.files := fs.files[out := []];
    var i := 0;
    while i < |chunks|
      invariant 0 <= i <= |chunks|
      invariant fs.files == old(fs.files)[out := EncodedLines(codec, serialize, rs[..i])]
      invariant fs.dirs == old(fs.dirs) && fs.requests == old(fs.requests)
    {
      var record := ChunkRecord(stem, i, chunks[i], source);
      RecordsPrefix(stem, source, chunks, i);
      EncodedLinesAppend(codec, serialize, rs[..i], record);
      fs.files := fs.files[out := fs.files[out] + codec.encode(serialize(record) + "\n")];
      i := i + 1;
    }
    assert rs[..i] == rs;
  }

  /**
   * The output file reads back as exactly one line per chunk, whatever it
   * held before: line i is the record with chunk id i and text chunks[i],
   * under the file's stem and path.
   */
  lemma {:induction false} ChunksReadBack(d: Disk, path: Path, split: string -> seq<string>,
                                          serialize: ChunkRecord -> string, codec: Codec)
    requires Lossless(codec) && SingleLine(serialize)
    requires SplitOutcome(d, path, split, serialize, codec).0.Ok?
    ensures var o := SplitOutcome(d, path, split, serialize, codec);
      var chunks := split(ReadText(codec, d.files[path]).value);
      var written := ReadText(codec, o.1.files[o.0.value]);
      && written.Some?
      && |SplitLines(written.value)| == |chunks|
      && forall i :: 0 <= i < |chunks| ==>
           SplitLines(written.value)[i] == serialize(ChunkRecord(Stem(path), i, chunks[i], path))
  {
    var chunks := split(ReadText(codec, d.files[path]).value);
    var rs := Records(Stem(path), path, chunks);
    EncodedLinesLossless(codec, serialize, rs);
    LinesHaveNoCarriageReturn(serialize, rs);
    SplitLinesOfLines(serialize, rs);
  }

  /** Only the output file changes; every other file and every directory stays as it was. */
  lemma SplitFrame(d: Disk, path: Path, split: string -> seq<string>, serialize: ChunkRecord -> string, codec: Codec)
    requires d.Valid()
    ensures var o := SplitOutcome(d, path, split, serialize, codec);
      && o.1.Valid() && o.1.dirs == d.dirs && o.1.requests == d.requests
      && forall p :: p != ChunkPath(path) && p in d.files ==> p in o.1.files && o.1.files[p] == d.files[p]
  {
    var o := SplitOutcome(d, path, split, serialize, codec);
    if o.0.Ok? {
      var text := ReadText(codec, d.files[path]).value;
      WriteFrame(d, ChunkPath(path), EncodedLines(codec, serialize, Records(Stem(path), path, split(text))));
    }
  }

  /** Truncation, first half: what the output file held before does not change the result. */
  lemma OldOutputIgnoredResult(d: Disk, path: Path, oldContent: Bytes, split: string -> seq<string>,
                               serialize: ChunkRecord -> string, codec: Codec)
    requires ChunkPath(path) != path
    ensures SplitOutcome(d.(files := d.files[ChunkPath(path) := oldContent]), path, split, serialize, codec).0
         == SplitOutcome(d, path, split, serialize, codec).0
  {
    OldOutputIgnoredInto(d, path, ChunkPath(path), Stem(path), oldContent, split, serialize, codec);
  }

  /** Both halves of truncation, for any output path other than the input and any stem. */
  lemma {:induction false} OldOutputIgnoredInto(d: Disk, path: Path, out: Path, stem: string, oldContent: Bytes,
                                                split: string -> seq<string>, serialize: ChunkRecord -> string, codec: Codec)
    requires out != path
    ensures SplitInto(d.(files := d.files[out := oldContent]), path, out, stem, split, serialize, codec).0
         == SplitInto(d, path, out, stem, split, serialize, codec).0
    ensures SplitInto(d, path, out, stem, split, serialize, codec).0.Ok? ==>
      SplitInto(d.(files := d.files[out := oldContent]), path, out, stem, split, serialize, codec)
      == SplitInto(d, path, out, stem, split, serialize, codec)
  {
    var d0 := d.(files := d.files[out := oldContent]);
    assert d0.IsFile(path) == d.IsFile(path);
    if d.IsFile(path) {
      assert d0.files[path] == d.files[path];
      if ReadText(codec, d.files[path]).Some? {
        var text := ReadText(codec, d.files[path]).value;
        var e := EncodedLines(codec, serialize, Records(stem, path, split(text)));
        assert d0.files[out := e] == d.files[out := e];
      }
    }
  }

  /**
   * Truncation, second half: when the output is another file than the
   * input, what it held before makes no difference to the disk
   * `split_and_save` leaves.
   */
  lemma {:induction false} OldOutputIgnored(d: Disk, path: Path, oldContent: Bytes, split: string -> seq<string>,
                                            serialize: ChunkRecord -> string, codec: Codec)
    requires ChunkPath(path) != path
    requires SplitOutcome(d, path, split, serialize, codec).0.Ok?
    ensures SplitOutcome(d.(files := d.files[ChunkPath(path) := oldContent]), path, split, serialize, codec)
         == SplitOutcome(d, path, split, serialize, codec)
  {
    OldOutputIgnoredInto(d, path, ChunkPath(path), Stem(path), oldContent, split, serialize, codec);
  }

  /** The text of a processed paper keeps the stem of the original pdf. */
  lemma ProcessedStem(pdfPath: Path)
    requires Stem(pdfPath) != []
    ensures Stem(PdfLoader.ProcessedPath(pdfPath)) == Stem(pdfPath)
  {
    var q := PdfLoader.ProcessedPath(pdfPath);
    assert Name(q) == Stem(pdfPath) + ".txt";
    KnownSuffixes();
    StemOfSuffixed(Stem(pdfPath), ".txt");
    StemIsStemOfName(q);
  }

  /** The chunks of a processed paper go to `data/chunks/{stem}.jsonl`, under the stem of the original pdf. */
  lemma ChunkPathOfProcessed(pdfPath: Path)
    requires Stem(pdfPath) != []
    ensures ChunkPath(PdfLoader.ProcessedPath(pdfPath)) == JoinPath(CHUNKS_DIR, Stem(pdfPath) + ".jsonl")
  {
    ProcessedStem(pdfPath);
  }
}
