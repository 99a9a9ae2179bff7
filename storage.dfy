/**
 * The file system the pipeline reads and writes, and `pathlib` path
 * arithmetic.
 *
 * A `Disk` is the value of the file system: regular files with their bytes,
 * the directories that exist, and how many PDF downloads `download_pdf` has
 * requested so far (the one other side effect the modelled code has on it). `Store` is the
 * mutable file system the imperative operations update in place.
 */
module Storage {
  import opened Results
  import opened Text

  newtype byte = x: int | 0 <= x < 256

  type Bytes = seq<byte>

  /** A path as the text `str(path)` would give. */
  type Path = string

  datatype Disk = Disk(files: map<Path, Bytes>, dirs: set<Path>, requests: nat) {

    /** No path is both a regular file and a directory. */
    ghost predicate Valid() {
      forall p :: p in files ==> p !in dirs
    }

    /** `Path.exists()`. */
    predicate Exists(p: Path) {
      p in files || p in dirs
    }

    /** `Path.is_file()`. */
    predicate IsFile(p: Path) {
      p in files
    }
  }

  /** The byte codec under `read_text`/`write_text`: `encoding="utf-8"`, as raw `bytes.decode`/`str.encode`. */
  datatype Codec = Codec(encode: string -> Bytes, decode: Bytes -> Option<string>)

  /**
   * What UTF-8 guarantees of the raw codec: decoding an encoding gives the
   * text back, and encoding distributes over concatenation.
   */
  ghost predicate Lossless(codec: Codec) {
    && (forall s :: codec.decode(codec.encode(s)) == Some(s))
    && (forall a, b :: codec.encode(a + b) == codec.encode(a) + codec.encode(b))
  }

  /**
   * `Path.read_text(encoding="utf-8")`: the decoded bytes, with universal
   * newlines, so no '\r' survives the read. None is a `UnicodeDecodeError`.
   */
  function ReadText(codec: Codec, b: Bytes): (r: Option<string>)
    ensures r.Some? <==> codec.decode(b).Some?
    ensures r.Some? ==> '\r' !in r.value && |r.value| <= |codec.decode(b).value|
    ensures r.Some? && '\r' !in codec.decode(b).value ==> r == codec.decode(b)
  {
    match codec.decode(b)
    case None => None
    case Some(t) => Some(UniversalNewlines(t))
  }

  /** `write_text` followed by `read_text`: the text comes back with its carriage returns translated. */
  lemma WrittenTextReadsBack(codec: Codec, text: string)
    requires Lossless(codec)
    ensures ReadText(codec, codec.encode(text)) == Some(UniversalNewlines(text))
    ensures '\r' !in text ==> ReadText(codec, codec.encode(text)) == Some(text)
  {
  }

  lemma {:induction false} EncodeEmpty(codec: Codec)
    requires Lossless(codec)
    ensures codec.encode([]) == []
  {
    var e: string := [];
    assert e + e == e;
    assert codec.encode(e + e) == codec.encode(e) + codec.encode(e);
  }

  /** Writing one file that is not a directory keeps the disk well-formed and touches no other entry. */
  lemma WriteFrame(d: Disk, out: Path, content: Bytes)
    requires d.Valid() && out !in d.dirs
    ensures var d1 := d.(files := d.files[out := content]);
      && d1.Valid() && d1.dirs == d.dirs && d1.requests == d.requests
      && forall p :: p != out && p in d.files ==> p in d1.files && d1.files[p] == d.files[p]
  {
  }

  /** The mutable file system. */
  class Store {
    var files: map<Path, Bytes>
    var dirs: set<Path>
    var requests: nat

    /** The current contents, as a value. */
    function Value(): (d: Disk)
      reads this
      ensures d.files == files && d.dirs == dirs && d.requests == requests
    {
      Disk(files, dirs, requests)
    }

    /** No path is both a file and a directory. */
    ghost predicate Valid()
      reads this
    {
      Value().Valid()
    }

    /** `Path.write_bytes` / `Path.write_text`: the file at `p` now holds `content`, and nothing else changes. */
    method Write(p: Path, content: Bytes)
      modifies this
      ensures Value() == old(Value()).(files := old(files)[p := content])
      ensures old(Valid()) && p !in old(dirs) ==> Valid()
    {
      ghost var d := Value();
      if d.Valid() && p !in d.dirs { WriteFrame(d, p, content); }
      files := files[p := content];
    }

    constructor (d: Disk)
      requires d.Valid()
      ensures Value() == d && Valid()
    {
      files := d.files;
      dirs := d.dirs;
      requests := d.requests;
    }
  }

  /** `Path(dir) / name`. */
  function JoinPath(dir: Path, name: string): (p: Path)
    ensures |p| == |dir| + 1 + |name| && StartsWith(p, dir + "/")
    ensures '/' !in name ==> Name(p) == name
  {
    var p := dir + "/" + name;
    assert '/' !in name ==> Name(p) == name by {
      if '/' !in name {
        AfterLastOfJoin(dir, '/', name);
        assert dir + ['/'] + name == p;
      }
    }
    p
  }

  /** The name of `dir/stem + ext` is `stem + ext` when neither part holds a '/'. */
  lemma NameOfJoin(dir: Path, stem: string, ext: string)
    requires '/' !in stem && '/' !in ext
    ensures Name(JoinPath(dir, stem + ext)) == stem + ext
  {
    var name := stem + ext;
    assert '/' !in name by {
      forall k | 0 <= k < |name| ensures name[k] != '/' {
        if k < |stem| { assert name[k] == stem[k]; } else { assert name[k] == ext[k - |stem|]; }
      }
    }
  }

  /** `Path(dir) / (stem + ext)` for a stem and an extension without '/'. */
  function JoinFile(dir: Path, stem: string, ext: string): (p: Path)
    requires '/' !in stem && '/' !in ext
    ensures StartsWith(p, dir + "/")
    ensures Name(p) == stem + ext
  {
    NameOfJoin(dir, stem, ext);
    JoinPath(dir, stem + ext)
  }

  /** `Path.name`: the last component. */
  function Name(p: Path): (r: string)
    ensures '/' !in r && |r| <= |p| && r == p[|p| - |r|..]
    ensures |r| < |p| ==> p[|p| - |r| - 1] == '/'
  {
    AfterLast(p, '/')
  }

  /**
   * `Path.stem`: the name without its last suffix. The last '.' of the name
   * starts a suffix only when it is neither the first nor the last character.
   */
  function Stem(p: Path): (r: string)
    ensures '/' !in r
    ensures StartsWith(Name(p), r)
    ensures '.' !in Name(p) ==> r == Name(p)
    ensures |r| < |Name(p)| ==> r != [] && Name(p)[|r|] == '.' && |r| + 1 < |Name(p)|
    ensures |r| < |Name(p)| ==> '.' !in Name(p)[|r| + 1..]
    ensures forall k :: 0 < k < |Name(p)| - 1 && Name(p)[k] == '.' && '.' !in Name(p)[k + 1..] ==> r == Name(p)[..k]
  {
    StemCutsAtLastDot(Name(p));
    StemOfName(Name(p))
  }

  /** The stem depends on the name alone. */
  lemma StemIsStemOfName(p: Path)
    ensures Stem(p) == StemOfName(Name(p))
  {
  }

  /** The stem of one file name. */
  function StemOfName(name: string): (r: string)
    ensures '/' !in name ==> '/' !in r
    ensures StartsWith(name, r)
    ensures '.' !in name ==> r == name
    ensures |r| < |name| ==> r != [] && name[|r|] == '.' && |r| + 1 < |name|
  {
    var ext := AfterLast(name, '.');
    var k := |name| - |ext| - 1;
    if |ext| < |name| && k > 0 && ext != [] then
      assert forall i :: 0 <= i < k ==> name[..k][i] == name[i];
      name[..k]
    else
      name
  }

  /**
   * The cut is at the last '.' of the name: none follows it, and whenever
   * the name has a last '.' that is neither its first nor its last
   * character, the stem is everything before it.
   */
  lemma StemCutsAtLastDot(name: string)
    ensures var r := StemOfName(name);
      |r| < |name| ==> '.' !in name[|r| + 1..]
    ensures forall k :: 0 < k < |name| - 1 && name[k] == '.' && '.' !in name[k + 1..] ==> StemOfName(name) == name[..k]
  {
    forall k | 0 < k < |name| - 1 && name[k] == '.' && '.' !in name[k + 1..] ensures StemOfName(name) == name[..k] {
      AfterLastAt(name, '.', k);
    }
  }

  /** A suffix as `Path.suffix` returns it: a '.' and at least one more character, none of them '.' or '/'. */
  predicate IsSuffix(suffix: string) {
    |suffix| >= 2 && suffix[0] == '.' && '.' !in suffix[1..] && '/' !in suffix
  }

  /** '.' followed by an extension without '.' or '/' is a suffix. */
  lemma DotSuffix(ext: string)
    requires ext != [] && '.' !in ext && '/' !in ext
    ensures IsSuffix("." + ext)
  {
    assert ("." + ext)[1..] == ext;
  }

  /** The extensions the pipeline appends are suffixes, so none holds a '/'. */
  lemma KnownSuffixes()
    ensures IsSuffix(".pdf") && IsSuffix(".txt") && IsSuffix(".jsonl")
    ensures '/' !in ".pdf" && '/' !in ".txt" && '/' !in ".jsonl"
  {
    DotSuffix("pdf");
    DotSuffix("txt");
    DotSuffix("jsonl");
  }

  /** The stem of the name `stem.ext` is `stem`. */
  lemma {:induction false} StemOfSuffixed(stem: string, suffix: string)
    requires stem != [] && IsSuffix(suffix)
    ensures StemOfName(stem + suffix) == stem
  {
    var name := stem + suffix;
    var ext := suffix[1..];
    assert name == stem + ['.'] + ext by { assert suffix == ['.'] + ext; }
    AfterLastOfJoin(stem, '.', ext);
    assert |name| - |ext| - 1 == |stem|;
    assert name[..|stem|] == stem;
  }

  /** The stem of `dir/stem.ext` is `stem`, whatever '.' the stem itself holds. */
  lemma {:induction false} StemOfJoin(dir: Path, stem: string, suffix: string)
    requires stem != [] && '/' !in stem && IsSuffix(suffix)
    ensures Stem(JoinPath(dir, stem + suffix)) == stem
  {
    var name := stem + suffix;
    assert '/' !in name by {
      forall k | 0 <= k < |name| ensures name[k] != '/' {
        if k < |stem| { assert name[k] == stem[k]; }
        else { assert name[k] == suffix[k - |stem|]; }
      }
    }
    assert Name(JoinPath(dir, name)) == name;
    StemOfSuffixed(stem, suffix);
  }

  /** A name whose only '.' comes first has no suffix: `Path(".bashrc").stem == ".bashrc"`. */
  lemma LeadingDotIsNotASuffix(rest: string)
    requires '.' !in rest && '/' !in rest
    ensures Stem("." + rest) == "." + rest
  {
    var name := "." + rest;
    assert '/' !in name by {
      forall k | 0 <= k < |name| ensures name[k] != '/' {
        if k > 0 { assert name[k] == rest[k - 1]; }
      }
    }
    assert Name(name) == name;
    LeadingDotName(rest);
  }

  /** The name-level half of `LeadingDotIsNotASuffix`. */
  lemma LeadingDotName(rest: string)
    requires '.' !in rest
    ensures StemOfName("." + rest) == "." + rest
  {
    var none: string := [];
    AfterLastOfJoin(none, '.', rest);
    assert none + ['.'] + rest == "." + rest;
  }
}
