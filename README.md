# PaperTrail ingestion core, in Dafny

PaperTrail pulls paper metadata from the arXiv Atom API and downloads each paper's PDF. It extracts and cleans the text, then splits it into chunks, which it stores as JSON Lines for later indexing. This project models the logic of that pipeline and proves what it does:

- `clean_text`, the six-step text normaliser, and `clean_file` / `clean_files` on top of it.
- The PDF cache (`download_pdf`), text extraction (`extract_text`) and saving of processed text (`save_processed_text`).
- The arXiv client: the query URL and the decoding of every feed entry into a `Paper`.
- `split_and_save`: numbering the chunks and writing the JSON Lines file.
- The `Paper` record and its validation.

Modules, one per source file, plus shared ones:

| file | module | models |
|---|---|---|
| `results.dfy` | `Results` | `Option`, `Result` with the exceptions the code raises, and `Collect`, a loop that stops at the first exception |
| `text.dfy` | `Text` | `str.strip`, `split("/")[-1]`, `str(int)`, `str.join`, the universal newlines of text-mode reading; ASCII `\s` and `\d` |
| `storage.dfy` | `Storage` | the file system (`Disk` value, `Store` class), `read_text`, and `pathlib` names and stems |
| `web.dfy` | `Web` | HTTP responses and `raise_for_status` |
| `schema.dfy` | `Schema` | `schemas/schema.py` |
| `text_cleaning.dfy` | `TextCleaning` | `clean_text`, `ingestion/pdf_loader.py:15-34` |
| `pdf_loader.dfy` | `PdfLoader` | the rest of `ingestion/pdf_loader.py` |
| `arxiv_client.dfy` | `ArxivClient` | `ingestion/arxiv_client.py` |
| `splitters.dfy` | `Splitters` | `processing/splitters.py` |

## How the model is built

- **State.** An operation that changes the file system is a method on `Storage.Store`, a class holding:
  - `files`, a map from path to bytes;
  - `dirs`, the set of directories;
  - `requests`, the number of PDF downloads requested by `download_pdf`. The feed request of `fetch_papers` reads nothing from and writes nothing to the store, so it is not counted.

  Each such method's `ensures` equates its result and the new store with an outcome function on `Disk` values, for example `PdfLoader.DownloadOutcome`. The properties are lemmas about those functions.
- **External capabilities are parameters.** None of them is computed:
  - `respond` stands for `requests.get`;
  - `parse` stands for `ET.fromstring`;
  - `render` stands for PyMuPDF's pages;
  - `split` stands for the langchain splitter;
  - `serialize` stands for `json.dumps` of one record;
  - `Codec` stands for the raw UTF-8 `str.encode` / `bytes.decode` under `write_text` / `read_text`. `Storage.ReadText` is `read_text` itself: the raw decoding followed by universal-newline translation (`Text.UniversalNewlines`), so `"\r\n"` and a lone `"\r"` read as `"\n"`;
  - `Validators` stands for pydantic's datetime and `HttpUrl` checks.

  Where a property needs something of such a parameter, the lemma says so:
  - `Storage.Lossless`: the raw decoding gives back what was encoded, and encoding distributes over concatenation. Reading with `read_text` gives back the text with its carriage returns translated (`Storage.WrittenTextReadsBack`);
  - `Splitters.SingleLine`: a serialized record holds no newline and no carriage return, as `json.dumps` escapes both.
- **Exceptions are values.** An exception is an `Err` of `Results.Result`. The first one raised ends the call, exactly where Python would raise.
- **Feed tags.** An XML element's tag is a `QName(namespace, local)`. `TagText` spells it the way ElementTree does, `{uri}local`. The Atom and arXiv URIs are always written `Atom` and `Arxiv`: `OtherNamespace` excludes them, so each tag has one value, and `ArxivClient.TagTextMatches` shows that comparing tags as values is ElementTree's comparison of their texts.

### Behaviour of the code worth knowing

- **`clean_text` is not idempotent.** `TextCleaning.NotIdempotent` shows that `"a \nb"` cleans to `"a  b"`, and cleaning that again gives `"a b"`. Line 29 of `pdf_loader.py` turns a newline into a space after line 26 has already collapsed the spaces.
- **The reference regex at line 32 deletes more than reference lines.** The comment at line 31 says it removes "lines starting with numbers or [number]". The pattern is not anchored to the start of a line, so any digit deletes the whitespace before it and the rest of its line: `TextCleaning.DigitMidLine`. The deletion stops at that line's end, and the next line survives (`TextCleaning.LineAfterNumberKept`). In `"Body text.\n[12] Some Reference, 2020\nMore body"`, line 29 first joins `2020\nMore`, so the trailing `More body` is deleted too (`TextCleaning.BodyReferenceBody`).
- **A malformed feed entry aborts the whole fetch.** A missing element or attribute raises inside the loop of `fetch_papers` (`arxiv_client.py:31-53`), so no list is returned: `ArxivClient.Fetched` and `Results.Collect`.
- **Only statuses 400-599 raise.** This is `raise_for_status`'s rule. Any other status, a 3xx for instance, counts as success.
- **No configuration or atomicity checks.** The code does not check `overlap < size` at run time; the constants simply satisfy it. It does not write through a temporary file either. The model's writes cannot fail halfway, so atomicity does not arise in it.
- **`save_processed_text` ignores `clean`.** The code that would clean the text is commented out (lines 90-91), so the raw extracted text is saved.

## Model

| member | source | states |
|---|---|---|
| TextCleaning.NormalizeTypographyIsPlainText | src/papertrail/ingestion/pdf_loader.py:20-22 | the six chained replaces equal the per-character reference map (curly quotes to `"`/`'`, en dash to `-`, em dash to `--`) |
| TextCleaning.NormalizeTypography | src/papertrail/ingestion/pdf_loader.py:20-22 | after the replaces no typographic quote or dash is left; every character comes from the input or is an ASCII replacement |
| TextCleaning.Replace | src/papertrail/ingestion/pdf_loader.py:20-22 | `str.replace` of one character: the output holds only characters of the replacement and input characters other than the replaced one |
| TextCleaning.ReplaceAppend | src/papertrail/ingestion/pdf_loader.py:20-22 | `str.replace` of one character works piece by piece over a concatenation |
| TextCleaning.CollapseRuns | src/papertrail/ingestion/pdf_loader.py:25-26 | collapsing runs keeps or shortens the text, is empty only for empty input, and introduces no new characters besides the replacement; that each maximal run becomes exactly one replacement is stated by `CollapseRunsOfRun` and `CollapseRunsAppend` |
| TextCleaning.CollapseRunsOfRun | src/papertrail/ingestion/pdf_loader.py:25-26 | a leading run, of any length, becomes exactly one replacement character, and the scan goes on after it |
| TextCleaning.CollapseRunsAppend | src/papertrail/ingestion/pdf_loader.py:25-26 | collapsing works piece by piece at any split point that follows a character outside the run class |
| TextCleaning.CollapseNewlines | src/papertrail/ingestion/pdf_loader.py:25 | `re.sub(r'\n+', '\n')`: no two newlines stay neighbours, and with newlines removed the text is unchanged |
| TextCleaning.CollapseBlanks | src/papertrail/ingestion/pdf_loader.py:26 | `re.sub(r'[ \t]+', ' ')`: no two blanks stay neighbours, and with blanks removed the text is unchanged |
| TextCleaning.CollapseRunsNoAdjacent | src/papertrail/ingestion/pdf_loader.py:25-26 | after `re.sub(r'\n+')` / `re.sub(r'[ \t]+')` no two characters of the run class are neighbours |
| TextCleaning.CollapseRunsKeepsText | src/papertrail/ingestion/pdf_loader.py:25-26 | collapsing changes only the run characters: with them removed, input and output are equal |
| TextCleaning.CollapseRunsIdentity | src/papertrail/ingestion/pdf_loader.py:25-26 | text without runs is left unchanged |
| TextCleaning.JoinSoftBreaks | src/papertrail/ingestion/pdf_loader.py:29 | same length; only newlines change, and into spaces; every remaining newline directly follows `.`, `?` or `!`; a newline at position 0 becomes a space; no two newlines are adjacent |
| TextCleaning.JoinSoftBreaksIdentity | src/papertrail/ingestion/pdf_loader.py:29 | text whose every newline follows sentence punctuation is unchanged |
| TextCleaning.JoinSoftBreaksAround | src/papertrail/ingestion/pdf_loader.py:29 | the lookbehind is local: a newline becomes a space exactly when the character before it does not end a sentence |
| TextCleaning.ReferenceTail | src/papertrail/ingestion/pdf_loader.py:32 | the match of `\[?\d+\]?\s?.*$` at a non-space position exists exactly when the text starts with a digit or with `[` and a digit; it contains a digit and ends at a newline or the end |
| TextCleaning.ReferenceTailStopsAtLine | src/papertrail/ingestion/pdf_loader.py:32 | the only newline a tail match may hold is the one `\s?` takes right after the reference head, and the match ends at the first line end after the head: text after a newline that does not directly follow the head is never part of it |
| TextCleaning.ReferenceMatch | src/papertrail/ingestion/pdf_loader.py:32 | a match of the multiline pattern at position 0 is non-empty, contains a digit and ends at a newline or the end; a digit always starts one |
| TextCleaning.ReferenceMatchAfterSpaces | src/papertrail/ingestion/pdf_loader.py:32 | `\n?\s*` takes all leading whitespace: a match exists exactly when a tail match starts where the whitespace stops, and it ends where that tail match ends |
| TextCleaning.StripReferences | src/papertrail/ingestion/pdf_loader.py:32 | `re.sub` with leftmost, non-overlapping matches: it never lengthens the text, leaves no digit, and adds no characters; that a deletion stops at the end of its line is stated by `ReferenceTailStopsAtLine` and `NumberStopsAtLineEnd` |
| TextCleaning.StripReferencesIdentity | src/papertrail/ingestion/pdf_loader.py:32 | text without digits is unchanged |
| TextCleaning.StripReferencesPrefix | src/papertrail/ingestion/pdf_loader.py:32 | a prefix with no digit and no `[`, and not ending in whitespace, is kept verbatim in front of the stripped rest |
| TextCleaning.StripReferencesNoAdjacentNewlines | src/papertrail/ingestion/pdf_loader.py:32 | deleting matches never brings two newlines together |
| TextCleaning.CleanText | src/papertrail/ingestion/pdf_loader.py:15-34 | `clean_text`: the six steps in source order; the output has no surrounding whitespace and holds no U+201C, U+201D, U+2018, U+2019, U+2013 or U+2014, no tab and no digit |
| TextCleaning.CleanTextChars | src/papertrail/ingestion/pdf_loader.py:15-34 | every output character is an input character, an ASCII replacement or a space |
| TextCleaning.CleanTextStripped | src/papertrail/ingestion/pdf_loader.py:34 | the output has no surrounding whitespace; whitespace-only or empty input gives `""` |
| TextCleaning.CleanTextNoAdjacentNewlines | src/papertrail/ingestion/pdf_loader.py:25-34 | no two newlines are adjacent in the output |
| TextCleaning.NumberStopsAtLineEnd | src/papertrail/ingestion/pdf_loader.py:15-34 | a number in mid-line deletes the space before it and the rest of its line, and the following line of plain words survives unchanged |
| TextCleaning.LineAfterNumberKept | src/papertrail/ingestion/pdf_loader.py:15-34 | `"See 5 models.\nNext line."` cleans to `"See\nNext line."` |
| TextCleaning.NumberDeletesRestOfLine | src/papertrail/ingestion/pdf_loader.py:32-34 | a space and a number after a digit-free sentence delete everything to the end of the line |
| TextCleaning.DigitMidLine | src/papertrail/ingestion/pdf_loader.py:32 | `clean_text("We trained 5 models.") == "We trained"` |
| TextCleaning.ReferenceLineSwallowsNextLine | src/papertrail/ingestion/pdf_loader.py:29-34 | a body sentence, then a reference line ending in a number, then an unpunctuated line: only the body survives |
| TextCleaning.BodyReferenceBody | src/papertrail/ingestion/pdf_loader.py:29-34 | `clean_text("Body text.\n[12] Some Reference, 2020\nMore body") == "Body text."` |
| TextCleaning.SoftBreakAfterSpace | src/papertrail/ingestion/pdf_loader.py:26-29 | a space before a soft line break leaves a double space in the output |
| TextCleaning.DoubleSpaceCollapses | src/papertrail/ingestion/pdf_loader.py:26 | a double space between words becomes one |
| TextCleaning.NotIdempotent | src/papertrail/ingestion/pdf_loader.py:26-29 | cleaning `"a \nb"` gives `"a  b"`, and cleaning that again gives `"a b"` |
| Text.Strip | src/papertrail/ingestion/pdf_loader.py:34 | `str.strip`: the result is the input with its leading and trailing whitespace cut off; it is empty exactly for whitespace-only input |
| Text.UniversalNewlines | src/papertrail/ingestion/pdf_loader.py:44 | the text-mode read translation: no `\r` is left, the text does not grow, and text without `\r` is unchanged; what each `\r` becomes is stated by the three lemmas below |
| Text.UniversalNewlinesAppend | src/papertrail/ingestion/pdf_loader.py:44 | the translation works piece by piece at any split point that does not follow a `\r` |
| Text.CrLfReadsAsNewline | src/papertrail/ingestion/pdf_loader.py:44 | every `"\r\n"`, wherever it stands, reads as one `"\n"` and the text around it is translated on its own |
| Text.LoneCrReadsAsNewline | src/papertrail/ingestion/pdf_loader.py:44 | every `\r` not followed by `\n`, wherever it stands, reads as one `"\n"` |
| Text.CarriageReturnsReadAsNewline | src/papertrail/ingestion/pdf_loader.py:44 | `"a\r\nb"` and `"a\rb"` both read as `"a\nb"` |
| Storage.ReadText | src/papertrail/ingestion/pdf_loader.py:44 | `read_text`: fails exactly when the bytes are not UTF-8; otherwise the decoded text with universal newlines, holding no `\r`, and the raw decoding itself when that holds no `\r` |
| Storage.WrittenTextReadsBack | src/papertrail/ingestion/pdf_loader.py:93 | with a lossless codec, a written text reads back with universal newlines, and unchanged when it holds no `\r` |
| PdfLoader.CleanFile | src/papertrail/ingestion/pdf_loader.py:37-45 | FileNotFound when the path is missing or not a regular file; a decode error when it is not UTF-8; otherwise the cleaned text of what `read_text` gives, carriage returns already read as newlines |
| PdfLoader.CleanFileOutput | src/papertrail/ingestion/pdf_loader.py:37-45 | a cleaned file's text has no surrounding whitespace and no typographic character, tab or digit |
| PdfLoader.CleanAll | src/papertrail/ingestion/pdf_loader.py:54 | one cleaned text per path, in order; succeeds iff every file does; otherwise the first failing file's error |
| PdfLoader.CleanFiles | src/papertrail/ingestion/pdf_loader.py:48-54 | `clean_files`: a single path is a one-element list; the result is one cleaned text per path in order, or the error of the first path that fails, every earlier one having succeeded |
| PdfLoader.CleanFilesSingle | src/papertrail/ingestion/pdf_loader.py:52-54 | a single path is cleaned as a one-element list |
| PdfLoader.CleanFilesMissing | src/papertrail/ingestion/pdf_loader.py:42-54 | a path that is not a regular file fails the whole call, with FileNotFound or with the error of an earlier file |
| PdfLoader.ConcatAppend | src/papertrail/ingestion/pdf_loader.py:77-79 | `text += page.get_text()` over pages joins them in order, split anywhere |
| PdfLoader.Concat | src/papertrail/ingestion/pdf_loader.py:77-79 | every character of the concatenation comes from one of the pages |
| PdfLoader.ExtractedText | src/papertrail/ingestion/pdf_loader.py:71-80 | FileNotFound for a missing path; extraction failure for a directory or an unreadable PDF; otherwise the stripped concatenation of the pages |
| PdfLoader.ExtractText | src/papertrail/ingestion/pdf_loader.py:71-80 | the page loop computes exactly `ExtractedText` |
| PdfLoader.SaveOutcome | src/papertrail/ingestion/pdf_loader.py:83-94 | on success the extracted text is written, uncleaned, to `data/processed/{stem}.txt` and that path returned, nothing else changes; on any error the disk is untouched |
| PdfLoader.SaveKeepsValid | src/papertrail/ingestion/pdf_loader.py:92-93 | saving keeps the disk well formed and changes only the processed path |
| PdfLoader.SavedTextReadsBack | src/papertrail/ingestion/pdf_loader.py:93 | the saved file holds the UTF-8 bytes of the extracted text; `read_text` gives that text with universal newlines, and `clean_file` gives its cleaned form; text without `\r` comes back unchanged |
| PdfLoader.SaveProcessedText | src/papertrail/ingestion/pdf_loader.py:83-94 | the method's result and new store are exactly `SaveOutcome`; a well-formed store stays well-formed |
| PdfLoader.ProcessedPath | src/papertrail/ingestion/pdf_loader.py:92 | the processed path lies in `data/processed/` and is named after the PDF's stem with `.txt` |
| PdfLoader.RawPath | src/papertrail/ingestion/pdf_loader.py:62 | the cache path lies in `data/raw_papers/`; for an id without `/` it is named `{id}.pdf` |
| Storage.Store.Write | src/papertrail/ingestion/pdf_loader.py:67 | `write_bytes`, and `write_text` at line 93, replace the one file and changes nothing else; writing to a path that is not a directory keeps the store well-formed |
| PdfLoader.RawPathStem | src/papertrail/ingestion/pdf_loader.py:62 | the cached PDF `data/raw_papers/{id}.pdf` has the id as its stem |
| PdfLoader.ProcessedPathOfRawPath | src/papertrail/ingestion/pdf_loader.py:62-92 | the text of a cached paper goes to `data/processed/{id}.txt` |
| PdfLoader.NoUrl | src/papertrail/ingestion/pdf_loader.py:60 | `not getattr(paper, "pdf_url", None)`: the URL is absent or empty |
| PdfLoader.DownloadOutcome | src/papertrail/ingestion/pdf_loader.py:58-68 | no URL: None and no request; cached: the path and no request; otherwise one request, then either an HTTP error with nothing written or the bytes written to the cache path |
| PdfLoader.DownloadTwice | src/papertrail/ingestion/pdf_loader.py:62-64 | after a successful download, a second call changes nothing and returns the same path |
| PdfLoader.ErrorStatusWritesNothing | src/papertrail/ingestion/pdf_loader.py:65-67 | an error status leaves every file as it was |
| Web.RaiseForStatus | src/papertrail/ingestion/pdf_loader.py:66 | `raise_for_status` raises exactly for a status from 400 to 599, with that status; otherwise the response body is returned |
| PdfLoader.DownloadFrame | src/papertrail/ingestion/pdf_loader.py:58-68 | only the cache path and the request count can change |
| PdfLoader.DownloadPdf | src/papertrail/ingestion/pdf_loader.py:58-68 | the method's result and new store are exactly `DownloadOutcome`; a well-formed store stays well-formed |
| Storage.Stem | src/papertrail/ingestion/pdf_loader.py:92 | `Path.stem`: a prefix of the name with no `/`; if shorter than the name, a `.` follows it, is not the name's last character and no `.` comes after it; whenever the name's last `.` is neither its first nor its last character, the stem is everything before that `.` |
| Storage.Name | src/papertrail/ingestion/pdf_loader.py:92 | `Path.name`: the part of the path after its last `/`, the whole path when it has none |
| Storage.StemOfName | src/papertrail/ingestion/pdf_loader.py:92 | the stem is a prefix of the name, the whole name when it has no `.`, and otherwise cut only at a `.` that is neither first nor last |
| Storage.StemCutsAtLastDot | src/papertrail/ingestion/pdf_loader.py:92 | the stem of a name is cut at its last `.` only: never at an earlier one, and always when that `.` is interior |
| Storage.StemOfSuffixed | src/papertrail/ingestion/pdf_loader.py:92 | the stem of the name `stem.ext` is `stem`, whatever `.` the stem itself holds |
| Storage.StemOfJoin | src/papertrail/ingestion/pdf_loader.py:92 | the stem of `dir/stem.ext` is `stem` |
| Storage.LeadingDotIsNotASuffix | src/papertrail/ingestion/pdf_loader.py:92 | a name whose only `.` comes first is its own stem |
| Schema.FailingFields | src/papertrail/schemas/schema.py:9-14 | names exactly the fields that fail validation |
| Schema.MakePaper | src/papertrail/schemas/schema.py:5-14 | `Paper(...)` succeeds iff authors are all strings, both timestamps are datetimes and the URL is an HTTP URL; it then holds the given fields; otherwise a validation error lists the failing fields |
| Schema.PdfUrlRequired | src/papertrail/schemas/schema.py:14 | `pdf_url=None` never validates |
| Schema.EmptyListsAllowed | src/papertrail/schemas/schema.py:9-11 | empty author and category lists are accepted and kept |
| Schema.MakePaperOfPaper | src/papertrail/schemas/schema.py:5-14 | a valid paper is rebuilt exactly from its own fields |
| ArxivClient.TagTextMatches | src/papertrail/ingestion/arxiv_client.py:31-40 | two tags are equal as values exactly when ElementTree's `{uri}local` spellings are equal, for any looked-up tag whose URI and local name hold no `}` |
| ArxivClient.FeedTagMatches | src/papertrail/ingestion/arxiv_client.py:25-40 | in particular for every `atom:` and `arxiv:` tag the loop looks up |
| ArxivClient.ChildTextOrNone | src/papertrail/ingestion/arxiv_client.py:35 | `.find(tag).text` where a text of None is kept: an error exactly when no child has the tag, otherwise that child's text, None included |
| ArxivClient.FindIn | src/papertrail/ingestion/arxiv_client.py:32-39 | `find`: None iff no child has the tag; otherwise the earliest child with it |
| ArxivClient.FindAllInAppend | src/papertrail/ingestion/arxiv_client.py:31-40 | `findall` works piece by piece over concatenated children, keeping document order |
| ArxivClient.FindAllInAll | src/papertrail/ingestion/arxiv_client.py:31 | when every child has the tag, `findall` returns all of them in order |
| ArxivClient.FindAllIn | src/papertrail/ingestion/arxiv_client.py:31 | `findall`: at most as many elements as children, each one a child with the tag, and none when no child has it |
| ArxivClient.ChildText | src/papertrail/ingestion/arxiv_client.py:32-34 | `find(tag).text` used as a string: a missing child and a child without text are two distinct errors; otherwise the child's text |
| ArxivClient.Attr | src/papertrail/ingestion/arxiv_client.py:36-37 | `attrib[name]`: succeeds exactly when the attribute is present, with its value; otherwise a `KeyError` naming tag and attribute |
| ArxivClient.AuthorNames | src/papertrail/ingestion/arxiv_client.py:35 | one name per author, in order; an author without a name element raises |
| ArxivClient.Terms | src/papertrail/ingestion/arxiv_client.py:37 | one `term` per category, in order; succeeds iff every category has one |
| ArxivClient.IsPdfLink | src/papertrail/ingestion/arxiv_client.py:40 | the filter `l.attrib.get("title") == "pdf"`: a link without a `title` is not a pdf link |
| ArxivClient.PdfHref | src/papertrail/ingestion/arxiv_client.py:40 | None when no link is titled "pdf"; otherwise the first such link's `href`, raising if it has none |
| ArxivClient.PdfHrefOkIff | src/papertrail/ingestion/arxiv_client.py:40 | the `next(...)` generator raises exactly when the first pdf link lacks an `href` |
| ArxivClient.ReadFields | src/papertrail/ingestion/arxiv_client.py:32-40 | a missing required element raises; on success every field is the text or attribute of the element it names |
| ArxivClient.ReadFieldsOkIff | src/papertrail/ingestion/arxiv_client.py:32-40 | one iteration's lookups succeed exactly on a well-formed entry: required children present, `id`/`title`/`summary` with text, every author with a `name`, every category and the primary one with a `term`, the first pdf link with an `href` |
| ArxivClient.WellFormedReads | src/papertrail/ingestion/arxiv_client.py:32-40 | on a well-formed entry no lookup raises |
| ArxivClient.WellFormedEntryDecodes | src/papertrail/ingestion/arxiv_client.py:32-52 | a well-formed entry whose authors have name text, whose dates pass the datetime check and whose first pdf link's `href` passes the URL check decodes to a `Paper` |
| ArxivClient.DecodeEntry | src/papertrail/ingestion/arxiv_client.py:32-52 | lookups that raise abort; otherwise the paper exists iff validation passes, and it is built from the fields read |
| ArxivClient.MissingChildFails | src/papertrail/ingestion/arxiv_client.py:32-39 | an entry missing `id`, `title`, `summary`, `primary_category`, `published` or `updated` fails |
| ArxivClient.MissingTermFails | src/papertrail/ingestion/arxiv_client.py:36 | a primary category without `term` fails |
| ArxivClient.FirstPdfLinkWithoutHref | src/papertrail/ingestion/arxiv_client.py:40 | the first pdf link lacking `href` raises |
| ArxivClient.PdfLinkWithoutHrefFails | src/papertrail/ingestion/arxiv_client.py:40 | an entry whose first pdf link lacks `href` fails |
| ArxivClient.FirstPdfLinkWithHref | src/papertrail/ingestion/arxiv_client.py:40 | when the first pdf link has an `href`, the lookup gives exactly that `href` |
| ArxivClient.NoPdfLinkFails | src/papertrail/ingestion/arxiv_client.py:40-51 | an entry without a pdf link fails, since `pdf_url` is required |
| ArxivClient.DecodedId | src/papertrail/ingestion/arxiv_client.py:32 | the id is the part of the id text after its last `/` |
| Text.AfterLast | src/papertrail/ingestion/arxiv_client.py:32 | `split("/")[-1]`: a suffix of the text, holding no `/`, preceded by `/` when shorter; the whole text if it has no `/` |
| ArxivClient.DecodedTextsStripped | src/papertrail/ingestion/arxiv_client.py:33-34 | title and abstract are their element texts stripped, with no surrounding whitespace |
| ArxivClient.DecodedListsInOrder | src/papertrail/ingestion/arxiv_client.py:35-37 | authors and categories are the names and terms of their elements, one each, in order |
| ArxivClient.DecodedPdfUrl | src/papertrail/ingestion/arxiv_client.py:40 | the pdf URL is the `href` of the first link titled "pdf" |
| ArxivClient.Client.constructor | src/papertrail/ingestion/arxiv_client.py:9-11 | stores the categories and the result limit (10 by default) |
| ArxivClient.Client.BuildQueryUrl | src/papertrail/ingestion/arxiv_client.py:13-17 | the URL starts with the API base and `?search_query=` and ends with `str(max_results)` |
| ArxivClient.QueryUrlRoundTrip | src/papertrail/ingestion/arxiv_client.py:13-17 | the categories, in order, and the result limit can be read back from the URL, provided no category holds `+` or `&` |
| ArxivClient.NoCategories | src/papertrail/ingestion/arxiv_client.py:15-16 | with no categories the query is empty |
| Text.IntToString | src/papertrail/ingestion/arxiv_client.py:16 | `str(max_results)`: a leading `-` exactly for negative values, then decimal digits |
| Text.Join | src/papertrail/ingestion/arxiv_client.py:15 | `"+OR+".join`: a non-empty join starts with the first part; `ParseCatListOfJoin` reads the parts back |
| ArxivClient.ParseCatListOfJoin | src/papertrail/ingestion/arxiv_client.py:15 | the category list reads back, in order, from the joined `cat:` terms, for categories without `+` |
| Text.JoinAppend | src/papertrail/ingestion/arxiv_client.py:15 | joining one more part appends the separator and that part |
| ArxivClient.CatTerms | src/papertrail/ingestion/arxiv_client.py:15 | the comprehension: one `cat:` term per category, in order |
| Text.ParseIntToString | src/papertrail/ingestion/arxiv_client.py:16 | `str(n)` of an int reads back as `n` |
| Results.Collect | src/papertrail/ingestion/arxiv_client.py:30-54 | one paper per entry, in order; succeeds iff every entry decodes; otherwise the error of the first failing entry, all before it having decoded |
| Results.CollectAppend | src/papertrail/ingestion/arxiv_client.py:31-53 | one more loop iteration appends one more paper, or fails |
| Results.CollectErrAt | src/papertrail/ingestion/arxiv_client.py:31-53 | when every entry before entry i decodes and entry i fails, the whole loop fails with entry i's error |
| ArxivClient.DecodeEntries | src/papertrail/ingestion/arxiv_client.py:30-54 | the `for` loop computes exactly `Collect` of the entries |
| ArxivClient.Fetched | src/papertrail/ingestion/arxiv_client.py:19-54 | an error status raises before parsing; an unparsable body raises; otherwise the decoded entries |
| ArxivClient.FetchedInOrder | src/papertrail/ingestion/arxiv_client.py:30-54 | exactly one paper per `atom:entry`, in document order, or an entry's error and no list |
| ArxivClient.EmptyFeed | src/papertrail/ingestion/arxiv_client.py:30-54 | a feed without entries gives the empty list |
| ArxivClient.Client.FetchPapers | src/papertrail/ingestion/arxiv_client.py:19-54 | the method returns exactly `Fetched` for the response to its own query URL |
| Splitters.OverlapBelowSize | src/papertrail/processing/splitters.py:15-18 | the fixed overlap, 100, is below the chunk size, 500 |
| Splitters.Records | src/papertrail/processing/splitters.py:34-40 | one record per chunk; record i has chunk id i, text `chunks[i]`, the stem as paper id and the path as source |
| Splitters.RecordsPrefix | src/papertrail/processing/splitters.py:34-40 | the records of the first i+1 chunks extend those of the first i by record i |
| Splitters.EncodedLines | src/papertrail/processing/splitters.py:41 | the bytes the `f.write` loop leaves: the encodings of the serialized records, each with its newline, in order; pinned by `EncodedLinesAppend` and `EncodedLinesLossless` |
| Splitters.EncodedLinesAppend | src/papertrail/processing/splitters.py:41 | each `f.write` appends the encoding of one more line |
| Splitters.EncodedLinesLossless | src/papertrail/processing/splitters.py:33-41 | with a lossless codec, writing line by line gives the encoding of the whole text |
| Splitters.SplitLinesOfLines | src/papertrail/processing/splitters.py:41 | the written text splits back into the serialized records, one per line, in order |
| Splitters.LinesHaveNoCarriageReturn | src/papertrail/processing/splitters.py:41 | JSON Lines text holds no `\r`, so text-mode reading returns it as written |
| Splitters.SplitOutcome | src/papertrail/processing/splitters.py:20-44 | FileNotFound for a missing or non-regular input, with nothing opened; a decode error or a directory at the output path likewise leave the disk as it was; otherwise the output path `data/chunks/{stem}.jsonl`, returned, holds exactly the encoded lines of the new records |
| Splitters.SplitAndSave | src/papertrail/processing/splitters.py:20-44 | the method's result and new store are exactly `SplitOutcome`; a well-formed store stays well-formed |
| Splitters.WriteRecords | src/papertrail/processing/splitters.py:33-41 | the truncated output receives line i for chunk i and nothing else; when the output is not a directory, a well-formed store stays well-formed |
| Splitters.ChunksReadBack | src/papertrail/processing/splitters.py:33-41 | read back in text mode, the output is exactly N lines; line i is the record with chunk id i and text `chunks[i]` |
| Splitters.SplitFrame | src/papertrail/processing/splitters.py:33-41 | only the output file changes |
| Splitters.OldOutputIgnoredResult | src/papertrail/processing/splitters.py:33 | what the output file held before does not change the result |
| Splitters.OldOutputIgnored | src/papertrail/processing/splitters.py:33 | mode `"w"`: whatever the output file held before, the disk left afterwards is the same |
| Splitters.SplitInto | src/papertrail/processing/splitters.py:24-41 | for any output path and stem: a missing file, a decode error and a directory at the output are errors that leave the disk alone; otherwise exactly the output is replaced by the encoded lines of the numbered records |
| Splitters.ProcessedStem | src/papertrail/ingestion/pdf_loader.py:92 | a processed text keeps the stem of its PDF |
| Splitters.ChunkPathOfProcessed | src/papertrail/processing/splitters.py:31 | the chunks of a processed paper go to `data/chunks/{stem of the pdf}.jsonl` |
| Splitters.ChunkPath | src/papertrail/processing/splitters.py:31 | the chunk file lies in `data/chunks/` and is named after the input's stem with `.jsonl` |

## Left out

- HTTP transport, XML parsing, PDF decoding, the langchain splitter, `json.dumps` and UTF-8 are parameters, not computations. PyMuPDF's `fitz.open` failures are one error, `ExtractionFailed`.
- Network exceptions other than an error status (timeouts, connection errors) are not modelled: `respond` always returns a response.
- Pydantic coercion is not modelled. The datetime and `HttpUrl` checks are the two predicates of `Validators`, and a validated `Paper` keeps the original texts rather than parsed datetime and URL objects.
- `\s`, `\d` and `str.strip` are ASCII-only here. Whitespace is ASCII space, `\t`, `\n`, `\r`, `\v` and `\f` only; Python also strips and matches `\x1c`-`\x1f` and the Unicode whitespace characters. Digits are `0`-`9` only; Python's `\d` also matches other Unicode decimal digits.
- Paths are plain strings. There is no normalisation of `.`, `..` or repeated `/`, and no `Path` objects; `str(path)` is the path itself.
- The module-level `mkdir` calls and all logging are left out. The data directories are assumed to exist, so a write fails only when the target path is a directory.
- `main.py`, the top-level driver, is not part of this model. Neither is the `__main__` demo in `arxiv_client.py` (lines 56-60).
- Newline translation on write is the identity here: text mode writes `\n` as `os.linesep`, which is `\n` on POSIX systems. Windows line endings on write are not modelled. The translation on read is modelled, by `Storage.ReadText`.
- URL escaping is not modelled. The query is built verbatim, as the code does. `ArxivClient.QueryUrlRoundTrip` therefore requires categories without `+` or `&`, since those would make the URL ambiguous.
- ArxivClient.Client.BuildQueryUrl: its contract gives only the prefix and the suffix. The full shape is stated by `ArxivClient.QueryUrlRoundTrip`.
- ArxivClient.DecodeEntries: the `for` loop of `fetch_papers` is a separate method, for any decoding of a single entry. `FetchPapers` calls it with `DecodeEntry`.
- Splitters.WriteRecords: the body of the `with` block is a separate method. A write cannot fail halfway, so a partly written file is never observed.
- Splitters.OldOutputIgnored: it requires the output path to differ from the input path. When they are equal, the input itself is overwritten after it has been read.
- The splitter's chunking is not modelled (nothing is proved about chunk sizes, overlap or losslessness). Only its fixed configuration is stated.
