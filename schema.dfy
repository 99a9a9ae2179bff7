/**
 * The `Paper` record the arXiv client produces, and its construction with
 * validation. Coercing text to a datetime and checking that a text is an
 * HTTP URL are the validator's business; they are the two predicates of
 * `Validators`.
 */
module Schema {
  import opened Results

  /** One paper, field for field; `published`, `updated` and `pdfUrl` hold the validated texts. */
  datatype Paper = Paper(
    arxivId: string,
    title: string,
    abstractText: string,
    authors: seq<string>,
    primaryCategory: string,
    categories: seq<string>,
    published: string,
    updated: string,
    pdfUrl: string)

  /** The validator's tests for a `datetime` and for an `HttpUrl` field. */
  datatype Validators = Validators(isDatetime: string -> bool, isHttpUrl: string -> bool)

  /** What holds of every `Paper` that validation lets through. */
  predicate ValidPaper(p: Paper, v: Validators) {
    v.isDatetime(p.published) && v.isDatetime(p.updated) && v.isHttpUrl(p.pdfUrl)
  }

  /** Every element of a `List[str]` field is a string, not `None`. */
  predicate AllPresent(xs: seq<Option<string>>) {
    forall i :: 0 <= i < |xs| ==> xs[i].Some?
  }

  function Present(xs: seq<Option<string>>): (r: seq<string>)
    requires AllPresent(xs)
    ensures |r| == |xs| && forall i :: 0 <= i < |xs| ==> xs[i] == Some(r[i])
  {
    if xs == [] then [] else [xs[0].value] + Present(xs[1..])
  }

  predicate DatetimeOk(x: Option<string>, v: Validators) {
    x.Some? && v.isDatetime(x.value)
  }

  predicate UrlOk(x: Option<string>, v: Validators) {
    x.Some? && v.isHttpUrl(x.value)
  }

  /** The names of the fields that fail validation, in declaration order. */
  function FailingFields(authors: seq<Option<string>>, published: Option<string>, updated: Option<string>,
                         pdfUrl: Option<string>, v: Validators): (r: seq<string>)
    ensures "authors" in r <==> !AllPresent(authors)
    ensures "published" in r <==> !DatetimeOk(published, v)
    ensures "updated" in r <==> !DatetimeOk(updated, v)
    ensures "pdf_url" in r <==> !UrlOk(pdfUrl, v)
    ensures forall f :: f in r ==> f in ["authors", "published", "updated", "pdf_url"]
  {
    (if AllPresent(authors) then [] else ["authors"])
    + (if DatetimeOk(published, v) then [] else ["published"])
    + (if DatetimeOk(updated, v) then [] else ["updated"])
    + (if UrlOk(pdfUrl, v) then [] else ["pdf_url"])
  }

  /**
   * `Paper(...)`: the record when every field validates, otherwise a
   * validation error naming every failing field.
   */
  function MakePaper(arxivId: string, title: string, abstractText: string, authors: seq<Option<string>>,
                     primaryCategory: string, categories: seq<string>, published: Option<string>,
                     updated: Option<string>, pdfUrl: Option<string>, v: Validators): (r: Result<Paper>)
    ensures r.Ok? <==> AllPresent(authors) && DatetimeOk(published, v) && DatetimeOk(updated, v) && UrlOk(pdfUrl, v)
    ensures r.Ok? ==> ValidPaper(r.value, v)
    ensures r.Ok? ==> && r.value.arxivId == arxivId && r.value.title == title && r.value.abstractText == abstractText
                      && |r.value.authors| == |authors|
                      && (forall i :: 0 <= i < |authors| ==> authors[i] == Some(r.value.authors[i]))
                      && r.value.primaryCategory == primaryCategory && r.value.categories == categories
                      && published == Some(r.value.published) && updated == Some(r.value.updated)
                      && pdfUrl == Some(r.value.pdfUrl)
    ensures r.Err? ==> r.error == Validation(FailingFields(authors, published, updated, pdfUrl, v))
  {
    var failing := FailingFields(authors, published, updated, pdfUrl, v);
    if failing != [] then
      Err(Validation(failing))
    else
      assert "authors" !in failing && "published" !in failing && "updated" !in failing && "pdf_url" !in failing;
      Ok(Paper(arxivId, title, abstractText, Present(authors), primaryCategory, categories,
               published.value, updated.value, pdfUrl.value))
  }

  /** `pdf_url` is required: a paper without one never validates, whatever else it holds. */
  lemma PdfUrlRequired(arxivId: string, title: string, abstractText: string, authors: seq<Option<string>>,
                       primaryCategory: string, categories: seq<string>, published: Option<string>,
                       updated: Option<string>, v: Validators)
    ensures var r := MakePaper(arxivId, title, abstractText, authors, primaryCategory, categories, published, updated, None, v);
      r.Err? && r.error.Validation? && "pdf_url" in r.error.fields
  {
  }

  /** Empty author and category lists are valid and kept empty. */
  lemma EmptyListsAllowed(arxivId: string, title: string, abstractText: string, primaryCategory: string,
                          published: string, updated: string, pdfUrl: string, v: Validators)
    requires v.isDatetime(published) && v.isDatetime(updated) && v.isHttpUrl(pdfUrl)
    ensures MakePaper(arxivId, title, abstractText, [], primaryCategory, [], Some(published), Some(updated), Some(pdfUrl), v)
      == Ok(Paper(arxivId, title, abstractText, [], primaryCategory, [], published, updated, pdfUrl))
  {
  }

  /** A valid paper is rebuilt exactly from its own fields. */
  lemma {:induction false} MakePaperOfPaper(p: Paper, v: Validators)
    requires ValidPaper(p, v)
    ensures MakePaper(p.arxivId, p.title, p.abstractText, Wrap(p.authors), p.primaryCategory, p.categories,
                      Some(p.published), Some(p.updated), Some(p.pdfUrl), v) == Ok(p)
  {
    var r := MakePaper(p.arxivId, p.title, p.abstractText, Wrap(p.authors), p.primaryCategory, p.categories,
                       Some(p.published), Some(p.updated), Some(p.pdfUrl), v);
    assert AllPresent(Wrap(p.authors));
    assert r.value.authors == p.authors;
  }

  /** Each name as an always-present optional value. */
  function Wrap(xs: seq<string>): (r: seq<Option<string>>)
    ensures |r| == |xs| && forall i :: 0 <= i < |xs| ==> r[i] == Some(xs[i])
  {
    seq(|xs|, i requires 0 <= i < |xs| => Some(xs[i]))
  }
}
