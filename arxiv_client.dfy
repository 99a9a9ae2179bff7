/**
 * The arXiv client: the query URL, and the decoding of an Atom feed into
 * `Paper` records.
 *
 * The feed arrives already parsed, as an `Element` tree whose tags are in
 * ElementTree's `{namespace}local` form; `parse` stands for
 * `ET.fromstring` and `respond` for `requests.get`. `find` is the first
 * child with a tag, `findall` every child with it, in document order.
 */
module ArxivClient {
  import opened Results
  import opened Text
  import opened Storage
  import opened Web
  import opened Schema

  const BASE_URL := "https://export.arxiv.org/api/query"

  const ATOM_URI := "http://www.w3.org/2005/Atom"
  const ARXIV_URI := "http://arxiv.org/schemas/atom"

  /** Any other namespace; the feed's two are always `Atom` and `Arxiv`, so each tag has one encoding. */
  type ForeignUri = u: string | u != ATOM_URI && u != ARXIV_URI witness ""

  /** The two namespaces of the feed, by the prefixes `fetch_papers` maps them to. */
  datatype Namespace = Atom | Arxiv | OtherNamespace(uri: ForeignUri)

  function Uri(ns: Namespace): string {
    match ns
    case Atom => ATOM_URI
    case Arxiv => ARXIV_URI
    case OtherNamespace(uri) => uri
  }

  /** Each namespace has its own URI. */
  lemma UriInjective(a: Namespace, b: Namespace)
    ensures Uri(a) == Uri(b) <==> a == b
  {
    assert |ATOM_URI| != |ARXIV_URI|;
  }

  /** A namespaced tag; `atom:entry` with the prefix map is `QName(Atom, "entry")`. */
  datatype QName = QName(ns: Namespace, local: string)

  /** The tag as ElementTree spells it: `{uri}local`. */
  function TagText(q: QName): string {
    "{" + Uri(q.ns) + "}" + q.local
  }

  /**
   * Comparing tags as values is ElementTree's comparison of their texts,
   * for every tag the client looks up: one whose URI and local name hold
   * no '}'.
   */
  lemma {:induction false} TagTextMatches(x: QName, q: QName)
    requires '}' !in Uri(q.ns) && '}' !in q.local
    ensures TagText(x) == TagText(q) <==> x == q
  {
    var u, U := Uri(x.ns), Uri(q.ns);
    var s, t := TagText(x), TagText(q);
    if s == t {
      assert |s| == |u| + 2 + |x.local| && |t| == |U| + 2 + |q.local|;
      assert s[|u| + 1] == '}' && t[|U| + 1] == '}';
      if |u| != |U| {
        assert false;
      }
      assert u == s[1..|u| + 1] == t[1..|U| + 1] == U;
      assert x.local == s[|u| + 2..] == t[|U| + 2..] == q.local;
      UriInjective(x.ns, q.ns);
    }
  }

  /** In particular for the tags `fetch_papers` looks up, `atom:...` and `arxiv:...`. */
  lemma FeedTagMatches(x: QName, ns: Namespace, local: string)
    requires (ns.Atom? || ns.Arxiv?) && '}' !in local
    ensures TagText(x) == TagText(QName(ns, local)) <==> x == QName(ns, local)
  {
    assert '}' !in Uri(ns);
    TagTextMatches(x, QName(ns, local));
  }

  datatype Element = Element(tag: QName, attrib: map<string, string>, text: Option<string>, children: seq<Element>)

  // ---------------------------------------------------------------------
  // find / findall
  // ---------------------------------------------------------------------

  /** The first element of `xs` with the given tag. */
  function FindIn(xs: seq<Element>, tag: QName): (r: Option<Element>)
    ensures r.None? <==> forall i :: 0 <= i < |xs| ==> xs[i].tag != tag
    ensures r.Some? ==> exists k :: 0 <= k < |xs| && xs[k] == r.value && r.value.tag == tag
                                   && forall j :: 0 <= j < k ==> xs[j].tag != tag
  {
    if xs == [] then None
    else if xs[0].tag == tag then Some(xs[0])
    else
      var r := FindIn(xs[1..], tag);
      assert forall i :: 1 <= i < |xs| ==> xs[i] == xs[1..][i - 1];
      if r.Some? then
        var k :| 0 <= k < |xs[1..]| && xs[1..][k] == r.value && r.value.tag == tag
                 && forall j :: 0 <= j < k ==> xs[1..][j].tag != tag;
        assert xs[k + 1] == r.value;
        r
      else
        r
  }

  /** Every element of `xs` with the given tag, in order. */
  function FindAllIn(xs: seq<Element>, tag: QName): (r: seq<Element>)
    ensures |r| <= |xs|
    ensures forall i :: 0 <= i < |r| ==> r[i].tag == tag && r[i] in xs
    ensures (forall i :: 0 <= i < |xs| ==> xs[i].tag != tag) ==> r == []
  {
    if xs == [] then []
    else
      var rest := FindAllIn(xs[1..], tag);
      assert forall e :: e in xs[1..] ==> e in xs;
      if xs[0].tag == tag then [xs[0]] + rest else rest
  }

  /** `findall` works piece by piece: the matches of `a + b` are those of `a`, then those of `b`. */
  lemma {:induction false} FindAllInAppend(a: seq<Element>, b: seq<Element>, tag: QName)
    ensures FindAllIn(a + b, tag) == FindAllIn(a, tag) + FindAllIn(b, tag)
  {
    if a == [] {
      assert a + b == b;
    } else {
      assert (a + b)[0] == a[0];
      assert (a + b)[1..] == a[1..] + b;
      FindAllInAppend(a[1..], b, tag);
      if a[0].tag == tag {
        AppendAssoc([a[0]], FindAllIn(a[1..], tag), FindAllIn(b, tag));
      }
    }
  }

  /** When every element has the tag, `findall` keeps them all, in order. */
  lemma {:induction false} FindAllInAll(xs: seq<Element>, tag: QName)
    requires forall i :: 0 <= i < |xs| ==> xs[i].tag == tag
    ensures FindAllIn(xs, tag) == xs
  {
    if xs != [] {
      FindAllInAll(xs[1..], tag);
    }
  }

  function Find(e: Element, tag: QName): Option<Element> {
    FindIn(e.children, tag)
  }

  function FindAll(e: Element, tag: QName): seq<Element> {
    FindAllIn(e.children, tag)
  }

  // ---------------------------------------------------------------------
  // The fields of one entry
  // ---------------------------------------------------------------------

  /** `e.find(tag).text`, where a text of None is kept. */
  function ChildTextOrNone(e: Element, tag: QName): (r: Result<Option<string>>)
    ensures r.Err? <==> Find(e, tag).None?
    ensures r.Err? ==> r.error == MissingElement(TagText(tag))
    ensures r.Ok? ==> r.value == Find(e, tag).value.text
  {
    match Find(e, tag)
    case None => Err(MissingElement(TagText(tag)))
    case Some(c) => Ok(c.text)
  }

  /** `e.find(tag).text` used as a string: a missing element or a text of None raises. */
  function ChildText(e: Element, tag: QName): (r: Result<string>)
    ensures Find(e, tag).None? ==> r == Err(MissingElement(TagText(tag)))
    ensures Find(e, tag).Some? && Find(e, tag).value.text.None? ==> r == Err(MissingText(TagText(tag)))
    ensures r.Ok? ==> Find(e, tag).Some? && Find(e, tag).value.text == Some(r.value)
  {
    var t :- ChildTextOrNone(e, tag);
    if t.None? then Err(MissingText(TagText(tag))) else Ok(t.value)
  }

  /** `e.attrib[name]`. */
  function Attr(e: Element, name: string): (r: Result<string>)
    ensures r.Ok? <==> name in e.attrib
    ensures r.Ok? ==> r.value == e.attrib[name]
    ensures r.Err? ==> r.error == MissingAttribute(TagText(e.tag), name)
  {
    if name in e.attrib then Ok(e.attrib[name]) else Err(MissingAttribute(TagText(e.tag), name))
  }

  /** `[a.find("atom:name", ns).text for a in authors]`. */
  function AuthorNames(authors: seq<Element>): (r: Result<seq<Option<string>>>)
    ensures r.Ok? <==> forall i :: 0 <= i < |authors| ==> Find(authors[i], QName(Atom, "name")).Some?
    ensures r.Ok? ==> (|r.value| == |authors| &&
      forall i :: 0 <= i < |authors| ==> r.value[i] == Find(authors[i], QName(Atom, "name")).value.text)
    ensures r.Err? ==> r.error == MissingElement(TagText(QName(Atom, "name")))
  {
    if authors == [] then Ok([])
    else
      var name :- ChildTextOrNone(authors[0], QName(Atom, "name"));
      assert forall i :: 1 <= i < |authors| ==> authors[i] == authors[1..][i - 1];
      var rest :- AuthorNames(authors[1..]);
      Ok([name] + rest)
  }

  /** `[c.attrib["term"] for c in categories]`. */
  function Terms(categories: seq<Element>): (r: Result<seq<string>>)
    ensures r.Ok? <==> forall i :: 0 <= i < |categories| ==> "term" in categories[i].attrib
    ensures r.Ok? ==> (|r.value| == |categories| &&
      forall i :: 0 <= i < |categories| ==> r.value[i] == categories[i].attrib["term"])
  {
    if categories == [] then Ok([])
    else
      var term :- Attr(categories[0], "term");
      assert forall i :: 1 <= i < |categories| ==> categories[i] == categories[1..][i - 1];
      var rest :- Terms(categories[1..]);
      Ok([term] + rest)
  }

  /** `l.attrib.get("title") == "pdf"`. */
  predicate IsPdfLink(l: Element) {
    "title" in l.attrib && l.attrib["title"] == "pdf"
  }

  /**
   * `next((l.attrib["href"] for l in links if ...), None)`: the `href` of
   * the first pdf link, or None when there is none. The generator stops at
   * the first pdf link, so only that link's `href` is required.
   */
  function PdfHref(links: seq<Element>): (r: Result<Option<string>>)
    ensures (forall i :: 0 <= i < |links| ==> !IsPdfLink(links[i])) ==> r == Ok(None)
    ensures r != Ok(None) ==>
      exists k :: (0 <= k < |links| && IsPdfLink(links[k])
                   && (forall j :: 0 <= j < k ==> !IsPdfLink(links[j]))
                   && (r.Ok? <==> "href" in links[k].attrib)
                   && (r.Ok? ==> r.value == Some(links[k].attrib["href"])))
  {
    if links == [] then Ok(None)
    else if IsPdfLink(links[0]) then
      var href :- Attr(links[0], "href");
      Ok(Some(href))
    else
      assert forall i :: 1 <= i < |links| ==> links[i] == links[1..][i - 1];
      var r := PdfHref(links[1..]);
      if r != Ok(None) then
        var k :| 0 <= k < |links[1..]| && IsPdfLink(links[1..][k])
                 && (forall j :: 0 <= j < k ==> !IsPdfLink(links[1..][j]))
                 && (r.Ok? <==> "href" in links[1..][k].attrib)
                 && (r.Ok? ==> r.value == Some(links[1..][k].attrib["href"]));
        assert links[k + 1] == links[1..][k];
        r
      else
        r
  }

  /** The first link titled "pdf", if there is one, has an `href`. */
  predicate FirstPdfLinkHasHref(links: seq<Element>) {
    forall k :: 0 <= k < |links| && IsPdfLink(links[k]) && (forall j :: 0 <= j < k ==> !IsPdfLink(links[j])) ==>
      "href" in links[k].attrib
  }

  /** `PdfHref` raises exactly when the first pdf link lacks an `href`. */
  lemma {:induction false} PdfHrefOkIff(links: seq<Element>)
    ensures PdfHref(links).Ok? <==> FirstPdfLinkHasHref(links)
  {
    if links != [] && !IsPdfLink(links[0]) {
      PdfHrefOkIff(links[1..]);
      assert forall k :: 1 <= k < |links| ==> links[k] == links[1..][k - 1];
      assert FirstPdfLinkHasHref(links) <==> FirstPdfLinkHasHref(links[1..]) by {
        if FirstPdfLinkHasHref(links) {
          forall k | 0 <= k < |links[1..]| && IsPdfLink(links[1..][k]) && (forall j :: 0 <= j < k ==> !IsPdfLink(links[1..][j]))
            ensures "href" in links[1..][k].attrib
          {
            assert forall j :: 0 <= j < k + 1 ==> !IsPdfLink(links[j]) by {
              forall j | 0 <= j < k + 1 ensures !IsPdfLink(links[j]) {
                if j > 0 { assert links[j] == links[1..][j - 1]; }
              }
            }
          }
        }
        if FirstPdfLinkHasHref(links[1..]) {
          forall k | 0 <= k < |links| && IsPdfLink(links[k]) && (forall j :: 0 <= j < k ==> !IsPdfLink(links[j]))
            ensures "href" in links[k].attrib
          {
            assert k > 0;
            assert forall j :: 0 <= j < k - 1 ==> !IsPdfLink(links[1..][j]) by {
              forall j | 0 <= j < k - 1 ensures !IsPdfLink(links[1..][j]) { assert links[1..][j] == links[j + 1]; }
            }
          }
        }
      }
    }
  }

  /** The tags an entry must have, in the order the decoder looks them up. */
  predicate HasRequiredChildren(entry: Element) {
    && Find(entry, QName(Atom, "id")).Some? && Find(entry, QName(Atom, "title")).Some?
    && Find(entry, QName(Atom, "summary")).Some? && Find(entry, QName(Arxiv, "primary_category")).Some?
    && Find(entry, QName(Atom, "published")).Some? && Find(entry, QName(Atom, "updated")).Some?
  }

  /**
   * An entry every lookup of the loop body succeeds on: the required
   * children are there, `id`, `title` and `summary` have text, every author
   * has a `name` child, the primary category and every category have a
   * `term`, and the first pdf link, if any, has an `href`.
   */
  predicate WellFormedEntry(entry: Element) {
    && HasRequiredChildren(entry)
    && Find(entry, QName(Atom, "id")).value.text.Some?
    && Find(entry, QName(Atom, "title")).value.text.Some?
    && Find(entry, QName(Atom, "summary")).value.text.Some?
    && (var authors := FindAll(entry, QName(Atom, "author"));
        forall i :: 0 <= i < |authors| ==> Find(authors[i], QName(Atom, "name")).Some?)
    && "term" in Find(entry, QName(Arxiv, "primary_category")).value.attrib
    && (var categories := FindAll(entry, QName(Atom, "category"));
        forall i :: 0 <= i < |categories| ==> "term" in categories[i].attrib)
    && FirstPdfLinkHasHref(FindAll(entry, QName(Atom, "link")))
  }

  /** What the loop body reads out of one entry, before the `Paper` is built. */
  datatype EntryFields = EntryFields(
    idText: string,
    title: string,
    summary: string,
    authors: seq<Option<string>>,
    primaryCategory: string,
    categories: seq<string>,
    published: Option<string>,
    updated: Option<string>,
    pdfUrl: Option<string>)

  /** The lookups of one loop iteration, in source order; the first that raises aborts. */
  function ReadFields(entry: Element): (r: Result<EntryFields>)
    ensures !HasRequiredChildren(entry) ==> r.Err?
    ensures r.Ok? ==>
      && HasRequiredChildren(entry)
      && Find(entry, QName(Atom, "id")).value.text == Some(r.value.idText)
      && Find(entry, QName(Atom, "title")).value.text == Some(r.value.title)
      && Find(entry, QName(Atom, "summary")).value.text == Some(r.value.summary)
      && AuthorNames(FindAll(entry, QName(Atom, "author"))) == Ok(r.value.authors)
      && Attr(Find(entry, QName(Arxiv, "primary_category")).value, "term") == Ok(r.value.primaryCategory)
      && Terms(FindAll(entry, QName(Atom, "category"))) == Ok(r.value.categories)
      && Find(entry, QName(Atom, "published")).value.text == r.value.published
      && Find(entry, QName(Atom, "updated")).value.text == r.value.updated
      && PdfHref(FindAll(entry, QName(Atom, "link"))) == Ok(r.value.pdfUrl)
  {
    var idText :- ChildText(entry, QName(Atom, "id"));
    var title :- ChildText(entry, QName(Atom, "title"));
    var summary :- ChildText(entry, QName(Atom, "summary"));
    var authors :- AuthorNames(FindAll(entry, QName(Atom, "author")));
    var primaryElement :- (match Find(entry, QName(Arxiv, "primary_category"))
                           case None => Err(MissingElement(TagText(QName(Arxiv, "primary_category"))))
                           case Some(e) => Ok(e));
    var primary :- Attr(primaryElement, "term");
    var categories :- Terms(FindAll(entry, QName(Atom, "category")));
    var published :- ChildTextOrNone(entry, QName(Atom, "published"));
    var updated :- ChildTextOrNone(entry, QName(Atom, "updated"));
    var pdfUrl :- PdfHref(FindAll(entry, QName(Atom, "link")));
    Ok(EntryFields(idText, title, summary, authors, primary, categories, published, updated, pdfUrl))
  }

  /** Every lookup of one loop iteration succeeds exactly on a well-formed entry. */
  lemma ReadFieldsOkIff(entry: Element)
    ensures ReadFields(entry).Ok? <==> WellFormedEntry(entry)
  {
    var links := FindAll(entry, QName(Atom, "link"));
    PdfHrefOkIff(links);
    if WellFormedEntry(entry) {
      WellFormedReads(entry);
    }
  }

  /** On a well-formed entry no lookup raises. */
  lemma WellFormedReads(entry: Element)
    requires WellFormedEntry(entry)
    ensures ReadFields(entry).Ok?
  {
    PdfHrefOkIff(FindAll(entry, QName(Atom, "link")));
    assert ChildText(entry, QName(Atom, "id")).Ok?;
    assert ChildText(entry, QName(Atom, "title")).Ok?;
    assert ChildText(entry, QName(Atom, "summary")).Ok?;
    assert AuthorNames(FindAll(entry, QName(Atom, "author"))).Ok?;
    assert Attr(Find(entry, QName(Arxiv, "primary_category")).value, "term").Ok?;
    assert Terms(FindAll(entry, QName(Atom, "category"))).Ok?;
    assert PdfHref(FindAll(entry, QName(Atom, "link"))).Ok?;
  }

  /** How a decoded `Paper` relates to the fields read from its entry. */
  predicate Decodes(f: EntryFields, p: Paper) {
    && p.arxivId == AfterLast(f.idText, '/')
    && p.title == Strip(f.title)
    && p.abstractText == Strip(f.summary)
    && f.authors == Wrap(p.authors)
    && p.primaryCategory == f.primaryCategory
    && p.categories == f.categories
    && f.published == Some(p.published)
    && f.updated == Some(p.updated)
    && f.pdfUrl == Some(p.pdfUrl)
  }

  /** The body of the loop in `fetch_papers`: one entry to one `Paper`. */
  function DecodeEntry(entry: Element, v: Validators): (r: Result<Paper>)
    ensures ReadFields(entry).Err? ==> r == Err(ReadFields(entry).error)
    ensures ReadFields(entry).Ok? ==> var f := ReadFields(entry).value;
      (r.Ok? <==> AllPresent(f.authors) && DatetimeOk(f.published, v) && DatetimeOk(f.updated, v) && UrlOk(f.pdfUrl, v))
    ensures r.Ok? ==> ReadFields(entry).Ok? && ValidPaper(r.value, v) && Decodes(ReadFields(entry).value, r.value)
  {
    var f :- ReadFields(entry);
    var r := MakePaper(AfterLast(f.idText, '/'), Strip(f.title), Strip(f.summary), f.authors, f.primaryCategory,
                       f.categories, f.published, f.updated, f.pdfUrl, v);
    assert r.Ok? ==> Wrap(r.value.authors) == f.authors;
    r
  }

  /** An entry lacking one of the required elements aborts the decoding. */
  lemma MissingChildFails(entry: Element, v: Validators)
    requires !HasRequiredChildren(entry)
    ensures DecodeEntry(entry, v).Err?
  {
  }

  /** A `primary_category` element without a `term` attribute aborts the decoding (a `KeyError`). */
  lemma MissingTermFails(entry: Element, v: Validators)
    requires Find(entry, QName(Arxiv, "primary_category")).Some?
    requires "term" !in Find(entry, QName(Arxiv, "primary_category")).value.attrib
    ensures DecodeEntry(entry, v).Err?
  {
  }

  /** When the first pdf link has no `href`, looking it up raises. */
  lemma {:induction false} FirstPdfLinkWithoutHref(links: seq<Element>, k: nat)
    requires k < |links| && IsPdfLink(links[k]) && "href" !in links[k].attrib
    requires forall j :: 0 <= j < k ==> !IsPdfLink(links[j])
    ensures PdfHref(links).Err?
  {
    if k > 0 {
      forall j | 0 <= j < k - 1 ensures !IsPdfLink(links[1..][j]) {
        assert links[1..][j] == links[j + 1];
      }
      FirstPdfLinkWithoutHref(links[1..], k - 1);
    }
  }

  /** When the first pdf link has an `href`, that is what the lookup gives. */
  lemma {:induction false} FirstPdfLinkWithHref(links: seq<Element>, k: nat)
    requires k < |links| && IsPdfLink(links[k]) && "href" in links[k].attrib
    requires forall j :: 0 <= j < k ==> !IsPdfLink(links[j])
    ensures PdfHref(links) == Ok(Some(links[k].attrib["href"]))
  {
    if k > 0 {
      forall j | 0 <= j < k - 1 ensures !IsPdfLink(links[1..][j]) {
        assert links[1..][j] == links[j + 1];
      }
      FirstPdfLinkWithHref(links[1..], k - 1);
    }
  }

  /**
   * A well-formed entry whose authors all have name text, whose dates pass
   * the datetime check and whose first pdf link's `href` passes the URL
   * check decodes to a `Paper`.
   */
  lemma WellFormedEntryDecodes(entry: Element, v: Validators, k: nat)
    requires WellFormedEntry(entry)
    requires var authors := FindAll(entry, QName(Atom, "author"));
      forall i :: 0 <= i < |authors| ==> Find(authors[i], QName(Atom, "name")).value.text.Some?
    requires DatetimeOk(Find(entry, QName(Atom, "published")).value.text, v)
    requires DatetimeOk(Find(entry, QName(Atom, "updated")).value.text, v)
    requires var links := FindAll(entry, QName(Atom, "link"));
      && k < |links| && IsPdfLink(links[k]) && (forall j :: 0 <= j < k ==> !IsPdfLink(links[j]))
      && "href" in links[k].attrib && v.isHttpUrl(links[k].attrib["href"])
    ensures DecodeEntry(entry, v).Ok?
  {
    WellFormedReads(entry);
    AuthorsPresent(FindAll(entry, QName(Atom, "author")));
    FirstPdfLinkWithHref(FindAll(entry, QName(Atom, "link")), k);
  }

  /** Authors that all have name text give a list without `None`. */
  lemma AuthorsPresent(authors: seq<Element>)
    requires forall i :: 0 <= i < |authors| ==> Find(authors[i], QName(Atom, "name")).Some?
    requires forall i :: 0 <= i < |authors| ==> Find(authors[i], QName(Atom, "name")).value.text.Some?
    ensures AuthorNames(authors).Ok? && AllPresent(AuthorNames(authors).value)
  {
  }

  /** An entry whose first pdf link has no `href` aborts the decoding. */
  lemma PdfLinkWithoutHrefFails(entry: Element, k: nat, v: Validators)
    requires var links := FindAll(entry, QName(Atom, "link"));
      k < |links| && IsPdfLink(links[k]) && "href" !in links[k].attrib
      && forall j :: 0 <= j < k ==> !IsPdfLink(links[j])
    ensures DecodeEntry(entry, v).Err?
  {
    FirstPdfLinkWithoutHref(FindAll(entry, QName(Atom, "link")), k);
  }

  /** The text of the entry's `atom:id` element. */
  function IdText(entry: Element): string
    requires Find(entry, QName(Atom, "id")).Some? && Find(entry, QName(Atom, "id")).value.text.Some?
  {
    Find(entry, QName(Atom, "id")).value.text.value
  }

  /**
   * The id is `split("/")[-1]` of the id text: the part after its last '/',
   * which by `AfterLast`'s contract is a suffix of the text holding no '/'.
   */
  lemma {:induction false} DecodedId(entry: Element, v: Validators)
    requires DecodeEntry(entry, v).Ok?
    ensures Find(entry, QName(Atom, "id")).Some? && Find(entry, QName(Atom, "id")).value.text.Some?
    ensures DecodeEntry(entry, v).value.arxivId == AfterLast(IdText(entry), '/')
  {
    var f := ReadFields(entry).value;
    assert Decodes(f, DecodeEntry(entry, v).value);
  }

  /** The title and abstract are the element texts with surrounding whitespace stripped. */
  lemma {:induction false} DecodedTextsStripped(entry: Element, v: Validators)
    requires DecodeEntry(entry, v).Ok?
    ensures var p := DecodeEntry(entry, v).value;
      && p.title == Strip(Find(entry, QName(Atom, "title")).value.text.value)
      && p.abstractText == Strip(Find(entry, QName(Atom, "summary")).value.text.value)
      && NoEdgeSpace(p.title) && NoEdgeSpace(p.abstractText)
  {
    var f := ReadFields(entry).value;
    assert Decodes(f, DecodeEntry(entry, v).value);
  }

  /** Authors and categories come out one per element, in document order. */
  lemma {:induction false} DecodedListsInOrder(entry: Element, v: Validators)
    requires DecodeEntry(entry, v).Ok?
    ensures var p := DecodeEntry(entry, v).value;
      var authors := FindAll(entry, QName(Atom, "author"));
      var categories := FindAll(entry, QName(Atom, "category"));
      && |p.authors| == |authors|
      && (forall i :: 0 <= i < |authors| ==> Find(authors[i], QName(Atom, "name")).value.text == Some(p.authors[i]))
      && |p.categories| == |categories|
      && (forall i :: 0 <= i < |categories| ==> categories[i].attrib["term"] == p.categories[i])
  {
    var p := DecodeEntry(entry, v).value;
    var f := ReadFields(entry).value;
    assert Decodes(f, p);
    var authors := FindAll(entry, QName(Atom, "author"));
    assert AuthorNames(authors) == Ok(Wrap(p.authors));
    forall i | 0 <= i < |authors| ensures Find(authors[i], QName(Atom, "name")).value.text == Some(p.authors[i]) {
      assert Wrap(p.authors)[i] == Some(p.authors[i]);
    }
  }

  /** The pdf URL is the `href` of the first link titled "pdf". */
  lemma {:induction false} DecodedPdfUrl(entry: Element, v: Validators)
    requires DecodeEntry(entry, v).Ok?
    ensures FirstPdfHref(FindAll(entry, QName(Atom, "link")), DecodeEntry(entry, v).value.pdfUrl)
  {
    var f := ReadFields(entry).value;
    var p := DecodeEntry(entry, v).value;
    assert Decodes(f, p);
    PdfHrefFound(FindAll(entry, QName(Atom, "link")), p.pdfUrl);
  }

  /** `url` is the `href` of the first link titled "pdf" among `links`. */
  ghost predicate FirstPdfHref(links: seq<Element>, url: string) {
    exists k :: (0 <= k < |links| && IsPdfLink(links[k]) && (forall j :: 0 <= j < k ==> !IsPdfLink(links[j]))
                 && "href" in links[k].attrib && links[k].attrib["href"] == url)
  }

  /** A found URL is the `href` of the first pdf link. */
  lemma PdfHrefFound(links: seq<Element>, url: string)
    requires PdfHref(links) == Ok(Some(url))
    ensures FirstPdfHref(links, url)
  {
  }

  /** An entry without a pdf link fails validation: `pdf_url` is required. */
  lemma {:induction false} NoPdfLinkFails(entry: Element, v: Validators)
    requires forall l :: l in FindAll(entry, QName(Atom, "link")) ==> !IsPdfLink(l)
    ensures DecodeEntry(entry, v).Err?
  {
    var links := FindAll(entry, QName(Atom, "link"));
    assert forall i :: 0 <= i < |links| ==> !IsPdfLink(links[i]) by {
      forall i | 0 <= i < |links| ensures !IsPdfLink(links[i]) { assert links[i] in links; }
    }
    assert PdfHref(links) == Ok(None);
  }

  // ---------------------------------------------------------------------
  // The client
  // ---------------------------------------------------------------------

  /** `"cat:" + c` for each category. */
  function CatTerms(categories: seq<string>): (r: seq<string>)
    ensures |r| == |categories| && forall i :: 0 <= i < |r| ==> r[i] == "cat:" + categories[i]
  {
    seq(|categories|, i requires 0 <= i < |categories| => "cat:" + categories[i])
  }

  /** Categories that survive the query text unescaped: no '+' (the separator) and no '&'. */
  predicate PlainCategories(categories: seq<string>) {
    forall i :: 0 <= i < |categories| ==> '+' !in categories[i] && '&' !in categories[i]
  }

  const QUERY_PREFIX := BASE_URL + "?search_query="
  const LIMIT_KEY := "&max_results="

  class Client {
    const categories: seq<string>
    const maxResults: int

    /** `ArxivClient(categories, max_results=10)`. */
    constructor (categories: seq<string>, maxResults: int := 10)
      ensures this.categories == categories && this.maxResults == maxResults
    {
      this.categories := categories;
      this.maxResults := maxResults;
    }

    /** `build_query_url()`; `QueryUrlRoundTrip` shows what it encodes. */
    function BuildQueryUrl(): (url: string)
      ensures StartsWith(url, QUERY_PREFIX)
      ensures var n := IntToString(maxResults); |n| <= |url| && url[|url| - |n|..] == n
    {
      var query := Join("+OR+", CatTerms(categories));
      var n := IntToString(maxResults);
      var url := QUERY_PREFIX + (query + LIMIT_KEY + n);
      PrefixSplit(QUERY_PREFIX, query + LIMIT_KEY + n);
      assert url[|url| - |n|..] == n;
      url
    }

    /**
     * `fetch_papers()`: an error status raises before parsing; otherwise
     * every entry becomes one `Paper`, in order, and the first entry that
     * fails aborts the call with its exception.
     */
    method FetchPapers(respond: string -> Response, parse: Bytes -> Option<Element>, v: Validators)
      returns (r: Result<seq<Paper>>)
      ensures r == Fetched(respond(BuildQueryUrl()), parse, v)
    {
      var url := BuildQueryUrl();
      var response := respond(url);
      var content :- RaiseForStatus(response);
      var root := parse(content);
      if root.None? {
        return Err(XmlParse);
      }
      var entries := FindAll(root.value, QName(Atom, "entry"));
      r := DecodeEntries(entries, Decoder(v));
    }
  }

  /** The `for entry in root.findall(...)` loop, for any decoding of one entry. */
  method DecodeEntries(entries: seq<Element>, decode: Element -> Result<Paper>) returns (r: Result<seq<Paper>>)
    ensures r == Collect(entries, decode)
  {
    var papers: seq<Paper> := [];
    var i := 0;
    while i < |entries|
      invariant 0 <= i <= |entries|
      invariant Collect(entries[..i], decode) == Ok(papers)
    {
      var paper := decode(entries[i]);
      if paper.Err? {
        CollectErrAt(entries, i, decode);
        return Err(paper.error);
      }
      assert entries[..i + 1] == entries[..i] + [entries[i]];
      CollectAppend(entries[..i], entries[i], decode);
      papers := papers + [paper.value];
      i := i + 1;
    }
    assert entries[..i] == entries;
    return Ok(papers);
  }

  // ---------------------------------------------------------------------
  // What fetch_papers computes
  // ---------------------------------------------------------------------

  /** The loop body as a function of one entry. */
  function Decoder(v: Validators): Element -> Result<Paper> {
    e => DecodeEntry(e, v)
  }

  /** The outcome of `fetch_papers` for one response. */
  function Fetched(resp: Response, parse: Bytes -> Option<Element>, v: Validators): (r: Result<seq<Paper>>)
    ensures IsHttpError(resp.status) ==> r == Err(HttpStatus(resp.status))
    ensures !IsHttpError(resp.status) && parse(resp.content).None? ==> r == Err(XmlParse)
    ensures !IsHttpError(resp.status) && parse(resp.content).Some? ==>
      r == Collect(FindAll(parse(resp.content).value, QName(Atom, "entry")), Decoder(v))
  {
    var content :- RaiseForStatus(resp);
    match parse(content)
    case None => Err(XmlParse)
    case Some(root) => Collect(FindAll(root, QName(Atom, "entry")), Decoder(v))
  }

  /** Entries are decoded in feed order, one `Paper` each; a single bad entry discards them all. */
  lemma {:induction false} FetchedInOrder(resp: Response, parse: Bytes -> Option<Element>, v: Validators)
    requires !IsHttpError(resp.status) && parse(resp.content).Some?
    ensures var entries := FindAll(parse(resp.content).value, QName(Atom, "entry"));
      var r := Fetched(resp, parse, v);
      && (r.Ok? <==> forall i :: 0 <= i < |entries| ==> DecodeEntry(entries[i], v).Ok?)
      && (r.Ok? ==> |r.value| == |entries| && forall i :: 0 <= i < |entries| ==> DecodeEntry(entries[i], v) == Ok(r.value[i]))
      && (r.Err? ==> exists k :: 0 <= k < |entries| && DecodeEntry(entries[k], v) == Err(r.error))
  {
    var entries := FindAll(parse(resp.content).value, QName(Atom, "entry"));
    assert Fetched(resp, parse, v) == Collect(entries, Decoder(v));
  }

  /** A feed with no entries gives no papers. */
  lemma EmptyFeed(resp: Response, parse: Bytes -> Option<Element>, v: Validators)
    requires !IsHttpError(resp.status) && parse(resp.content).Some?
    requires forall c :: c in parse(resp.content).value.children ==> c.tag != QName(Atom, "entry")
    ensures Fetched(resp, parse, v) == Ok([])
  {
    var root := parse(resp.content).value;
    assert forall i :: 0 <= i < |root.children| ==> root.children[i].tag != QName(Atom, "entry") by {
      forall i | 0 <= i < |root.children| ensures root.children[i].tag != QName(Atom, "entry") {
        assert root.children[i] in root.children;
      }
    }
  }

  // ---------------------------------------------------------------------
  // Reading a query URL back
  // ---------------------------------------------------------------------

  lemma PrefixSplit(p: string, rest: string)
    ensures StartsWith(p + rest, p) && (p + rest)[|p|..] == rest
  {
    assert (p + rest)[..|p|] == p;
  }

  /** The categories of a `cat:a+OR+cat:b...` query with at least one term. */
  function ParseCatList(q: string): Option<seq<string>>
    decreases |q|
  {
    if !StartsWith(q, "cat:") then None
    else
      var body := q[4..];
      match IndexOf(body, '+')
      case None => Some([body])
      case Some(k) =>
        if StartsWith(body[k..], "+OR+") then
          match ParseCatList(body[k + 4..])
          case None => None
          case Some(rest) => Some([body[..k]] + rest)
        else None
  }

  function ParseCats(q: string): Option<seq<string>> {
    if q == "" then Some([]) else ParseCatList(q)
  }

  /** What follows the query prefix: `{query}&max_results={n}`. */
  function ParseQueryRest(rest: string): Option<(seq<string>, int)> {
    match IndexOf(rest, '&')
    case None => None
    case Some(k) =>
      var tail := rest[k..];
      if !StartsWith(tail, LIMIT_KEY) then None
      else
        match (ParseCats(rest[..k]), ParseInt(tail[|LIMIT_KEY|..]))
        case (Some(cats), Some(n)) => Some((cats, n))
        case _ => None
  }

  /** The categories and the result limit a query URL was built from. */
  function ParseQueryUrl(url: string): Option<(seq<string>, int)> {
    if !StartsWith(url, QUERY_PREFIX) then None
    else ParseQueryRest(url[|QUERY_PREFIX|..])
  }

  lemma {:induction false} PlainTail(categories: seq<string>)
    requires categories != [] && PlainCategories(categories)
    ensures PlainCategories(categories[1..])
    ensures CatTerms(categories[1..]) == CatTerms(categories)[1..]
  {
    var rest := categories[1..];
    forall i | 0 <= i < |rest| ensures '+' !in rest[i] && '&' !in rest[i] {
      assert rest[i] == categories[i + 1];
    }
  }

  /** One term: `cat:c` reads back as `[c]`. */
  lemma ParseCatListSingle(c: string)
    requires '+' !in c
    ensures ParseCatList("cat:" + c) == Some([c])
  {
    PrefixSplit("cat:", c);
  }

  /** A first term `cat:c+OR+` is read off and the scan goes on with what follows. */
  lemma ParseCatListStep(c: string, j: string)
    requires '+' !in c
    ensures ParseCatList("cat:" + (c + "+OR+" + j)) ==
      match ParseCatList(j) case None => None case Some(rest) => Some([c] + rest)
  {
    var body := c + "+OR+" + j;
    PrefixSplit("cat:", body);
    ReadOffTerm(c, j);
  }

  /** The body of a first term ends at its first '+', which starts the `+OR+` separator. */
  lemma ReadOffTerm(c: string, j: string)
    requires '+' !in c
    ensures var body := c + "+OR+" + j;
      && IndexOf(body, '+') == Some(|c|) && body[..|c|] == c
      && StartsWith(body[|c|..], "+OR+") && body[|c| + 4..] == j
  {
    var body := c + "+OR+" + j;
    AppendAssoc(c, "+OR+", j);
    IndexOfAt(c, '+', "+OR+" + j);
    PrefixSplit("+OR+", j);
    assert body[|c| + 4..] == body[|c|..][4..];
  }

  lemma {:induction false} ParseCatListOfJoin(categories: seq<string>)
    requires categories != [] && PlainCategories(categories)
    ensures ParseCatList(Join("+OR+", CatTerms(categories))) == Some(categories)
    decreases |categories|
  {
    var c := categories[0];
    if |categories| == 1 {
      JoinOneTerm(categories);
      ParseCatListSingle(c);
    } else {
      var rest := categories[1..];
      PlainTail(categories);
      JoinTerms(categories);
      ParseCatListStep(c, Join("+OR+", CatTerms(rest)));
      ParseCatListOfJoin(rest);
      assert [c] + rest == categories;
    }
  }

  /** A single category joins to its one term. */
  lemma JoinOneTerm(categories: seq<string>)
    requires |categories| == 1 && PlainCategories(categories)
    ensures Join("+OR+", CatTerms(categories)) == "cat:" + categories[0]
    ensures '+' !in categories[0] && categories == [categories[0]]
  {
  }

  /** The query of two or more categories: the first term, the separator, then the rest. */
  lemma JoinTerms(categories: seq<string>)
    requires |categories| > 1 && PlainCategories(categories)
    ensures Join("+OR+", CatTerms(categories))
         == "cat:" + (categories[0] + "+OR+" + Join("+OR+", CatTerms(categories[1..])))
    ensures '+' !in categories[0]
  {
    var c, j := categories[0], Join("+OR+", CatTerms(categories[1..]));
    assert CatTerms(categories)[1..] == CatTerms(categories[1..]);
    assert Join("+OR+", CatTerms(categories)) == "cat:" + c + "+OR+" + j;
    AppendAssoc("cat:" + c, "+OR+", j);
    AppendAssoc("cat:", c, "+OR+" + j);
    AppendAssoc(c, "+OR+", j);
  }

  /** A query built from plain categories holds no '&'. */
  lemma {:induction false} NoAmpersandInQuery(categories: seq<string>)
    requires PlainCategories(categories)
    ensures '&' !in Join("+OR+", CatTerms(categories))
    decreases |categories|
  {
    if |categories| > 1 {
      var rest := categories[1..];
      PlainTail(categories);
      NoAmpersandInQuery(rest);
      var j := Join("+OR+", CatTerms(rest));
      var c := categories[0];
      assert Join("+OR+", CatTerms(categories)) == "cat:" + c + "+OR+" + j;
      assert '&' !in c;
    } else if |categories| == 1 {
      assert Join("+OR+", CatTerms(categories)) == "cat:" + categories[0];
      assert '&' !in categories[0];
    }
  }

  lemma JoinNonEmpty(terms: seq<string>)
    requires terms != [] && terms[0] != ""
    ensures Join("+OR+", terms) != ""
  {
    if |terms| > 1 {
      assert |Join("+OR+", terms)| >= |terms[0]|;
    }
  }

  lemma {:induction false} QueryCatsRoundTrip(categories: seq<string>)
    requires PlainCategories(categories)
    ensures ParseCats(Join("+OR+", CatTerms(categories))) == Some(categories)
  {
    if categories != [] {
      ParseCatListOfJoin(categories);
      assert CatTerms(categories)[0] == "cat:" + categories[0];
      JoinNonEmpty(CatTerms(categories));
    }
  }

  lemma {:induction false} QueryRestRoundTrip(categories: seq<string>, maxResults: int)
    requires PlainCategories(categories)
    ensures ParseQueryRest(Join("+OR+", CatTerms(categories)) + LIMIT_KEY + IntToString(maxResults))
         == Some((categories, maxResults))
  {
    var query := Join("+OR+", CatTerms(categories));
    var n := IntToString(maxResults);
    AppendAssoc(query, LIMIT_KEY, n);
    NoAmpersandInQuery(categories);
    assert (LIMIT_KEY + n)[0] == '&';
    IndexOfAt(query, '&', LIMIT_KEY + n);
    PrefixSplit(LIMIT_KEY, n);
    ParseIntToString(maxResults);
    QueryCatsRoundTrip(categories);
  }

  /**
   * The query URL round-trips: the categories, in order, and the result
   * limit can be read back from it, as long as no category holds a '+'
   * or a '&' (the code does no URL escaping).
   */
  lemma {:induction false} QueryUrlRoundTrip(c: Client)
    requires PlainCategories(c.categories)
    ensures ParseQueryUrl(c.BuildQueryUrl()) == Some((c.categories, c.maxResults))
  {
    var rest := Join("+OR+", CatTerms(c.categories)) + LIMIT_KEY + IntToString(c.maxResults);
    assert c.BuildQueryUrl() == QUERY_PREFIX + rest;
    PrefixSplit(QUERY_PREFIX, rest);
    QueryRestRoundTrip(c.categories, c.maxResults);
  }

  /** Without categories the query is empty: `?search_query=&max_results=n`. */
  lemma NoCategories(c: Client)
    requires c.categories == []
    ensures c.BuildQueryUrl() == QUERY_PREFIX + LIMIT_KEY + IntToString(c.maxResults)
  {
    var n := IntToString(c.maxResults);
    assert Join("+OR+", CatTerms(c.categories)) == "";
    assert "" + LIMIT_KEY + n == LIMIT_KEY + n;
    AppendAssoc(QUERY_PREFIX, LIMIT_KEY, n);
  }
}
