/** `extractArticleContent` (extension/content/content-script.js) and the
    reader object it drives. The reader works on `document.cloneNode(true)`.
    The constructor of the reader class stores a memo under the same name as
    the readerability method, so on every instance the property lookup finds
    the stored null before the method; `parse` calls that null and throws,
    and extraction falls back to the page body. */
module Extraction {
  import opened Wrappers
  import opened Dom
  import opened Readability

  /** What a property of the reader object holds. */
  datatype Value = Method | Null | Undefined

  /** A reader: the document it was given and the instance's own
      properties, which shadow the class's methods of the same name. */
  datatype Reader = Reader(doc: Document, own: map<string, Value>)

  const ReadabilityMethods: set<string> := {
    "parse", "_isProbablyReaderable", "_getArticleTitle", "_getExcerpt", "_getByline", "_getDirection",
    "_getSiteName", "_grabArticle", "_isElementHidden", "_isElementInHeader", "_isElementInFooter",
    "_isElementInSidebar", "_groupParagraphs", "_areElementsClose"}

  /** Property lookup: an own property first, then the class's methods. */
  function Lookup(r: Reader, name: string): (v: Value)
    ensures name in r.own ==> v == r.own[name]
    ensures name !in r.own ==> (v == Method <==> name in ReadabilityMethods)
  {
    if name in r.own then r.own[name]
    else if name in ReadabilityMethods then Method
    else Undefined
  }

  /** The constructor, storing the readerability memo under `memoName`. */
  function Construct(doc: Document, memoName: string): (r: Reader)
    ensures r.doc == doc && memoName in r.own && r.own[memoName] == Null
  {
    Reader(doc, map["_articleTitle" := Null, "_articleContent" := Null, memoName := Null])
  }

  /** Calling a property that is not a function, or reading a property of
      null, throws a TypeError. */
  datatype TypeError = NotAFunction(name: string) | NullRead(property: string)

  /** The document has an `og:site_name` meta, so `_getSiteName` never reads
      the location. */
  ghost predicate HasSiteNameMeta(doc: Document) {
    exists j :: 0 <= j < |doc.elements| && Selected(doc, j, SiteNameMetas, Everywhere)
  }

  /** `parse` on a reader: its first step calls the readerability method; if
      the lookup does not find a method, the call throws. Both of its paths
      then call `_getSiteName`, which, on a document without a location and
      without a site-name meta, reads `hostname` of null and throws.
      Otherwise every step is as the heuristics define it. */
  function ParseOn(r: Reader): (res: Result<Article, TypeError>)
    ensures res.Success? <==> Lookup(r, "_isProbablyReaderable") == Method && (r.doc.live || HasSiteNameMeta(r.doc))
    ensures Lookup(r, "_isProbablyReaderable") != Method ==> res == Failure(NotAFunction("_isProbablyReaderable"))
    ensures res.Success? ==> res.value == Parse(r.doc)
  {
    if Lookup(r, "_isProbablyReaderable") != Method then Failure(NotAFunction("_isProbablyReaderable"))
    else if !r.doc.live && FirstPassing(r.doc, SiteNameMetas, Anything).None? then Failure(NullRead("hostname"))
    else Success(Parse(r.doc))
  }

  /** The reader as the constructor builds it, on the clone: the memo
      shadows the method. */
  function ParseAsWritten(doc: Document): Result<Article, TypeError> {
    ParseOn(Construct(CloneDocument(doc), "_isProbablyReaderable"))
  }

  /** The reader with its memo stored under a name of its own. */
  function ParseIntended(doc: Document): Result<Article, TypeError> {
    ParseOn(Construct(CloneDocument(doc), "_readerableMemo"))
  }

  /** What extraction hands to segmentation. */
  datatype Extracted = Extracted(title: string, content: Content, textContent: string)

  /** The fallback: the document title and the whole body. */
  function Fallback(doc: Document): Extracted {
    Extracted(doc.title, Clone(doc.body), TextAt(doc, doc.body))
  }

  /** The body of `extractArticleContent` given what `parse` did: a parsed
      article always has content, so it is used; a thrown error is caught
      and the body is used instead. */
  function ExtractWith(doc: Document, parsed: Result<Article, TypeError>): (e: Extracted)
    ensures parsed.Success? ==> e.textContent == parsed.value.textContent && e.title == parsed.value.title
    ensures parsed.Failure? ==> e == Fallback(doc)
  {
    match parsed
    case Success(a) => Extracted(a.title, a.content, a.textContent)
    case Failure(_) => Fallback(doc)
  }

  /** `extractArticleContent` as written: the readerability call throws on
      every page, so the result is the page title and the whole body. */
  function ExtractArticleContent(doc: Document): (e: Extracted)
    ensures e.title == doc.title && e.content == Clone(doc.body) && e.textContent == TextAt(doc, doc.body)
  {
    assert Lookup(Construct(CloneDocument(doc), "_isProbablyReaderable"), "_isProbablyReaderable") == Null;
    ExtractWith(doc, ParseAsWritten(doc))
  }

  /** Extraction with a reader whose readerability method is reachable: the
      clone's article when the page has a site-name meta, the page title and
      body otherwise. */
  function ExtractIntended(doc: Document): (e: Extracted)
    ensures HasSiteNameMeta(doc) ==>
              && e.title == ArticleTitle(CloneDocument(doc))
              && e.content == Parse(CloneDocument(doc)).content
              && e.textContent == TextOf(CloneDocument(doc), e.content)
    ensures !HasSiteNameMeta(doc) ==> e == Fallback(doc)
  {
    var c := CloneDocument(doc);
    assert "_isProbablyReaderable" !in Construct(c, "_readerableMemo").own;
    CloneKeepsSiteNameMeta(doc);
    ExtractWith(doc, ParseIntended(doc))
  }

  /** As written, `parse` throws on every document, so extraction always
      returns the document title and the whole body. */
  lemma ExtractionAlwaysFallsBack(doc: Document)
    ensures ParseAsWritten(doc) == Failure(NotAFunction("_isProbablyReaderable"))
    ensures ExtractArticleContent(doc) == Fallback(doc)
  {
    assert Lookup(Construct(CloneDocument(doc), "_isProbablyReaderable"), "_isProbablyReaderable") == Null;
  }

  /** With the memo renamed, `parse` succeeds exactly on pages with a
      site-name meta, and then extraction uses the clone's parsed article:
      its title is the metadata title and its text is that of the selected
      content. Without the meta it throws and extraction falls back. */
  lemma ExtractionIntendedUsesArticle(doc: Document)
    ensures ParseIntended(doc).Success? <==> HasSiteNameMeta(doc)
    ensures HasSiteNameMeta(doc) ==> ParseIntended(doc) == Success(Parse(CloneDocument(doc)))
    ensures !HasSiteNameMeta(doc) ==> ParseIntended(doc) == Failure(NullRead("hostname"))
    ensures HasSiteNameMeta(doc) ==>
              && ExtractIntended(doc).title == ArticleTitle(CloneDocument(doc))
              && ExtractIntended(doc).textContent == TextOf(CloneDocument(doc), Parse(CloneDocument(doc)).content)
    ensures !HasSiteNameMeta(doc) ==> ExtractIntended(doc) == Fallback(doc)
  {
    var c := CloneDocument(doc);
    assert "_isProbablyReaderable" !in Construct(c, "_readerableMemo").own;
    CloneKeepsSiteNameMeta(doc);
  }

  lemma CloneKeepsSiteNameMeta(doc: Document)
    ensures HasSiteNameMeta(CloneDocument(doc)) == HasSiteNameMeta(doc)
  {
    forall j | 0 <= j < |doc.elements|
      ensures Selected(CloneDocument(doc), j, SiteNameMetas, Everywhere) == Selected(doc, j, SiteNameMetas, Everywhere)
    {
      CloneSelects(doc, j, SiteNameMetas, Everywhere);
    }
  }

  /** The clone has no layout, so every paragraph is hidden and the
      clustering step never applies to it. */
  lemma CloneNeverClusters(doc: Document)
    ensures ContentParagraphs(CloneDocument(doc), QueryAll(CloneDocument(doc), Paragraphs, Everywhere)) == []
    ensures ClusterParagraphs(CloneDocument(doc)) == None
  {
    var c := CloneDocument(doc);
    NoLayoutNoContent(c, QueryAll(c, Paragraphs, Everywhere));
  }

  /** A page with a site-name meta whose only `article` element has text
      other than the body's is read as its body as written, but as the
      article once the method is reachable. */
  lemma SingleArticleIgnored(doc: Document, j: nat)
    requires OnlyMatch(doc, Articles, Everywhere, j)
    requires HasSiteNameMeta(doc)
    requires TextAt(doc, j) != TextAt(doc, doc.body)
    ensures ExtractIntended(doc).textContent == TextAt(doc, j)
    ensures ExtractArticleContent(doc).textContent != ExtractIntended(doc).textContent
  {
    ExtractionAlwaysFallsBack(doc);
    ExtractionIntendedUsesArticle(doc);
    CloneReadsArticle(doc, j);
  }

  /** The clone still has the single article, so it is readerable and its
      content is that article. */
  lemma CloneReadsArticle(doc: Document, j: nat)
    requires OnlyMatch(doc, Articles, Everywhere, j)
    ensures Parse(CloneDocument(doc)).content == Clone(j)
  {
    var c := CloneDocument(doc);
    forall i
      ensures Selected(c, i, Articles, Everywhere) == Selected(doc, i, Articles, Everywhere)
    {
      CloneSelects(doc, i, Articles, Everywhere);
    }
    assert OnlyMatch(c, Articles, Everywhere, j);
    var k :| 0 <= k < |Articles| && MatchesSelector(c.elements[j], Articles[k]);
    assert MatchesSelector(c.elements[j], ArticleLike[k]);
    assert Selected(c, j, ArticleLike, Everywhere);
  }
}
