/** The readability heuristics of extension/content/readability.js: whether a
    page is probably an article, its metadata, and which part of it holds
    the article text. Each heuristic is a pure function of the document; the
    memo fields the class keeps are left out because the functions are pure. */
module Readability {
  import opened Wrappers
  import opened Text
  import opened Dom
  import opened Grouping

  /** Selector lists, in the order the source writes them. */
  const ArticleLike: seq<Selector> := [
    Tag("article"), Attr("role", "article"), Class("article"), Class("post"), Class("content"),
    Class("entry"), Class("hentry"), Class("main"), Class("page"), Class("post-content"),
    Class("post-body"), Class("post-entry"), Class("post-text"), Class("entry-content"),
    Class("entry-body")]

  const ContentContainers: seq<Selector> := [
    Id("content"), Id("main"), Id("main-content"), Id("page"), Class("content"), Class("main")]

  const Paragraphs: seq<Selector> := [Tag("p")]

  const TitleMetas: seq<Selector> := [
    TagAttr("meta", "property", "og:title"), TagAttr("meta", "name", "twitter:title"),
    TagAttr("meta", "name", "title")]

  const Headings: seq<Selector> := [Tag("h1"), Tag("h2")]

  const DescriptionMetas: seq<Selector> := [
    TagAttr("meta", "property", "og:description"), TagAttr("meta", "name", "twitter:description"),
    TagAttr("meta", "name", "description")]

  const BylineSelectors: seq<Selector> := [
    Class("byline"), Class("author"), Class("meta-author"), Attr("rel", "author"), Attr("itemprop", "author")]

  const SiteNameMetas: seq<Selector> := [TagAttr("meta", "property", "og:site_name")]

  const Articles: seq<Selector> := [Tag("article"), Attr("role", "article")]

  /** The fixed container list `_grabArticle` tries, one selector at a time. */
  const ContentSelectors: seq<Selector> := [
    Class("post-content"), Class("post-body"), Class("entry-content"), Class("entry-body"),
    Class("article-content"), Class("article-body"), Class("content-body"), Class("content-article"),
    Id("content-body"), Id("content-article"), Class("story-body"), Class("story-content"),
    Class("main-content"), Class("main-article"), Class("entry"), Class("post"), Class("content"),
    Id("content"), Id("main"), Class("main"), Class("article")]

  function TrimmedLength(doc: Document, j: nat): nat
    requires j < |doc.elements|
  {
    |Trim(doc.elements[j].text)|
  }

  // ---------------------------------------------------------------------
  // Readerability

  /** Number and summed trimmed length of the paragraphs longer than 100
      characters once trimmed. */
  datatype Stats = Stats(count: nat, total: nat)

  /** The paragraphs of `q` longer than 100 characters once trimmed, in
      order. */
  function LongOnes(doc: Document, q: seq<nat>): (r: seq<nat>)
    requires forall m :: 0 <= m < |q| ==> q[m] < |doc.elements|
    ensures forall j :: j in r <==> j in q && TrimmedLength(doc, j) > 100
    ensures forall m :: 0 <= m < |r| ==> r[m] < |doc.elements|
  {
    if |q| == 0 then []
    else if TrimmedLength(doc, q[0]) > 100 then [q[0]] + LongOnes(doc, q[1..])
    else LongOnes(doc, q[1..])
  }

  /** The trimmed lengths of the listed paragraphs, added up. */
  function TrimmedSum(doc: Document, ps: seq<nat>): nat
    requires forall m :: 0 <= m < |ps| ==> ps[m] < |doc.elements|
  {
    if |ps| == 0 then 0 else TrimmedLength(doc, ps[0]) + TrimmedSum(doc, ps[1..])
  }

  /** The paragraph loop of `_isProbablyReaderable`: how many paragraphs of
      `q` are long, and their trimmed lengths added up. */
  function LongParagraphStats(doc: Document, q: seq<nat>): (s: Stats)
    requires forall m :: 0 <= m < |q| ==> q[m] < |doc.elements|
    ensures s == Stats(|LongOnes(doc, q)|, TrimmedSum(doc, LongOnes(doc, q)))
    ensures s.count <= |q|
    ensures s.total >= 101 * s.count
  {
    if |q| == 0 then Stats(0, 0)
    else
      var rest := LongParagraphStats(doc, q[1..]);
      var n := TrimmedLength(doc, q[0]);
      if n > 100 then Stats(rest.count + 1, rest.total + n) else rest
  }

  /** Every paragraph long: all of them count; none long: the loop adds
      nothing. */
  lemma {:induction false} LongParagraphStatsExtremes(doc: Document, q: seq<nat>)
    requires forall m :: 0 <= m < |q| ==> q[m] < |doc.elements|
    ensures (forall m :: 0 <= m < |q| ==> TrimmedLength(doc, q[m]) > 100) ==> LongOnes(doc, q) == q
    ensures (forall m :: 0 <= m < |q| ==> TrimmedLength(doc, q[m]) <= 100) ==> LongParagraphStats(doc, q) == Stats(0, 0)
  {
    if |q| > 0 {
      LongParagraphStatsExtremes(doc, q[1..]);
    }
  }

  ghost predicate HasArticleLike(doc: Document) {
    exists j :: Selected(doc, j, ArticleLike, Everywhere)
  }

  ghost predicate ParagraphSignal(doc: Document) {
    var ps := QueryAll(doc, Paragraphs, Everywhere);
    |ps| >= 5 && LongParagraphStats(doc, ps).count >= 3 && LongParagraphStats(doc, ps).total > 500
  }

  ghost predicate ContainerSignal(doc: Document) {
    exists j :: Selected(doc, j, ContentContainers, Everywhere) && |QueryAll(doc, Paragraphs, Within(j))| >= 3
  }

  /** The container loop: some container in `cs` holds at least three
      paragraphs. */
  function AnyContainerHolds(doc: Document, cs: seq<nat>): (r: bool)
    ensures r <==> exists k :: 0 <= k < |cs| && |QueryAll(doc, Paragraphs, Within(cs[k]))| >= 3
  {
    if |cs| == 0 then false
    else if |QueryAll(doc, Paragraphs, Within(cs[0]))| >= 3 then true
    else
      var r := AnyContainerHolds(doc, cs[1..]);
      assert forall k :: 1 <= k < |cs| ==> cs[k] == cs[1..][k - 1];
      r
  }

  /** `_isProbablyReaderable`: an article-like element exists, or the page
      has at least five paragraphs of which at least three are long and
      together over 500 characters, or some content container holds at
      least three paragraphs. */
  function IsProbablyReaderable(doc: Document): (r: bool)
    ensures r <==> HasArticleLike(doc) || ParagraphSignal(doc) || ContainerSignal(doc)
  {
    if |QueryAll(doc, ArticleLike, Everywhere)| > 0 then
      assert Selected(doc, QueryAll(doc, ArticleLike, Everywhere)[0], ArticleLike, Everywhere);
      true
    else
      var ps := QueryAll(doc, Paragraphs, Everywhere);
      if |ps| >= 5 && LongParagraphStats(doc, ps).count >= 3 && LongParagraphStats(doc, ps).total > 500 then true
      else
        var cs := QueryAll(doc, ContentContainers, Everywhere);
        var r := AnyContainerHolds(doc, cs);
        assert r ==> ContainerSignal(doc) by {
          if r {
            var k :| 0 <= k < |cs| && |QueryAll(doc, Paragraphs, Within(cs[k]))| >= 3;
            assert Selected(doc, cs[k], ContentContainers, Everywhere);
          }
        }
        assert ContainerSignal(doc) ==> r by {
          if ContainerSignal(doc) {
            var j :| Selected(doc, j, ContentContainers, Everywhere) && |QueryAll(doc, Paragraphs, Within(j))| >= 3;
            var k :| 0 <= k < |cs| && cs[k] == j;
          }
        }
        r
  }

  /** A page with at least five paragraphs, every one longer than 100
      characters once trimmed, is readerable. */
  lemma LongParagraphsReaderable(doc: Document)
    requires |QueryAll(doc, Paragraphs, Everywhere)| >= 5
    requires forall j :: Selected(doc, j, Paragraphs, Everywhere) ==> TrimmedLength(doc, j) > 100
    ensures IsProbablyReaderable(doc)
  {
    var ps := QueryAll(doc, Paragraphs, Everywhere);
    assert forall m :: 0 <= m < |ps| ==> TrimmedLength(doc, ps[m]) > 100 by {
      forall m | 0 <= m < |ps|
        ensures TrimmedLength(doc, ps[m]) > 100
      {
        assert Selected(doc, ps[m], Paragraphs, Everywhere);
      }
    }
    LongParagraphStatsExtremes(doc, ps);
    var st := LongParagraphStats(doc, ps);
    assert st.count == |ps| && st.total > 500;
    assert ParagraphSignal(doc);
  }

  /** A page with no article-like element, no content container and fewer
      than five paragraphs is not readerable. */
  lemma BarePageNotReaderable(doc: Document)
    requires forall j :: !Selected(doc, j, ArticleLike, Everywhere)
    requires forall j :: !Selected(doc, j, ContentContainers, Everywhere)
    requires |QueryAll(doc, Paragraphs, Everywhere)| < 5
    ensures !IsProbablyReaderable(doc)
  {
  }

  // ---------------------------------------------------------------------
  // Metadata

  /** The `content` attribute, the empty string when absent. */
  function ContentAttr(e: Element): string {
    if "content" in e.attributes then e.attributes["content"] else ""
  }

  /** The JSON-LD `headline`, the empty string when there is none; a
      headline is used only when it is truthy, i.e. non-empty. */
  function JsonHeadline(doc: Document): string {
    match doc.jsonLd
    case None => ""
    case Some(d) => d.headline
  }

  function JsonAuthor(doc: Document): string {
    match doc.jsonLd
    case None => ""
    case Some(d) => d.authorName
  }

  const HeadingTest := TrimmedWithin(10, 100)

  /** `_getArticleTitle`: the first success of the JSON-LD headline, the first
      title meta with non-empty content, the document title, the first
      heading whose trimmed text is between 10 and 100 characters
      exclusive, and finally the empty string. */
  function ArticleTitle(doc: Document): (title: string)
    ensures JsonHeadline(doc) != "" ==> title == JsonHeadline(doc)
    ensures JsonHeadline(doc) == "" ==>
              forall j: nat :: IsFirstPassing(doc, TitleMetas, NonEmptyContent, j) ==> title == ContentAttr(doc.elements[j])
    ensures JsonHeadline(doc) == "" && NonePasses(doc, TitleMetas, NonEmptyContent) && doc.title != "" ==>
              title == doc.title
    ensures JsonHeadline(doc) == "" && NonePasses(doc, TitleMetas, NonEmptyContent) && doc.title == "" ==>
              && (forall j: nat :: IsFirstPassing(doc, Headings, HeadingTest, j) ==> title == Trim(doc.elements[j].text))
              && (NonePasses(doc, Headings, HeadingTest) ==> title == "")
  {
    if JsonHeadline(doc) != "" then JsonHeadline(doc)
    else match FirstPassing(doc, TitleMetas, NonEmptyContent)
      case Some(j) => ContentAttr(doc.elements[j])
      case None =>
        if doc.title != "" then doc.title
        else match FirstPassing(doc, Headings, HeadingTest)
          case Some(j) => Trim(doc.elements[j].text)
          case None => ""
  }

  /** `_getExcerpt`: the first description meta with non-empty content, else
      the trimmed text of the first paragraph longer than 50 characters
      once trimmed, else the empty string. */
  function Excerpt(doc: Document): (excerpt: string)
    ensures forall j: nat :: IsFirstPassing(doc, DescriptionMetas, NonEmptyContent, j) ==>
              excerpt == ContentAttr(doc.elements[j])
    ensures NonePasses(doc, DescriptionMetas, NonEmptyContent) ==>
              && (forall j: nat :: IsFirstPassing(doc, Paragraphs, TrimmedOver(50), j) ==> excerpt == Trim(doc.elements[j].text))
              && (NonePasses(doc, Paragraphs, TrimmedOver(50)) ==> excerpt == "")
  {
    match FirstPassing(doc, DescriptionMetas, NonEmptyContent)
    case Some(j) => ContentAttr(doc.elements[j])
    case None =>
      match FirstPassing(doc, Paragraphs, TrimmedOver(50))
      case Some(j) => Trim(doc.elements[j].text)
      case None => ""
  }

  const BylineTest := TrimmedWithin(0, 100)

  /** `_getByline`: the JSON-LD author name, else the trimmed text of the
      first byline element whose trimmed text is non-empty and shorter than
      100 characters, else null. */
  function Byline(doc: Document): (byline: Option<string>)
    ensures JsonAuthor(doc) != "" ==> byline == Some(JsonAuthor(doc))
    ensures JsonAuthor(doc) == "" ==>
              && (forall j: nat :: IsFirstPassing(doc, BylineSelectors, BylineTest, j) ==>
                    byline == Some(Trim(doc.elements[j].text)))
              && (NonePasses(doc, BylineSelectors, BylineTest) ==> byline == None)
    ensures byline.Some? ==> 0 < |byline.value|
  {
    if JsonAuthor(doc) != "" then Some(JsonAuthor(doc))
    else match FirstPassing(doc, BylineSelectors, BylineTest)
      case Some(j) => Some(Trim(doc.elements[j].text))
      case None => None
  }

  /** `_getDirection`: the root's `dir` attribute when it is non-empty,
      otherwise "ltr". */
  function Direction(doc: Document): (dir: string)
    ensures dir != ""
    ensures doc.dir.Some? && doc.dir.value != "" ==> dir == doc.dir.value
    ensures doc.dir.None? || doc.dir.value == "" ==> dir == "ltr"
  {
    match doc.dir
    case Some(d) => if d != "" then d else "ltr"
    case None => "ltr"
  }

  /** `part` is the text of `s` up to its first dot (or all of `s`). */
  ghost predicate FirstLabel(s: string, part: string) {
    part <= s && '.' !in part && (|part| == |s| || s[|part|] == '.')
  }

  /** A string has one first label. */
  lemma FirstLabelUnique(s: string, a: string, b: string)
    requires FirstLabel(s, a) && FirstLabel(s, b)
    ensures a == b
  {
  }

  lemma FirstPartIsFirstLabel(s: string)
    ensures FirstLabel(s, Split(s, '.')[0])
    ensures |Split(s, '.')| > 1 <==> '.' in s
    ensures |Split(s, '.')| > 1 ==> Split(s, '.')[1] == Split(s[IndexOf(s, '.') + 1..], '.')[0]
  {
    var i := IndexOf(s, '.');
    if i < |s| {
      assert Split(s, '.')[0] == s[..i];
    } else {
      assert '.' !in s by {
        forall j | 0 <= j < |s|
          ensures s[j] != '.'
        {}
      }
    }
  }

  /** `_getSiteName`: the content attribute of the first `og:site_name` meta
      when one exists (null when it has no content attribute); otherwise the
      host name's first label, or its second when the first is "www"; a host
      name without a dot as it is; and null without a host name. This is
      the rule for a document with a location; on one without, the
      host-name branch throws, which `Extraction.ParseOn` models. */
  function SiteName(doc: Document): (name: Option<string>)
    ensures forall j: nat :: IsFirstPassing(doc, SiteNameMetas, Anything, j) ==>
              name == (if "content" in doc.elements[j].attributes then Some(doc.elements[j].attributes["content"]) else None)
    ensures NonePasses(doc, SiteNameMetas, Anything) ==>
              var h := doc.hostname;
              && (h == "" ==> name == None)
              && (h != "" && '.' !in h ==> name == Some(h))
              && (h != "" && '.' in h ==>
                    name.Some? &&
                    if FirstLabel(h, "www") then FirstLabel(h[4..], name.value) else FirstLabel(h, name.value))
  {
    match FirstPassing(doc, SiteNameMetas, Anything)
    case Some(j) =>
      var e := doc.elements[j];
      if "content" in e.attributes then Some(e.attributes["content"]) else None
    case None =>
      var h := doc.hostname;
      if h != "" then
        var parts := Split(h, '.');
        FirstPartIsFirstLabel(h);
        if |parts| > 1 then
          var i := IndexOf(h, '.');
          FirstPartIsFirstLabel(h[i + 1..]);
          if parts[0] == "www" then
            assert i == 3;
            Some(parts[1])
          else
            assert !FirstLabel(h, "www");
            Some(parts[0])
        else
          assert parts[0] == h;
          Some(h)
      else None
  }

  // ---------------------------------------------------------------------
  // Content selection

  /** What `_grabArticle` returns: a clone of one element of the page, or a
      new container holding clones of the listed paragraphs. */
  datatype Content = Clone(element: nat) | Container(paragraphs: seq<nat>)

  /** The selector matches exactly one element and it holds at least three
      paragraphs. */
  predicate Qualifies(doc: Document, sel: Selector) {
    var q := QueryAll(doc, [sel], Everywhere);
    |q| == 1 && |QueryAll(doc, Paragraphs, Within(q[0]))| >= 3
  }

  ghost predicate QualifiesWith(doc: Document, sel: Selector, j: nat) {
    OnlyMatch(doc, [sel], Everywhere, j) && |QueryAll(doc, Paragraphs, Within(j))| >= 3
  }

  /** A selector qualifies exactly when it has an only match holding at least
      three paragraphs. */
  lemma QualifiesIff(doc: Document, sel: Selector, j: nat)
    requires OnlyMatch(doc, [sel], Everywhere, j)
    ensures Qualifies(doc, sel) <==> QualifiesWith(doc, sel, j)
  {
    SingleResult(doc, [sel], Everywhere, j);
  }

  datatype Pick = Pick(index: nat, element: nat)

  /** The selector loop of `_grabArticle`, from position `i` of `sels` on. */
  function FirstQualifying(doc: Document, sels: seq<Selector>, i: nat): (r: Option<Pick>)
    requires i <= |sels|
    ensures r.Some? ==> i <= r.value.index < |sels| && QualifiesWith(doc, sels[r.value.index], r.value.element)
    ensures r.Some? ==> forall k :: i <= k < r.value.index ==> !Qualifies(doc, sels[k])
    ensures r.None? <==> forall k :: i <= k < |sels| ==> !Qualifies(doc, sels[k])
    decreases |sels| - i
  {
    if i == |sels| then None
    else if Qualifies(doc, sels[i]) then
      var j := QueryAll(doc, [sels[i]], Everywhere)[0];
      SingleResult(doc, [sels[i]], Everywhere, j);
      Some(Pick(i, j))
    else FirstQualifying(doc, sels, i + 1)
  }

  /** The paragraph filter of `_grabArticle`: longer than 50 characters once
      trimmed, not hidden, and not inside a header, footer or sidebar. */
  predicate IsContentParagraph(doc: Document, j: nat) {
    && j < |doc.elements|
    && TrimmedLength(doc, j) > 50
    && !IsHiddenIn(doc, j)
    && !InRegion(doc, j, Header)
    && !InRegion(doc, j, Footer)
    && !InRegion(doc, j, Sidebar)
  }

  function ContentParagraphs(doc: Document, q: seq<nat>): (r: seq<nat>)
    ensures forall j :: j in r <==> j in q && IsContentParagraph(doc, j)
    ensures |r| <= |q|
  {
    if |q| == 0 then []
    else
      var rest := ContentParagraphs(doc, q[1..]);
      if IsContentParagraph(doc, q[0]) then [q[0]] + rest else rest
  }

  /** Filtering keeps document order. */
  lemma {:induction false} ContentParagraphsInOrder(doc: Document, q: seq<nat>)
    requires Increasing(q)
    ensures Increasing(ContentParagraphs(doc, q))
  {
    if |q| > 0 {
      var rest := ContentParagraphs(doc, q[1..]);
      ContentParagraphsInOrder(doc, q[1..]);
      forall j | j in rest
        ensures q[0] < j
      {
        var m :| 0 <= m < |q[1..]| && q[1..][m] == j;
        assert q[m + 1] == j;
      }
      if IsContentParagraph(doc, q[0]) {
        IncreasingCons(q[0], rest);
      }
    }
  }

  /** In a document without layout every element is hidden, so no
      paragraph passes the filter. */
  lemma {:induction false} NoLayoutNoContent(doc: Document, q: seq<nat>)
    requires !doc.live
    ensures ContentParagraphs(doc, q) == []
  {
    if |q| > 0 {
      NoLayoutNoContent(doc, q[1..]);
    }
  }

  /** The guards of the clustering step: at least five paragraphs, of which
      at least three pass the filter. */
  ghost predicate ClusterGuards(doc: Document) {
    var ps := QueryAll(doc, Paragraphs, Everywhere);
    |ps| >= 5 && |ContentParagraphs(doc, ps)| >= 3
  }

  /** The clustering step: the earliest largest close run of content
      paragraphs, when the guards hold, and nothing otherwise. */
  function ClusterParagraphs(doc: Document): (r: Option<seq<nat>>)
    ensures r.Some? <==> ClusterGuards(doc)
    ensures r.Some? ==> |r.value| > 0
    ensures r.Some? ==> forall k :: 0 <= k < |r.value| ==> IsContentParagraph(doc, r.value[k])
    ensures r.Some? ==> forall k :: 0 < k < |r.value| ==> Close(doc, r.value[k - 1], r.value[k])
  {
    var ps := QueryAll(doc, Paragraphs, Everywhere);
    if |ps| >= 5 then
      var cps := ContentParagraphs(doc, ps);
      if |cps| >= 3 then
        var gs := GroupParagraphs(doc, cps);
        RunMembers(doc, cps, gs);
        Some(Largest(gs))
      else None
    else None
  }

  /** Every member of a run is one of the partitioned paragraphs. */
  lemma RunMembers(doc: Document, cps: seq<nat>, gs: seq<seq<nat>>)
    requires IsCloseRunPartition(doc, cps, gs)
    requires forall j :: j in cps ==> IsContentParagraph(doc, j)
    ensures forall g :: g in gs ==> forall m :: 0 <= m < |g| ==> IsContentParagraph(doc, g[m])
    ensures forall g :: g in gs ==> forall m :: 0 < m < |g| ==> Close(doc, g[m - 1], g[m])
  {
    forall k | 0 <= k < |gs|
      ensures forall m :: 0 <= m < |gs[k]| ==> IsContentParagraph(doc, gs[k][m])
    {
      FlattenMembers(gs, k);
    }
  }

  lemma {:induction false} FlattenMembers(gs: seq<seq<nat>>, k: nat)
    requires k < |gs|
    ensures forall m :: 0 <= m < |gs[k]| ==> gs[k][m] in Flatten(gs)
    decreases |gs|
  {
    if k < |gs| - 1 {
      FlattenMembers(gs[..|gs| - 1], k);
      assert gs[..|gs| - 1][k] == gs[k];
    }
  }

  /** No `article`/`[role="article"]` element is the only one. */
  ghost predicate NoSingleArticle(doc: Document) {
    forall j: nat :: !OnlyMatch(doc, Articles, Everywhere, j)
  }

  /** No container selector has an only match holding three paragraphs. */
  predicate NoneQualifies(doc: Document) {
    forall k :: 0 <= k < |ContentSelectors| ==> !Qualifies(doc, ContentSelectors[k])
  }

  /** The selector loop stops at the first selector that qualifies. */
  lemma FirstQualifyingIsFirst(doc: Document, sels: seq<Selector>, k: nat, j: nat)
    requires k < |sels| && QualifiesWith(doc, sels[k], j)
    requires forall i :: 0 <= i < k ==> !Qualifies(doc, sels[i])
    ensures FirstQualifying(doc, sels, 0) == Some(Pick(k, j))
  {
    QualifiesIff(doc, sels[k], j);
    var r := FirstQualifying(doc, sels, 0);
    assert r.Some?;
    QualifiesIff(doc, sels[r.value.index], r.value.element);
    assert r.value.index == k;
    assert Selected(doc, j, [sels[k]], Everywhere);
  }

  /** `_grabArticle`: a clone of the only `article`/`[role="article"]`
      element; else of the only match of the first container selector whose
      only match holds at least three paragraphs; else, when the clustering
      guards hold, a container of the largest close run of content
      paragraphs; else a clone of the body. */
  function GrabArticle(doc: Document): (r: Content)
    ensures forall j: nat :: OnlyMatch(doc, Articles, Everywhere, j) ==> r == Clone(j)
    ensures NoSingleArticle(doc) && NoneQualifies(doc) && ClusterGuards(doc) ==>
              r.Container? && ClusterParagraphs(doc) == Some(r.paragraphs)
    ensures NoSingleArticle(doc) && NoneQualifies(doc) && !ClusterGuards(doc) ==> r == Clone(doc.body)
    ensures r.Clone? && r.element != doc.body ==>
              || OnlyMatch(doc, Articles, Everywhere, r.element)
              || exists k :: 0 <= k < |ContentSelectors| && QualifiesWith(doc, ContentSelectors[k], r.element)
    ensures r.Container? ==>
              && NoSingleArticle(doc)
              && NoneQualifies(doc)
              && ClusterParagraphs(doc) == Some(r.paragraphs)
  {
    var arts := QueryAll(doc, Articles, Everywhere);
    if |arts| == 1 then
      SingleResult(doc, Articles, Everywhere, arts[0]);
      Clone(arts[0])
    else
      assert NoSingleArticle(doc) by {
        forall j: nat
          ensures !OnlyMatch(doc, Articles, Everywhere, j)
        {
          SingleResult(doc, Articles, Everywhere, j);
        }
      }
      match FirstQualifying(doc, ContentSelectors, 0)
      case Some(p) => Clone(p.element)
      case None =>
        match ClusterParagraphs(doc)
        case Some(run) => Container(run)
        case None => Clone(doc.body)
  }

  /** Without a single article, `_grabArticle` clones the only match of the
      first container selector that qualifies. */
  lemma GrabArticlePicksFirstQualifying(doc: Document, k: nat, j: nat)
    requires NoSingleArticle(doc)
    requires k < |ContentSelectors| && QualifiesWith(doc, ContentSelectors[k], j)
    requires forall i :: 0 <= i < k ==> !Qualifies(doc, ContentSelectors[i])
    ensures GrabArticle(doc) == Clone(j)
  {
    FirstQualifyingIsFirst(doc, ContentSelectors, k, j);
    var arts := QueryAll(doc, Articles, Everywhere);
    if |arts| == 1 {
      SingleResult(doc, Articles, Everywhere, arts[0]);
      assert false;
    }
  }

  /** With at least five paragraphs of which at least three pass the filter,
      the clustered paragraphs are the earliest of the longest runs in the
      unique partition of the content paragraphs into close runs; and when
      no article or container selector applies, they are the container that
      `_grabArticle` builds. */
  lemma ContainerIsEarliestLargestRun(doc: Document) returns (gs: seq<seq<nat>>, k: nat)
    requires |QueryAll(doc, Paragraphs, Everywhere)| >= 5
    requires |ContentParagraphs(doc, QueryAll(doc, Paragraphs, Everywhere))| >= 3
    ensures gs == GroupParagraphs(doc, ContentParagraphs(doc, QueryAll(doc, Paragraphs, Everywhere)))
    ensures IsCloseRunPartition(doc, ContentParagraphs(doc, QueryAll(doc, Paragraphs, Everywhere)), gs)
    ensures k < |gs| && ClusterParagraphs(doc) == Some(gs[k])
    ensures forall j :: 0 <= j < |gs| ==> |gs[j]| <= |gs[k]|
    ensures forall j :: 0 <= j < k ==> |gs[j]| < |gs[k]|
    ensures NoSingleArticle(doc) && NoneQualifies(doc) ==> GrabArticle(doc) == Container(gs[k])
  {
    var cps := ContentParagraphs(doc, QueryAll(doc, Paragraphs, Everywhere));
    gs := GroupParagraphs(doc, cps);
    k := LargestIsEarliestMaximal(gs);
  }

  // ---------------------------------------------------------------------
  // The article

  /** The text content of an element, the empty string for a missing one. */
  function TextAt(doc: Document, j: nat): string {
    if j < |doc.elements| then doc.elements[j].text else ""
  }

  /** Text content of the paragraphs in order: a new container's text is the
      concatenation of its children's. */
  function TextOfAll(doc: Document, ps: seq<nat>): (text: string)
    ensures |text| == SumOfLengths(doc, ps)
  {
    if |ps| == 0 then "" else TextAt(doc, ps[0]) + TextOfAll(doc, ps[1..])
  }

  function SumOfLengths(doc: Document, ps: seq<nat>): nat {
    if |ps| == 0 then 0 else |TextAt(doc, ps[0])| + SumOfLengths(doc, ps[1..])
  }

  function TextOf(doc: Document, c: Content): string {
    match c
    case Clone(j) => TextAt(doc, j)
    case Container(ps) => TextOfAll(doc, ps)
  }

  datatype Article = Article(
    title: string,
    content: Content,
    textContent: string,
    length: nat,
    excerpt: string,
    byline: Option<string>,
    dir: Option<string>,
    siteName: Option<string>,
    lang: string)

  /** `parse` as its design intends: a page that is not readerable yields
      the whole body with no byline and no direction; otherwise the selected
      content with every metadata field. */
  function Parse(doc: Document): (a: Article)
    ensures a.length == |a.textContent| && a.textContent == TextOf(doc, a.content)
    ensures a.title == ArticleTitle(doc) && a.excerpt == Excerpt(doc) && a.siteName == SiteName(doc) && a.lang == doc.lang
    ensures !IsProbablyReaderable(doc) ==> a.content == Clone(doc.body) && a.byline == None && a.dir == None
    ensures IsProbablyReaderable(doc) ==>
              a.content == GrabArticle(doc) && a.byline == Byline(doc) && a.dir == Some(Direction(doc))
  {
    if !IsProbablyReaderable(doc) then
      var text := TextAt(doc, doc.body);
      Article(ArticleTitle(doc), Clone(doc.body), text, |text|, Excerpt(doc), None, None, SiteName(doc), doc.lang)
    else
      var content := GrabArticle(doc);
      var text := TextOf(doc, content);
      Article(ArticleTitle(doc), content, text, |text|, Excerpt(doc), Byline(doc), Some(Direction(doc)),
              SiteName(doc), doc.lang)
  }
}
