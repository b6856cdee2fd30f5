/** The part of a web page that the readability heuristics look at: a flat
    list of elements in document order, each knowing its parent, plus the
    document-level facts (title, host name, root `dir` and `lang`, the
    first JSON-LD block, and whether the document is displayed). Layout and
    computed style are inputs: the browser computes them, the heuristics
    only read them. */
module Dom {
  import opened Wrappers
  import opened Text

  /** A bounding client rectangle, in CSS pixels. */
  datatype Rect = Rect(left: real, top: real, right: real, bottom: real)

  /** The computed style values the hidden-element test reads, and the
      element's `offsetHeight`. */
  datatype Style = Style(display: string, visibility: string, opacity: string, offsetHeight: real)

  datatype Element = Element(
    tag: string,                    // lower-case tag name
    id: string,
    className: string,
    attributes: map<string, string>,
    text: string,                   // textContent
    style: Style,
    rect: Rect,
    parent: Option<nat>)            // index of the parent element, None at the root

  /** The fields of the first `application/ld+json` script that the metadata
      getters read; a missing script and one whose text does not parse as
      JSON both appear as `None` on the document. */
  datatype JsonLd = JsonLd(headline: string, authorName: string)

  datatype Document = Document(
    elements: seq<Element>,         // in document order
    body: nat,                      // index of the body element
    title: string,
    hostname: string,
    dir: Option<string>,            // the root element's dir attribute
    lang: string,
    jsonLd: Option<JsonLd>,
    live: bool)                     // displayed in a browsing context

  /** `document.cloneNode(true)`: the same elements and document-level
      facts, but outside any browsing context, so it has neither a location
      nor a layout. */
  function CloneDocument(doc: Document): (c: Document)
    ensures c.elements == doc.elements && c.body == doc.body && c.title == doc.title
    ensures !c.live
  {
    doc.(live := false)
  }

  /** A document as a browser builds it: the body exists and every element
      comes after its parent in document order. */
  ghost predicate WellFormed(doc: Document) {
    && doc.body < |doc.elements|
    && forall i :: 0 <= i < |doc.elements| && doc.elements[i].parent.Some? ==> doc.elements[i].parent.value < i
  }

  /** The simple selectors the heuristics use: a tag name, `#id`, `.class`,
      `[name="value"]`, and a tag with an attribute test. */
  datatype Selector =
    | Tag(name: string)
    | Id(name: string)
    | Class(name: string)
    | Attr(name: string, value: string)
    | TagAttr(tag: string, attr: string, value: string)

  /** A class selector matches when the name is one of the whitespace
      separated tokens of the class attribute. */
  predicate HasClass(e: Element, name: string) {
    name in Words(e.className)
  }

  predicate HasAttr(e: Element, name: string, value: string) {
    name in e.attributes && e.attributes[name] == value
  }

  predicate MatchesSelector(e: Element, sel: Selector) {
    match sel
    case Tag(t) => e.tag == t
    case Id(n) => e.id == n
    case Class(n) => HasClass(e, n)
    case Attr(n, v) => HasAttr(e, n, v)
    case TagAttr(t, n, v) => e.tag == t && HasAttr(e, n, v)
  }

  /** A selector list (`a, b, c`) matches when any of its members does. */
  predicate MatchesAny(e: Element, sels: seq<Selector>) {
    exists k :: 0 <= k < |sels| && MatchesSelector(e, sels[k])
  }

  /** Element `j` lies strictly inside element `a`. The walk only follows
      parents that come earlier in document order, which in a well-formed
      document is every parent. */
  predicate IsDescendant(doc: Document, j: nat, a: nat)
    decreases j
  {
    j < |doc.elements| &&
    match doc.elements[j].parent
    case None => false
    case Some(p) => p < j && (p == a || IsDescendant(doc, p, a))
  }

  /** Where a query looks: the whole document, or the descendants of one
      element (`element.querySelectorAll`). */
  datatype Scope = Everywhere | Within(root: nat)

  predicate InScope(doc: Document, j: nat, scope: Scope) {
    match scope
    case Everywhere => true
    case Within(a) => IsDescendant(doc, j, a)
  }

  predicate Selected(doc: Document, j: nat, sels: seq<Selector>, scope: Scope) {
    j < |doc.elements| && MatchesAny(doc.elements[j], sels) && InScope(doc, j, scope)
  }

  /** The clone of a document selects exactly what the document selects. */
  lemma CloneSelects(doc: Document, j: nat, sels: seq<Selector>, scope: Scope)
    ensures Selected(CloneDocument(doc), j, sels, scope) == Selected(doc, j, sels, scope)
  {
    if scope.Within? {
      CloneDescendant(doc, j, scope.root);
    }
  }

  lemma {:induction false} CloneDescendant(doc: Document, j: nat, a: nat)
    ensures IsDescendant(CloneDocument(doc), j, a) == IsDescendant(doc, j, a)
    decreases j
  {
    if j < |doc.elements| && doc.elements[j].parent.Some? && doc.elements[j].parent.value < j {
      CloneDescendant(doc, doc.elements[j].parent.value, a);
    }
  }

  ghost predicate Increasing(r: seq<nat>) {
    forall a, b :: 0 <= a < b < |r| ==> r[a] < r[b]
  }

  /** A smaller element in front of an increasing sequence keeps it increasing. */
  lemma IncreasingCons(x: nat, r: seq<nat>)
    requires Increasing(r)
    requires forall j :: j in r ==> x < j
    ensures Increasing([x] + r)
  {
    var s := [x] + r;
    forall a, b | 0 <= a < b < |s|
      ensures s[a] < s[b]
    {
      assert s[b] == r[b - 1] && r[b - 1] in r;
    }
  }

  /** The elements among the first `n` that a query selects, in document
      order. */
  function QueryPrefix(doc: Document, sels: seq<Selector>, scope: Scope, n: nat): (r: seq<nat>)
    ensures forall k :: 0 <= k < |r| ==> r[k] < n && Selected(doc, r[k], sels, scope)
    ensures forall j :: 0 <= j < n && Selected(doc, j, sels, scope) ==> j in r
    ensures Increasing(r)
  {
    if n == 0 then []
    else
      var r := QueryPrefix(doc, sels, scope, n - 1);
      if Selected(doc, n - 1, sels, scope) then r + [n - 1] else r
  }

  /** `querySelectorAll`: every selected element, each once, in document
      order. */
  function QueryAll(doc: Document, sels: seq<Selector>, scope: Scope): (r: seq<nat>)
    ensures forall k :: 0 <= k < |r| ==> Selected(doc, r[k], sels, scope)
    ensures forall j :: Selected(doc, j, sels, scope) <==> j in r
    ensures Increasing(r)
  {
    QueryPrefix(doc, sels, scope, |doc.elements|)
  }

  /** Element `j` is the only one the query selects. */
  ghost predicate OnlyMatch(doc: Document, sels: seq<Selector>, scope: Scope, j: nat) {
    Selected(doc, j, sels, scope) && forall i :: Selected(doc, i, sels, scope) ==> i == j
  }

  /** A query returns exactly one element when, and only when, the element
      is the only one selected. */
  lemma SingleResult(doc: Document, sels: seq<Selector>, scope: Scope, j: nat)
    ensures QueryAll(doc, sels, scope) == [j] <==> OnlyMatch(doc, sels, scope, j)
  {
    var q := QueryAll(doc, sels, scope);
    if OnlyMatch(doc, sels, scope, j) {
      assert j in q;
      forall k | 0 <= k < |q|
        ensures q[k] == j
      {
        assert Selected(doc, q[k], sels, scope);
      }
      assert q[0] == q[|q| - 1];
    }
  }

  /** The tests the metadata and content loops apply to each element they
      visit. */
  datatype Test =
    | NonEmptyContent                    // a `content` attribute that is present and non-empty
    | TrimmedWithin(lo: nat, hi: nat)    // lo < trimmed text length < hi
    | TrimmedOver(lo: nat)               // trimmed text longer than lo
    | Anything                           // the first result, whatever it holds

  predicate Passes(e: Element, t: Test) {
    match t
    case NonEmptyContent => "content" in e.attributes && |e.attributes["content"]| > 0
    case TrimmedWithin(lo, hi) => lo < |Trim(e.text)| < hi
    case TrimmedOver(lo) => |Trim(e.text)| > lo
    case Anything => true
  }

  /** Element `j` is the first element in document order that the query
      selects and that passes the test. */
  ghost predicate IsFirstPassing(doc: Document, sels: seq<Selector>, t: Test, j: nat) {
    && Selected(doc, j, sels, Everywhere)
    && Passes(doc.elements[j], t)
    && forall i :: 0 <= i < j && Selected(doc, i, sels, Everywhere) ==> !Passes(doc.elements[i], t)
  }

  ghost predicate NonePasses(doc: Document, sels: seq<Selector>, t: Test) {
    forall i :: 0 <= i < |doc.elements| && Selected(doc, i, sels, Everywhere) ==> !Passes(doc.elements[i], t)
  }

  /** Position of the first query result from position `from` on that
      passes the test, or `|q|`. */
  function FirstPassingFrom(doc: Document, q: seq<nat>, t: Test, from: nat): (k: nat)
    requires from <= |q|
    requires forall m :: 0 <= m < |q| ==> q[m] < |doc.elements|
    ensures from <= k <= |q|
    ensures k < |q| ==> Passes(doc.elements[q[k]], t)
    ensures forall m :: from <= m < k ==> !Passes(doc.elements[q[m]], t)
    decreases |q| - from
  {
    if from == |q| then from
    else if Passes(doc.elements[q[from]], t) then from
    else FirstPassingFrom(doc, q, t, from + 1)
  }

  /** The loop `for (el of querySelectorAll(sels)) if (test(el)) return el`:
      the first element in document order that matches and passes. */
  function FirstPassing(doc: Document, sels: seq<Selector>, t: Test): (r: Option<nat>)
    ensures forall j: nat :: r == Some(j) <==> IsFirstPassing(doc, sels, t, j)
    ensures r.None? <==> NonePasses(doc, sels, t)
  {
    var q := QueryAll(doc, sels, Everywhere);
    var k := FirstPassingFrom(doc, q, t, 0);
    if k < |q| then
      EarlierResultsFail(doc, sels, t, q, k);
      assert IsFirstPassing(doc, sels, t, q[k]);
      FirstPassingUnique(doc, sels, t, q[k]);
      Some(q[k])
    else
      EarlierResultsFail(doc, sels, t, q, k);
      None
  }

  /** When the first `k` query results fail the test, so does every selected
      element before the `k`-th result (every selected element when there is
      none). */
  lemma EarlierResultsFail(doc: Document, sels: seq<Selector>, t: Test, q: seq<nat>, k: nat)
    requires q == QueryAll(doc, sels, Everywhere) && k <= |q|
    requires forall m :: 0 <= m < k ==> !Passes(doc.elements[q[m]], t)
    ensures k < |q| ==> forall i :: 0 <= i < q[k] && Selected(doc, i, sels, Everywhere) ==> !Passes(doc.elements[i], t)
    ensures k == |q| ==> NonePasses(doc, sels, t)
  {
    forall i | 0 <= i < |doc.elements| && Selected(doc, i, sels, Everywhere) && (k < |q| ==> i < q[k])
      ensures !Passes(doc.elements[i], t)
    {
      var m :| 0 <= m < |q| && q[m] == i;
      assert m < k;
    }
  }

  /** At most one element is the first to pass. */
  lemma FirstPassingUnique(doc: Document, sels: seq<Selector>, t: Test, i: nat)
    requires IsFirstPassing(doc, sels, t, i)
    ensures forall j: nat :: IsFirstPassing(doc, sels, t, j) ==> j == i
  {
    forall j: nat | IsFirstPassing(doc, sels, t, j)
      ensures j == i
    {
      assert !(i < j);
      assert !(j < i);
    }
  }

  /** The region markers of the ancestor walks: `<header>`, `#header` or a
      class attribute containing "header"; likewise for the footer; the
      sidebar is `<aside>`, `#sidebar`, or "sidebar" or "side-bar" in the
      class attribute. The class test is a substring test on the raw
      attribute, not a token test. */
  datatype Region = Header | Footer | Sidebar

  predicate Marks(e: Element, region: Region) {
    match region
    case Header => e.tag == "header" || e.id == "header" || Contains(e.className, "header")
    case Footer => e.tag == "footer" || e.id == "footer" || Contains(e.className, "footer")
    case Sidebar =>
      e.tag == "aside" || e.id == "sidebar" || Contains(e.className, "sidebar") || Contains(e.className, "side-bar")
  }

  /** The walk from element `j` up through its parents, stopping at the body
      or at the root: does it meet an element marking the region? */
  predicate InRegion(doc: Document, j: nat, region: Region)
    decreases j
  {
    j < |doc.elements| && j != doc.body &&
    (Marks(doc.elements[j], region) ||
     match doc.elements[j].parent
     case None => false
     case Some(p) => p < j && InRegion(doc, p, region))
  }

  /** Element `a` is `j` itself or one of its ancestors, and the chain from
      `j` up to `a` does not pass through the body. */
  ghost predicate OnChainBelowBody(doc: Document, j: nat, a: nat)
    decreases j
  {
    j < |doc.elements| && j != doc.body &&
    (j == a ||
     match doc.elements[j].parent
     case None => false
     case Some(p) => p < j && OnChainBelowBody(doc, p, a))
  }

  /** The walk finds a marker exactly when some element on the chain from `j`
      up to (not including) the body marks the region. */
  lemma {:induction false} InRegionIff(doc: Document, j: nat, region: Region)
    ensures InRegion(doc, j, region) <==>
            exists a :: 0 <= a < |doc.elements| && OnChainBelowBody(doc, j, a) && Marks(doc.elements[a], region)
    decreases j
  {
    if j < |doc.elements| && j != doc.body {
      if Marks(doc.elements[j], region) {
        assert OnChainBelowBody(doc, j, j);
      } else {
        match doc.elements[j].parent
        case None =>
          forall a | 0 <= a < |doc.elements| && OnChainBelowBody(doc, j, a)
            ensures a == j
          {}
        case Some(p) =>
          if p < j {
            InRegionIff(doc, p, region);
            if InRegion(doc, p, region) {
              var a :| 0 <= a < |doc.elements| && OnChainBelowBody(doc, p, a) && Marks(doc.elements[a], region);
              assert OnChainBelowBody(doc, j, a);
            } else {
              forall a | 0 <= a < |doc.elements| && OnChainBelowBody(doc, j, a)
                ensures !Marks(doc.elements[a], region)
              {
                if a != j {
                  assert OnChainBelowBody(doc, p, a);
                }
              }
            }
          } else {
            forall a | 0 <= a < |doc.elements| && OnChainBelowBody(doc, j, a)
              ensures a == j
            {}
          }
      }
    }
  }

  /** `_isElementHidden`: display none, visibility hidden, opacity "0", or
      zero offset height. */
  predicate IsHidden(e: Element) {
    e.style.display == "none" || e.style.visibility == "hidden" || e.style.opacity == "0" || e.style.offsetHeight == 0.0
  }

  /** `_isElementHidden` on element `j` of the document. An element of a
      document without layout has `offsetHeight` 0, so it is hidden whatever
      its style says. */
  predicate IsHiddenIn(doc: Document, j: nat)
    requires j < |doc.elements|
  {
    !doc.live || IsHidden(doc.elements[j])
  }

  /** `getBoundingClientRect` of element `j`: the all-zero rectangle in a
      document without layout. */
  function RectOf(doc: Document, j: nat): Rect
    requires j < |doc.elements|
  {
    if doc.live then doc.elements[j].rect else Rect(0.0, 0.0, 0.0, 0.0)
  }
}
