/** Worked examples of the metadata getters on a page without elements. */
module ReadabilityExamples {
  import opened Wrappers
  import opened Text
  import opened Dom
  import opened Readability

  function BarePage(hostname: string): Document {
    Document([], 0, "", hostname, None, "", None, true)
  }

  /** On a page without a site-name meta, the site name is fixed by the host
      name's labels. */
  lemma HostSiteName(h: string, first: string, second: string)
    requires h != "" && '.' in h
    requires FirstLabel(h, first)
    requires first == "www" ==> FirstLabel(h[4..], second)
    ensures SiteName(BarePage(h)) == Some(if first == "www" then second else first)
  {
    var name := SiteName(BarePage(h)).value;
    if FirstLabel(h, "www") {
      FirstLabelUnique(h, first, "www");
      FirstLabelUnique(h[4..], second, name);
    } else {
      FirstLabelUnique(h, first, name);
    }
  }

  lemma WwwLabels()
    ensures FirstLabel("www.example.com", "www")
    ensures "www.example.com"[4..] == "example.com"
    ensures FirstLabel("example.com", "example")
  {
  }

  lemma NewsLabel()
    ensures FirstLabel("news.example.org", "news")
  {
  }

  /** "www.example.com" names the site after its second label. */
  lemma WwwSiteName()
    ensures SiteName(BarePage("www.example.com")) == Some("example")
  {
    WwwLabels();
    HostSiteName("www.example.com", "www", "example");
  }

  /** "news.example.org" names the site after its first label. */
  lemma FirstLabelSiteName()
    ensures SiteName(BarePage("news.example.org")) == Some("news")
  {
    NewsLabel();
    HostSiteName("news.example.org", "news", "");
  }

  /** A host name without a dot is the site name; no host name, no site name. */
  lemma PlainSiteNames()
    ensures SiteName(BarePage("localhost")) == Some("localhost")
    ensures SiteName(BarePage("")) == None
  {
  }

  /** Without metadata, headings or paragraphs the title and excerpt are
      empty, there is no byline and the direction is left to right. */
  lemma BarePageMetadata()
    ensures ArticleTitle(BarePage("")) == ""
    ensures Excerpt(BarePage("")) == ""
    ensures Byline(BarePage("")) == None
    ensures Direction(BarePage("")) == "ltr"
  {
  }
}
