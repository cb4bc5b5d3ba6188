/**
  Headline extraction for the Home Solutions Helper homepage
  (homesolutions_helper.py): the link rule, the per-container extractor, the
  two-stage parser and the `limit` cut applied by `scrape`.
 */
module Headlines {
  import opened Wrappers
  import opened Whitespace
  import opened Markup

  /** The site's address; also the link given to a headline that has none. */
  const BASE_URL: string := "https://homesolutionshelper.com"

  const HEADING_TAGS: set<string> := {"h1", "h2", "h3"}

  /** One headline: `Article(title, url, summary=None)`. */
  datatype Article = Article(title: string, url: string, summary: Option<string>)

  /** A title the scraper may emit: not empty, and (being stripped text)
      with no whitespace at either end. */
  predicate GoodTitle(t: string)
  {
    t != [] && Trimmed(t)
  }

  predicate StartsWith(s: string, prefix: string)
  {
    |prefix| <= |s| && s[..|prefix|] == prefix
  }

  // ---------------------------------------------------------------------
  // The link rule

  /** `tag.get("href") or BASE_URL`, then `BASE_URL` prepended to a
      root-relative reference. A protocol-relative `//host/...` also starts
      with `/`, so it too gets `BASE_URL` in front. */
  function ResolveHref(href: Option<string>): (r: string)
    ensures href.None? || href.value == "" ==> r == BASE_URL
    ensures href.Some? && StartsWith(href.value, "/") ==> r == BASE_URL + href.value
    ensures href.Some? && href.value != "" && !StartsWith(href.value, "/") ==> r == href.value
  {
    var h := if href.None? || href.value == "" then BASE_URL else href.value;
    assert BASE_URL[0] == 'h';
    if StartsWith(h, "/") then BASE_URL + h else h
  }

  /** Resolving an already resolved link changes nothing, and a resolved link
      is never empty and never root-relative. */
  lemma ResolveHrefIdempotent(href: Option<string>)
    ensures ResolveHref(href) != ""
    ensures !StartsWith(ResolveHref(href), "/")
    ensures ResolveHref(Some(ResolveHref(href))) == ResolveHref(href)
  {
    var r := ResolveHref(href);
    assert r != [] && r[0] != '/' by {
      assert BASE_URL[0] == 'h';
      if href.Some? && StartsWith(href.value, "/") {
        assert r[0] == BASE_URL[0];
      } else if href.Some? && href.value != "" {
        assert href.value[..1] != "/";
      }
    }
    assert r[..1] != "/";
  }

  /** A protocol-relative reference is not special-cased: it is treated as
      root-relative. */
  lemma ProtocolRelativeHref(host: string)
    ensures ResolveHref(Some("//" + host)) == BASE_URL + "//" + host
  {
  }

  // ---------------------------------------------------------------------
  // The per-container extractor, `_article_from_element`

  /** The node title and link are read from: the heading's first `<a>`, or
      the heading itself when it has none. */
  function LinkSource(heading: Node): (r: Node)
    ensures FindFirst(heading, {"a"}).None? ==> r == heading
    ensures FindFirst(heading, {"a"}).Some? ==>
              r == FindFirst(heading, {"a"}).value && Tagged(r, {"a"}) && r in Descendants(heading)
  {
    match FindFirst(heading, {"a"})
    case Some(a) => a
    case None => heading
  }

  /** When the heading holds an `<a>`, the node read is the first one in
      document order. */
  lemma LinkSourceIsFirstAnchor(heading: Node)
    requires exists j :: 0 <= j < |Descendants(heading)| && Tagged(Descendants(heading)[j], {"a"})
    ensures exists i :: 0 <= i < |Descendants(heading)| &&
              Descendants(heading)[i] == LinkSource(heading) &&
              Tagged(LinkSource(heading), {"a"}) &&
              forall j :: 0 <= j < i ==> !Tagged(Descendants(heading)[j], {"a"})
  {
    FindFirstIsEarliest(heading, {"a"});
  }

  /** `_article_from_element(element)`: a record from the container's first
      `h1`/`h2`/`h3`, or `None` when there is no such heading or its title
      text is empty. The summary is the cleaned text of the container's first
      `<p>`, and absent only when the container has no `<p>`. */
  function ArticleFromElement(e: Node): (r: Option<Article>)
    ensures FindFirst(e, HEADING_TAGS).None? ==> r.None?
    ensures FindFirst(e, HEADING_TAGS).Some? ==>
              var src := LinkSource(FindFirst(e, HEADING_TAGS).value);
              (r.None? <==> StrippedText(src) == "") &&
              (r.Some? ==> r.value.title == StrippedText(src) &&
                           r.value.url == ResolveHref(GetAttr(src, "href")))
    ensures r.Some? ==> GoodTitle(r.value.title)
    ensures r.Some? ==> (r.value.summary.None? <==> FindFirst(e, {"p"}).None?)
    ensures r.Some? && r.value.summary.Some? ==>
              r.value.summary.value == Clean(AllText(FindFirst(e, {"p"}).value)) &&
              Normalized(r.value.summary.value)
  {
    match FindFirst(e, HEADING_TAGS)
    case None => None
    case Some(heading) =>
      var linkTag := LinkSource(heading);
      var title := StrippedText(linkTag);
      if title == "" then None
      else
        var href := ResolveHref(GetAttr(linkTag, "href"));
        var summary := match FindFirst(e, {"p"})
          case Some(p) => Some(Clean(AllText(p)))
          case None => None;
        Some(Article(title, href, summary))
  }

  // ---------------------------------------------------------------------
  // The two stages of `parse_articles`

  /** The records of the primary stage, one per container that yields one,
      in container order. */
  function PrimaryRecords(containers: seq<Node>): (r: seq<Article>)
    ensures |r| <= |containers|
    ensures forall i :: 0 <= i < |r| ==> GoodTitle(r[i].title)
  {
    if containers == [] then []
    else
      match ArticleFromElement(containers[0])
      case Some(a) => [a] + PrimaryRecords(containers[1..])
      case None => PrimaryRecords(containers[1..])
  }

  /** The `<a>` elements among `n` and its descendants that have an `h2`
      or `h3` ancestor; `underHeading` says whether one lies above `n`. */
  function AnchorsAt(n: Node, underHeading: bool): (r: seq<Node>)
    ensures forall x :: x in r ==> Tagged(x, {"a"})
    decreases n, 1
  {
    match n
    case TextNode(_) => []
    case Element(tag, _, cs) =>
      (if underHeading && tag == "a" then [n] else []) +
      AnchorsIn(cs, underHeading || tag in {"h2", "h3"})
  }

  function AnchorsIn(cs: seq<Node>, underHeading: bool): (r: seq<Node>)
    ensures forall x :: x in r ==> Tagged(x, {"a"})
    decreases cs, 0
  {
    if cs == [] then [] else AnchorsAt(cs[0], underHeading) + AnchorsIn(cs[1..], underHeading)
  }

  /** `soup.select("h2 a, h3 a")`: every `<a>` element of the document with
      an `h2` or `h3` ancestor, in document order. */
  function HeadingAnchors(doc: Node): (r: seq<Node>)
    ensures forall x :: x in r ==> Tagged(x, {"a"})
  {
    match doc
    case TextNode(_) => []
    case Element(_, _, cs) => AnchorsIn(cs, false)
  }

  /** One iteration of the fallback loop: the anchor's stripped text as
      title, its resolved `href` as link, and no summary. */
  function FallbackRecord(anchor: Node): (r: Option<Article>)
    ensures r.None? <==> StrippedText(anchor) == ""
    ensures r.Some? ==> r.value.title == StrippedText(anchor) &&
                        r.value.url == ResolveHref(GetAttr(anchor, "href")) &&
                        r.value.summary.None?
  {
    var title := StrippedText(anchor);
    if title == "" then None
    else Some(Article(title, ResolveHref(GetAttr(anchor, "href")), None))
  }

  /** The records of the fallback stage, in anchor order; none has a
      summary. */
  function FallbackRecords(anchors: seq<Node>): (r: seq<Article>)
    ensures |r| <= |anchors|
    ensures forall i :: 0 <= i < |r| ==> GoodTitle(r[i].title) && r[i].summary.None?
  {
    if anchors == [] then []
    else
      match FallbackRecord(anchors[0])
      case Some(a) => [a] + FallbackRecords(anchors[1..])
      case None => FallbackRecords(anchors[1..])
  }

  /** What `parse_articles` returns for a document: the primary records when
      there are any, and only otherwise the fallback records. */
  function ParsedArticles(doc: Node): (r: seq<Article>)
    ensures forall i :: 0 <= i < |r| ==> GoodTitle(r[i].title)
    ensures PrimaryRecords(FindAll(doc, {"article"})) != [] ==>
              r == PrimaryRecords(FindAll(doc, {"article"}))
    ensures PrimaryRecords(FindAll(doc, {"article"})) == [] ==>
              forall i :: 0 <= i < |r| ==> r[i].summary.None?
  {
    var primary := PrimaryRecords(FindAll(doc, {"article"}));
    if primary != [] then primary else FallbackRecords(HeadingAnchors(doc))
  }

  /** `parse_articles`: the primary loop over the `<article>` containers,
      then, only when it collected nothing, the fallback loop over the
      heading anchors. */
  method ParseArticles(doc: Node) returns (articles: seq<Article>)
    ensures articles == ParsedArticles(doc)
  {
    articles := [];
    var containers := FindAll(doc, {"article"});
    for i := 0 to |containers|
      invariant articles == PrimaryRecords(containers[..i])
    {
      var maybeArticle := ArticleFromElement(containers[i]);
      if maybeArticle.Some? {
        articles := articles + [maybeArticle.value];
      }
      PrimaryRecordsStep(containers, i);
      PrimaryRecordsSingle(containers[i]);
    }
    assert containers[..|containers|] == containers;

    if articles == [] {
      var anchors := HeadingAnchors(doc);
      for i := 0 to |anchors|
        invariant articles == FallbackRecords(anchors[..i])
      {
        var title := StrippedText(anchors[i]);
        if title != "" {
          var href := ResolveHref(GetAttr(anchors[i], "href"));
          articles := articles + [Article(title, href, None)];
        }
        FallbackRecordsStep(anchors, i);
        FallbackRecordsSingle(anchors[i]);
      }
      assert anchors[..|anchors|] == anchors;
    }
  }

  // ---------------------------------------------------------------------
  // Lemmas about the parser

  function ToSeq<T>(o: Option<T>): seq<T>
  {
    if o.Some? then [o.value] else []
  }

  /** One turn of the primary loop. */
  lemma PrimaryRecordsStep(containers: seq<Node>, i: nat)
    requires i < |containers|
    ensures PrimaryRecords(containers[..i + 1]) == PrimaryRecords(containers[..i]) + PrimaryRecords([containers[i]])
  {
    PrefixStep(containers, i);
    PrimaryRecordsAppend(containers[..i], [containers[i]]);
  }

  lemma PrimaryRecordsSingle(c: Node)
    ensures PrimaryRecords([c]) == ToSeq(ArticleFromElement(c))
  {
    assert [c][1..] == [];
  }

  /** One turn of the fallback loop. */
  lemma FallbackRecordsStep(anchors: seq<Node>, i: nat)
    requires i < |anchors|
    ensures FallbackRecords(anchors[..i + 1]) == FallbackRecords(anchors[..i]) + FallbackRecords([anchors[i]])
  {
    PrefixStep(anchors, i);
    FallbackRecordsAppend(anchors[..i], [anchors[i]]);
  }

  lemma FallbackRecordsSingle(a: Node)
    ensures FallbackRecords([a]) == ToSeq(FallbackRecord(a))
  {
    assert [a][1..] == [];
  }

  /** The primary stage keeps container order: the records of a run of
      containers are those of its first part followed by those of the
      rest. */
  lemma {:induction false} PrimaryRecordsAppend(xs: seq<Node>, ys: seq<Node>)
    ensures PrimaryRecords(xs + ys) == PrimaryRecords(xs) + PrimaryRecords(ys)
    decreases |xs|
  {
    if xs == [] {
      assert xs + ys == ys;
    } else {
      assert (xs + ys)[0] == xs[0];
      assert (xs + ys)[1..] == xs[1..] + ys;
      PrimaryRecordsAppend(xs[1..], ys);
    }
  }

  /** The fallback stage keeps anchor order. */
  lemma {:induction false} FallbackRecordsAppend(xs: seq<Node>, ys: seq<Node>)
    ensures FallbackRecords(xs + ys) == FallbackRecords(xs) + FallbackRecords(ys)
    decreases |xs|
  {
    if xs == [] {
      assert xs + ys == ys;
    } else {
      assert (xs + ys)[0] == xs[0];
      assert (xs + ys)[1..] == xs[1..] + ys;
      FallbackRecordsAppend(xs[1..], ys);
    }
  }

  /** Every primary record is the record of one of the containers. */
  lemma {:induction false} PrimaryRecordsFromContainers(containers: seq<Node>, a: Article)
    ensures a in PrimaryRecords(containers) ==>
              exists c :: c in containers && ArticleFromElement(c) == Some(a)
    decreases |containers|
  {
    if containers != [] && a in PrimaryRecords(containers) {
      var rest := containers[1..];
      if ArticleFromElement(containers[0]) != Some(a) {
        assert a in PrimaryRecords(rest);
        PrimaryRecordsFromContainers(rest, a);
        var c :| c in rest && ArticleFromElement(c) == Some(a);
        assert c in containers;
      }
    }
  }

  /** A container with no heading below it yields nothing. */
  lemma {:induction false} PrimaryRecordsWithoutHeadings(containers: seq<Node>)
    requires forall c :: c in containers ==> FindFirst(c, HEADING_TAGS).None?
    ensures PrimaryRecords(containers) == []
    decreases |containers|
  {
    if containers != [] {
      PrimaryRecordsWithoutHeadings(containers[1..]);
    }
  }

  lemma {:induction false} AnchorsInWithoutHeadings(cs: seq<Node>)
    requires forall x :: x in Forest(cs) ==> !Tagged(x, {"h2", "h3"})
    ensures AnchorsIn(cs, false) == []
    decreases cs, 0
  {
    if cs != [] {
      assert forall x :: x in Preorder(cs[0]) ==> x in Forest(cs);
      assert forall x :: x in Forest(cs[1..]) ==> x in Forest(cs);
      AnchorsAtWithoutHeadings(cs[0]);
      AnchorsInWithoutHeadings(cs[1..]);
    }
  }

  lemma {:induction false} AnchorsAtWithoutHeadings(n: Node)
    requires forall x :: x in Preorder(n) ==> !Tagged(x, {"h2", "h3"})
    ensures AnchorsAt(n, false) == []
    decreases n, 1
  {
    match n
    case TextNode(_) =>
    case Element(tag, _, cs) =>
      assert forall x :: x in Forest(cs) ==> x in Preorder(n);
      assert n in Preorder(n);
      AnchorsInWithoutHeadings(cs);
  }

  /** A page with no `h1`, `h2` or `h3` element yields no headline at all,
      and that is a normal, empty result. */
  lemma NoHeadingsNoArticles(doc: Node)
    requires forall x :: x in Descendants(doc) ==> !Tagged(x, HEADING_TAGS)
    ensures ParsedArticles(doc) == []
  {
    var containers := FindAll(doc, {"article"});
    forall c | c in containers ensures FindFirst(c, HEADING_TAGS).None? {
      forall x | x in Descendants(c) ensures !Tagged(x, HEADING_TAGS) {
        DescendantTransitive(doc, c, x);
      }
    }
    PrimaryRecordsWithoutHeadings(containers);
    if doc.Element? {
      AnchorsInWithoutHeadings(doc.children);
    }
  }

  // ---------------------------------------------------------------------
  // `scrape`'s limit

  /** Python's `articles[:limit]`: the list cut to a prefix, a negative
      limit counting from the end. */
  function Limit<T>(s: seq<T>, limit: int): (r: seq<T>)
    ensures |r| <= |s| && r == s[..|r|]
    ensures limit >= 0 ==> |r| == if limit < |s| then limit else |s|
    ensures limit < 0 ==> |r| == if |s| + limit > 0 then |s| + limit else 0
  {
    var stop := if limit >= 0 then (if limit < |s| then limit else |s|)
                else (if |s| + limit > 0 then |s| + limit else 0);
    s[..stop]
  }

  /** A non-negative limit is idempotent and never grows the list; a
      negative one shortens it again on every application. */
  lemma LimitTwice<T>(s: seq<T>, k: int)
    ensures k >= 0 ==> Limit(Limit(s, k), k) == Limit(s, k)
    ensures k < 0 ==> Limit(Limit(s, k), k) == Limit(s, 2 * k)
  {
  }

  /** `scrape(limit)` after the page has been fetched and parsed into `doc`:
      the parsed headlines, cut to the limit when one is given. */
  method Scrape(doc: Node, limit: Option<int>) returns (articles: seq<Article>)
    ensures limit.None? ==> articles == ParsedArticles(doc)
    ensures limit.Some? ==> articles == Limit(ParsedArticles(doc), limit.value)
    ensures forall i :: 0 <= i < |articles| ==> GoodTitle(articles[i].title)
  {
    articles := ParseArticles(doc);
    if limit.Some? {
      articles := Limit(articles, limit.value);
    }
  }
}
