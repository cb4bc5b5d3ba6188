/**
  Two concrete pages worked out in the model: one with an `<article>`
  container, which the primary stage turns into a headline, and one with
  only linked `h2` headings, which the fallback stage handles.
 */
module Scenarios {
  import opened Wrappers
  import opened Whitespace
  import opened Markup
  import opened Headlines

  // ---------------------------------------------------------------------
  // A page with one article container

  function FaucetLink(): Node
  {
    Element("a", map["href" := "/guides/faucet"], [TextNode("Fix a Leaky Faucet")])
  }
  function FaucetHeading(): Node { Element("h2", map[], [FaucetLink()]) }
  function FaucetParagraph(): Node { Element("p", map[], [TextNode("Step by step instructions.")]) }
  function FaucetContainer(): Node { Element("article", map[], [FaucetHeading(), FaucetParagraph()]) }
  function FaucetPage(): Node { Element("[document]", map[], [FaucetContainer()]) }

  lemma FaucetTree()
    ensures Descendants(FaucetContainer()) ==
            [FaucetHeading(), FaucetLink(), TextNode("Fix a Leaky Faucet"),
             FaucetParagraph(), TextNode("Step by step instructions.")]
  {
    var title, pt := TextNode("Fix a Leaky Faucet"), TextNode("Step by step instructions.");
    var a, h, p := FaucetLink(), FaucetHeading(), FaucetParagraph();
    assert [title][1..] == [] && [pt][1..] == [] && [a][1..] == [] && [p][1..] == [];
    assert Forest([title]) == [title];
    assert Preorder(a) == [a, title];
    assert Forest([a]) == [a, title];
    assert Preorder(h) == [h, a, title];
    assert Forest([pt]) == [pt];
    assert Preorder(p) == [p, pt];
    assert Forest([p]) == [p, pt];
    assert [h, p][1..] == [p];
  }

  lemma FaucetFinds()
    ensures FindFirst(FaucetContainer(), HEADING_TAGS) == Some(FaucetHeading())
    ensures FindFirst(FaucetContainer(), {"p"}) == Some(FaucetParagraph())
    ensures FindFirst(FaucetHeading(), {"a"}) == Some(FaucetLink())
  {
    var title, pt := TextNode("Fix a Leaky Faucet"), TextNode("Step by step instructions.");
    var a, h, p := FaucetLink(), FaucetHeading(), FaucetParagraph();
    FaucetTree();
    var d := Descendants(FaucetContainer());
    assert FirstIndex(d, HEADING_TAGS) == Some(0);
    assert d[1..][1..][1..] == [p, pt];
    assert FirstIndex(d[1..][1..][1..], {"p"}) == Some(0);
    assert FirstIndex(d[1..][1..], {"p"}) == Some(1);
    assert FirstIndex(d[1..], {"p"}) == Some(2);
    assert FirstIndex(d, {"p"}) == Some(3);
    assert [a][1..] == [] && [title][1..] == [];
    assert Forest([title]) == [title];
    assert Descendants(h) == [a, title];
  }

  lemma FaucetTitle()
    ensures StrippedText(FaucetLink()) == "Fix a Leaky Faucet"
  {
    var t := "Fix a Leaky Faucet";
    var title := TextNode(t);
    assert Trimmed(t);
    StripTrimmed(t);
    assert [title][1..] == [];
    assert StrippedTextOf([title]) == StrippedText(title) + StrippedTextOf([]);
  }

  lemma FaucetNormalized()
    ensures Normalized("Step by step instructions.")
  {
  }

  lemma FaucetSummary()
    ensures Clean(AllText(FaucetParagraph())) == "Step by step instructions."
  {
    var pt := TextNode("Step by step instructions.");
    assert [pt][1..] == [];
    assert AllText(FaucetParagraph()) == "Step by step instructions.";
    FaucetNormalized();
    CleanFixedPoints("Step by step instructions.");
  }

  lemma RecordWithSummary(e: Node, heading: Node, p: Node, title: string, url: string, summary: string)
    requires FindFirst(e, HEADING_TAGS) == Some(heading) && FindFirst(e, {"p"}) == Some(p)
    requires StrippedText(LinkSource(heading)) == title && title != ""
    requires ResolveHref(GetAttr(LinkSource(heading), "href")) == url
    requires Clean(AllText(p)) == summary
    ensures ArticleFromElement(e) == Some(Article(title, url, Some(summary)))
  {
  }

  lemma FaucetLinkSource()
    ensures LinkSource(FaucetHeading()) == FaucetLink()
  {
    FaucetFinds();
  }

  lemma FaucetHref()
    ensures ResolveHref(GetAttr(FaucetLink(), "href")) == BASE_URL + "/guides/faucet"
  {
    var href := "/guides/faucet";
    assert GetAttr(FaucetLink(), "href") == Some(href);
    assert href[..1] == "/";
  }

  lemma FaucetRecord()
    ensures ArticleFromElement(FaucetContainer()) ==
            Some(Article("Fix a Leaky Faucet", BASE_URL + "/guides/faucet", Some("Step by step instructions.")))
  {
    FaucetFinds();
    FaucetLinkSource();
    FaucetTitle();
    FaucetHref();
    FaucetSummary();
    RecordWithSummary(FaucetContainer(), FaucetHeading(), FaucetParagraph(), "Fix a Leaky Faucet",
                      BASE_URL + "/guides/faucet", "Step by step instructions.");
  }

  lemma FaucetContainers()
    ensures FindAll(FaucetPage(), {"article"}) == [FaucetContainer()]
  {
    var c := FaucetContainer();
    FaucetTree();
    var d := Descendants(c);
    assert [c][1..] == [];
    assert Descendants(FaucetPage()) == [c] + d;
    assert Select(d, {"article"}) == [] by {
      forall x | x in d ensures !Tagged(x, {"article"}) { }
      FindAllEmpty(c, {"article"});
    }
    assert ([c] + d)[1..] == d;
  }

  /** The page of one `<article>` holding the heading link "Fix a Leaky
      Faucet" to `/guides/faucet` and the paragraph "Step by step
      instructions." yields exactly that headline, its link made absolute. */
  lemma FaucetScenario()
    ensures ParsedArticles(FaucetPage()) ==
            [Article("Fix a Leaky Faucet", BASE_URL + "/guides/faucet", Some("Step by step instructions."))]
  {
    FaucetContainers();
    FaucetRecord();
    assert [FaucetContainer()][1..] == [];
  }

  // ---------------------------------------------------------------------
  // A page with linked headings and no article container

  function TipsLink(href: string): Node
  {
    Element("a", map["href" := href], [TextNode("Top Tips")])
  }
  function TipsHeading(href: string): Node { Element("h2", map[], [TipsLink(href)]) }
  function TipsPage(): Node
  {
    Element("[document]", map[], [TipsHeading("/tips/1"), TipsHeading("/tips/2")])
  }

  lemma TipsAnchors()
    ensures HeadingAnchors(TipsPage()) == [TipsLink("/tips/1"), TipsLink("/tips/2")]
  {
    var t := TextNode("Top Tips");
    var h1, h2 := TipsHeading("/tips/1"), TipsHeading("/tips/2");
    var a1, a2 := TipsLink("/tips/1"), TipsLink("/tips/2");
    assert [t][1..] == [] && [a1][1..] == [] && [a2][1..] == [] && [h1, h2][1..] == [h2] && [h2][1..] == [];
    assert AnchorsIn([t], true) == [];
    assert AnchorsAt(a1, true) == [a1];
    assert AnchorsAt(a2, true) == [a2];
    assert AnchorsAt(h1, false) == [a1];
    assert AnchorsAt(h2, false) == [a2];
  }

  lemma TipsTree()
    ensures Descendants(TipsPage()) ==
            [TipsHeading("/tips/1"), TipsLink("/tips/1"), TextNode("Top Tips"),
             TipsHeading("/tips/2"), TipsLink("/tips/2"), TextNode("Top Tips")]
  {
    var t := TextNode("Top Tips");
    var h1, h2 := TipsHeading("/tips/1"), TipsHeading("/tips/2");
    var a1, a2 := TipsLink("/tips/1"), TipsLink("/tips/2");
    assert [t][1..] == [] && [a1][1..] == [] && [a2][1..] == [] && [h1, h2][1..] == [h2] && [h2][1..] == [];
    assert Forest([t]) == [t];
    assert Preorder(a1) == [a1, t];
    assert Forest([a1]) == [a1, t];
    assert Preorder(h1) == [h1, a1, t];
    assert Preorder(a2) == [a2, t];
    assert Forest([a2]) == [a2, t];
    assert Preorder(h2) == [h2, a2, t];
    assert Forest([h2]) == [h2, a2, t];
  }

  lemma TipsNoContainers()
    ensures FindAll(TipsPage(), {"article"}) == []
  {
    TipsTree();
    var d := Descendants(TipsPage());
    forall x | x in d ensures !Tagged(x, {"article"}) { }
    FindAllEmpty(TipsPage(), {"article"});
  }

  lemma TipsRecord(href: string)
    requires href == "/tips/1" || href == "/tips/2"
    ensures FallbackRecord(TipsLink(href)) == Some(Article("Top Tips", BASE_URL + href, None))
  {
    var s := "Top Tips";
    var t := TextNode(s);
    assert Trimmed(s);
    StripTrimmed(s);
    assert [t][1..] == [];
    assert StrippedText(TipsLink(href)) == s;
    assert href[..1] == "/";
  }

  lemma FallbackRecordsOfTwo(a1: Node, a2: Node, r1: Article, r2: Article)
    requires FallbackRecord(a1) == Some(r1) && FallbackRecord(a2) == Some(r2)
    ensures FallbackRecords([a1, a2]) == [r1, r2]
  {
    FallbackRecordsSingle(a1);
    FallbackRecordsSingle(a2);
    assert [a1, a2] == [a1] + [a2];
    FallbackRecordsAppend([a1], [a2]);
    assert [r1] + [r2] == [r1, r2];
  }

  lemma TipsFallback()
    ensures FallbackRecords([TipsLink("/tips/1"), TipsLink("/tips/2")]) ==
            [Article("Top Tips", BASE_URL + "/tips/1", None),
             Article("Top Tips", BASE_URL + "/tips/2", None)]
  {
    TipsRecord("/tips/1");
    TipsRecord("/tips/2");
    FallbackRecordsOfTwo(TipsLink("/tips/1"), TipsLink("/tips/2"),
                         Article("Top Tips", BASE_URL + "/tips/1", None),
                         Article("Top Tips", BASE_URL + "/tips/2", None));
  }

  /** Two `h2` headings outside any `<article>`, both linking "Top Tips" but
      to different places, give two headlines from the fallback stage, with
      no summary; nothing merges them. */
  lemma TipsScenario()
    ensures ParsedArticles(TipsPage()) ==
            [Article("Top Tips", BASE_URL + "/tips/1", None),
             Article("Top Tips", BASE_URL + "/tips/2", None)]
  {
    TipsNoContainers();
    TipsAnchors();
    TipsFallback();
  }
}
