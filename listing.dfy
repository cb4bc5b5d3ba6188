/**
  The plain-text listing the scraper prints (`_format_articles` in
  homesolutions_helper.py): per headline a numbered title line and a link
  line, then a summary line when the summary is present and not empty; the
  lines joined with newlines.
 */
module Listing {
  import opened Headlines

  // ---------------------------------------------------------------------
  // Decimal numerals, as `f"{idx}"` writes them

  predicate IsDigit(c: char)
  {
    '0' <= c <= '9'
  }

  /** `str(n)` for a natural number: its decimal digits, without leading
      zeros. */
  function Decimal(n: nat): (r: string)
    ensures r != []
    ensures forall i :: 0 <= i < |r| ==> IsDigit(r[i])
    ensures |r| > 1 ==> r[0] != '0'
  {
    var last := (48 + n % 10) as char;
    if n < 10 then [last] else Decimal(n / 10) + [last]
  }

  /** The number a string of decimal digits denotes. */
  function DecimalValue(s: string): nat
    requires forall i :: 0 <= i < |s| ==> IsDigit(s[i])
  {
    if s == [] then 0
    else
      var last := s[|s| - 1];
      assert IsDigit(last);
      DecimalValue(s[..|s| - 1]) * 10 + (last as int - 48)
  }

  /** Reading back a written index gives the index. */
  lemma {:induction false} DecimalRoundTrip(n: nat)
    ensures DecimalValue(Decimal(n)) == n
  {
    if n >= 10 {
      var r := Decimal(n);
      assert r[..|r| - 1] == Decimal(n / 10);
      DecimalRoundTrip(n / 10);
    }
  }

  // ---------------------------------------------------------------------
  // The lines of the listing

  /** Python's truth value of `article.summary`: present and not empty. */
  predicate HasSummary(a: Article)
  {
    a.summary.Some? && a.summary.value != ""
  }

  /** The lines for the headline numbered `k`. */
  function RecordLines(k: nat, a: Article): (r: seq<string>)
    ensures |r| == if HasSummary(a) then 3 else 2
  {
    [Decimal(k) + ". " + a.title, "   link: " + a.url] +
    (if HasSummary(a) then ["   summary: " + a.summary.value] else [])
  }

  /** The lines for `articles`, numbered from `first` on. */
  function ListingLines(articles: seq<Article>, first: nat): seq<string>
  {
    if articles == [] then []
    else RecordLines(first, articles[0]) + ListingLines(articles[1..], first + 1)
  }

  /** How many of `articles` get a summary line. */
  function SummaryCount(articles: seq<Article>): (r: nat)
    ensures r <= |articles|
  {
    if articles == [] then 0
    else (if HasSummary(articles[0]) then 1 else 0) + SummaryCount(articles[1..])
  }

  /** `"\n".join(lines)`. */
  function JoinLines(lines: seq<string>): string
  {
    if lines == [] then ""
    else if |lines| == 1 then lines[0]
    else lines[0] + "\n" + JoinLines(lines[1..])
  }

  /** `_format_articles(articles)`: one loop over the headlines, numbered
      from 1, collecting their lines; then the lines joined. */
  method FormatArticles(articles: seq<Article>) returns (text: string)
    ensures text == JoinLines(ListingLines(articles, 1))
  {
    var lines: seq<string> := [];
    for i := 0 to |articles|
      invariant lines == ListingLines(articles[..i], 1)
    {
      var article := articles[i];
      lines := lines + [Decimal(i + 1) + ". " + article.title];
      lines := lines + ["   link: " + article.url];
      if article.summary.Some? && article.summary.value != "" {
        lines := lines + ["   summary: " + article.summary.value];
      }
      ListingLinesStep(articles, i);
    }
    assert articles[..|articles|] == articles;
    text := JoinLines(lines);
  }

  // ---------------------------------------------------------------------
  // Lemmas about the listing

  /** The listing of two runs of headlines is the listing of the first
      followed by that of the second, numbered on from where the first
      stopped. */
  lemma {:induction false} ListingLinesAppend(xs: seq<Article>, ys: seq<Article>, first: nat)
    ensures ListingLines(xs + ys, first) ==
            ListingLines(xs, first) + ListingLines(ys, first + |xs|)
    decreases |xs|
  {
    if xs == [] {
      assert xs + ys == ys;
    } else {
      assert (xs + ys)[0] == xs[0];
      assert (xs + ys)[1..] == xs[1..] + ys;
      ListingLinesAppend(xs[1..], ys, first + 1);
    }
  }

  /** One turn of the formatting loop. */
  lemma ListingLinesStep(articles: seq<Article>, i: nat)
    requires i < |articles|
    ensures ListingLines(articles[..i + 1], 1) ==
            ListingLines(articles[..i], 1) + RecordLines(i + 1, articles[i])
  {
    ListingLinesAppend(articles[..i], [articles[i]], 1);
    assert articles[..i + 1] == articles[..i] + [articles[i]];
  }

  /** The listing has two lines per headline plus one per non-empty
      summary. */
  lemma {:induction false} ListingLineCount(articles: seq<Article>, first: nat)
    ensures |ListingLines(articles, first)| == 2 * |articles| + SummaryCount(articles)
    decreases |articles|
  {
    if articles != [] {
      ListingLineCount(articles[1..], first + 1);
    }
  }

  /** Where the `i`-th headline (counting from 0) sits in the listing: after
      two lines for each earlier headline and one for each earlier
      summary, its line `"{i+1}. {title}"`, then `"   link: {url}"`, then
      `"   summary: {summary}"` exactly when its summary is non-empty. */
  lemma ListingLinesAt(articles: seq<Article>, i: nat)
    requires i < |articles|
    ensures var lines, off := ListingLines(articles, 1), 2 * i + SummaryCount(articles[..i]);
            var a := articles[i];
            off + 1 < |lines| &&
            lines[off] == Decimal(i + 1) + ". " + a.title &&
            lines[off + 1] == "   link: " + a.url &&
            (HasSummary(a) ==> off + 2 < |lines| && lines[off + 2] == "   summary: " + a.summary.value)
  {
    var xs, ys := articles[..i], articles[i..];
    assert articles == xs + ys;
    ListingLinesAppend(xs, ys, 1);
    ListingLineCount(xs, 1);
    assert ys[0] == articles[i];
  }

  /** The text printed for a single headline. */
  lemma SingleHeadlineText(a: Article)
    ensures HasSummary(a) ==>
              JoinLines(ListingLines([a], 1)) ==
              "1. " + a.title + "\n" + "   link: " + a.url + "\n" + "   summary: " + a.summary.value
    ensures !HasSummary(a) ==>
              JoinLines(ListingLines([a], 1)) == "1. " + a.title + "\n" + "   link: " + a.url
  {
    assert [a][1..] == [];
    var l1, l2 := "1. " + a.title, "   link: " + a.url;
    assert Decimal(1) + ". " + a.title == l1 by {
      assert Decimal(1) + ". " == "1. ";
    }
    assert ListingLines([a], 1) == RecordLines(1, a);
    if HasSummary(a) {
      var l3 := "   summary: " + a.summary.value;
      assert ListingLines([a], 1) == [l1, l2, l3];
      assert [l1, l2, l3][1..] == [l2, l3] && [l2, l3][1..] == [l3];
      assert JoinLines([l2, l3]) == l2 + "\n" + l3;
      assert JoinLines([l1, l2, l3]) == l1 + "\n" + (l2 + "\n" + l3);
    } else {
      assert ListingLines([a], 1) == [l1, l2];
      assert [l1, l2][1..] == [l2];
    }
  }

  // ---------------------------------------------------------------------
  // Joining lines, and splitting them back

  /** Position of the first newline in `s`, or `|s|` when there is none. */
  function LineLen(s: string): (k: nat)
    ensures k <= |s|
    ensures '\n' !in s[..k]
    ensures k < |s| ==> s[k] == '\n'
  {
    if s == [] || s[0] == '\n' then 0
    else
      var k := 1 + LineLen(s[1..]);
      assert s[..k] == [s[0]] + s[1..][..k - 1];
      k
  }

  /** `s.split("\n")`. */
  function SplitLines(s: string): (r: seq<string>)
    ensures r != []
    decreases |s|
  {
    var k := LineLen(s);
    if k == |s| then [s] else [s[..k]] + SplitLines(s[k + 1..])
  }

  lemma {:induction false} LineLenOfLine(line: string, t: string)
    requires '\n' !in line
    requires t == [] || t[0] == '\n'
    ensures LineLen(line + t) == |line|
    decreases |line|
  {
    if line == [] {
      assert line + t == t;
    } else {
      assert (line + t)[0] == line[0];
      assert (line + t)[1..] == line[1..] + t;
      LineLenOfLine(line[1..], t);
    }
  }

  /** Splitting the joined text at newlines gives back the lines, provided
      none of them holds a newline itself. */
  lemma {:induction false} SplitJoinLines(lines: seq<string>)
    requires lines != []
    requires forall i :: 0 <= i < |lines| ==> '\n' !in lines[i]
    ensures SplitLines(JoinLines(lines)) == lines
    decreases |lines|
  {
    var line := lines[0];
    if |lines| == 1 {
      LineLenOfLine(line, []);
      assert line + [] == line;
    } else {
      var rest := JoinLines(lines[1..]);
      var s := line + ("\n" + rest);
      assert JoinLines(lines) == s;
      LineLenOfLine(line, "\n" + rest);
      assert LineLen(s) == |line| < |s|;
      assert s[..|line|] == line;
      assert s[|line| + 1..] == rest;
      assert SplitLines(s) == [line] + SplitLines(rest);
      SplitJoinLines(lines[1..]);
      assert lines == [line] + lines[1..];
    }
  }

  /** No line of the listing holds a newline when no title, link or summary
      does. */
  lemma {:induction false} ListingLinesSingleLine(articles: seq<Article>, first: nat)
    requires forall a :: a in articles ==>
               '\n' !in a.title && '\n' !in a.url &&
               (a.summary.Some? ==> '\n' !in a.summary.value)
    ensures forall i :: 0 <= i < |ListingLines(articles, first)| ==>
              '\n' !in ListingLines(articles, first)[i]
    decreases |articles|
  {
    if articles != [] {
      var a := articles[0];
      assert '\n' !in Decimal(first);
      assert forall x :: x in articles[1..] ==> x in articles;
      ListingLinesSingleLine(articles[1..], first + 1);
      var head, tail := RecordLines(first, a), ListingLines(articles[1..], first + 1);
      forall i | 0 <= i < |head + tail| ensures '\n' !in (head + tail)[i] {
        if i >= |head| { assert (head + tail)[i] == tail[i - |head|]; }
      }
    }
  }

  /** The printed text, read back line by line, has two lines per headline
      plus one per non-empty summary, as long as no title, link or summary
      spans several lines. */
  lemma PrintedLineCount(articles: seq<Article>)
    requires articles != []
    requires forall a :: a in articles ==>
               '\n' !in a.title && '\n' !in a.url &&
               (a.summary.Some? ==> '\n' !in a.summary.value)
    ensures |SplitLines(JoinLines(ListingLines(articles, 1)))| ==
            2 * |articles| + SummaryCount(articles)
  {
    ListingLineCount(articles, 1);
    ListingLinesSingleLine(articles, 1);
    SplitJoinLines(ListingLines(articles, 1));
  }
}
