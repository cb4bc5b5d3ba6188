# Home Solutions Helper headline scraper, modelled in Dafny

`homesolutions_helper.py` fetches the Home Solutions Helper homepage and
turns its markup into a list of headlines. Each headline is an `Article`
with a title, a URL and an optional summary. The list is printed as a
numbered listing. This project models the part of that script with
decisions in it, over an abstract markup tree:

- `_clean_text` collapses whitespace. It is modelled as `Whitespace.Clean`.
  Python's `str.strip()`, used when the markup library collects stripped
  text, is modelled as `Whitespace.Strip`. Both use Python's `str.isspace`
  character set.
- The markup tree is `Markup.Node`. A node is either an element (tag,
  attribute map, children in document order) or a text node. The library
  queries the script uses are modelled over the preorder of a node's proper
  descendants: `find_all` (`FindAll`), `find` (`FindFirst`), `get_text()`
  (`AllText`) and `get_text(strip=True)` (`StrippedText`). `StrippedText`
  strips every text string, drops the empty ones and concatenates the
  rest. `get` (`GetAttr`) reads the node's own attributes.
- The link rule is `Headlines.ResolveHref`. A missing or empty `href`
  becomes `BASE_URL`. An `href` starting with `/` gets `BASE_URL` in front.
  Any other `href` is kept as it is.
- The per-container extractor `_article_from_element` is
  `Headlines.ArticleFromElement`.
- `parse_articles` is `Headlines.ParseArticles`, a method with the source's
  two loops. It is proved equal to the function `Headlines.ParsedArticles`.
  The primary stage turns each `<article>` container into a record. The
  fallback stage reads every `<a>` under an `h2` or `h3` (`soup.select("h2
  a, h3 a")`, modelled as `HeadingAnchors`). The fallback runs only when
  the primary stage produced nothing.
- The `limit` slice in `scrape` is `Headlines.Limit`, with Python's slice
  semantics, negative limits included. `Headlines.Scrape` applies it only
  when a limit is given, as the script does. `Headlines.Scrape` takes the
  already-parsed page as a parameter.
- `_format_articles` is `Listing.FormatArticles`, a method with the
  source's loop, proved equal to `JoinLines(ListingLines(articles, 1))`.
- `Scenarios` works out two concrete pages in the model. The first has one
  `<article>` with a linked heading and a paragraph. The second has two
  `h2` links with the same text and different targets.

## Behaviour worth noting

- The fallback stage replaces the primary stage only when that stage
  yields nothing. It never supplements it.
- The fallback stage reads only `<a>` elements inside `h2`/`h3`. A heading
  without a link contributes nothing. An anchor with empty text is
  skipped; the code does not fall back to the heading's text.
- Links are not always absolute. A relative `href` such as `guides/x` is
  kept unchanged. A protocol-relative `//host/x` starts with `/`, so it
  becomes `BASE_URL + "//host/x"` (`ProtocolRelativeHref`).

## Model

| member | source | states |
|---|---|---|
| `Whitespace.Clean` | homesolutions_helper.py:48-49 | The result is trimmed, holds no whitespace but `' '`, never has two spaces in a row, and has the same words (`str.split()`) as the input |
| `Whitespace.WordsOfJoin` | homesolutions_helper.py:49 | `str.split()` undoes `" ".join` on any list of non-empty, whitespace-free words |
| `Whitespace.CleanIdempotent` | homesolutions_helper.py:48-49 | `_clean_text(_clean_text(s)) == _clean_text(s)` |
| `Whitespace.CleanFixedPoints` | homesolutions_helper.py:48-49 | `_clean_text(s) == s` exactly when `s` is normalized, so the result is the only normalized string with the input's words |
| `Whitespace.CleanOfBlank` | homesolutions_helper.py:67 | A whitespace-only paragraph cleans to the empty summary `""` |
| `Whitespace.Strip` | homesolutions_helper.py:58 | `str.strip()` returns a slice of the input that is trimmed, with only whitespace cut away on either side |
| `Whitespace.StripTrimmed` | homesolutions_helper.py:58 | `str.strip()` leaves a string that neither begins nor ends with whitespace unchanged, so stripping twice equals stripping once |
| `Markup.FindAll` | homesolutions_helper.py:77 | `find_all` returns only descendant elements carrying one of the tags, and every such element |
| `Markup.MatchPositions` | homesolutions_helper.py:77 | The matching positions from a start index on are positions of the list whose node carries one of the tags, in strictly increasing order, so each appears once |
| `Markup.MatchPositionsComplete` | homesolutions_helper.py:77 | No position from the start index on whose node carries one of the tags is missing from the matching positions |
| `Markup.FindAllInOrder` | homesolutions_helper.py:77 | `find_all` keeps document order and multiplicity: it has one result per matching position of the descendants, and its `k`-th result is the descendant at the `k`-th such position |
| `Markup.FindAllEmpty` | homesolutions_helper.py:77 | `find_all` returns the empty list exactly when no descendant carries one of the tags |
| `Markup.FindFirst` | homesolutions_helper.py:53 | `find` returns `None` exactly when no descendant carries one of the tags; otherwise it returns a descendant with such a tag |
| `Markup.FindFirstIsEarliest` | homesolutions_helper.py:53 | The element `find` returns comes before every other match in document order |
| `Markup.FindFirstIsHeadOfFindAll` | homesolutions_helper.py:53 | `find` is the first element of `find_all`, or `None` when that is empty |
| `Markup.StrippedText` | homesolutions_helper.py:58 | `get_text(strip=True)` never begins or ends with whitespace |
| `Markup.DescendantTransitive` | homesolutions_helper.py:77-78 | A descendant of a container is a descendant of the page |
| `Headlines.ResolveHref` | homesolutions_helper.py:62-64 | A missing or empty `href` gives `BASE_URL`; one starting with `/` gives `BASE_URL + href`; any other is kept unchanged |
| `Headlines.ResolveHrefIdempotent` | homesolutions_helper.py:62-64 | A resolved link is never empty and never starts with `/`, and resolving it again changes nothing |
| `Headlines.ProtocolRelativeHref` | homesolutions_helper.py:63-64 | `//host...` is not special-cased: it becomes `BASE_URL + "//host..."` |
| `Headlines.LinkSource` | homesolutions_helper.py:57 | The node read for title and link is `heading.find("a")`, an `<a>` descendant of the heading, when there is one, and the heading itself otherwise |
| `Headlines.LinkSourceIsFirstAnchor` | homesolutions_helper.py:57 | When the heading holds an `<a>`, the node read is the first `<a>` below the heading in document order |
| `Headlines.ArticleFromElement` | homesolutions_helper.py:52-68 | `None` when the container has no `h1`/`h2`/`h3`, or when the chosen node's stripped text is empty. Otherwise the title and the pre-resolution `href` come from the chosen node, and the title is non-empty and trimmed. The summary is `None` exactly when there is no `<p>`; otherwise it is the cleaned text of the first `<p>`, which is normalized and may be empty |
| `Headlines.PrimaryRecords` | homesolutions_helper.py:77-80 | At most one record per container, each with a non-empty, trimmed title |
| `Headlines.PrimaryRecordsAppend` | homesolutions_helper.py:77-80 | The primary stage keeps container order: records of earlier containers precede those of later ones |
| `Headlines.PrimaryRecordsFromContainers` | homesolutions_helper.py:77-80 | Every primary record is the extractor's result for one of the containers |
| `Headlines.HeadingAnchors` | homesolutions_helper.py:83 | Every node the selector returns is an `<a>` element |
| `Headlines.FallbackRecord` | homesolutions_helper.py:84-90 | An anchor with empty stripped text is skipped; otherwise the record has the anchor's stripped text, its resolved `href` and no summary |
| `Headlines.FallbackRecords` | homesolutions_helper.py:83-90 | At most one record per anchor, each with a non-empty, trimmed title and no summary |
| `Headlines.FallbackRecordsAppend` | homesolutions_helper.py:83-90 | The fallback stage keeps anchor order |
| `Headlines.ParsedArticles` | homesolutions_helper.py:71-92 | Every record has a non-empty, trimmed title. If the primary stage yields any record, the result is exactly the primary records. Otherwise no record has a summary |
| `Headlines.ParseArticles` | homesolutions_helper.py:71-92 | The two loops of `parse_articles` compute `ParsedArticles(doc)` |
| `Headlines.NoHeadingsNoArticles` | homesolutions_helper.py:71-92 | A page without any `h1`, `h2` or `h3` element yields the empty list |
| `Headlines.Limit` | homesolutions_helper.py:101 | `articles[:limit]` is a prefix of the list. With `limit >= 0` its length is `min(limit, len)`. With a negative limit its length is `max(0, len + limit)` |
| `Headlines.LimitTwice` | homesolutions_helper.py:100-101 | Applying a non-negative limit twice equals applying it once; applying a negative limit `k` twice equals applying `2k` once |
| `Headlines.Scrape` | homesolutions_helper.py:95-102 | `scrape` returns the parsed headlines unchanged when no limit is given, and cut by `articles[:limit]` otherwise; each has a non-empty title |
| `Listing.Decimal` | homesolutions_helper.py:108 | The index is written as a non-empty string of decimal digits without a leading zero |
| `Listing.DecimalRoundTrip` | homesolutions_helper.py:108 | Reading the written index back gives the index |
| `Listing.RecordLines` | homesolutions_helper.py:108-111 | A headline gets three lines when its summary is present and non-empty, two otherwise |
| `Listing.FormatArticles` | homesolutions_helper.py:105-112 | The loop of `_format_articles` computes the lines of `ListingLines(articles, 1)`, joined with `"\n"` |
| `Listing.ListingLinesAppend` | homesolutions_helper.py:107-111 | The listing of two runs of headlines is the first run's listing followed by the second's, numbered on from where the first stopped |
| `Listing.ListingLineCount` | homesolutions_helper.py:105-112 | The listing has `2·n + (number of headlines with a non-empty summary)` lines |
| `Listing.ListingLinesAt` | homesolutions_helper.py:107-111 | For the k-th headline, at its offset: `"k. title"`, then `"   link: url"`, then `"   summary: ..."` when its summary is non-empty |
| `Listing.SingleHeadlineText` | homesolutions_helper.py:105-112 | The exact text printed for one headline, with and without a summary |
| `Listing.SplitJoinLines` | homesolutions_helper.py:112 | Splitting the joined text at newlines gives back the lines, when no line holds a newline |
| `Listing.PrintedLineCount` | homesolutions_helper.py:105-112 | When no title, link or summary holds a newline, the printed text has `2·n + (number of non-empty summaries)` lines |
| `Scenarios.FaucetScenario` | homesolutions_helper.py:71-92 | One `<article>` with heading link "Fix a Leaky Faucet" to `/guides/faucet` and paragraph "Step by step instructions." yields exactly that headline, with link `BASE_URL + "/guides/faucet"` |
| `Scenarios.TipsScenario` | homesolutions_helper.py:82-92 | Two `h2` links with the same text "Top Tips" and different targets, and no `<article>`, yield two fallback headlines without summaries |

## Left out

- `fetch_html` (homesolutions_helper.py:32-45): the HTTP request, its headers, timeout and status check are network I/O. `Headlines.Scrape` takes the parsed page as a parameter instead.
- `main` (homesolutions_helper.py:115-137): argument parsing, the default limit of 5, the printed messages and the exit codes are command-line plumbing.
- `hello_world.py` is not part of this model: it only prints and performs one fetch.
- Turning HTML text into a tree (`BeautifulSoup(html, "html.parser")`) is library code and is not modelled; the tree is given as a `Markup.Node`. A CDATA section, whose text `get_text` does collect, is represented as a `TextNode`. Comments, declarations, doctypes and processing instructions are not represented, because `get_text` ignores them. Strings inside `<script>`, `<style>`, `<template>`, `<rt>` and `<rp>` are not represented as `TextNode`s either, because `get_text` of any other tag skips them; the script never reads text from one of those tags.
- General CSS selector matching is not modelled; only the one selector the script uses, `"h2 a, h3 a"`, is.
- Headlines.HeadingAnchors: its contract says only that every result is an `<a>` element. That the results are exactly the anchors with an `h2`/`h3` ancestor, in document order, holds by its definition and is not proved against a separate ancestor relation.
- Markup.FindFirst: its contract says that the result is a matching descendant. That it is the earliest match is proved separately, in `FindFirstIsEarliest`.
