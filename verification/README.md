# GothamDispatch scrapers in Dafny

A model of the logic inside GothamDispatch's three scraping scripts. The
fetching and parsing around that logic are taken as given.

- **`get_author`** (AuthorTextScraperv2.py) tries nine lookups on a parsed
  article page, in a fixed order. The first lookup with an opinion decides;
  when none has one the answer is the sentinel `"none"`. The script around
  it does two things. It keeps the CSV rows dated on or after a cutoff. It
  then builds an author column, one entry per article, where a page that did
  not come back with status 200 gets `"none"`.
- **The sitemap scraper** (GDSitemapScraperv8.py) handles each publisher in
  turn:
  - it follows one `<loc>` for the two index feeds;
  - it lists the `<url>` elements, looking `url` and `loc` up in the root's
    default namespace;
  - it reads a date from a three-step fallback;
  - it builds the table;
  - it applies the publisher's date fixup.
- **WebScraper.py** does three things:
  - it keeps the sitemap entries whose `lastmod` lies in an inclusive
    window;
  - it builds an article record (title, text, meta author, word count);
  - it numbers the rows of its input file, skipping malformed ones.

## Layout

| file | module | contents |
|---|---|---|
| wrappers.dfy | `Wrappers` | `Option` and `Result` |
| text.dfy | `Text` | ASCII `strip`, `title`, `replace`, `split`; the slug-to-name transform |
| html.dfy | `Html` | bs4 parse tree; `find`, `.get_text()`, `.string`; a document-order reference search |
| seqs.dfy | `Seqs` | order-preserving sub-sequences; filtering, with its multiset, count and idempotence lemmas |
| urlpattern.dfy | `UrlPattern` | `re.search(r'/([^/]+)/?$', s)`, computed directly and proved equal to a leftmost-longest reading of the pattern |
| author.dfy | `Author` | the nine lookups, the cascade, the cutoff filter, the author column |
| xml.dfy | `Xml` | element tree with qualified names; `.//name`, `name`, `a/b`; default-namespace qualification |
| sitemap.dfy | `Sitemap` | `get_sitemap_url`, index redirection, the `<url>` loop, table building, fixups and dispatch, the per-feed run |
| webscraper.dfy | `WebScraper` | window selection, article record, word count, publication numbering, rows written per publication |

## How the code behaves where a reader might expect otherwise

The model follows the code in each of these cases.

- The sentinel is `"none"`.
- The exceptions below are not caught. In the model each becomes a `Failure`:
  - an `author-description` div without an `<h5>` (`None.find`);
  - an ld+json script without a single string child (`json.loads(None)`).
- The lookups for `itemprop`, `meta_text`, `author-box` and the `By ` span
  return the element's text as it is. That text is not stripped and may be
  empty. Only the `<p><strong>By …` lookup strips.
- `.get_text()` and `.string` read different strings. bs4 (4.10 and later,
  with `html.parser`) gives comments a class of their own. It does the same
  for the text of `script`, `style`, `template`, `rt` and `rp`.
  `.get_text()` skips every string of such a class, except that a string
  container keeps its own text. `.string` returns the lone string whatever
  its class. So the article text of WebScraper leaves out ld+json and other
  script text (`WebScraper.ScriptTextIsNotArticleText`). The `.string` that
  `get_author` decodes is the script's own text.
- An `https://` meta content whose last segment the pattern cannot find
  (for example one ending in `//`) moves on to the next meta tag. The same
  content without `https://` is returned verbatim.
- `$` in the slug pattern also matches just before a final newline.
- A `<url>` without `<loc>` gives `urls` one entry fewer than `dates`.
  `pd.DataFrame` then raises, which ends the run.
- A `lastmod` element without text gives a `None` date. It does not fall
  back to `publication_date`.
- `lastmod` is always looked up in the sitemap namespace. A sitemap with no
  default namespace therefore loses its bare `lastmod` dates
  (`Sitemap.BareLastmodIsLost`).
- A fixup applied to a `None` date raises.
- Fixup A keeps a trailing `.` when the fraction has seven digits.
- WebScraper compares datetimes with a chained `<=`. A naive bound compared
  with an aware `lastmod` raises `TypeError`. Any such exception, like a
  missing `<loc>` or an unparseable `lastmod`, ends the whole publication.
- `publication_id` is the row's position in the input file, and that
  position counts the skipped rows too.

## Model

| member | source | states |
|---|---|---|
| Text.Strip | AuthorTextScraperv2.py:14-15 | the result is a slice of the input with only whitespace around it, and it neither begins nor ends with whitespace |
| Text.Replace | AuthorTextScraperv2.py:32 | every occurrence of the character is replaced, all others are kept, the length is unchanged |
| Text.Title | AuthorTextScraperv2.py:32 | length and letterhood kept, non-letters unchanged, a letter is upper case exactly when it starts a word, each letter keeps its case-folded value |
| Text.TitleIdempotent | AuthorTextScraperv2.py:32 | title-casing twice equals title-casing once |
| Text.Display | AuthorTextScraperv2.py:35 | the slug-to-name transform keeps the length, leaves no `-`, and case-folds to the slug with `-` turned into space |
| Text.DisplayIdempotent | AuthorTextScraperv2.py:88 | applying the slug-to-name transform to its own output changes nothing |
| Text.Split | WebScraper.py:50 | every piece of `split()` is a non-empty whitespace-free word |
| Text.SplitJoinSpaced | WebScraper.py:50 | splitting words joined by single spaces gives the words back |
| Text.SplitCountsWordStarts | WebScraper.py:50 | the number of pieces of `split()` is the number of positions where a non-space follows a space or the start |
| Html.LoneText | AuthorTextScraperv2.py:55 | below a node whose `.string` exists, the text of a given kind is that string when it has the kind, and empty otherwise |
| Html.StringVersusText | AuthorTextScraperv2.py:55 | `.string` equals `.get_text()` when the lone string is of the kind the node collects; otherwise `.get_text()` is empty while `.string` has the text |
| Html.HiddenStrings | AuthorTextScraperv2.py:55 | a script under a `<div>`, and a comment under a `<p>`, are the element's `.string` but not part of its `.get_text()` |
| Html.FindIn | AuthorTextScraperv2.py:12 | a hit of the tree search matches the query |
| Html.Find | AuthorTextScraperv2.py:12 | `find` returns a matching element |
| Html.FirstMatchSpec | AuthorTextScraperv2.py:12 | reference search: the first matching node of a list, with no match before it, or none when nothing matches |
| Html.FindInIsFirstMatch | AuthorTextScraperv2.py:12 | the tree search returns exactly the first matching node of the document-order listing |
| Html.FindIsFirstDescendant | AuthorTextScraperv2.py:12 | `n.find(q)` is the first matching descendant of `n` in document order |
| UrlPattern.SearchSpan | AuthorTextScraperv2.py:30 | the computed span has a non-empty group that ends inside the string |
| UrlPattern.SearchSpanIsSearch | AuthorTextScraperv2.py:30 | the computed span is the leftmost-start, longest-group match of the pattern, and there is no match when it is absent |
| UrlPattern.UrlSlug | AuthorTextScraperv2.py:30-32 | the captured group is a non-empty slash-free tail of the URL, followed by nothing, `/`, or `/` and a newline |
| UrlPattern.UrlSlugIsSearch | AuthorTextScraperv2.py:30-31 | the slug is `None` exactly when the pattern cannot match, else the group of Python's match |
| Author.BylineSpec | AuthorTextScraperv2.py:12-15 | the byline lookup decides exactly when the first `<p>`'s first `<strong>` starts with `By `; its answer is the rest, stripped |
| Author.FromContentSpec | AuthorTextScraperv2.py:27-37 | an `https://` content names nobody exactly when the pattern matches nowhere in it; otherwise it names the non-empty display form of the group of the leftmost-longest match; `@` gives the rest transformed; anything else is returned verbatim |
| Author.DoubleSlashFallsThrough | AuthorTextScraperv2.py:28-32 | an `https://` content ending in `//` names nobody, so the loop moves on |
| Author.FirstSomeSpec | AuthorTextScraperv2.py:25-37 | the loop's answer comes from the first tag that decides, with none deciding before it, and there is none exactly when no tag decides |
| Author.FirstSomeAt | AuthorTextScraperv2.py:25-37 | the first deciding tag gives the answer, whatever later tags hold |
| Author.MetaSpec | AuthorTextScraperv2.py:18-37 | the meta lookup never raises, and has no opinion exactly when none of the four tags decides |
| Author.DescriptionSpec | AuthorTextScraperv2.py:40-44 | raises `MissingHeading` exactly when the first `author-description` div has no `<h5>`; answers exactly when that `<h5>` holds an `itemprop="author"` link, and then with that first link's text, unstripped |
| Author.ItempropSpec | AuthorTextScraperv2.py:47-49 | never raises; answers exactly when an `itemprop="author"` link exists, with the first such link's text, unstripped |
| Author.LinkedDataStepSpec | AuthorTextScraperv2.py:52-61 | for the first ld+json script: raises `ScriptWithoutString` exactly when it has no `.string`; raises `LinkedDataShape` exactly when decoding that string hits a shape error; answers exactly when that string decodes to a non-empty name, and then with that name; anything else passes |
| Author.MetaTextSpec | AuthorTextScraperv2.py:64-66 | never raises; answers exactly when the first `meta_text` span's very next sibling node is an `<a>`, and then with that `<a>`'s text, unstripped |
| Author.AuthorBoxStepSpec | AuthorTextScraperv2.py:69-73 | never raises; answers exactly when the first `author-box` div holds an `<h3>`, and then with that first `<h3>`'s text, unstripped |
| Author.NextSibling | AuthorTextScraperv2.py:77 | `find_next_sibling`: the first later sibling element with the tag, none before it having the tag; none exactly when no later sibling has it |
| Author.BySpanStepSpec | AuthorTextScraperv2.py:76-80 | never raises; answers exactly when the span that follows the first `By ` span holds a `PostByline_author__5KK7G` link, and then with that first link's text, unstripped |
| Author.FirstWithPrefix | AuthorTextScraperv2.py:86-87 | the first class with the prefix, none before it carrying it; none exactly when no class has it |
| Author.BodyClassStepSpec | AuthorTextScraperv2.py:83-88 | never raises; answers exactly when the first `<body>` has an `author-` class, and then with the first such class, prefix dropped and transformed |
| Author.FirstDecisiveSpec | AuthorTextScraperv2.py:10-90 | the first outcome with an opinion, all before it passing; `Pass` exactly when all pass |
| Author.FirstDecisiveAt | AuthorTextScraperv2.py:10-90 | the first outcome with an opinion decides, whatever comes after |
| Author.DecideSpec | AuthorTextScraperv2.py:10-90 | `"none"` when all lookups pass; otherwise the answer or exception of a lookup with only passing lookups before it |
| Author.DecideAt | AuthorTextScraperv2.py:10-90 | when lookups `0..i-1` pass and lookup `i` has an opinion, that opinion is the result |
| Author.BylineWins | AuthorTextScraperv2.py:12-15 | a `By ` byline wins over every later lookup, and gives the rest of its text, stripped |
| Author.MetaDecides | AuthorTextScraperv2.py:18-37 | with no byline, the first meta tag that decides gives the result, in the order sailthru.author, author, article:author, property article:author |
| Author.DescriptionWithoutHeadingRaises | AuthorTextScraperv2.py:40-42 | an `author-description` div without `<h5>` makes `get_author` raise once the byline and meta tags pass |
| Author.ItempropTextVerbatim | AuthorTextScraperv2.py:47-49 | an `itemprop="author"` link reached by the cascade gives its text unstripped, even when empty |
| Author.BodyClassDecides | AuthorTextScraperv2.py:83-88 | when only the body class is left, the first `author-` class decides `get_author`'s result |
| Author.EmptyPageHasNoAuthor | AuthorTextScraperv2.py:90 | an empty page gives exactly `"none"` |
| Author.AuthorOf | AuthorTextScraperv2.py:128-140 | a status other than 200 gives `"none"` without looking at the page |
| Author.AuthorColumnSucceeds | AuthorTextScraperv2.py:124-142 | the column is built exactly when no page's lookup raises |
| Author.AuthorColumnAt | AuthorTextScraperv2.py:124-142 | a built column has one entry per URL, and entry `k` is the author of page `k` |
| Author.AuthorColumnFails | AuthorTextScraperv2.py:124-142 | a failed run carries the exception of the first page whose lookup raised, all earlier pages having succeeded |
| Author.SinceCutoff | AuthorTextScraperv2.py:115-121 | the kept rows are an order-preserving subsequence, each dated at or after the cutoff, and each row occurs as often as in the input if it is recent and not at all otherwise |
| Author.SinceCutoffCount | AuthorTextScraperv2.py:121 | the number of kept rows is the number of input positions holding a recent row |
| Author.SinceCutoffIdempotent | AuthorTextScraperv2.py:121 | filtering twice with the same cutoff equals filtering once |
| Xml.NamedSpec | GDSitemapScraperv8.py:83 | an element is selected exactly when it is in the list and carries the name |
| Xml.FirstNamedSpec | GDSitemapScraperv8.py:83 | the first selected element is the list's first element with the name; there is none exactly when no element has it |
| Xml.ChildSpec | GDSitemapScraperv8.py:83-99 | `e.find(name)` is `e`'s first child with the name, and `None` exactly when no child has it |
| Xml.FindAllIsNamedFlatten | GDSitemapScraperv8.py:75 | `findall('.//name')` is exactly the named elements of the document-order listing |
| Xml.FindFirstIsFirstOfAll | GDSitemapScraperv8.py:22 | `find('.//name')` is the first element `findall` lists |
| Xml.QualName | GDSitemapScraperv8.py:71 | a bare name moves into the default namespace, and a qualified name keeps its namespace |
| Xml.FlattenQualify | GDSitemapScraperv8.py:71-75 | qualifying with a default namespace commutes with listing elements in document order |
| Xml.NamedQualify | GDSitemapScraperv8.py:71-83 | selecting by name commutes with qualifying when qualifying maps exactly the sought names |
| Sitemap.SitemapLoc | GDSitemapScraperv8.py:13-29 | `None` on a parse error; a result is the stripped text, possibly empty, of a sitemap-namespace `loc` below the root whose raw text is non-empty |
| Sitemap.SitemapLocReadsFirstOnly | GDSitemapScraperv8.py:22-26 | only the first sitemap `loc` is read: if its text is missing or empty the result is `None`, whatever later `loc`s hold |
| Sitemap.ResolveFeed | GDSitemapScraperv8.py:44-54 | the two index feeds are replaced by the document their first `loc` names, or fail when there is none; every other feed is kept |
| Sitemap.DateElement | GDSitemapScraperv8.py:93-107 | the first sitemap `lastmod` child wins; without one, the first news `publication_date` child; without both, the first `publication_date` under a news `news` child, in document order; none exactly when all three are absent |
| Sitemap.EntriesOf | GDSitemapScraperv8.py:81-107 | one entry per `<url>` element, in order |
| Sitemap.Urls | GDSitemapScraperv8.py:83-85 | at most one URL per entry; exactly one per entry when every entry has a `loc`, and then entry by entry |
| Sitemap.UrlsAreFilteredLocs | GDSitemapScraperv8.py:81-85 | `urls` is, in order, the `loc` text of exactly the entries that have a `loc` |
| Sitemap.UrlsCount | GDSitemapScraperv8.py:81-85 | `len(urls)` is the number of `<url>` elements with a `loc` child |
| Sitemap.Dates | GDSitemapScraperv8.py:93-107 | exactly one date per entry, `loc` or not |
| Sitemap.BuildFrame | GDSitemapScraperv8.py:110-118 | the table exists exactly when the columns agree in length, and row `k` pairs URL `k` and date `k` with the publisher's fields |
| Sitemap.FrameIffEveryUrlHasLoc | GDSitemapScraperv8.py:81-118 | the table exists exactly when every `<url>` has a `loc`; its rows then follow the `<url>` elements |
| Sitemap.FixDate | GDSitemapScraperv8.py:127-130 | result length `max(0, n-cut)+6` (just 6 when `cut` is 0, as `s[:-0]` is empty), ends with `+00:00`, no `T` before it, and agrees with the input elsewhere |
| Sitemap.FixDateShape | GDSitemapScraperv8.py:121-148 | `date T time tail` with a non-empty tail of exactly the dropped length becomes `date time+00:00` |
| Sitemap.GothamistSixDigits | GDSitemapScraperv8.py:121-133 | fixup A on a six-digit fraction with offset gives a clean UTC timestamp |
| Sitemap.GothamistSevenDigitsKeepsPoint | GDSitemapScraperv8.py:121-133 | fixup A on a seven-digit fraction leaves `.` before `+00:00` |
| Sitemap.BrooklynOffset | GDSitemapScraperv8.py:136-148 | fixup B turns a `-04:00` offset into `+00:00` |
| Sitemap.FixColumn | GDSitemapScraperv8.py:122-132 | succeeds exactly when no date is `None`, failing with `MissingDate`; keeps the row count |
| Sitemap.FixColumnRow | GDSitemapScraperv8.py:122-132 | after a fixup, row `k` is input row `k` with its date fixed and every other field kept |
| Sitemap.DispatchIsTable | GDSitemapScraperv8.py:150-155 | the three tests apply at most one fixup: A for `Gothamist`, B for `Brooklyn  Buzz` and `The Spirit`, none otherwise |
| Sitemap.DispatchKeepsUrls | GDSitemapScraperv8.py:150-155 | a successful dispatch keeps the row count and every URL, and after a fixup every date is present |
| Sitemap.FixupKeepsRows | GDSitemapScraperv8.py:150-155 | with every date present, the dispatch succeeds and keeps the row count and URLs |
| Sitemap.ScrapeFeed | GDSitemapScraperv8.py:33-168 | a first fetch without status 200 skips the feed; a saved table implies status 200 |
| Sitemap.ScrapeFeedEarlyExits | GDSitemapScraperv8.py:44-60 | after status 200, an index feed without a `loc` crashes with `NoIndexLoc`, and a resolved document lxml cannot parse is skipped |
| Sitemap.ScrapeFeedOutcome | GDSitemapScraperv8.py:81-168 | for a parsed feed: unequal columns crash exactly when some `<url>` lacks a `loc`; a date crash happens exactly when every `<url>` has a `loc`, the publisher has a fixup and some date is `None`; the table is saved in every other case |
| Sitemap.SavedRowsMatchUrls | GDSitemapScraperv8.py:75-155 | a saved table has one row per `<url>` element, carrying that element's `loc` text |
| Sitemap.Run | GDSitemapScraperv8.py:33-170 | one outcome per publisher, in order, up to and including the first crash, which ends the run |
| Sitemap.DateElementQualify | GDSitemapScraperv8.py:93-107 | the date lookups ignore a default namespace other than theirs |
| Sitemap.EntryOfQualify | GDSitemapScraperv8.py:83-107 | a `<url>` element reads the same with or without a foreign default namespace |
| Sitemap.DefaultNamespaceInvariant | GDSitemapScraperv8.py:71-107 | declaring a default namespace other than the sitemap and news ones, on a document not already using it, changes no entry |
| Sitemap.BareLastmodIsLost | GDSitemapScraperv8.py:93-95 | without a default namespace a bare `lastmod` is not read, and the entry has no date |
| Sitemap.DeclaredLastmodIsKept | GDSitemapScraperv8.py:93-95 | the same document with the sitemap namespace as its default reads that `lastmod` |
| WebScraper.AtMost | WebScraper.py:35 | `<=` raises exactly when one side is naive and the other aware |
| WebScraper.InWindow | WebScraper.py:35 | the chain holds exactly when all three agree on awareness and the date is within both bounds; it raises only on a comparison actually made |
| WebScraper.ReplaceZ | WebScraper.py:34 | no `Z` remains, and each `Z` adds five characters |
| WebScraper.ReplaceZKeepsZFree | WebScraper.py:34 | a Z-free text is unchanged |
| WebScraper.ReplaceZSuffix | WebScraper.py:34 | a trailing `Z` becomes `+00:00` |
| WebScraper.Tagged | WebScraper.py:29 | `find_all(tag)` is an order-preserving subsequence of elements with the tag, holding each such element as often as the input does |
| WebScraper.FirstMatchIsFirstTagged | WebScraper.py:29-31 | scanning a list for the first element with a tag finds the first element `Tagged` keeps |
| WebScraper.FindIsFirstTagged | WebScraper.py:29-31 | `n.find(tag)` is the first element of `n.find_all(tag)` |
| WebScraper.Decide | WebScraper.py:30-36 | a missing `loc` raises; an entry without a non-empty `lastmod` is not kept; a date `fromisoformat` rejects raises; a parsed date raises exactly when the chained comparison mixes naive and aware in a comparison it makes; an entry is kept exactly when it is selected |
| WebScraper.Select | WebScraper.py:29-38 | succeeds exactly when no entry raises; the output is then an order-preserving subsequence of the `loc`s; a failure is some entry's exception |
| WebScraper.SelectIsFilter | WebScraper.py:29-38 | a successful selection is the `loc` of every selected entry, in order and with repetitions |
| WebScraper.SelectFailsFirst | WebScraper.py:29-38 | a failed selection carries the exception of the first entry that raises, every earlier entry having been decided |
| WebScraper.UndatedNeverSelected | WebScraper.py:33 | an entry without `lastmod` is never kept |
| WebScraper.EmptyWindowSelectsNothing | WebScraper.py:35 | a start after the end keeps nothing |
| WebScraper.WiderWindowKeeps | WebScraper.py:29-38 | widening the window keeps every kept entry, in order, when all bounds agree on awareness |
| WebScraper.MetaAuthor | WebScraper.py:48-49 | no `meta name=author` gives `''`; for the first such tag, its `content` when it has one, and `NoAuthorContent` when it has none |
| WebScraper.MetaAuthorReadsGetAuthorTag | WebScraper.py:48-49 | the article author is the `content` that `get_author` reads from the same tag, and the article scraper raises exactly where `get_author` moves past a tag without `content` |
| WebScraper.ScrapeArticle | WebScraper.py:40-62 | the record holds the URL, the page text, the meta author, the title (or `''`) and the number of word starts of the text |
| WebScraper.ScriptTextIsNotArticleText | WebScraper.py:47-50 | on a page with an ld+json script and a one-word paragraph, the article text is the paragraph's alone and counts one word |
| WebScraper.WordCount | WebScraper.py:50 | one pass over the text counts exactly the pieces of `split()` |
| WebScraper.PlanPublications | WebScraper.py:82-90 | the processed rows are those with exactly two fields, in order, each numbered by its 1-based position in the file |
| WebScraper.ArticleRows | WebScraper.py:92-118 | no rows when the sitemap step raised; otherwise the articles scraped before the first failure, each tagged with the publication |
| WebScraper.WrittenUntilFailure | WebScraper.py:95-115 | the written rows are the longest prefix of articles that scraped successfully |

## Left out

- HTTP fetching. A fetch is a parameter: a status and a body, or for
  WebScraper a parsed page. `requests` rejecting a malformed URL is not
  modelled.
- The parsers (`html.parser`, lxml, ElementTree, bs4's `xml` feature). The
  model starts from their trees and treats a syntax error as an input.
  The HTML string classes are modelled as bs4 4.10 and later assigns them
  with `html.parser`. Before 4.9, `.get_text()` also collected script and
  style text; comments were skipped there too.
  Comments, tails and attributes of XML elements are not modelled. The bs4
  `xml` tree matches tags by local name, and prefixed names are not modelled.
- `json.loads` and the `author`/`name` lookups. They are a caller-supplied
  function onto `LinkedData`.
- `datetime.fromisoformat`, `pd.to_datetime` and the year/month/day columns.
  Parsing is a caller-supplied function onto `Stamp`, and the CSV dates are
  already parsed `Option<int>`. A date `pd.to_datetime` rejects after the
  fixups, which would raise, is not modelled.
- `datetime.now()`, `uuid4`, `str(soup)`, `find_sitemap` (HTTP plus
  `urljoin`), CSV/pandas reading and writing, `os` paths, `input()`, logging
  and `exit`.
- Non-ASCII text. `strip`, `split` and `title` are modelled on ASCII.
- The `metadata` row lookup (`.iloc[0]`). The publisher's fields are given.
- Text.Title: the model only knows ASCII letters as cased, while Python's
  `title()` also cases other scripts.
- Sitemap.FixDateShape: stated for a positive cut only; with `cut` 0 the
  slice `[:-0]` drops everything, and the script only uses 13 and 6.
- WebScraper.ScrapeArticle: does not model `pub_date`, `content_html` or
  `updated_date`, which come from the clock and from serialising the tree.
