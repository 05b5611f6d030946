/** WebScraper.py: the date-window selection of `parse_sitemap`, the record
    `scrape_article_data` builds from a page, and the row handling of `main`. */
module WebScraper {
  import opened Wrappers
  import opened Text
  import opened Html
  import opened Seqs
  import Author

  /** A `datetime` as `fromisoformat` returns it: the instant it names and
      whether it carries a UTC offset. */
  datatype Stamp = Stamp(at: int, aware: bool)

  /** The exceptions that end the processing of one publication. */
  datatype ScrapeError =
    | NoLoc           // a `<url>` without `<loc>`: `None.text` raises
    | BadTimestamp    // `fromisoformat` rejects the `lastmod` text
    | MixedAwareness  // a naive and an aware datetime compared: TypeError
    | NoAuthorContent // a `meta name=author` tag without `content`: KeyError

  // ---------------------------------------------------------------------------
  // parse_sitemap (lines 24-38)

  /** `a <= b` on datetimes, which raises when exactly one side is aware. */
  function AtMost(a: Stamp, b: Stamp): (r: Result<bool, ScrapeError>)
    ensures r.Failure? <==> a.aware != b.aware
    ensures r.Failure? ==> r.error == MixedAwareness
    ensures r.Success? ==> (r.value <==> a.at <= b.at)
  {
    if a.aware != b.aware then Failure(MixedAwareness) else Success(a.at <= b.at)
  }

  /** The chained `start <= d <= end`: the second comparison is made only
      when the first holds. */
  function InWindow(start: Stamp, d: Stamp, end: Stamp): (r: Result<bool, ScrapeError>)
    ensures r == Success(true) <==> start.aware == d.aware == end.aware && start.at <= d.at <= end.at
    ensures r.Failure? <==> start.aware != d.aware || (start.at <= d.at && d.aware != end.aware)
  {
    match AtMost(start, d)
    case Failure(e) => Failure(e)
    case Success(b) => if b then AtMost(d, end) else Success(false)
  }

  function CountOf(s: string, c: char): nat {
    if |s| == 0 then 0 else (if s[0] == c then 1 else 0) + CountOf(s[1..], c)
  }

  /** `s.replace('Z', '+00:00')`: every `Z`, not only a final one. */
  function ReplaceZ(s: string): (r: string)
    ensures forall k :: 0 <= k < |r| ==> r[k] != 'Z'
    ensures |r| == |s| + 5 * CountOf(s, 'Z')
  {
    if |s| == 0 then ""
    else
      var rest := ReplaceZ(s[1..]);
      var head := if s[0] == 'Z' then "+00:00" else [s[0]];
      assert forall k :: |head| <= k < |head + rest| ==> (head + rest)[k] == rest[k - |head|];
      head + rest
  }

  /** A text without `Z` is left as it is. */
  lemma {:induction false} ReplaceZKeepsZFree(s: string)
    requires forall k :: 0 <= k < |s| ==> s[k] != 'Z'
    ensures ReplaceZ(s) == s
    decreases |s|
  {
    if |s| > 0 {
      ReplaceZKeepsZFree(s[1..]);
      assert [s[0]] + s[1..] == s;
    }
  }

  /** A trailing `Z` becomes `+00:00`, the rest is untouched when Z-free. */
  lemma ReplaceZSuffix(s: string)
    requires forall k :: 0 <= k < |s| ==> s[k] != 'Z'
    ensures ReplaceZ(s + "Z") == s + "+00:00"
  {
    ReplaceZKeepsZFree(s);
    ReplaceZAppend(s, "Z");
    ReplaceZOfZ();
  }

  /** A lone `Z` becomes `+00:00`. */
  lemma ReplaceZOfZ()
    ensures ReplaceZ("Z") == "+00:00"
  {
    assert "Z"[1..] == "";
    assert ReplaceZ("") == "";
    assert "+00:00" + "" == "+00:00";
  }

  lemma {:induction false} ReplaceZAppend(a: string, b: string)
    ensures ReplaceZ(a + b) == ReplaceZ(a) + ReplaceZ(b)
    decreases |a|
  {
    if |a| == 0 {
      assert a + b == b;
    } else {
      assert (a + b)[1..] == a[1..] + b;
      ReplaceZAppend(a[1..], b);
    }
  }

  /** What the loop reads from one `<url>` tag: the text of its first `loc`
      and of its first `lastmod`, each `None` when the tag is absent. */
  datatype Entry = Entry(loc: Option<string>, lastmod: Option<string>)

  function TextOfFirst(n: Node, tag: string): Option<string> {
    match Find(n, Query(tag, AnyAttrs))
    case None => None
    case Some(h) => Some(TextOf(h.node))
  }

  function EntryOf(urlTag: Node): Entry {
    Entry(TextOfFirst(urlTag, "loc"), TextOfFirst(urlTag, "lastmod"))
  }

  /** The elements of a list with the given tag, in order and every one of
      them: `find_all(tag)` over the descendants. */
  function Tagged(nodes: seq<Node>, tag: string): (r: seq<Node>)
    ensures IsSubseq(r, nodes)
    ensures forall k :: 0 <= k < |r| ==> r[k].Element? && r[k].tag == tag
    ensures forall x :: multiset(r)[x] == if x.Element? && x.tag == tag then multiset(nodes)[x] else 0
  {
    FilterSpec(nodes, (n: Node) => n.Element? && n.tag == tag);
    Filter(nodes, (n: Node) => n.Element? && n.tag == tag)
  }

  /** The scan for a tag finds the first element `find_all` lists. */
  lemma {:induction false} FirstMatchIsFirstTagged(nodes: seq<Node>, tag: string)
    ensures FirstMatch(nodes, Query(tag, AnyAttrs)) ==
              if |Tagged(nodes, tag)| > 0 then Some(Tagged(nodes, tag)[0]) else None
    decreases |nodes|
  {
    if |nodes| > 0 {
      FirstMatchIsFirstTagged(nodes[1..], tag);
      FilterCons(nodes, (n: Node) => n.Element? && n.tag == tag);
    }
  }

  /** `n.find(tag)` is the first of `n.find_all(tag)`. */
  lemma FindIsFirstTagged(n: Node, tag: string)
    ensures NodeOf(Find(n, Query(tag, AnyAttrs))) ==
              if |Tagged(Descendants(n), tag)| > 0 then Some(Tagged(Descendants(n), tag)[0]) else None
  {
    FindIsFirstDescendant(n, Query(tag, AnyAttrs));
    FirstMatchIsFirstTagged(Descendants(n), tag);
  }

  function EntriesOf(tags: seq<Node>): (r: seq<Entry>)
    ensures |r| == |tags|
    ensures forall k :: 0 <= k < |tags| ==> r[k] == EntryOf(tags[k])
  {
    seq(|tags|, k requires 0 <= k < |tags| => EntryOf(tags[k]))
  }

  /** `soup.find_all('url')`, read entry by entry. */
  function SitemapEntries(soup: Node): seq<Entry> {
    EntriesOf(Tagged(Descendants(soup), "url"))
  }

  /** `if lastmod:` holds: the tag is there and its text is not empty. */
  predicate Dated(e: Entry) {
    e.lastmod.Some? && e.lastmod.value != ""
  }

  /** The entry is kept: it has a date, the date parses, and it lies inside
      the window with both bounds included (and nothing mixes naive and aware
      datetimes). */
  predicate Selected(e: Entry, start: Stamp, end: Stamp, parse: string -> Option<Stamp>) {
    && Dated(e)
    && parse(ReplaceZ(e.lastmod.value)).Some?
    && var d := parse(ReplaceZ(e.lastmod.value)).value;
       start.aware == d.aware == end.aware && start.at <= d.at <= end.at
  }

  /** The chained comparison raises: the first comparison mixes naive and
      aware, or it holds and the second one mixes them. */
  predicate Mixes(start: Stamp, d: Stamp, end: Stamp) {
    start.aware != d.aware || (start.at <= d.at && d.aware != end.aware)
  }

  /** One iteration of the loop: whether the `loc` is appended, or the
      exception that ends the publication. `parse` is `fromisoformat`. */
  function Decide(e: Entry, start: Stamp, end: Stamp, parse: string -> Option<Stamp>)
    : (r: Result<bool, ScrapeError>)
    ensures e.loc.None? ==> r == Failure(NoLoc)
    ensures e.loc.Some? && !Dated(e) ==> r == Success(false)
    ensures r == Success(true) <==> e.loc.Some? && Selected(e, start, end, parse)
    ensures e.loc.Some? && Dated(e) && parse(ReplaceZ(e.lastmod.value)).None? ==> r == Failure(BadTimestamp)
    ensures e.loc.Some? && Dated(e) && parse(ReplaceZ(e.lastmod.value)).Some? ==>
              (r.Failure? <==> Mixes(start, parse(ReplaceZ(e.lastmod.value)).value, end))
              && (r.Failure? ==> r.error == MixedAwareness)
  {
    if e.loc.None? then Failure(NoLoc)
    else if !Dated(e) then Success(false)
    else
      match parse(ReplaceZ(e.lastmod.value))
      case None => Failure(BadTimestamp)
      case Some(d) => InWindow(start, d, end)
  }

  function Locs(entries: seq<Entry>): (r: seq<string>)
    ensures |r| == |entries|
    ensures forall k :: 0 <= k < |entries| ==> r[k] == entries[k].loc.GetOr("")
  {
    seq(|entries|, k requires 0 <= k < |entries| => entries[k].loc.GetOr(""))
  }

  /** A list of entries with one in front has that entry's `loc` in front. */
  lemma LocsCons(e: Entry, entries: seq<Entry>)
    ensures Locs([e] + entries) == [e.loc.GetOr("")] + Locs(entries)
  {
    var l := Locs([e] + entries);
    forall k | 0 <= k < |l|
      ensures l[k] == ([e.loc.GetOr("")] + Locs(entries))[k]
    {
      if k > 0 {
        assert ([e] + entries)[k] == entries[k - 1];
      }
    }
  }

  /** The `articles` list, or the first exception the loop raises. */
  function Select(entries: seq<Entry>, start: Stamp, end: Stamp, parse: string -> Option<Stamp>)
    : (r: Result<seq<string>, ScrapeError>)
    ensures r.Success? <==> forall k :: 0 <= k < |entries| ==> Decide(entries[k], start, end, parse).Success?
    ensures r.Success? ==> IsSubseq(r.value, Locs(entries))
    ensures r.Failure? ==> exists k :: 0 <= k < |entries| && Decide(entries[k], start, end, parse) == Failure(r.error)
  {
    if |entries| == 0 then Success([])
    else
      var d := Decide(entries[0], start, end, parse);
      var tail := Select(entries[1..], start, end, parse);
      assert entries == [entries[0]] + entries[1..];
      assert forall k :: 1 <= k < |entries| ==> entries[k] == entries[1..][k - 1];
      LocsCons(entries[0], entries[1..]);
      if d.Failure? then Failure(d.error)
      else if tail.Failure? then tail
      else if d.value then
        SubseqKeep(entries[0].loc.value, tail.value, Locs(entries[1..]));
        Success([entries[0].loc.value] + tail.value)
      else
        SubseqSkip(entries[0].loc.GetOr(""), tail.value, Locs(entries[1..]));
        Success(tail.value)
  }

  /** `parse_sitemap` on an already parsed sitemap. */
  function ParseSitemap(soup: Node, start: Stamp, end: Stamp, parse: string -> Option<Stamp>)
    : Result<seq<string>, ScrapeError>
  {
    Select(SitemapEntries(soup), start, end, parse)
  }

  /** A successful selection is the `loc` of every selected entry, in order
      and with repetitions. */
  lemma {:induction false} SelectIsFilter(entries: seq<Entry>, start: Stamp, end: Stamp, parse: string -> Option<Stamp>)
    requires Select(entries, start, end, parse).Success?
    ensures Select(entries, start, end, parse).value == Locs(Filter(entries, (e: Entry) => Selected(e, start, end, parse)))
    decreases |entries|
  {
    if |entries| > 0 {
      var keep := (e: Entry) => Selected(e, start, end, parse);
      var tail := entries[1..];
      assert Select(tail, start, end, parse).Success?;
      SelectIsFilter(tail, start, end, parse);
      FilterCons(entries, keep);
      LocsCons(entries[0], Filter(tail, keep));
      var d := Decide(entries[0], start, end, parse);
      assert d.Success?;
      if d.value {
        assert Select(entries, start, end, parse).value == [entries[0].loc.value] + Select(tail, start, end, parse).value;
      } else {
        assert Select(entries, start, end, parse).value == Select(tail, start, end, parse).value;
      }
    }
  }

  /** A failing selection fails with the exception of the first entry that
      raises, every entry before it having been decided. */
  lemma {:induction false} SelectFailsFirst(entries: seq<Entry>, start: Stamp, end: Stamp, parse: string -> Option<Stamp>)
    requires Select(entries, start, end, parse).Failure?
    ensures exists k :: 0 <= k < |entries| && Decide(entries[k], start, end, parse) == Failure(Select(entries, start, end, parse).error)
                        && forall j :: 0 <= j < k ==> Decide(entries[j], start, end, parse).Success?
    decreases |entries|
  {
    if Decide(entries[0], start, end, parse).Success? {
      var tail := entries[1..];
      assert Select(entries, start, end, parse) == Select(tail, start, end, parse);
      SelectFailsFirst(tail, start, end, parse);
      var k :| 0 <= k < |tail| && Decide(tail[k], start, end, parse) == Failure(Select(tail, start, end, parse).error)
               && forall j :: 0 <= j < k ==> Decide(tail[j], start, end, parse).Success?;
      assert entries[k + 1] == tail[k];
      assert forall j :: 1 <= j < k + 1 ==> entries[j] == tail[j - 1];
    }
  }

  /** An entry without a usable `lastmod` is never selected. */
  lemma UndatedNeverSelected(entries: seq<Entry>, start: Stamp, end: Stamp, parse: string -> Option<Stamp>, k: nat)
    requires k < |entries| && !Dated(entries[k])
    requires entries[k].loc.Some?
    ensures Decide(entries[k], start, end, parse) == Success(false)
    ensures !Selected(entries[k], start, end, parse)
  {
  }

  /** A window whose start lies after its end selects nothing. */
  lemma EmptyWindowSelectsNothing(entries: seq<Entry>, start: Stamp, end: Stamp, parse: string -> Option<Stamp>)
    requires start.at > end.at
    requires Select(entries, start, end, parse).Success?
    ensures Select(entries, start, end, parse).value == []
  {
  }

  /** One entry under a wider window: a decision without an exception stays
      without one, and a kept entry stays kept. */
  lemma DecideWider(e: Entry, start: Stamp, end: Stamp, start2: Stamp, end2: Stamp,
                    parse: string -> Option<Stamp>)
    requires start2.at <= start.at && end.at <= end2.at
    requires start.aware == end.aware == start2.aware == end2.aware
    requires Decide(e, start, end, parse).Success?
    ensures Decide(e, start2, end2, parse).Success?
    ensures Decide(e, start, end, parse).value ==> Decide(e, start2, end2, parse).value
  {
  }

  /** Widening the window never drops an entry, provided all four bounds
      agree on being naive or aware. */
  lemma {:induction false} WiderWindowKeeps(entries: seq<Entry>, start: Stamp, end: Stamp,
                                            start2: Stamp, end2: Stamp, parse: string -> Option<Stamp>)
    requires start2.at <= start.at && end.at <= end2.at
    requires start.aware == end.aware == start2.aware == end2.aware
    requires Select(entries, start, end, parse).Success?
    ensures Select(entries, start2, end2, parse).Success?
    ensures IsSubseq(Select(entries, start, end, parse).value, Select(entries, start2, end2, parse).value)
    decreases |entries|
  {
    if |entries| > 0 {
      var e := entries[0];
      assert Decide(e, start, end, parse).Success?;
      DecideWider(e, start, end, start2, end2, parse);
      WiderWindowKeeps(entries[1..], start, end, start2, end2, parse);
      var t1 := Select(entries[1..], start, end, parse).value;
      var t2 := Select(entries[1..], start2, end2, parse).value;
      if Decide(e, start, end, parse).value {
        SubseqKeep(e.loc.value, t1, t2);
      } else if Decide(e, start2, end2, parse).value {
        SubseqSkip(e.loc.value, t1, t2);
      }
    }
  }

  // ---------------------------------------------------------------------------
  // scrape_article_data (lines 40-62)

  const AuthorMeta := Query("meta", AttrIs("name", "author"))

  /** `soup.find('meta', attrs={'name': 'author'})` read for its `content`:
      `''` when there is no such tag, the first tag's `content` when it has
      one, and an exception when it has none. */
  function MetaAuthor(soup: Node): (r: Result<string, ScrapeError>)
    ensures Find(soup, AuthorMeta).None? ==> r == Success("")
    ensures Find(soup, AuthorMeta).Some? && "content" in Find(soup, AuthorMeta).value.node.attrs ==>
              r == Success(Find(soup, AuthorMeta).value.node.attrs["content"])
    ensures Find(soup, AuthorMeta).Some? && "content" !in Find(soup, AuthorMeta).value.node.attrs ==>
              r == Failure(NoAuthorContent)
  {
    match Find(soup, AuthorMeta)
    case None => Success("")
    case Some(h) => if "content" in h.node.attrs then Success(h.node.attrs["content"]) else Failure(NoAuthorContent)
  }

  /** The article's author is the `content` `get_author` reads from the same
      tag, before any transformation; where `get_author` moves on past a tag
      without `content`, the article scraper raises. */
  lemma MetaAuthorReadsGetAuthorTag(soup: Node)
    ensures Author.MetaQueries[1] == AuthorMeta
    ensures Author.MetaContent(soup, AuthorMeta).Some? ==> MetaAuthor(soup) == Success(Author.MetaContent(soup, AuthorMeta).value)
    ensures MetaAuthor(soup).Failure? <==> Find(soup, AuthorMeta).Some? && Author.MetaContent(soup, AuthorMeta).None?
  {
  }

  /** The fields of `article_data` that depend on the page (the timestamps
      and `str(soup)` are not modelled). */
  datatype Article = Article(url: string, title: string, text: string, author: string, wordCount: nat)

  function ScrapeArticle(url: string, soup: Node): (r: Result<Article, ScrapeError>)
    ensures r.Success? <==> MetaAuthor(soup).Success?
    ensures r.Success? ==> r.value.url == url && r.value.text == TextOf(soup)
                           && r.value.author == MetaAuthor(soup).value
    ensures r.Success? ==> r.value.wordCount == WordStarts(TextOf(soup), true)
    ensures r.Success? ==> r.value.title == TextOfFirst(soup, "title").GetOr("")
  {
    var text := TextOf(soup);
    SplitCountsWordStarts(text);
    match MetaAuthor(soup)
    case Failure(e) => Failure(e)
    case Success(author) =>
      Success(Article(url, TextOfFirst(soup, "title").GetOr(""), text, author, |Split(text)|))
  }

  /** The page of `ScriptTextIsNotArticleText`: an ld+json script, then a
      paragraph. */
  const ScriptThenParagraph: Node :=
    Element("[document]", map[], [
      Element("script", map["type" := "application/ld+json"], [Str(Contained("script"), "{}")]),
      Element("p", map[], [Str(Plain, "Hi")])])

  /** A page with an ld+json script and one paragraph: the script's text is
      not part of `soup.get_text()`, so the article text is the paragraph's
      and it has one word. */
  lemma ScriptTextIsNotArticleText()
    ensures ScrapeArticle("u", ScriptThenParagraph) == Success(Article("u", "", "Hi", "", 1))
  {
    ExampleText();
    ExampleFinds(AuthorMeta);
    ExampleFinds(Query("title", AnyAttrs));
    assert WordStarts("Hi", true) == 1 by {
      assert "Hi"[1..][1..] == "";
    }
  }

  lemma ExampleText()
    ensures TextOf(ScriptThenParagraph) == "Hi"
  {
    var script := ScriptThenParagraph.children[0];
    var p := ScriptThenParagraph.children[1];
    assert ScriptThenParagraph.children[1..] == [p];
    assert [p][1..] == [];
    assert TextInAll([p], Plain) == "Hi" + TextInAll([], Plain);
    assert TextIn(script, Plain) == "" + TextInAll([], Plain);
    assert TextInAll(ScriptThenParagraph.children, Plain) == TextIn(script, Plain) + TextInAll([p], Plain);
  }

  lemma ExampleFinds(q: Query)
    requires q.tag != "script" && q.tag != "p"
    ensures Find(ScriptThenParagraph, q).None?
  {
    var script := ScriptThenParagraph.children[0];
    var p := ScriptThenParagraph.children[1];
    assert ScriptThenParagraph.children[1..] == [p];
    assert [p][1..] == [];
    assert FindIn(script.children, q) == FindIn([], q);
    assert FindIn(p.children, q) == FindIn([], q);
    assert FindIn([p], q) == FindIn([], q);
  }

  /** `len(content_text.split())`, counted in one pass: a word starts wherever
      a non-space follows a space or the start. */
  method WordCount(text: string) returns (n: nat)
    ensures n == |Split(text)|
  {
    n := 0;
    var afterSpace := true;
    var i := 0;
    while i < |text|
      invariant 0 <= i <= |text|
      invariant n + WordStarts(text[i..], afterSpace) == WordStarts(text, true)
    {
      assert text[i..][1..] == text[i + 1..];
      if afterSpace && !IsSpace(text[i]) {
        n := n + 1;
      }
      afterSpace := IsSpace(text[i]);
      i := i + 1;
    }
    SplitCountsWordStarts(text);
  }

  // ---------------------------------------------------------------------------
  // main (lines 82-118)

  /** A publication the loop processes: its 1-based position in the CSV and
      the two fields of its row. */
  datatype Publication = Publication(id: nat, name: string, url: string)

  /** The row holds exactly the publication's name and URL. */
  predicate Names(row: seq<string>, p: Publication) {
    |row| == 2 && row[0] == p.name && row[1] == p.url
  }

  /** Some planned publication carries `id`. */
  predicate HasId(pubs: seq<Publication>, id: nat) {
    exists k :: 0 <= k < |pubs| && pubs[k].id == id
  }

  /** Every planned publication names the row its id points at, below `bound`. */
  predicate FromRows(rows: seq<seq<string>>, pubs: seq<Publication>, bound: nat)
    requires bound <= |rows|
  {
    forall k :: 0 <= k < |pubs| ==> 1 <= pubs[k].id <= bound && Names(rows[pubs[k].id - 1], pubs[k])
  }

  predicate Increasing(pubs: seq<Publication>) {
    forall k, j :: 0 <= k < j < |pubs| ==> pubs[k].id < pubs[j].id
  }

  /** One publication more: the row `i` (which has two fields) as
      publication `i + 1`. */
  function Planned(rows: seq<seq<string>>, i: nat): Publication
    requires i < |rows| && |rows[i]| == 2
  {
    Publication(i + 1, rows[i][0], rows[i][1])
  }

  /** The new publication names the row its id points at. */
  lemma FromRowsAppend(rows: seq<seq<string>>, pubs: seq<Publication>, i: nat)
    requires i < |rows| && |rows[i]| == 2
    requires FromRows(rows, pubs, i)
    ensures FromRows(rows, pubs + [Planned(rows, i)], i + 1)
  {
    var next := pubs + [Planned(rows, i)];
    forall k | 0 <= k < |next|
      ensures 1 <= next[k].id <= i + 1 && Names(rows[next[k].id - 1], next[k])
    {
      if k < |pubs| {
        assert next[k] == pubs[k];
      }
    }
  }

  /** A publication numbered above every earlier one keeps the ids increasing. */
  lemma IncreasingAppend(pubs: seq<Publication>, p: Publication, bound: nat)
    requires Increasing(pubs)
    requires forall k :: 0 <= k < |pubs| ==> pubs[k].id <= bound
    requires bound < p.id
    ensures Increasing(pubs + [p])
  {
    var next := pubs + [p];
    forall k, j | 0 <= k < j < |next|
      ensures next[k].id < next[j].id
    {
      assert next[k] == pubs[k];
      if j < |pubs| {
        assert next[j] == pubs[j];
      }
    }
  }

  /** Appending keeps every id already planned and adds the new one. */
  lemma HasIdAppend(pubs: seq<Publication>, p: Publication, id: nat)
    requires HasId(pubs, id) || p.id == id
    ensures HasId(pubs + [p], id)
  {
    var next := pubs + [p];
    if p.id == id {
      assert next[|pubs|] == p;
    } else {
      var k :| 0 <= k < |pubs| && pubs[k].id == id;
      assert next[k] == pubs[k];
    }
  }

  /** The rows `main` goes on to process: those with exactly two fields, each
      numbered by its position in the file, skipped rows included. */
  method PlanPublications(rows: seq<seq<string>>) returns (pubs: seq<Publication>)
    ensures FromRows(rows, pubs, |rows|)
    ensures Increasing(pubs)
    ensures forall i :: 0 <= i < |rows| && |rows[i]| == 2 ==> HasId(pubs, i + 1)
  {
    pubs := [];
    var i := 0;
    while i < |rows|
      invariant 0 <= i <= |rows|
      invariant FromRows(rows, pubs, i)
      invariant Increasing(pubs)
      invariant forall r :: 0 <= r < i && |rows[r]| == 2 ==> HasId(pubs, r + 1)
    {
      if |rows[i]| == 2 {
        var p := Planned(rows, i);
        FromRowsAppend(rows, pubs, i);
        IncreasingAppend(pubs, p, i);
        forall r | 0 <= r <= i && |rows[r]| == 2
          ensures HasId(pubs + [p], r + 1)
        {
          HasIdAppend(pubs, p, r + 1);
        }
        pubs := pubs + [p];
      }
      i := i + 1;
    }
  }

  /** An output row: the publication's fields and one scraped article. */
  datatype OutRow = OutRow(publicationId: nat, publicationName: string, publicationUrl: string, article: Article)

  /** The rows written for one publication. `articles` is what
      `find_sitemap` and `parse_sitemap` gave (or the exception they raised),
      `scrape` stands for fetching and scraping one article. An exception
      stops the publication, and the rows already written stay. */
  function ArticleRows(p: Publication, articles: Result<seq<string>, ScrapeError>,
                       scrape: string -> Result<Article, ScrapeError>): (r: seq<OutRow>)
    ensures articles.Failure? ==> r == []
    ensures articles.Success? ==> |r| <= |articles.value|
    ensures forall k :: 0 <= k < |r| ==>
              && r[k].publicationId == p.id && r[k].publicationName == p.name && r[k].publicationUrl == p.url
              && scrape(articles.value[k]) == Success(r[k].article)
    ensures articles.Success? && |r| < |articles.value| ==> scrape(articles.value[|r|]).Failure?
  {
    match articles
    case Failure(_) => []
    case Success(urls) => WrittenUntilFailure(p, urls, scrape)
  }

  function WrittenUntilFailure(p: Publication, urls: seq<string>, scrape: string -> Result<Article, ScrapeError>)
    : (r: seq<OutRow>)
    ensures |r| <= |urls|
    ensures forall k :: 0 <= k < |r| ==>
              && r[k].publicationId == p.id && r[k].publicationName == p.name && r[k].publicationUrl == p.url
              && scrape(urls[k]) == Success(r[k].article)
    ensures |r| < |urls| ==> scrape(urls[|r|]).Failure?
  {
    if |urls| == 0 then []
    else
      match scrape(urls[0])
      case Failure(_) => []
      case Success(a) =>
        var rest := WrittenUntilFailure(p, urls[1..], scrape);
        assert forall k :: 1 <= k < |urls| ==> urls[k] == urls[1..][k - 1];
        [OutRow(p.id, p.name, p.url, a)] + rest
  }
}
