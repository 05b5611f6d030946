/** GDSitemapScraperv8.py: for each publisher, fetch its sitemap (following
    one `<loc>` for the two index feeds), list its `<url>` elements with their
    `loc` and date, build the table, and apply the publisher's date fixup. */
module Sitemap {
  import opened Wrappers
  import opened Text
  import opened Seqs
  import opened Xml

  const SitemapNs := "http://www.sitemaps.org/schemas/sitemap/0.9"
  const NewsNs := "http://www.google.com/schemas/sitemap-news/0.9"

  /** The exceptions that escape the per-feed loop and end the run. */
  datatype FeedError =
    | NoIndexLoc    // `get_sitemap_url` gave `None`, and `requests.get(None)` raises
    | ColumnLengths // some `<url>` had no `<loc>`: the columns differ in length and `pd.DataFrame` raises
    | MissingDate   // a fixup met a `None` date: `None.replace` raises

  // ---------------------------------------------------------------------------
  // get_sitemap_url (lines 13-29)

  const SmLoc := QName(Some(SitemapNs), "loc")

  /** `get_sitemap_url`: `None` when the document does not parse; otherwise
      the first sitemap-namespace `loc` below the root, its text stripped,
      unless that element is missing or its text is empty. */
  function SitemapLoc(parsed: Option<XNode>): (r: Option<string>)
    ensures parsed.None? ==> r.None?
    ensures r.Some? ==> exists l, i :: l in Flatten(parsed.value.children) && l.name == SmLoc
                                       && l.text.Some? && TrimOf(l.text.value, i, r.value)
  {
    match parsed
    case None => None
    case Some(root) =>
      FindFirstIsFirstOfAll(root.children, SmLoc);
      FindAllIsNamedFlatten(root.children, SmLoc);
      match FindFirst(root.children, SmLoc)
      case None => None
      case Some(l) =>
        NamedSpec(Flatten(root.children), SmLoc);
        assert l == Named(Flatten(root.children), SmLoc)[0];
        if l.text.Some? && |l.text.value| > 0 then Some(Strip(l.text.value)) else None
  }

  /** Only the first `loc` counts: when it has no text the function gives
      `None`, even if a later `loc` has some. */
  lemma SitemapLocReadsFirstOnly(root: XNode)
    ensures var locs := Named(Flatten(root.children), SmLoc);
            SitemapLoc(Some(root)) ==
              if |locs| > 0 && locs[0].text.Some? && |locs[0].text.value| > 0
              then Some(Strip(locs[0].text.value)) else None
  {
    FindFirstIsFirstOfAll(root.children, SmLoc);
    FindAllIsNamedFlatten(root.children, SmLoc);
  }

  /** The two feeds whose sitemap is an index pointing at the real one. */
  const IndexFeeds: seq<string> := [
    "https://www.westsidespirit.com/sitemapforgoogle.xml",
    "https://www.chelseanewsny.com/sitemapforgoogle.xml"
  ]

  /** A fetched document: the HTTP status and the body text. */
  datatype Fetched = Fetched(status: int, text: string)

  /** Lines 44-54: an index feed is replaced by the document its first `loc`
      names (fetched without a status check); any other feed is kept. */
  function ResolveFeed(url: string, content: string, fetch: string -> Fetched,
                       etParse: string -> Option<XNode>): (r: Result<string, FeedError>)
    ensures url !in IndexFeeds ==> r == Success(content)
    ensures url in IndexFeeds ==> (r.Failure? <==> SitemapLoc(etParse(content)).None?)
    ensures url in IndexFeeds && r.Success? ==> r.value == fetch(SitemapLoc(etParse(content)).value).text
    ensures r.Failure? ==> r.error == NoIndexLoc
  {
    if url == IndexFeeds[0] || url == IndexFeeds[1] then
      match SitemapLoc(etParse(content))
      case None => Failure(NoIndexLoc)
      case Some(next) => Success(fetch(next).text)
    else Success(content)
  }

  // ---------------------------------------------------------------------------
  // The <url> loop (lines 71-107)

  /** A parsed feed: the root's default namespace (`root.nsmap.get(None)`) and
      the root element. */
  datatype Feed = Feed(defaultNs: Option<string>, root: XNode)

  /** `.//ns:url` with `ns` the default namespace, or `.//url` when there is none. */
  function UrlElements(feed: Feed): seq<XNode> {
    FindAll(feed.root.children, QName(feed.defaultNs, "url"))
  }

  const SmLastmod := QName(Some(SitemapNs), "lastmod")
  const NewsDate := QName(Some(NewsNs), "publication_date")
  const NewsBlock := QName(Some(NewsNs), "news")

  /** The element the date is read from: a sitemap `lastmod` child, else a
      news `publication_date` child, else a `publication_date` inside a
      news `news` child. The first one present decides, whatever its text. */
  function DateElement(e: XNode): (r: Option<XNode>)
    ensures Child(e, SmLastmod).Some? ==> r == Child(e, SmLastmod)
    ensures Child(e, SmLastmod).None? && Child(e, NewsDate).Some? ==> r == Child(e, NewsDate)
    ensures Child(e, SmLastmod).None? && Child(e, NewsDate).None? ==>
              r == First(ChildrenOfAll(Named(e.children, NewsBlock), NewsDate))
    ensures r.Some? ==> r.value.name == SmLastmod || r.value.name == NewsDate
    ensures r.Some? && r.value.name == SmLastmod ==> r.value in e.children
    ensures r.Some? && r.value.name == NewsDate ==>
              Child(e, SmLastmod).None?
              && (r.value in e.children
                  || exists c :: c in e.children && c.name == NewsBlock && r.value in c.children)
    ensures r.None? <==> Child(e, SmLastmod).None? && Child(e, NewsDate).None?
                         && forall c :: c in e.children && c.name == NewsBlock ==> Child(c, NewsDate).None?
  {
    match Child(e, SmLastmod)
    case Some(x) =>
      NamedSpec(e.children, SmLastmod);
      assert x == Named(e.children, SmLastmod)[0];
      Some(x)
    case None =>
      match Child(e, NewsDate)
      case Some(x) =>
        NamedSpec(e.children, NewsDate);
        assert x == Named(e.children, NewsDate)[0];
        Some(x)
      case None =>
        var blocks := Named(e.children, NewsBlock);
        ChildrenOfAllSpec(blocks, NewsDate);
        NamedSpec(e.children, NewsBlock);
        assert forall c :: c in e.children && c.name == NewsBlock ==> c in blocks;
        var r := GrandChild(e, NewsBlock, NewsDate);
        assert r.Some? ==> r.value == ChildrenOfAll(blocks, NewsDate)[0];
        r
  }

  /** What `a/b` can find below a list of `a` elements: `b` children of them,
      and nothing exactly when none of them has a `b` child. */
  lemma {:induction false} ChildrenOfAllSpec(parents: seq<XNode>, name: QName)
    ensures forall x :: x in ChildrenOfAll(parents, name) ==>
              x.name == name && exists c :: c in parents && x in c.children
    ensures |ChildrenOfAll(parents, name)| == 0 <==>
              forall c :: c in parents ==> Child(c, name).None?
    decreases |parents|
  {
    if |parents| > 0 {
      var p := parents[0];
      var rest := parents[1..];
      ChildrenOfAllSpec(rest, name);
      NamedSpec(p.children, name);
      assert forall c :: c in parents <==> c == p || c in rest;
      assert ChildrenOfAll(parents, name) == Named(p.children, name) + ChildrenOfAll(rest, name);
      assert Child(p, name).None? <==> |Named(p.children, name)| == 0;
      forall x | x in ChildrenOfAll(parents, name)
        ensures x.name == name && exists c :: c in parents && x in c.children
      {
        if x in Named(p.children, name) {
          assert p in parents && x in p.children;
        } else {
          var c :| c in rest && x in c.children;
          assert c in parents;
        }
      }
    }
  }

  /** The value appended to `dates`: the chosen element's text, or `None`. */
  function DateOf(e: XNode): Option<string> {
    match DateElement(e)
    case None => None
    case Some(x) => x.text
  }

  /** The `loc` child as the loop sees it: absent, or present with its text. */
  datatype Loc = NoLoc | Loc(text: Option<string>)

  datatype UrlEntry = UrlEntry(loc: Loc, date: Option<string>)

  /** What the loop reads from one `<url>` element; `loc` is looked up in the
      same namespace as `url`, the dates in their fixed namespaces. */
  function EntryOf(e: XNode, ns: Option<string>): UrlEntry {
    var loc := match Child(e, QName(ns, "loc")) case None => NoLoc case Some(l) => Loc(l.text);
    UrlEntry(loc, DateOf(e))
  }

  function EntriesOf(elems: seq<XNode>, ns: Option<string>): (r: seq<UrlEntry>)
    ensures |r| == |elems|
    ensures forall k :: 0 <= k < |elems| ==> r[k] == EntryOf(elems[k], ns)
  {
    seq(|elems|, k requires 0 <= k < |elems| => EntryOf(elems[k], ns))
  }

  function Entries(feed: Feed): seq<UrlEntry> {
    EntriesOf(UrlElements(feed), feed.defaultNs)
  }

  /** The `urls` list: the `loc` text of every entry that has a `loc`, in order. */
  function Urls(entries: seq<UrlEntry>): (r: seq<Option<string>>)
    ensures |r| <= |entries|
    ensures |r| == |entries| <==> forall k :: 0 <= k < |entries| ==> entries[k].loc.Loc?
    ensures |r| == |entries| ==> forall k :: 0 <= k < |entries| ==> r[k] == entries[k].loc.text
  {
    if |entries| == 0 then []
    else
      var rest := Urls(entries[1..]);
      assert forall k :: 1 <= k < |entries| ==> entries[k] == entries[1..][k - 1];
      if entries[0].loc.Loc? then [entries[0].loc.text] + rest else rest
  }

  predicate HasLoc(e: UrlEntry) {
    e.loc.Loc?
  }

  /** The `urls` list is, in order, the `loc` text of the entries that have
      a `loc`. */
  lemma {:induction false} UrlsAreFilteredLocs(entries: seq<UrlEntry>)
    ensures |Urls(entries)| == |Filter(entries, HasLoc)|
    ensures forall k :: 0 <= k < |Urls(entries)| ==>
              Filter(entries, HasLoc)[k].loc.Loc? && Urls(entries)[k] == Filter(entries, HasLoc)[k].loc.text
    decreases |entries|
  {
    if |entries| > 0 {
      UrlsAreFilteredLocs(entries[1..]);
      FilterCons(entries, HasLoc);
      FilterSpec(entries, HasLoc);
    }
  }

  /** `len(urls)` is the number of `<url>` elements with a `loc` child. */
  lemma UrlsCount(entries: seq<UrlEntry>)
    ensures |Urls(entries)| == |set k | 0 <= k < |entries| && entries[k].loc.Loc?|
  {
    UrlsAreFilteredLocs(entries);
    FilterCount(entries, HasLoc);
    assert Positions(entries, HasLoc) == set k | 0 <= k < |entries| && entries[k].loc.Loc?;
  }

  /** The `dates` list: one value per entry, with or without a `loc`. */
  function Dates(entries: seq<UrlEntry>): (r: seq<Option<string>>)
    ensures |r| == |entries|
    ensures forall k :: 0 <= k < |entries| ==> r[k] == entries[k].date
  {
    seq(|entries|, k requires 0 <= k < |entries| => entries[k].date)
  }

  // ---------------------------------------------------------------------------
  // Default namespace or none

  function QualifyOpt(x: Option<XNode>, u: string): Option<XNode> {
    match x
    case None => None
    case Some(n) => Some(Qualify(n, u))
  }

  lemma FirstQualify(xs: seq<XNode>, u: string)
    ensures First(QualifyAll(xs, u)) == QualifyOpt(First(xs), u)
  {
  }

  /** Qualifying the children with `u` moves every date lookup along with them,
      as long as `u` is neither of the namespaces the date lookups name. */
  lemma DateElementQualify(e: XNode, u: string)
    requires u != SitemapNs && u != NewsNs
    ensures DateElement(Qualify(e, u)) == QualifyOpt(DateElement(e), u)
  {
    var cs := e.children;
    assert Qualify(e, u).children == QualifyAll(cs, u);
    ForeignNameQualify(cs, u, SitemapNs, "lastmod");
    FirstQualify(Named(cs, SmLastmod), u);
    ForeignNameQualify(cs, u, NewsNs, "publication_date");
    FirstQualify(Named(cs, NewsDate), u);
    ForeignNameQualify(cs, u, NewsNs, "news");
    ChildrenOfAllQualify(Named(cs, NewsBlock), u, NewsNs, "publication_date");
    FirstQualify(ChildrenOfAll(Named(cs, NewsBlock), NewsDate), u);
  }

  lemma EntryOfQualify(e: XNode, u: string)
    requires u != SitemapNs && u != NewsNs
    requires Unqualified(e, u)
    ensures EntryOf(Qualify(e, u), Some(u)) == EntryOf(e, None)
  {
    var cs := e.children;
    assert Qualify(e, u).children == QualifyAll(cs, u);
    forall k | 0 <= k < |cs|
      ensures cs[k].name.ns != Some(u)
    {
      assert Unqualified(cs[k], u);
    }
    BareNameQualify(cs, u, "loc");
    FirstQualify(Named(cs, QName(None, "loc")), u);
    DateElementQualify(e, u);
  }

  lemma EntriesOfQualify(elems: seq<XNode>, u: string)
    requires u != SitemapNs && u != NewsNs
    requires AllUnqualified(elems, u)
    ensures EntriesOf(QualifyAll(elems, u), Some(u)) == EntriesOf(elems, None)
  {
    forall k | 0 <= k < |elems|
      ensures EntriesOf(QualifyAll(elems, u), Some(u))[k] == EntriesOf(elems, None)[k]
    {
      QualifyAllIndex(elems, u, k);
      EntryOfQualify(elems[k], u);
    }
  }

  /** Declaring a default namespace changes nothing the loop reads, when that
      namespace is neither the sitemap nor the news namespace and the document
      did not already use it: `url` and `loc` are looked up in it, the dates
      outside it. */
  lemma DefaultNamespaceInvariant(root: XNode, u: string)
    requires u != SitemapNs && u != NewsNs
    requires Unqualified(root, u)
    ensures Entries(Feed(Some(u), Qualify(root, u))) == Entries(Feed(None, root))
  {
    var cs := root.children;
    assert Qualify(root, u).children == QualifyAll(cs, u);
    FlattenUnqualified(cs, u);
    var flat := Flatten(cs);
    FindAllIsNamedFlatten(QualifyAll(cs, u), QName(Some(u), "url"));
    FindAllIsNamedFlatten(cs, QName(None, "url"));
    FlattenQualify(cs, u);
    forall k | 0 <= k < |flat|
      ensures flat[k].name.ns != Some(u)
    {
      assert Unqualified(flat[k], u);
    }
    BareNameQualify(flat, u, "url");
    var elems := FindAll(cs, QName(None, "url"));
    NamedSpec(flat, QName(None, "url"));
    assert AllUnqualified(elems, u) by {
      forall k | 0 <= k < |elems|
        ensures Unqualified(elems[k], u)
      {
        assert elems[k] in flat;
      }
    }
    EntriesOfQualify(elems, u);
  }

  /** A feed whose one `<url>` has a bare `loc` and a bare `lastmod`. */
  const BareLoc := XNode(QName(None, "loc"), Some("https://example.org/a"), [])
  const BareLastmod := XNode(QName(None, "lastmod"), Some("2024-05-01"), [])
  const BareUrl := XNode(QName(None, "url"), None, [BareLoc, BareLastmod])
  const BareUrlset := XNode(QName(None, "urlset"), None, [BareUrl])

  /** The exception to the above: the sitemap namespace itself. The
      `lastmod` lookup always names it, so a document without a default
      namespace loses its bare `lastmod` dates ... */
  lemma BareLastmodIsLost()
    ensures Entries(Feed(None, BareUrlset)) == [UrlEntry(Loc(Some("https://example.org/a")), None)]
  {
    var kids := BareUrl.children;
    assert kids[1..] == [BareLastmod] && [BareLastmod][1..] == [];
    assert FindAll(kids, QName(None, "url")) == [] by {
      assert FindAll([BareLastmod], QName(None, "url")) == [];
    }
    assert [BareUrl][1..] == [];
    assert FindAll([BareUrl], QName(None, "url")) == [BareUrl] + [] + [];
    assert UrlElements(Feed(None, BareUrlset)) == [BareUrl];
    assert Named(kids, QName(None, "loc")) == [BareLoc] by {
      assert Named(kids[1..], QName(None, "loc")) == [];
    }
    assert Named(kids, SmLastmod) == [] by {
      assert Named(kids[1..], SmLastmod) == [];
    }
    assert Named(kids, NewsDate) == [] by {
      assert Named(kids[1..], NewsDate) == [];
    }
    assert Named(kids, NewsBlock) == [] by {
      assert Named(kids[1..], NewsBlock) == [];
    }
    assert DateElement(BareUrl) == None;
  }

  /** ... while the same document declaring the sitemap namespace keeps them. */
  lemma DeclaredLastmodIsKept()
    ensures Entries(Feed(Some(SitemapNs), Qualify(BareUrlset, SitemapNs)))
            == [UrlEntry(Loc(Some("https://example.org/a")), Some("2024-05-01"))]
  {
    var u := SitemapNs;
    var qloc := XNode(QName(Some(u), "loc"), Some("https://example.org/a"), []);
    var qlastmod := XNode(SmLastmod, Some("2024-05-01"), []);
    var qurl := XNode(QName(Some(u), "url"), None, [qloc, qlastmod]);
    assert QualifyAll([], u) == [];
    assert Qualify(BareLoc, u) == qloc;
    assert Qualify(BareLastmod, u) == qlastmod;
    assert QualifyAll(BareUrl.children, u) == [qloc, qlastmod] by {
      assert BareUrl.children[1..] == [BareLastmod];
      assert QualifyAll([BareLastmod], u) == [qlastmod];
    }
    assert Qualify(BareUrl, u) == qurl;
    assert Qualify(BareUrlset, u).children == [qurl];
    var kids := qurl.children;
    assert kids[1..] == [qlastmod] && [qlastmod][1..] == [];
    assert FindAll(kids, QName(Some(u), "url")) == [] by {
      assert FindAll([qlastmod], QName(Some(u), "url")) == [];
    }
    assert [qurl][1..] == [];
    assert FindAll([qurl], QName(Some(u), "url")) == [qurl] + [] + [];
    assert UrlElements(Feed(Some(u), Qualify(BareUrlset, u))) == [qurl];
    assert Named(kids, QName(Some(u), "loc")) == [qloc] by {
      assert Named(kids[1..], QName(Some(u), "loc")) == [];
    }
    assert Named(kids, SmLastmod) == [qlastmod] by {
      assert Named(kids[1..], SmLastmod) == [qlastmod];
    }
    assert DateElement(qurl) == Some(qlastmod);
  }

  // ---------------------------------------------------------------------------
  // The table (lines 62-68, 110-118)

  /** A row of `news_websites.csv`, as far as this scraper reads it. */
  datatype Publisher = Publisher(name: string, url: string, sitemapUrl: string,
                                 borough: string, neighborhood: string, frequency: string)

  datatype FrameRow = FrameRow(publicationName: string, publicationUrl: string,
                               url: Option<string>, date: Option<string>,
                               borough: string, neighborhood: string, frequency: string)

  /** `pd.DataFrame({...})`: the five metadata columns have one value per
      `loc`, so the table exists only when `urls` and `dates` agree in length. */
  function BuildFrame(pub: Publisher, urls: seq<Option<string>>, dates: seq<Option<string>>)
    : (r: Result<seq<FrameRow>, FeedError>)
    ensures r.Success? <==> |urls| == |dates|
    ensures r.Failure? ==> r.error == ColumnLengths
    ensures r.Success? ==> |r.value| == |urls|
    ensures r.Success? ==> forall k :: 0 <= k < |urls| ==>
              r.value[k] == FrameRow(pub.name, pub.url, urls[k], dates[k], pub.borough, pub.neighborhood, pub.frequency)
  {
    if |urls| != |dates| then Failure(ColumnLengths)
    else Success(seq(|urls|, k requires 0 <= k < |urls| =>
                   FrameRow(pub.name, pub.url, urls[k], dates[k], pub.borough, pub.neighborhood, pub.frequency)))
  }

  /** The table is built exactly when every `<url>` has a `loc`, and then row
      `k` holds the `loc` text and the date of the `k`-th `<url>`. */
  lemma FrameIffEveryUrlHasLoc(pub: Publisher, entries: seq<UrlEntry>)
    ensures BuildFrame(pub, Urls(entries), Dates(entries)).Success?
            <==> forall k :: 0 <= k < |entries| ==> entries[k].loc.Loc?
    ensures BuildFrame(pub, Urls(entries), Dates(entries)).Success? ==>
              var rows := BuildFrame(pub, Urls(entries), Dates(entries)).value;
              |rows| == |entries|
              && forall k :: 0 <= k < |entries| ==>
                   rows[k].url == entries[k].loc.text && rows[k].date == entries[k].date
                   && rows[k].publicationName == pub.name
  {
  }

  // ---------------------------------------------------------------------------
  // Date fixups (lines 121-155)

  /** Every `T` made a space, then `[:-cut]`: the last `cut` characters
      dropped (all of them when there are fewer, and all of them too when
      `cut` is 0, since `-0` is `0`), and `+00:00` appended. */
  function FixDate(s: string, cut: nat): (r: string)
    ensures |r| == (if cut > 0 && |s| >= cut then |s| - cut else 0) + 6
    ensures EndsWith(r, "+00:00")
    ensures forall k :: 0 <= k < |r| - 6 ==> r[k] == (if s[k] == 'T' then ' ' else s[k])
    ensures forall k :: 0 <= k < |r| - 6 ==> r[k] != 'T'
  {
    var t := Replace(s, 'T', ' ');
    var keep := if cut > 0 && |t| >= cut then |t| - cut else 0;
    var r := t[..keep] + "+00:00";
    assert r[|r| - 6..] == "+00:00";
    r
  }

  /** `gothamist_date_fix` drops 13 characters, `bklyn_date_fix` 6. */
  const GothamistCut: nat := 13
  const BrooklynCut: nat := 6

  predicate NoT(s: string) {
    forall k :: 0 <= k < |s| ==> s[k] != 'T'
  }

  /** A `date T time tail` string whose tail is exactly the dropped length
      comes out as `date time+00:00`. */
  lemma FixDateShape(date: string, time: string, tail: string, cut: nat)
    requires NoT(date) && NoT(time)
    requires |tail| == cut > 0
    ensures FixDate(date + "T" + time + tail, cut) == date + " " + time + "+00:00"
  {
    var s := date + "T" + time + tail;
    var r := FixDate(s, cut);
    var want := date + " " + time + "+00:00";
    assert |r| == |want|;
    forall k | 0 <= k < |r|
      ensures r[k] == want[k]
    {
      if k < |date| {
        assert s[k] == date[k];
      } else if k == |date| {
        assert s[k] == 'T';
      } else if k < |date| + 1 + |time| {
        assert s[k] == time[k - |date| - 1];
      } else {
        assert r[|r| - 6..] == "+00:00";
        assert r[k] == r[|r| - 6..][k - (|r| - 6)];
      }
    }
  }

  /** An offset with six fractional digits is dropped cleanly by fixup A. */
  lemma GothamistSixDigits()
    ensures FixDate("2024-05-01" + "T" + "10:00:00" + ".123456-04:00", GothamistCut)
            == "2024-05-01" + " " + "10:00:00" + "+00:00"
  {
    FixDateShape("2024-05-01", "10:00:00", ".123456-04:00", GothamistCut);
  }

  /** With seven fractional digits fixup A leaves the decimal point behind. */
  lemma GothamistSevenDigitsKeepsPoint()
    ensures FixDate("2024-05-01" + "T" + "10:00:00." + "1234567-04:00", GothamistCut)
            == "2024-05-01" + " " + "10:00:00." + "+00:00"
  {
    FixDateShape("2024-05-01", "10:00:00.", "1234567-04:00", GothamistCut);
  }

  /** Fixup B turns a plain offset into `+00:00`. */
  lemma BrooklynOffset()
    ensures FixDate("2024-05-01" + "T" + "10:00:00" + "-04:00", BrooklynCut)
            == "2024-05-01" + " " + "10:00:00" + "+00:00"
  {
    FixDateShape("2024-05-01", "10:00:00", "-04:00", BrooklynCut);
  }

  /** A fixup over the `date` column, row by row over `tolist()`: it
      raises at a `None` date, and otherwise keeps the number of rows. */
  function FixColumn(rows: seq<FrameRow>, cut: nat): (r: Result<seq<FrameRow>, FeedError>)
    ensures r.Success? <==> forall k :: 0 <= k < |rows| ==> rows[k].date.Some?
    ensures r.Failure? ==> r.error == MissingDate
    ensures r.Success? ==> |r.value| == |rows|
  {
    if |rows| == 0 then Success([])
    else if rows[0].date.None? then Failure(MissingDate)
    else
      var tail := FixColumn(rows[1..], cut);
      assert forall k :: 1 <= k < |rows| ==> rows[k] == rows[1..][k - 1];
      if tail.Failure? then tail
      else
        var head := rows[0].(date := Some(FixDate(rows[0].date.value, cut)));
        Success([head] + tail.value)
  }

  /** Row `k` of a fixed column is row `k` of the input with its date fixed
      and every other field kept. */
  lemma {:induction false} FixColumnRow(rows: seq<FrameRow>, cut: nat, k: nat)
    requires FixColumn(rows, cut).Success? && k < |rows|
    ensures rows[k].date.Some?
    ensures FixColumn(rows, cut).value[k] == rows[k].(date := Some(FixDate(rows[k].date.value, cut)))
    decreases k
  {
    var tail := FixColumn(rows[1..], cut);
    assert rows[0].date.Some? && tail.Success?;
    var head := rows[0].(date := Some(FixDate(rows[0].date.value, cut)));
    assert FixColumn(rows, cut).value == [head] + tail.value;
    if k > 0 {
      assert rows[1..][k - 1] == rows[k];
      FixColumnRow(rows[1..], cut, k - 1);
    }
  }

  /** The fixup a publisher gets. */
  datatype Fixup = NoFixup | TruncateOffset(cut: nat)

  function FixupFor(name: string): Fixup {
    if name == "Gothamist" then TruncateOffset(GothamistCut)
    else if name == "Brooklyn  Buzz" || name == "The Spirit" then TruncateOffset(BrooklynCut)
    else NoFixup
  }

  function ApplyFixup(f: Fixup, rows: seq<FrameRow>): Result<seq<FrameRow>, FeedError> {
    match f
    case NoFixup => Success(rows)
    case TruncateOffset(cut) => FixColumn(rows, cut)
  }

  function AndThenFix(res: Result<seq<FrameRow>, FeedError>, cut: nat): Result<seq<FrameRow>, FeedError> {
    match res
    case Failure(e) => Failure(e)
    case Success(rows) => FixColumn(rows, cut)
  }

  /** Lines 150-155 as written: three independent tests on the name, each
      applying its fixup to whatever the previous ones left. */
  function DispatchAsWritten(name: string, rows: seq<FrameRow>): Result<seq<FrameRow>, FeedError> {
    var a := if name == "Gothamist" then FixColumn(rows, GothamistCut) else Success(rows);
    var b := if name == "Brooklyn  Buzz" then AndThenFix(a, BrooklynCut) else a;
    if name == "The Spirit" then AndThenFix(b, BrooklynCut) else b
  }

  /** The chain of tests applies at most one fixup: the one the table gives. */
  lemma DispatchIsTable(name: string, rows: seq<FrameRow>)
    ensures DispatchAsWritten(name, rows) == ApplyFixup(FixupFor(name), rows)
    ensures FixupFor(name) == NoFixup ==> DispatchAsWritten(name, rows) == Success(rows)
    ensures FixupFor(name) != NoFixup <==> name in {"Gothamist", "Brooklyn  Buzz", "The Spirit"}
  {
  }

  /** A fixup that goes through keeps the number and order of the rows and
      every row's URL, and leaves no date `None` unless it is no fixup at all. */
  lemma DispatchKeepsUrls(name: string, rows: seq<FrameRow>)
    requires DispatchAsWritten(name, rows).Success?
    ensures |DispatchAsWritten(name, rows).value| == |rows|
    ensures forall k :: 0 <= k < |rows| ==> DispatchAsWritten(name, rows).value[k].url == rows[k].url
    ensures FixupFor(name) != NoFixup ==>
              forall k :: 0 <= k < |rows| ==> DispatchAsWritten(name, rows).value[k].date.Some?
  {
    DispatchIsTable(name, rows);
    match FixupFor(name)
    case NoFixup =>
    case TruncateOffset(cut) =>
      forall k | 0 <= k < |rows|
        ensures FixColumn(rows, cut).value[k].url == rows[k].url
        ensures FixColumn(rows, cut).value[k].date.Some?
      {
        FixColumnRow(rows, cut, k);
      }
  }

  /** With every date present the dispatch goes through, and every date
      comes out present. */
  lemma FixupKeepsRows(name: string, rows: seq<FrameRow>)
    requires forall k :: 0 <= k < |rows| ==> rows[k].date.Some?
    ensures DispatchAsWritten(name, rows).Success?
    ensures |DispatchAsWritten(name, rows).value| == |rows|
    ensures forall k :: 0 <= k < |rows| ==>
              DispatchAsWritten(name, rows).value[k].url == rows[k].url
              && DispatchAsWritten(name, rows).value[k].date.Some?
  {
    DispatchIsTable(name, rows);
    DispatchKeepsUrls(name, rows);
  }

  // ---------------------------------------------------------------------------
  // One feed, and the run over all of them (lines 33-168)

  /** What one iteration of the feed loop ends in: `continue`, an exception
      that ends the run, or a table handed to `to_csv`. */
  datatype FeedOutcome = Skipped | Crashed(error: FeedError) | Saved(rows: seq<FrameRow>)

  /** One pass of the loop body. `fetch`, `etParse` (ElementTree) and
      `lxmlParse` stand for the network and the two parsers; a parser gives
      `None` on a syntax error. */
  function ScrapeFeed(pub: Publisher, fetch: string -> Fetched, etParse: string -> Option<XNode>,
                      lxmlParse: string -> Option<Feed>): (r: FeedOutcome)
    ensures fetch(pub.sitemapUrl).status != 200 ==> r == Skipped
    ensures r.Saved? ==> fetch(pub.sitemapUrl).status == 200
  {
    var first := fetch(pub.sitemapUrl);
    if first.status != 200 then Skipped
    else
      match ResolveFeed(pub.sitemapUrl, first.text, fetch, etParse)
      case Failure(e) => Crashed(e)
      case Success(content) =>
        match lxmlParse(content)
        case None => Skipped
        case Some(feed) =>
          var entries := Entries(feed);
          match BuildFrame(pub, Urls(entries), Dates(entries))
          case Failure(e) => Crashed(e)
          case Success(rows) =>
            match DispatchAsWritten(pub.name, rows)
            case Failure(e) => Crashed(e)
            case Success(fixed) => Saved(fixed)
  }

  /** Before the feed is parsed: an index feed without a `loc` crashes the
      run, and a document lxml cannot parse is skipped. */
  lemma ScrapeFeedEarlyExits(pub: Publisher, fetch: string -> Fetched, etParse: string -> Option<XNode>,
                             lxmlParse: string -> Option<Feed>)
    ensures fetch(pub.sitemapUrl).status == 200
            && ResolveFeed(pub.sitemapUrl, fetch(pub.sitemapUrl).text, fetch, etParse).Failure?
            ==> ScrapeFeed(pub, fetch, etParse, lxmlParse) == Crashed(NoIndexLoc)
    ensures fetch(pub.sitemapUrl).status == 200
            && ResolveFeed(pub.sitemapUrl, fetch(pub.sitemapUrl).text, fetch, etParse).Success?
            && lxmlParse(ResolveFeed(pub.sitemapUrl, fetch(pub.sitemapUrl).text, fetch, etParse).value).None?
            ==> ScrapeFeed(pub, fetch, etParse, lxmlParse) == Skipped
  {
  }

  /** Once the feed is fetched, resolved and parsed: it crashes on unequal
      columns exactly when some `<url>` lacks a `loc`; it crashes on a date
      exactly when every `<url>` has a `loc`, the publisher has a fixup and
      some date is `None`; and it is saved in every other case. */
  lemma ScrapeFeedOutcome(pub: Publisher, fetch: string -> Fetched, etParse: string -> Option<XNode>,
                          lxmlParse: string -> Option<Feed>, content: string, feed: Feed)
    requires fetch(pub.sitemapUrl).status == 200
    requires ResolveFeed(pub.sitemapUrl, fetch(pub.sitemapUrl).text, fetch, etParse) == Success(content)
    requires lxmlParse(content) == Some(feed)
    ensures var entries := Entries(feed);
            ScrapeFeed(pub, fetch, etParse, lxmlParse) == Crashed(ColumnLengths)
            <==> exists k :: 0 <= k < |entries| && entries[k].loc.NoLoc?
    ensures var entries := Entries(feed);
            ScrapeFeed(pub, fetch, etParse, lxmlParse) == Crashed(MissingDate)
            <==> (forall k :: 0 <= k < |entries| ==> entries[k].loc.Loc?)
                 && FixupFor(pub.name) != NoFixup
                 && exists k :: 0 <= k < |entries| && entries[k].date.None?
    ensures var entries := Entries(feed);
            ScrapeFeed(pub, fetch, etParse, lxmlParse).Saved?
            <==> (forall k :: 0 <= k < |entries| ==> entries[k].loc.Loc?)
                 && (FixupFor(pub.name) == NoFixup || forall k :: 0 <= k < |entries| ==> entries[k].date.Some?)
  {
    var entries := Entries(feed);
    FrameIffEveryUrlHasLoc(pub, entries);
    var frame := BuildFrame(pub, Urls(entries), Dates(entries));
    if frame.Success? {
      DispatchIsTable(pub.name, frame.value);
    }
  }

  /** A saved table has one row per `<url>` element of the feed, each with
      that element's `loc` text. */
  lemma SavedRowsMatchUrls(pub: Publisher, fetch: string -> Fetched, etParse: string -> Option<XNode>,
                           lxmlParse: string -> Option<Feed>, content: string, feed: Feed)
    requires fetch(pub.sitemapUrl).status == 200
    requires ResolveFeed(pub.sitemapUrl, fetch(pub.sitemapUrl).text, fetch, etParse) == Success(content)
    requires lxmlParse(content) == Some(feed)
    requires ScrapeFeed(pub, fetch, etParse, lxmlParse).Saved?
    ensures |ScrapeFeed(pub, fetch, etParse, lxmlParse).rows| == |UrlElements(feed)|
    ensures forall k :: 0 <= k < |UrlElements(feed)| ==>
              ScrapeFeed(pub, fetch, etParse, lxmlParse).rows[k].url == Entries(feed)[k].loc.text
  {
    var entries := Entries(feed);
    FrameIffEveryUrlHasLoc(pub, entries);
    var rows := BuildFrame(pub, Urls(entries), Dates(entries)).value;
    DispatchKeepsUrls(pub.name, rows);
  }

  /** The loop over all publishers: one outcome per feed, up to and including
      the first that crashes, which ends the script. */
  function Run(pubs: seq<Publisher>, fetch: string -> Fetched, etParse: string -> Option<XNode>,
               lxmlParse: string -> Option<Feed>): (r: seq<FeedOutcome>)
    ensures |r| <= |pubs|
    ensures forall k :: 0 <= k < |r| ==> r[k] == ScrapeFeed(pubs[k], fetch, etParse, lxmlParse)
    ensures forall k :: 0 <= k < |r| - 1 ==> !r[k].Crashed?
    ensures |r| < |pubs| ==> |r| > 0 && r[|r| - 1].Crashed?
  {
    if |pubs| == 0 then []
    else
      var o := ScrapeFeed(pubs[0], fetch, etParse, lxmlParse);
      if o.Crashed? then [o]
      else
        var rest := Run(pubs[1..], fetch, etParse, lxmlParse);
        assert forall k :: 1 <= k < |pubs| ==> pubs[k] == pubs[1..][k - 1];
        [o] + rest
  }
}
