/** `get_author` of AuthorTextScraperv2.py: nine lookups over a parsed page,
    tried in a fixed order, the first one with an opinion deciding; plus the
    driver around it (the cutoff filter on the CSV dates and the author column
    built from the fetched pages). */
module Author {
  import opened Wrappers
  import opened Text
  import opened Html
  import opened UrlPattern
  import opened Seqs

  /** What `get_author` returns when no lookup matches. */
  const NoAuthor := "none"

  /** The exceptions that escape `get_author`. */
  datatype AuthorError =
    | MissingHeading      // an `author-description` div without `<h5>`: `None.find` raises
    | ScriptWithoutString // an ld+json script whose `.string` is None: `json.loads(None)` raises
    | LinkedDataShape     // decoded JSON that `data['author'].get('name')` cannot be applied to

  /** What `json.loads` and the `author`/`name` lookups make of a script's
      text; decoding JSON is not modelled, the caller supplies it. */
  datatype LinkedData =
    | NotJson                  // JSONDecodeError, swallowed by the cascade
    | NoAuthorName             // no `author` key, or its `name` is missing
    | AuthorName(name: string) // `data['author'].get('name')`
    | ShapeError               // any other exception raised by the lookups

  /** The outcome of one lookup: no opinion, an answer, or an exception. */
  datatype Step = Pass | Answer(author: string) | Raise(error: AuthorError)

  // ---------------------------------------------------------------------------
  // 1. <p><strong>By Name</strong></p>

  /** The first `<strong>` inside the first `<p>`, when its text starts with `By `. */
  function BylineText(doc: Node): Option<string> {
    match Find(doc, Query("p", AnyAttrs))
    case None => None
    case Some(p) =>
      match Find(p.node, Query("strong", AnyAttrs))
      case None => None
      case Some(b) => if StartsWith(TextOf(b.node), "By ") then Some(TextOf(b.node)) else None
  }

  function Byline(doc: Node): Step {
    match BylineText(doc)
    case None => Pass
    case Some(t) => Answer(Strip(t[3..]))
  }

  /** No byline means no opinion; a byline's answer is the text after `By `
      with the surrounding whitespace stripped. */
  lemma BylineSpec(doc: Node)
    ensures Byline(doc).Pass? <==> BylineText(doc).None?
    ensures var r := Byline(doc);
            r.Answer? ==> exists i :: TrimOf(BylineText(doc).value[3..], i, r.author)
    ensures var r := Byline(doc);
            r.Answer? && |r.author| > 0 ==> !IsSpace(r.author[0]) && !IsSpace(r.author[|r.author| - 1])
  {
  }

  // ---------------------------------------------------------------------------
  // 2. meta tags

  const MetaQueries: seq<Query> := [
    Query("meta", AttrIs("name", "sailthru.author")),
    Query("meta", AttrIs("name", "author")),
    Query("meta", AttrIs("name", "article:author")),
    Query("meta", AttrIs("property", "article:author"))
  ]

  /** The `content` of the first tag matching `q`, when that tag has one. */
  function MetaContent(doc: Node, q: Query): Option<string> {
    match Find(doc, q)
    case None => None
    case Some(h) => if "content" in h.node.attrs then Some(h.node.attrs["content"]) else None
  }

  /** The name one meta tag's content gives: the slug of an `https://` URL,
      the handle after `@`, or the content itself. `None` means the loop
      moves on to the next tag, which happens only for an `https://` URL
      the slug pattern does not match. */
  function FromContent(content: string): Option<string> {
    if StartsWith(content, "https://") then
      match UrlSlug(content)
      case Some(slug) => Some(Display(slug))
      case None => None
    else if StartsWith(content, "@") then Some(Display(content[1..]))
    else Some(content)
  }

  /** An `https://` content names nobody exactly when the slug pattern
      matches nowhere in it, and otherwise names the segment `re.search`
      captures (a non-empty, slash-free tail of the URL) with hyphens made
      spaces and title-cased; an `@` handle names itself the same way, without
      the `@`; any other content names itself. */
  lemma FromContentSpec(content: string)
    ensures FromContent(content).None? <==>
              StartsWith(content, "https://") && forall p, q, k :: !MatchAt(content, p, q, k)
    ensures StartsWith(content, "https://") && FromContent(content).Some? ==>
              exists p, q :: IsSearchResult(content, p, q) && 0 <= p < q <= |content|
                             && FromContent(content).value == Display(content[p + 1..q])
    ensures StartsWith(content, "https://") && FromContent(content).Some? ==> |FromContent(content).value| > 0
    ensures StartsWith(content, "@") ==> FromContent(content) == Some(Display(content[1..]))
    ensures !StartsWith(content, "https://") && !StartsWith(content, "@") ==> FromContent(content) == Some(content)
  {
    assert StartsWith(content, "https://") ==> content[0] == 'h';
    assert StartsWith(content, "@") ==> content[0] == '@';
    UrlSlugIsSearch(content);
    if StartsWith(content, "https://") && UrlSlug(content).Some? {
      var p, q :| IsSearchResult(content, p, q) && 0 <= p < q <= |content| && UrlSlug(content).value == content[p + 1..q];
      var k :| MatchAt(content, p, q, k);
      assert FromContent(content).value == Display(content[p + 1..q]);
    }
  }

  /** An `https://` content whose slug the pattern cannot find (it ends in
      `//`, say) names nobody, and the meta loop moves on. */
  lemma DoubleSlashFallsThrough(content: string)
    requires StartsWith(content, "https://")
    requires EndsWith(content, "//")
    ensures FromContent(content).None?
  {
    var n := |content|;
    assert content[n - 1] == '/' && content[n - 2] == '/';
  }

  function MetaDecision(doc: Node, q: Query): Option<string> {
    match MetaContent(doc, q)
    case None => None
    case Some(c) => FromContent(c)
  }

  /** The first value present, `None` when there is none. */
  function FirstSome<T>(xs: seq<Option<T>>): Option<T> {
    if |xs| == 0 then None
    else if xs[0].Some? then xs[0]
    else FirstSome(xs[1..])
  }

  /** Nothing is found exactly when nothing is present; what is found is
      present at an index with nothing present before it. */
  lemma {:induction false} FirstSomeSpec<T>(xs: seq<Option<T>>)
    ensures FirstSome(xs).None? <==> forall i :: 0 <= i < |xs| ==> xs[i].None?
    ensures FirstSome(xs).Some? ==>
              exists i :: 0 <= i < |xs| && xs[i] == FirstSome(xs) && forall j :: 0 <= j < i ==> xs[j].None?
    decreases |xs|
  {
    if |xs| > 0 && xs[0].None? {
      FirstSomeSpec(xs[1..]);
      FirstSomeStep(xs);
    }
  }

  /** One step of `FirstSomeSpec`: a leading `None` hands the properties on
      from the rest. */
  lemma FirstSomeStep<T>(xs: seq<Option<T>>)
    requires |xs| > 0 && xs[0].None?
    requires FirstSome(xs[1..]).None? <==> forall i :: 0 <= i < |xs[1..]| ==> xs[1..][i].None?
    requires FirstSome(xs[1..]).Some? ==>
               exists i :: 0 <= i < |xs[1..]| && xs[1..][i] == FirstSome(xs[1..])
                           && forall j :: 0 <= j < i ==> xs[1..][j].None?
    ensures FirstSome(xs).None? <==> forall i :: 0 <= i < |xs| ==> xs[i].None?
    ensures FirstSome(xs).Some? ==>
              exists i :: 0 <= i < |xs| && xs[i] == FirstSome(xs) && forall j :: 0 <= j < i ==> xs[j].None?
  {
    assert FirstSome(xs) == FirstSome(xs[1..]);
    assert forall i :: 1 <= i < |xs| ==> xs[i] == xs[1..][i - 1];
    if FirstSome(xs).Some? {
      var i :| 0 <= i < |xs[1..]| && xs[1..][i] == FirstSome(xs[1..])
               && forall j :: 0 <= j < i ==> xs[1..][j].None?;
      assert xs[i + 1] == xs[1..][i];
    }
  }

  /** The first value present is the one found, whatever follows it. */
  lemma FirstSomeAt<T>(xs: seq<Option<T>>, i: nat)
    requires i < |xs|
    requires forall j :: 0 <= j < i ==> xs[j].None?
    requires xs[i].Some?
    ensures FirstSome(xs) == xs[i]
  {
    FirstSomeSpec(xs);
    var k :| 0 <= k < |xs| && xs[k] == FirstSome(xs) && forall j :: 0 <= j < k ==> xs[j].None?;
    assert !(k < i) && !(i < k);
  }

  /** What each of the tags in `qs` decides, in order. */
  function MetaDecisions(doc: Node, qs: seq<Query>): seq<Option<string>> {
    seq(|qs|, i requires 0 <= i < |qs| => MetaDecision(doc, qs[i]))
  }

  /** The `for meta_tag in meta_tags` loop: the first tag whose content decides. */
  function MetaLoop(doc: Node, qs: seq<Query>): Option<string> {
    FirstSome(MetaDecisions(doc, qs))
  }

  function Meta(doc: Node): Step {
    match MetaLoop(doc, MetaQueries)
    case Some(a) => Answer(a)
    case None => Pass
  }

  /** The meta tags never raise, and have no opinion exactly when none of
      the four tags decides. */
  lemma MetaSpec(doc: Node)
    ensures !Meta(doc).Raise?
    ensures Meta(doc).Pass? <==> forall i :: 0 <= i < |MetaQueries| ==> MetaDecision(doc, MetaQueries[i]).None?
  {
    var xs := MetaDecisions(doc, MetaQueries);
    assert forall i :: 0 <= i < |xs| ==> xs[i] == MetaDecision(doc, MetaQueries[i]);
    FirstSomeSpec(xs);
  }

  // ---------------------------------------------------------------------------
  // 3.-8. element text, returned as found (not stripped, possibly empty)

  const ItempropAuthor := Query("a", AttrIs("itemprop", "author"))

  function Description(doc: Node): Step {
    match Find(doc, DescriptionDiv)
    case None => Pass
    case Some(d) =>
      match Find(d.node, Query("h5", AnyAttrs))
      case None => Raise(MissingHeading)
      case Some(h) =>
        match Find(h.node, ItempropAuthor)
        case Some(a) => Answer(TextOf(a.node))
        case None => Pass
  }

  const DescriptionDiv := Query("div", ClassIs("author-description"))

  /** The first `author-description` div raises `MissingHeading` exactly
      when it has no `<h5>`; the lookup answers exactly when that `<h5>` holds
      an `itemprop="author"` link, and then with the link's text as it is. */
  lemma DescriptionSpec(doc: Node)
    ensures Description(doc).Raise? <==>
              exists d :: Find(doc, DescriptionDiv) == Some(d) && Find(d.node, Query("h5", AnyAttrs)).None?
    ensures Description(doc).Raise? ==> Description(doc).error == MissingHeading
    ensures Description(doc).Answer? <==>
              exists d, h :: Find(doc, DescriptionDiv) == Some(d) && Find(d.node, Query("h5", AnyAttrs)) == Some(h)
                             && Find(h.node, ItempropAuthor).Some?
    ensures var r := Description(doc);
            r.Answer? ==>
              exists d, h :: Find(doc, DescriptionDiv) == Some(d) && Find(d.node, Query("h5", AnyAttrs)) == Some(h)
                             && Find(h.node, ItempropAuthor).Some? && r.author == TextOf(Find(h.node, ItempropAuthor).value.node)
  {
    match Find(doc, DescriptionDiv)
    case None =>
      assert Description(doc) == Pass;
    case Some(d) =>
      match Find(d.node, Query("h5", AnyAttrs))
      case None =>
        assert Description(doc) == Raise(MissingHeading);
      case Some(h) =>
        match Find(h.node, ItempropAuthor)
        case None =>
          assert Description(doc) == Pass;
        case Some(a) =>
          assert Description(doc) == Answer(TextOf(a.node));
  }

  function Itemprop(doc: Node): Step {
    match Find(doc, ItempropAuthor)
    case Some(a) => Answer(TextOf(a.node))
    case None => Pass
  }

  /** The `itemprop="author"` link answers exactly when there is one, with
      the text of the first such link; it never raises. */
  lemma ItempropSpec(doc: Node)
    ensures !Itemprop(doc).Raise?
    ensures Itemprop(doc).Answer? <==> Find(doc, ItempropAuthor).Some?
    ensures Itemprop(doc).Answer? ==> Itemprop(doc).author == TextOf(Find(doc, ItempropAuthor).value.node)
  {
  }

  const LinkedDataScript := Query("script", AttrIs("type", "application/ld+json"))

  function LinkedDataStep(doc: Node, ld: string -> LinkedData): Step {
    match Find(doc, LinkedDataScript)
    case None => Pass
    case Some(s) =>
      match StringOf(s.node)
      case None => Raise(ScriptWithoutString)
      case Some(t) =>
        match ld(t)
        case NotJson => Pass
        case NoAuthorName => Pass
        case AuthorName(n) => if n != "" then Answer(n) else Pass
        case ShapeError => Raise(LinkedDataShape)
  }

  /** Everything is decided by what `json.loads` and the lookups make of the
      `.string` of the first ld+json script: no string raises
      `ScriptWithoutString`, a shape error raises `LinkedDataShape`, a
      non-empty name answers with that name, and anything else (no script,
      invalid JSON, no name, an empty name) has no opinion. */
  lemma LinkedDataStepSpec(doc: Node, ld: string -> LinkedData)
    ensures LinkedDataStep(doc, ld) == Raise(ScriptWithoutString) <==>
              exists s :: Find(doc, LinkedDataScript) == Some(s) && StringOf(s.node).None?
    ensures LinkedDataStep(doc, ld) == Raise(LinkedDataShape) <==>
              exists s :: Find(doc, LinkedDataScript) == Some(s) && StringOf(s.node).Some?
                          && ld(StringOf(s.node).value) == ShapeError
    ensures LinkedDataStep(doc, ld).Answer? <==>
              exists s :: Find(doc, LinkedDataScript) == Some(s) && StringOf(s.node).Some?
                          && ld(StringOf(s.node).value).AuthorName? && ld(StringOf(s.node).value).name != ""
    ensures var r := LinkedDataStep(doc, ld);
            r.Answer? ==>
              exists s :: Find(doc, LinkedDataScript) == Some(s) && StringOf(s.node).Some?
                          && ld(StringOf(s.node).value) == AuthorName(r.author)
    ensures var r := LinkedDataStep(doc, ld);
            r.Raise? ==> r.error == ScriptWithoutString || r.error == LinkedDataShape
  {
  }

  /** `<span class="meta_text">` whose very next sibling node is an `<a>`. */
  function MetaText(doc: Node): Step {
    match Find(doc, Query("span", ClassIs("meta_text")))
    case None => Pass
    case Some(h) =>
      if |h.following| > 0 && h.following[0].Element? && h.following[0].tag == "a"
      then Answer(TextOf(h.following[0]))
      else Pass
  }

  /** The lookup answers exactly when the first `meta_text` span is
      followed at once by an `<a>`, and then with that `<a>`'s text; it never
      raises. */
  lemma MetaTextSpec(doc: Node)
    ensures !MetaText(doc).Raise?
    ensures MetaText(doc).Answer? <==>
              exists h :: Find(doc, Query("span", ClassIs("meta_text"))) == Some(h)
                          && |h.following| > 0 && h.following[0].Element? && h.following[0].tag == "a"
    ensures var r := MetaText(doc);
            r.Answer? ==>
              exists h :: Find(doc, Query("span", ClassIs("meta_text"))) == Some(h)
                          && |h.following| > 0 && h.following[0].Element?
                          && h.following[0].tag == "a" && r.author == TextOf(h.following[0])
  {
  }

  function AuthorBoxStep(doc: Node): Step {
    match Find(doc, AuthorBoxDiv)
    case None => Pass
    case Some(d) =>
      match Find(d.node, Query("h3", AnyAttrs))
      case Some(h) => Answer(TextOf(h.node))
      case None => Pass
  }

  const AuthorBoxDiv := Query("div", ClassIs("author-box"))

  /** The lookup answers exactly when the first `author-box` div holds an
      `<h3>`, and then with the text of its first `<h3>`; it never raises. */
  lemma AuthorBoxStepSpec(doc: Node)
    ensures !AuthorBoxStep(doc).Raise?
    ensures AuthorBoxStep(doc).Answer? <==>
              exists d :: Find(doc, AuthorBoxDiv) == Some(d) && Find(d.node, Query("h3", AnyAttrs)).Some?
    ensures var r := AuthorBoxStep(doc);
            r.Answer? ==>
              exists d :: Find(doc, AuthorBoxDiv) == Some(d) && Find(d.node, Query("h3", AnyAttrs)).Some?
                          && r.author == TextOf(Find(d.node, Query("h3", AnyAttrs)).value.node)
  {
  }

  /** `find_next_sibling(tag)`: the first later sibling element with that
      tag, strings and other elements skipped. */
  function NextSibling(following: seq<Node>, tag: string): (r: Option<Node>)
    ensures r.None? <==> forall i :: 0 <= i < |following| ==> !(following[i].Element? && following[i].tag == tag)
    ensures r.Some? ==>
              exists i :: 0 <= i < |following| && following[i] == r.value && r.value.Element? && r.value.tag == tag
                          && forall j :: 0 <= j < i ==> !(following[j].Element? && following[j].tag == tag)
  {
    FirstMatchSpec(following, Query(tag, AnyAttrs));
    FirstMatch(following, Query(tag, AnyAttrs))
  }

  /** A span whose `.string` is exactly `By `, then the next span sibling's
      `PostByline_author__5KK7G` link. */
  function BySpanStep(doc: Node): Step {
    match Find(doc, BySpan)
    case None => Pass
    case Some(h) =>
      match NextSibling(h.following, "span")
      case None => Pass
      case Some(sp) =>
        match Find(sp, BylineLink)
        case Some(a) => Answer(TextOf(a.node))
        case None => Pass
  }

  const BySpan := Query("span", StringIs("By "))
  const BylineLink := Query("a", ClassIs("PostByline_author__5KK7G"))

  /** The lookup answers exactly when the span after the first `By ` span
      holds a `PostByline_author__5KK7G` link, and then with the text of the
      first such link; it never raises. */
  lemma BySpanStepSpec(doc: Node)
    ensures !BySpanStep(doc).Raise?
    ensures BySpanStep(doc).Answer? <==>
              exists h, sp :: Find(doc, BySpan) == Some(h) && NextSibling(h.following, "span") == Some(sp)
                              && Find(sp, BylineLink).Some?
    ensures var r := BySpanStep(doc);
            r.Answer? ==>
              exists h, sp :: Find(doc, BySpan) == Some(h) && NextSibling(h.following, "span") == Some(sp)
                              && Find(sp, BylineLink).Some? && r.author == TextOf(Find(sp, BylineLink).value.node)
  {
  }

  // ---------------------------------------------------------------------------
  // 9. <body class="... author-jane-doe ...">

  /** The first element of `xs` that starts with `prefix`. */
  function FirstWithPrefix(xs: seq<string>, prefix: string): (r: Option<string>)
    ensures r.None? <==> forall i :: 0 <= i < |xs| ==> !StartsWith(xs[i], prefix)
    ensures r.Some? ==> exists i :: 0 <= i < |xs| && xs[i] == r.value && StartsWith(xs[i], prefix)
                                   && forall j :: 0 <= j < i ==> !StartsWith(xs[j], prefix)
  {
    if |xs| == 0 then None
    else if StartsWith(xs[0], prefix) then Some(xs[0])
    else
      var r := FirstWithPrefix(xs[1..], prefix);
      if r.Some? then
        var i :| 0 <= i < |xs[1..]| && xs[1..][i] == r.value && StartsWith(xs[1..][i], prefix)
                 && forall j :: 0 <= j < i ==> !StartsWith(xs[1..][j], prefix);
        assert xs[i + 1] == r.value;
        r
      else r
  }

  function BodyClassStep(doc: Node): Step {
    match Find(doc, Query("body", AnyAttrs))
    case None => Pass
    case Some(b) =>
      match FirstWithPrefix(Classes(b.node), "author-")
      case Some(c) => Answer(Display(c[7..]))
      case None => Pass
  }

  /** The lookup answers exactly when the first `<body>` has an `author-`
      class, and then with the first such class, prefix removed and the rest
      made readable; it never raises. */
  lemma BodyClassStepSpec(doc: Node)
    ensures !BodyClassStep(doc).Raise?
    ensures BodyClassStep(doc).Answer? <==>
              exists b :: Find(doc, Query("body", AnyAttrs)) == Some(b)
                          && exists i :: 0 <= i < |Classes(b.node)| && StartsWith(Classes(b.node)[i], "author-")
    ensures var r := BodyClassStep(doc);
            r.Answer? ==>
              exists b :: Find(doc, Query("body", AnyAttrs)) == Some(b)
                          && exists i :: 0 <= i < |Classes(b.node)| && StartsWith(Classes(b.node)[i], "author-")
                                         && (forall j :: 0 <= j < i ==> !StartsWith(Classes(b.node)[j], "author-"))
                                         && r.author == Display(Classes(b.node)[i][7..])
  {
  }

  // ---------------------------------------------------------------------------
  // The cascade

  /** Lookup `k` of the nine, in the order `get_author` tries them. The
      lookups are pure, so asking them in turn and keeping the first with an
      opinion gives what the early returns give. */
  function Outcome(doc: Node, ld: string -> LinkedData, k: nat): Step
    requires k < 9
  {
    match k
    case 0 => Byline(doc)
    case 1 => Meta(doc)
    case 2 => Description(doc)
    case 3 => Itemprop(doc)
    case 4 => LinkedDataStep(doc, ld)
    case 5 => MetaText(doc)
    case 6 => AuthorBoxStep(doc)
    case 7 => BySpanStep(doc)
    case _ => BodyClassStep(doc)
  }

  /** The nine outcomes in the order they are tried. */
  function Outcomes(doc: Node, ld: string -> LinkedData): seq<Step> {
    seq(9, k requires 0 <= k < 9 => Outcome(doc, ld, k))
  }

  /** The first outcome with an opinion; `Pass` when none has one. */
  function FirstDecisive(steps: seq<Step>): Step {
    if |steps| == 0 then Pass
    else if !steps[0].Pass? then steps[0]
    else FirstDecisive(steps[1..])
  }

  /** `Pass` comes out exactly when every outcome is `Pass`; anything else is
      an outcome with only `Pass` before it. */
  lemma {:induction false} FirstDecisiveSpec(steps: seq<Step>)
    ensures FirstDecisive(steps).Pass? <==> forall i :: 0 <= i < |steps| ==> steps[i].Pass?
    ensures !FirstDecisive(steps).Pass? ==>
              exists i :: 0 <= i < |steps| && steps[i] == FirstDecisive(steps)
                          && forall j :: 0 <= j < i ==> steps[j].Pass?
    decreases |steps|
  {
    if |steps| > 0 && steps[0].Pass? {
      FirstDecisiveSpec(steps[1..]);
      FirstDecisiveStep(steps);
    }
  }

  /** One step of `FirstDecisiveSpec`: a leading `Pass` hands the properties
      on from the remaining outcomes. */
  lemma FirstDecisiveStep(steps: seq<Step>)
    requires |steps| > 0 && steps[0].Pass?
    requires FirstDecisive(steps[1..]).Pass? <==> forall i :: 0 <= i < |steps[1..]| ==> steps[1..][i].Pass?
    requires !FirstDecisive(steps[1..]).Pass? ==>
               exists i :: 0 <= i < |steps[1..]| && steps[1..][i] == FirstDecisive(steps[1..])
                           && forall j :: 0 <= j < i ==> steps[1..][j].Pass?
    ensures FirstDecisive(steps).Pass? <==> forall i :: 0 <= i < |steps| ==> steps[i].Pass?
    ensures !FirstDecisive(steps).Pass? ==>
              exists i :: 0 <= i < |steps| && steps[i] == FirstDecisive(steps)
                          && forall j :: 0 <= j < i ==> steps[j].Pass?
  {
    assert FirstDecisive(steps) == FirstDecisive(steps[1..]);
    assert forall i :: 1 <= i < |steps| ==> steps[i] == steps[1..][i - 1];
    if !FirstDecisive(steps).Pass? {
      var i :| 0 <= i < |steps[1..]| && steps[1..][i] == FirstDecisive(steps[1..])
               && forall j :: 0 <= j < i ==> steps[1..][j].Pass?;
      assert steps[i + 1] == steps[1..][i];
    }
  }

  /** The first outcome with an opinion decides, whatever the later ones say. */
  lemma FirstDecisiveAt(steps: seq<Step>, i: nat)
    requires i < |steps|
    requires forall j :: 0 <= j < i ==> steps[j].Pass?
    requires !steps[i].Pass?
    ensures FirstDecisive(steps) == steps[i]
  {
    FirstDecisiveSpec(steps);
    var k :| 0 <= k < |steps| && steps[k] == FirstDecisive(steps)
             && forall j :: 0 <= j < k ==> steps[j].Pass?;
    assert !(k < i) && !(i < k);
  }

  /** What `get_author` makes of its lookups' outcomes: the first answer,
      `"none"` when no lookup has an opinion, or the exception raised first. */
  function Decide(steps: seq<Step>): Result<string, AuthorError> {
    match FirstDecisive(steps)
    case Pass => Success(NoAuthor)
    case Answer(a) => Success(a)
    case Raise(e) => Failure(e)
  }

  /** `"none"` when every lookup passes; otherwise an exception or an answer
      comes from a lookup with no opinion before it. */
  lemma DecideSpec(steps: seq<Step>)
    ensures (forall i :: 0 <= i < |steps| ==> steps[i].Pass?) ==> Decide(steps) == Success(NoAuthor)
    ensures Decide(steps).Failure? ==>
              exists i :: 0 <= i < |steps| && steps[i] == Raise(Decide(steps).error)
                          && forall j :: 0 <= j < i ==> steps[j].Pass?
    ensures Decide(steps).Success? && Decide(steps).value != NoAuthor ==>
              exists i :: 0 <= i < |steps| && steps[i] == Answer(Decide(steps).value)
                          && forall j :: 0 <= j < i ==> steps[j].Pass?
  {
    FirstDecisiveSpec(steps);
  }

  /** No outcome in `steps` has an opinion. */
  predicate AllPass(steps: seq<Step>) {
    forall j :: 0 <= j < |steps| ==> steps[j].Pass?
  }

  /** A passing outcome extends a passing prefix by one. */
  lemma AllPassExtend(steps: seq<Step>, i: nat)
    requires i < |steps| && AllPass(steps[..i]) && steps[i].Pass?
    ensures AllPass(steps[..i + 1])
  {
    assert forall j :: 0 <= j < i ==> steps[..i + 1][j] == steps[..i][j];
  }

  /** The first lookup with an opinion decides, whatever the later ones say. */
  lemma DecideAt(steps: seq<Step>, i: nat)
    requires i < |steps|
    requires AllPass(steps[..i])
    requires !steps[i].Pass?
    ensures steps[i].Answer? ==> Decide(steps) == Success(steps[i].author)
    ensures steps[i].Raise? ==> Decide(steps) == Failure(steps[i].error)
  {
    assert forall j :: 0 <= j < i ==> steps[..i][j] == steps[j];
    FirstDecisiveAt(steps, i);
  }

  /** `get_author(soup)`: the nine lookups in order, the first with an
      opinion deciding. */
  function GetAuthor(doc: Node, ld: string -> LinkedData): Result<string, AuthorError> {
    Decide(Outcomes(doc, ld))
  }

  /** A `By ` byline in the first paragraph's `<strong>` wins over every other
      lookup; the answer is the rest of that text, stripped. */
  lemma BylineWins(doc: Node, ld: string -> LinkedData, p: Hit, b: Hit)
    requires Find(doc, Query("p", AnyAttrs)) == Some(p)
    requires Find(p.node, Query("strong", AnyAttrs)) == Some(b)
    requires StartsWith(TextOf(b.node), "By ")
    ensures GetAuthor(doc, ld) == Success(Strip(TextOf(b.node)[3..]))
    ensures exists i :: TrimOf(TextOf(b.node)[3..], i, GetAuthor(doc, ld).value)
  {
    var o := Outcomes(doc, ld);
    assert o[0] == Byline(doc) && o[..0] == [];
    DecideAt(o, 0);
    BylineSpec(doc);
  }

  /** When there is no byline, the meta tags decide as soon as one of them
      has content that names someone. */
  lemma MetaDecides(doc: Node, ld: string -> LinkedData, i: nat)
    requires Byline(doc).Pass?
    requires i < |MetaQueries|
    requires forall j :: 0 <= j < i ==> MetaDecision(doc, MetaQueries[j]).None?
    requires MetaDecision(doc, MetaQueries[i]).Some?
    ensures GetAuthor(doc, ld) == Success(MetaDecision(doc, MetaQueries[i]).value)
  {
    FirstSomeAt(MetaDecisions(doc, MetaQueries), i);
    assert Meta(doc) == Answer(MetaDecision(doc, MetaQueries[i]).value);
    var o := Outcomes(doc, ld);
    assert o[0] == Byline(doc) && o[1] == Meta(doc) && o[..0] == [];
    AllPassExtend(o, 0);
    DecideAt(o, 1);
  }

  /** An `author-description` div without an `<h5>` makes `get_author` raise,
      unless a byline or a meta tag decided first. */
  lemma DescriptionWithoutHeadingRaises(doc: Node, ld: string -> LinkedData, d: Hit)
    requires Byline(doc).Pass? && Meta(doc).Pass?
    requires Find(doc, Query("div", ClassIs("author-description"))) == Some(d)
    requires Find(d.node, Query("h5", AnyAttrs)).None?
    ensures GetAuthor(doc, ld) == Failure(MissingHeading)
  {
    assert Description(doc) == Raise(MissingHeading);
    var o := Outcomes(doc, ld);
    assert o[0] == Byline(doc) && o[1] == Meta(doc) && o[2] == Description(doc) && o[..0] == [];
    AllPassExtend(o, 0);
    AllPassExtend(o, 1);
    DecideAt(o, 2);
  }

  /** An `itemprop="author"` link reached by the cascade gives its text exactly
      as it is, even when that text is empty or only whitespace. */
  lemma ItempropTextVerbatim(doc: Node, ld: string -> LinkedData, a: Hit)
    requires Byline(doc).Pass? && Meta(doc).Pass? && Description(doc).Pass?
    requires Find(doc, ItempropAuthor) == Some(a)
    ensures GetAuthor(doc, ld) == Success(TextOf(a.node))
  {
    var o := Outcomes(doc, ld);
    assert o[0] == Byline(doc) && o[1] == Meta(doc) && o[2] == Description(doc) && o[3] == Itemprop(doc);
    assert o[..0] == [];
    AllPassExtend(o, 0);
    AllPassExtend(o, 1);
    AllPassExtend(o, 2);
    DecideAt(o, 3);
  }

  /** The first `author-` class of the `<body>` gives the body-class lookup's
      answer. */
  lemma BodyClassAnswer(doc: Node, b: Hit, c: string)
    requires Find(doc, Query("body", AnyAttrs)) == Some(b)
    requires FirstWithPrefix(Classes(b.node), "author-") == Some(c)
    ensures |c| >= 7 && BodyClassStep(doc) == Answer(Display(c[7..]))
  {
  }

  /** When only the body class is left, the first `author-` class names the
      author: prefix removed, hyphens made spaces, title-cased. */
  lemma BodyClassDecides(doc: Node, ld: string -> LinkedData, b: Hit, c: string)
    requires AllPass(Outcomes(doc, ld)[..8])
    requires Find(doc, Query("body", AnyAttrs)) == Some(b)
    requires FirstWithPrefix(Classes(b.node), "author-") == Some(c)
    ensures GetAuthor(doc, ld) == Success(Display(c[7..]))
  {
    BodyClassAnswer(doc, b, c);
    var o := Outcomes(doc, ld);
    assert o[8] == BodyClassStep(doc);
    DecideAt(o, 8);
  }

  /** A page with nothing in it gives `"none"`. */
  lemma EmptyPageHasNoAuthor(ld: string -> LinkedData)
    ensures GetAuthor(Element("[document]", map[], []), ld) == Success(NoAuthor)
  {
    var doc := Element("[document]", map[], []);
    forall q: Query ensures Find(doc, q) == None { }
    assert forall i :: 0 <= i < |MetaQueries| ==> MetaDecision(doc, MetaQueries[i]).None?;
    MetaSpec(doc);
    assert Byline(doc).Pass? && Meta(doc).Pass? && Description(doc).Pass? && Itemprop(doc).Pass?;
    assert LinkedDataStep(doc, ld).Pass? && MetaText(doc).Pass? && AuthorBoxStep(doc).Pass?;
    assert BySpanStep(doc).Pass? && BodyClassStep(doc).Pass?;
    var o := Outcomes(doc, ld);
    assert o[0] == Byline(doc) && o[1] == Meta(doc) && o[2] == Description(doc);
    assert o[3] == Itemprop(doc) && o[4] == LinkedDataStep(doc, ld) && o[5] == MetaText(doc);
    assert o[6] == AuthorBoxStep(doc) && o[7] == BySpanStep(doc) && o[8] == BodyClassStep(doc);
    DecideSpec(o);
  }

  // ---------------------------------------------------------------------------
  // The driver (lines 106-146)

  /** A fetched page: the HTTP status and the parsed body. */
  datatype Response = Response(status: int, page: Node)

  /** A page that did not come back with status 200 gets `"none"` without
      being looked at; otherwise `get_author` runs on it. */
  function AuthorOf(resp: Response, ld: string -> LinkedData): (r: Result<string, AuthorError>)
    ensures resp.status != 200 ==> r == Success(NoAuthor)
    ensures resp.status == 200 ==> r == GetAuthor(resp.page, ld)
  {
    if resp.status == 200 then GetAuthor(resp.page, ld) else Success(NoAuthor)
  }

  /** The `authors` list: one entry per article URL, in order; the first
      exception out of `get_author` ends the run. */
  function AuthorColumn(urls: seq<string>, fetch: string -> Response, ld: string -> LinkedData)
    : Result<seq<string>, AuthorError>
  {
    if |urls| == 0 then Success([])
    else
      match AuthorOf(fetch(urls[0]), ld)
      case Failure(e) => Failure(e)
      case Success(a) =>
        match AuthorColumn(urls[1..], fetch, ld)
        case Success(tail) => Success([a] + tail)
        case Failure(e) => Failure(e)
  }

  /** The column is built exactly when no page makes `get_author` raise. */
  lemma {:induction false} AuthorColumnSucceeds(urls: seq<string>, fetch: string -> Response, ld: string -> LinkedData)
    ensures AuthorColumn(urls, fetch, ld).Success? <==>
              forall i :: 0 <= i < |urls| ==> AuthorOf(fetch(urls[i]), ld).Success?
    decreases |urls|
  {
    if |urls| > 0 {
      AuthorColumnSucceeds(urls[1..], fetch, ld);
      assert forall i :: 1 <= i < |urls| ==> urls[i] == urls[1..][i - 1];
    }
  }

  /** A built column has one entry per URL, and entry `k` is the author of
      the page fetched for URL `k`. */
  lemma {:induction false} AuthorColumnAt(urls: seq<string>, fetch: string -> Response, ld: string -> LinkedData, k: nat)
    requires AuthorColumn(urls, fetch, ld).Success?
    requires k < |urls|
    ensures |AuthorColumn(urls, fetch, ld).value| == |urls|
    ensures AuthorOf(fetch(urls[k]), ld) == Success(AuthorColumn(urls, fetch, ld).value[k])
    decreases |urls|
  {
    assert AuthorColumn(urls[1..], fetch, ld).Success?;
    if |urls| > 1 {
      AuthorColumnAt(urls[1..], fetch, ld, if k > 0 then k - 1 else 0);
    }
    if k > 0 {
      assert urls[1..][k - 1] == urls[k];
    }
  }

  /** A run that ends in an exception ends in that of the first page whose
      lookup raised, every page before it having been looked up. */
  lemma {:induction false} AuthorColumnFails(urls: seq<string>, fetch: string -> Response, ld: string -> LinkedData)
    requires AuthorColumn(urls, fetch, ld).Failure?
    ensures exists i :: 0 <= i < |urls| && AuthorOf(fetch(urls[i]), ld) == Failure(AuthorColumn(urls, fetch, ld).error)
                        && forall j :: 0 <= j < i ==> AuthorOf(fetch(urls[j]), ld).Success?
    decreases |urls|
  {
    if AuthorOf(fetch(urls[0]), ld).Success? {
      assert AuthorColumn(urls, fetch, ld).error == AuthorColumn(urls[1..], fetch, ld).error;
      AuthorColumnFails(urls[1..], fetch, ld);
      var i :| 0 <= i < |urls[1..]| && AuthorOf(fetch(urls[1..][i]), ld) == Failure(AuthorColumn(urls[1..], fetch, ld).error)
               && forall j :: 0 <= j < i ==> AuthorOf(fetch(urls[1..][j]), ld).Success?;
      assert urls[i + 1] == urls[1..][i];
      assert forall j :: 1 <= j < i + 1 ==> urls[j] == urls[1..][j - 1];
    }
  }

  /** A CSV row after `pd.to_datetime(..., errors='coerce')`: `None` is NaT. */
  datatype Row = Row(url: string, date: Option<int>)

  predicate Recent(row: Row, cutoff: int) {
    row.date.Some? && row.date.value >= cutoff
  }

  /** `df[df['date'] >= last_month]`: the rows dated at or after the cutoff, in
      order and each as often as it occurs; NaT never compares true, so undated
      rows are dropped. */
  function SinceCutoff(rows: seq<Row>, cutoff: int): (r: seq<Row>)
    ensures IsSubseq(r, rows)
    ensures forall k :: 0 <= k < |r| ==> Recent(r[k], cutoff)
    ensures forall x :: multiset(r)[x] == if Recent(x, cutoff) then multiset(rows)[x] else 0
  {
    FilterSpec(rows, row => Recent(row, cutoff));
    Filter(rows, row => Recent(row, cutoff))
  }

  /** As many rows are kept as there are recent rows. */
  lemma SinceCutoffCount(rows: seq<Row>, cutoff: int)
    ensures |SinceCutoff(rows, cutoff)| == |set k | 0 <= k < |rows| && Recent(rows[k], cutoff)|
  {
    var keep := row => Recent(row, cutoff);
    FilterCount(rows, keep);
    assert Positions(rows, keep) == set k | 0 <= k < |rows| && Recent(rows[k], cutoff) by {
      forall k ensures k in Positions(rows, keep) <==> 0 <= k < |rows| && Recent(rows[k], cutoff) { }
    }
  }

  /** Filtering twice with the same cutoff is filtering once. */
  lemma SinceCutoffIdempotent(rows: seq<Row>, cutoff: int)
    ensures SinceCutoff(SinceCutoff(rows, cutoff), cutoff) == SinceCutoff(rows, cutoff)
  {
    FilterIdempotent(rows, row => Recent(row, cutoff));
  }
}
