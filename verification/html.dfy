/** The tree BeautifulSoup builds from a page, and the three lookups the
    scrapers make on it: `find`, `.get_text()` and `.string`. */
module Html {
  import opened Wrappers
  import Text

  /** The class bs4 gives a piece of text. `.get_text()` collects only the
      class its element expects, `.string` returns any of them. */
  datatype StrKind =
    | Plain                        // NavigableString or CData
    | Comment                      // a comment, doctype, declaration or processing instruction
    | Contained(container: string) // text html.parser put inside a string container
                                   // (Script, Stylesheet, TemplateString, RubyTextString, ...)

  /** A node of the parse tree: an element with its attributes and children,
      or a piece of text of some kind. The whole document is an element too
      (bs4 names it `[document]`). */
  datatype Node =
    | Element(tag: string, attrs: map<string, string>, children: seq<Node>)
    | Str(kind: StrKind, text: string)

  /** The attribute part of a bs4 `find(name, ...)` call. */
  datatype Condition =
    | AnyAttrs                         // find(name)
    | AttrIs(key: string, value: string) // find(name, attrs={key: value}) or key=value
    | ClassIs(cls: string)             // find(name, class_=cls)
    | StringIs(text: string)           // find(name, text=text)

  datatype Query = Query(tag: string, filter: Condition)

  /** The tags whose text html.parser stores in a class of its own (bs4 4.10
      and later). */
  const StringContainers: set<string> := {"script", "style", "template", "rt", "rp"}

  /** The kind of string `n.get_text()` collects: a string container collects
      its own class, every other element (and a string) only plain text. */
  function Collected(n: Node): StrKind {
    if n.Element? && n.tag in StringContainers then Contained(n.tag) else Plain
  }

  /** The strings of kind `k` at or below `n`, concatenated in document order. */
  function TextIn(n: Node, k: StrKind): string {
    match n
    case Str(kind, t) => if kind == k then t else ""
    case Element(_, _, cs) => TextInAll(cs, k)
  }

  function TextInAll(ns: seq<Node>, k: StrKind): string {
    if |ns| == 0 then "" else TextIn(ns[0], k) + TextInAll(ns[1..], k)
  }

  /** `.get_text()`: the strings below the node of the kind it collects, so
      comments always, and script or style text outside its own tag, are left
      out. */
  function TextOf(n: Node): string {
    TextIn(n, Collected(n))
  }

  /** The string node reached from `n` through a chain of only children. */
  function Lone(n: Node): (r: Option<Node>)
    ensures r.Some? ==> r.value.Str?
  {
    match n
    case Str(_, _) => Some(n)
    case Element(_, _, cs) => if |cs| == 1 then Lone(cs[0]) else None
  }

  /** `.string`: the text of the lone string, whatever its kind; `None` when
      some element on the way has other than one child. */
  function StringOf(n: Node): Option<string> {
    match Lone(n)
    case Some(s) => Some(s.text)
    case None => None
  }

  /** Below a node whose `.string` is a string of kind `k'`, the text of
      kind `k` is that string when `k == k'` and empty otherwise. */
  lemma {:induction false} LoneText(n: Node, k: StrKind)
    requires Lone(n).Some?
    ensures TextIn(n, k) == if Lone(n).value.kind == k then Lone(n).value.text else ""
    decreases n
  {
    if n.Element? {
      var c := n.children[0];
      assert TextInAll(n.children, k) == TextIn(c, k) + TextInAll([], k);
      LoneText(c, k);
    }
  }

  /** `.string` and `.get_text()` agree when the lone string is of the kind
      the node collects; otherwise `.string` has the text and `.get_text()`
      is empty. */
  lemma StringVersusText(n: Node)
    requires StringOf(n).Some?
    ensures TextOf(n) == if Lone(n).value.kind == Collected(n) then StringOf(n).value else ""
  {
    LoneText(n, Collected(n));
  }

  /** A script inside a `<div>`: `.string` reads the script, `.get_text()`
      of the div has nothing. The same holds of a comment inside a `<p>`. */
  lemma HiddenStrings()
    ensures var div := Element("div", map[], [Element("script", map[], [Str(Contained("script"), "x")])]);
            StringOf(div) == Some("x") && TextOf(div) == ""
    ensures var p := Element("p", map[], [Str(Comment, "c")]);
            StringOf(p) == Some("c") && TextOf(p) == ""
  {
    var div := Element("div", map[], [Element("script", map[], [Str(Contained("script"), "x")])]);
    StringVersusText(div);
    var p := Element("p", map[], [Str(Comment, "c")]);
    StringVersusText(p);
  }

  /** The tokens of an element's `class` attribute (bs4 splits it on whitespace). */
  function Classes(n: Node): seq<string> {
    if n.Element? && "class" in n.attrs then Text.Split(n.attrs["class"]) else []
  }

  predicate Matches(n: Node, q: Query) {
    && n.Element?
    && n.tag == q.tag
    && match q.filter
       case AnyAttrs => true
       case AttrIs(k, v) => k in n.attrs && n.attrs[k] == v
       case ClassIs(c) => c in Classes(n)
       case StringIs(t) => StringOf(n) == Some(t)
  }

  /** A found element together with the siblings that follow it in its parent,
      which `.next_sibling` and `.find_next_sibling` walk. */
  datatype Hit = Hit(node: Node, following: seq<Node>)

  /** The first match in a forest, each node visited before its children and
      its children before its later siblings. */
  function FindIn(nodes: seq<Node>, q: Query): (r: Option<Hit>)
    ensures r.Some? ==> Matches(r.value.node, q)
  {
    if |nodes| == 0 then None
    else if Matches(nodes[0], q) then Some(Hit(nodes[0], nodes[1..]))
    else
      match nodes[0]
      case Str(_, _) => FindIn(nodes[1..], q)
      case Element(_, _, cs) =>
        match FindIn(cs, q)
        case Some(h) => Some(h)
        case None => FindIn(nodes[1..], q)
  }

  /** `n.find(...)`: the first matching descendant of `n`, never `n` itself. */
  function Find(n: Node, q: Query): (r: Option<Hit>)
    ensures r.Some? ==> Matches(r.value.node, q) && r.value.node.Element?
  {
    match n
    case Str(_, _) => None
    case Element(_, _, cs) => FindIn(cs, q)
  }

  // ---------------------------------------------------------------------------
  // Reference: the descendants in document order, searched linearly.

  /** The nodes of a forest in document order (bs4's `.descendants`). */
  function Flatten(nodes: seq<Node>): seq<Node> {
    if |nodes| == 0 then []
    else
      [nodes[0]] + Below(nodes[0]) + Flatten(nodes[1..])
  }

  function Descendants(n: Node): seq<Node> {
    match n
    case Str(_, _) => []
    case Element(_, _, cs) => Flatten(cs)
  }

  /** The first node of a list that matches, by a linear scan. */
  function FirstMatch(ns: seq<Node>, q: Query): Option<Node> {
    if |ns| == 0 then None
    else if Matches(ns[0], q) then Some(ns[0])
    else FirstMatch(ns[1..], q)
  }

  /** The scan gives `None` exactly when nothing matches, and otherwise a
      matching node with no match before it. */
  lemma {:induction false} FirstMatchSpec(ns: seq<Node>, q: Query)
    ensures FirstMatch(ns, q).None? <==> forall i :: 0 <= i < |ns| ==> !Matches(ns[i], q)
    ensures FirstMatch(ns, q).Some? ==>
              exists i :: 0 <= i < |ns| && ns[i] == FirstMatch(ns, q).value && Matches(ns[i], q)
                          && forall j :: 0 <= j < i ==> !Matches(ns[j], q)
    decreases |ns|
  {
    if |ns| > 0 && !Matches(ns[0], q) {
      FirstMatchSpec(ns[1..], q);
      assert forall i :: 1 <= i < |ns| ==> ns[i] == ns[1..][i - 1];
      if FirstMatch(ns[1..], q).Some? {
        var i :| 0 <= i < |ns[1..]| && ns[1..][i] == FirstMatch(ns[1..], q).value && Matches(ns[1..][i], q)
                 && forall j :: 0 <= j < i ==> !Matches(ns[1..][j], q);
        assert ns[i + 1] == FirstMatch(ns, q).value;
      }
    }
  }

  function NodeOf(h: Option<Hit>): Option<Node> {
    match h
    case Some(x) => Some(x.node)
    case None => None
  }

  lemma {:induction false} FirstMatchAppend(a: seq<Node>, b: seq<Node>, q: Query)
    ensures FirstMatch(a + b, q) == if FirstMatch(a, q).Some? then FirstMatch(a, q) else FirstMatch(b, q)
    decreases |a|
  {
    if |a| > 0 {
      assert (a + b)[1..] == a[1..] + b;
      FirstMatchAppend(a[1..], b, q);
    } else {
      assert a + b == b;
    }
  }

  /** The children's descendants of the first tree, `[]` for a string. */
  function Below(n: Node): seq<Node> {
    match n
    case Element(_, _, cs) => Flatten(cs)
    case Str(_, _) => []
  }

  /** Scanning a list with a known first element. */
  lemma FirstMatchCons(x: Node, rest: seq<Node>, q: Query)
    ensures FirstMatch([x] + rest, q) == if Matches(x, q) then Some(x) else FirstMatch(rest, q)
  {
    assert ([x] + rest)[1..] == rest;
  }

  /** The inductive step of `FindInIsFirstMatch`, for the first tree. */
  lemma FindInStep(nodes: seq<Node>, q: Query)
    requires |nodes| > 0
    requires NodeOf(FindIn(nodes[1..], q)) == FirstMatch(Flatten(nodes[1..]), q)
    requires nodes[0].Element? ==> NodeOf(FindIn(nodes[0].children, q)) == FirstMatch(Flatten(nodes[0].children), q)
    ensures NodeOf(FindIn(nodes, q)) == FirstMatch(Flatten(nodes), q)
  {
    var below := Below(nodes[0]);
    var rest := Flatten(nodes[1..]);
    assert Flatten(nodes) == [nodes[0]] + (below + rest);
    FirstMatchCons(nodes[0], below + rest, q);
    if !Matches(nodes[0], q) {
      FirstMatchAppend(below, rest, q);
      if nodes[0].Str? {
        assert below == [] && below + rest == rest;
        assert FindIn(nodes, q) == FindIn(nodes[1..], q);
      } else {
        assert FindIn(nodes, q) == if FindIn(nodes[0].children, q).Some? then FindIn(nodes[0].children, q)
                                   else FindIn(nodes[1..], q);
      }
    }
  }

  /** The tree search finds exactly the first matching node of the forest in
      document order. */
  lemma {:induction false} FindInIsFirstMatch(nodes: seq<Node>, q: Query)
    ensures NodeOf(FindIn(nodes, q)) == FirstMatch(Flatten(nodes), q)
    decreases nodes
  {
    if |nodes| > 0 {
      FindInIsFirstMatch(nodes[1..], q);
      match nodes[0]
      case Str(_, _) =>
      case Element(_, _, cs) =>
        FindInIsFirstMatch(cs, q);
      FindInStep(nodes, q);
    }
  }

  /** `n.find(q)` is the first descendant of `n` in document order that matches `q`. */
  lemma FindIsFirstDescendant(n: Node, q: Query)
    ensures NodeOf(Find(n, q)) == FirstMatch(Descendants(n), q)
  {
    if n.Element? {
      FindInIsFirstMatch(n.children, q);
    }
  }
}
