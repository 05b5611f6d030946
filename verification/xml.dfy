/** The element tree ElementTree and lxml build from a sitemap, with
    namespace-qualified names, and the three path lookups the sitemap scraper
    makes on it: `.//name` (any depth), `name` (a direct child) and `a/b`
    (a grandchild through an `a` child). */
module Xml {
  import opened Wrappers
  import opened Seqs

  /** An element name: `{ns}local`, or a bare `local` when `ns` is `None`. */
  datatype QName = QName(ns: Option<string>, local: string)

  /** An element: its name, its `.text` (the text before its first child,
      `None` when there is none) and its child elements. */
  datatype XNode = XNode(name: QName, text: Option<string>, children: seq<XNode>)

  /** The elements of a forest in document order (each element before its
      children, its children before its later siblings). */
  function Flatten(nodes: seq<XNode>): seq<XNode> {
    if |nodes| == 0 then [] else [nodes[0]] + Flatten(nodes[0].children) + Flatten(nodes[1..])
  }

  /** The elements of a list that carry `name`, in order. */
  function Named(nodes: seq<XNode>, name: QName): seq<XNode> {
    if |nodes| == 0 then []
    else (if nodes[0].name == name then [nodes[0]] else []) + Named(nodes[1..], name)
  }

  /** The selection holds exactly the elements of the list that carry the name. */
  lemma {:induction false} NamedSpec(nodes: seq<XNode>, name: QName)
    ensures forall x :: x in Named(nodes, name) <==> x in nodes && x.name == name
    decreases |nodes|
  {
    if |nodes| > 0 {
      NamedSpec(nodes[1..], name);
      assert nodes == [nodes[0]] + nodes[1..];
    }
  }

  lemma {:induction false} NamedAppend(a: seq<XNode>, b: seq<XNode>, name: QName)
    ensures Named(a + b, name) == Named(a, name) + Named(b, name)
    decreases |a|
  {
    if |a| == 0 {
      assert a + b == b;
    } else {
      assert (a + b)[1..] == a[1..] + b;
      NamedAppend(a[1..], b, name);
    }
  }

  function First(xs: seq<XNode>): Option<XNode> {
    if |xs| == 0 then None else Some(xs[0])
  }

  /** `findall('.//name')` below a forest, searched tree by tree. */
  function FindAll(nodes: seq<XNode>, name: QName): seq<XNode> {
    if |nodes| == 0 then []
    else
      (if nodes[0].name == name then [nodes[0]] else [])
      + FindAll(nodes[0].children, name) + FindAll(nodes[1..], name)
  }

  /** `find('.//name')` below a forest: the search stops at the first hit. */
  function FindFirst(nodes: seq<XNode>, name: QName): Option<XNode> {
    if |nodes| == 0 then None
    else if nodes[0].name == name then Some(nodes[0])
    else
      match FindFirst(nodes[0].children, name)
      case Some(x) => Some(x)
      case None => FindFirst(nodes[1..], name)
  }

  /** The document-order listing of a non-empty forest: its first tree's
      root, that root's descendants, then the later trees. */
  lemma FlattenCons(nodes: seq<XNode>)
    requires |nodes| > 0
    ensures Flatten(nodes) == [nodes[0]] + (Flatten(nodes[0].children) + Flatten(nodes[1..]))
  {
  }

  /** Selecting from a list with a known first element. */
  lemma NamedCons(n: XNode, rest: seq<XNode>, name: QName)
    ensures Named([n] + rest, name) == (if n.name == name then [n] else []) + Named(rest, name)
  {
    assert ([n] + rest)[1..] == rest;
  }

  /** The inductive step of `FindAllIsNamedFlatten`, for the first tree. */
  lemma FindAllStep(nodes: seq<XNode>, name: QName)
    requires |nodes| > 0
    requires FindAll(nodes[0].children, name) == Named(Flatten(nodes[0].children), name)
    requires FindAll(nodes[1..], name) == Named(Flatten(nodes[1..]), name)
    ensures FindAll(nodes, name) == Named(Flatten(nodes), name)
  {
    var below := Flatten(nodes[0].children);
    var rest := Flatten(nodes[1..]);
    var head: seq<XNode> := if nodes[0].name == name then [nodes[0]] else [];
    FlattenCons(nodes);
    NamedCons(nodes[0], below + rest, name);
    NamedAppend(below, rest, name);
    ConcatAssoc(head, Named(below, name), Named(rest, name));
  }

  /** The tree search returns exactly the elements of the document-order
      listing that carry the name. */
  lemma {:induction false} FindAllIsNamedFlatten(nodes: seq<XNode>, name: QName)
    ensures FindAll(nodes, name) == Named(Flatten(nodes), name)
    decreases nodes
  {
    if |nodes| > 0 {
      FindAllIsNamedFlatten(nodes[0].children, name);
      FindAllIsNamedFlatten(nodes[1..], name);
      FindAllStep(nodes, name);
    }
  }

  /** The first-hit search finds the first element the full search lists. */
  lemma {:induction false} FindFirstIsFirstOfAll(nodes: seq<XNode>, name: QName)
    ensures FindFirst(nodes, name) == First(FindAll(nodes, name))
    decreases nodes
  {
    if |nodes| > 0 && nodes[0].name != name {
      FindFirstIsFirstOfAll(nodes[0].children, name);
      FindFirstIsFirstOfAll(nodes[1..], name);
      assert FindAll(nodes, name) == FindAll(nodes[0].children, name) + FindAll(nodes[1..], name);
    }
  }

  /** `e.find('name')`: the first direct child with that name. */
  function Child(e: XNode, name: QName): Option<XNode> {
    First(Named(e.children, name))
  }

  /** The first of the named elements is the first element of the list with
      that name, and there is none exactly when no element has it. */
  lemma {:induction false} FirstNamedSpec(nodes: seq<XNode>, name: QName)
    ensures First(Named(nodes, name)).None? <==> forall i :: 0 <= i < |nodes| ==> nodes[i].name != name
    ensures First(Named(nodes, name)).Some? ==>
              exists i :: 0 <= i < |nodes| && nodes[i] == First(Named(nodes, name)).value && nodes[i].name == name
                          && forall j :: 0 <= j < i ==> nodes[j].name != name
    decreases |nodes|
  {
    if |nodes| > 0 && nodes[0].name != name {
      var rest := nodes[1..];
      FirstNamedSpec(rest, name);
      assert Named(nodes, name) == Named(rest, name);
      assert forall i :: 1 <= i < |nodes| ==> nodes[i] == rest[i - 1];
      if First(Named(rest, name)).Some? {
        var i :| 0 <= i < |rest| && rest[i] == First(Named(rest, name)).value && rest[i].name == name
                 && forall j :: 0 <= j < i ==> rest[j].name != name;
        assert nodes[i + 1] == rest[i];
      }
    }
  }

  /** `e.find('name')` is the first child with that name, and `None` exactly
      when no child has it. */
  lemma ChildSpec(e: XNode, name: QName)
    ensures Child(e, name).None? <==> forall i :: 0 <= i < |e.children| ==> e.children[i].name != name
    ensures Child(e, name).Some? ==>
              exists i :: 0 <= i < |e.children| && e.children[i] == Child(e, name).value && e.children[i].name == name
                          && forall j :: 0 <= j < i ==> e.children[j].name != name
  {
    FirstNamedSpec(e.children, name);
  }

  /** The children named `name` of every element of `parents`, parent by parent. */
  function ChildrenOfAll(parents: seq<XNode>, name: QName): seq<XNode> {
    if |parents| == 0 then [] else Named(parents[0].children, name) + ChildrenOfAll(parents[1..], name)
  }

  /** `e.find('a/b')`: the first `b` child of any `a` child, in document order. */
  function GrandChild(e: XNode, a: QName, b: QName): Option<XNode> {
    First(ChildrenOfAll(Named(e.children, a), b))
  }

  // ---------------------------------------------------------------------------
  // Default namespaces

  /** A name as it reads once the unprefixed names are put in namespace `u`. */
  function QualName(n: QName, u: string): (r: QName)
    ensures r.local == n.local
    ensures n.ns.Some? ==> r == n
    ensures r.ns == Some(u) <==> n.ns == None || n.ns == Some(u)
  {
    if n.ns.None? then QName(Some(u), n.local) else n
  }

  /** The tree a parser builds when the document declares `xmlns="u"`: every
      name that would be bare is in `u`. */
  function Qualify(n: XNode, u: string): XNode {
    XNode(QualName(n.name, u), n.text, QualifyAll(n.children, u))
  }

  function QualifyAll(nodes: seq<XNode>, u: string): (r: seq<XNode>)
    ensures |r| == |nodes|
  {
    if |nodes| == 0 then [] else [Qualify(nodes[0], u)] + QualifyAll(nodes[1..], u)
  }

  /** No element of the tree is already in namespace `u`. */
  predicate Unqualified(n: XNode, u: string) {
    && n.name.ns != Some(u)
    && forall i :: 0 <= i < |n.children| ==> Unqualified(n.children[i], u)
  }

  predicate AllUnqualified(nodes: seq<XNode>, u: string) {
    forall i :: 0 <= i < |nodes| ==> Unqualified(nodes[i], u)
  }

  lemma {:induction false} QualifyAllAppend(a: seq<XNode>, b: seq<XNode>, u: string)
    ensures QualifyAll(a + b, u) == QualifyAll(a, u) + QualifyAll(b, u)
    decreases |a|
  {
    if |a| == 0 {
      assert a + b == b;
    } else {
      assert (a + b)[1..] == a[1..] + b;
      QualifyAllAppend(a[1..], b, u);
    }
  }

  lemma {:induction false} QualifyAllIndex(nodes: seq<XNode>, u: string, k: nat)
    requires k < |nodes|
    ensures QualifyAll(nodes, u)[k] == Qualify(nodes[k], u)
    decreases k
  {
    if k > 0 {
      QualifyAllIndex(nodes[1..], u, k - 1);
    }
  }

  /** Qualifying a list with a known first element. */
  lemma QualifyAllCons(n: XNode, rest: seq<XNode>, u: string)
    ensures QualifyAll([n] + rest, u) == [Qualify(n, u)] + QualifyAll(rest, u)
  {
    assert ([n] + rest)[1..] == rest;
  }

  /** The inductive step of `FlattenQualify`, for the first tree. */
  lemma FlattenQualifyStep(nodes: seq<XNode>, u: string)
    requires |nodes| > 0
    requires Flatten(QualifyAll(nodes[0].children, u)) == QualifyAll(Flatten(nodes[0].children), u)
    requires Flatten(QualifyAll(nodes[1..], u)) == QualifyAll(Flatten(nodes[1..]), u)
    ensures Flatten(QualifyAll(nodes, u)) == QualifyAll(Flatten(nodes), u)
  {
    var q := QualifyAll(nodes, u);
    var below := Flatten(nodes[0].children);
    var rest := Flatten(nodes[1..]);
    assert q[0] == Qualify(nodes[0], u) && q[1..] == QualifyAll(nodes[1..], u);
    FlattenCons(q);
    FlattenCons(nodes);
    QualifyAllCons(nodes[0], below + rest, u);
    QualifyAllAppend(below, rest, u);
  }

  /** Qualifying commutes with listing the elements in document order. */
  lemma {:induction false} FlattenQualify(nodes: seq<XNode>, u: string)
    ensures Flatten(QualifyAll(nodes, u)) == QualifyAll(Flatten(nodes), u)
    decreases nodes
  {
    if |nodes| > 0 {
      FlattenQualify(nodes[0].children, u);
      FlattenQualify(nodes[1..], u);
      FlattenQualifyStep(nodes, u);
    }
  }

  /** Everything in the document-order listing of an unqualified forest is
      unqualified itself. */
  lemma {:induction false} FlattenUnqualified(nodes: seq<XNode>, u: string)
    requires AllUnqualified(nodes, u)
    ensures AllUnqualified(Flatten(nodes), u)
    decreases nodes
  {
    if |nodes| > 0 {
      FlattenUnqualified(nodes[0].children, u);
      FlattenUnqualified(nodes[1..], u);
      var f := Flatten(nodes);
      var below := Flatten(nodes[0].children);
      var rest := Flatten(nodes[1..]);
      assert f == [nodes[0]] + below + rest;
      forall i | 0 <= i < |f|
        ensures Unqualified(f[i], u)
      {
        if i == 0 {
        } else if i < 1 + |below| {
          assert f[i] == below[i - 1];
        } else {
          assert f[i] == rest[i - 1 - |below|];
        }
      }
    }
  }

  /** The inductive step of `NamedQualify`, for the first element. */
  lemma NamedQualifyStep(nodes: seq<XNode>, u: string, m: QName, m2: QName)
    requires |nodes| > 0
    requires QualName(nodes[0].name, u) == m2 <==> nodes[0].name == m
    requires Named(QualifyAll(nodes[1..], u), m2) == QualifyAll(Named(nodes[1..], m), u)
    ensures Named(QualifyAll(nodes, u), m2) == QualifyAll(Named(nodes, m), u)
  {
    var q := QualifyAll(nodes, u);
    assert q == [Qualify(nodes[0], u)] + QualifyAll(nodes[1..], u);
    NamedCons(Qualify(nodes[0], u), QualifyAll(nodes[1..], u), m2);
    var head: seq<XNode> := if nodes[0].name == m then [nodes[0]] else [];
    assert Named(nodes, m) == head + Named(nodes[1..], m);
    QualifyAllAppend(head, Named(nodes[1..], m), u);
    assert QualifyAll(head, u) == if nodes[0].name == m then [Qualify(nodes[0], u)] else [];
  }

  /** Selecting by name commutes with qualifying, as long as qualifying maps
      exactly the names `m` to the name `m2` looked for. */
  lemma {:induction false} NamedQualify(nodes: seq<XNode>, u: string, m: QName, m2: QName)
    requires forall k :: 0 <= k < |nodes| ==> (QualName(nodes[k].name, u) == m2 <==> nodes[k].name == m)
    ensures Named(QualifyAll(nodes, u), m2) == QualifyAll(Named(nodes, m), u)
    decreases |nodes|
  {
    if |nodes| > 0 {
      assert forall k :: 1 <= k < |nodes| ==> nodes[1..][k - 1] == nodes[k];
      NamedQualify(nodes[1..], u, m, m2);
      NamedQualifyStep(nodes, u, m, m2);
    }
  }

  /** The bare name `local` in an unqualified list picks the same elements as
      `{u}local` once the list is qualified. */
  lemma BareNameQualify(nodes: seq<XNode>, u: string, local: string)
    requires forall k :: 0 <= k < |nodes| ==> nodes[k].name.ns != Some(u)
    ensures Named(QualifyAll(nodes, u), QName(Some(u), local)) == QualifyAll(Named(nodes, QName(None, local)), u)
  {
    NamedQualify(nodes, u, QName(None, local), QName(Some(u), local));
  }

  /** A name in another namespace picks the same elements before and after. */
  lemma ForeignNameQualify(nodes: seq<XNode>, u: string, v: string, local: string)
    requires v != u
    ensures Named(QualifyAll(nodes, u), QName(Some(v), local)) == QualifyAll(Named(nodes, QName(Some(v), local)), u)
  {
    NamedQualify(nodes, u, QName(Some(v), local), QName(Some(v), local));
  }

  lemma {:induction false} ChildrenOfAllQualify(parents: seq<XNode>, u: string, v: string, local: string)
    requires v != u
    ensures ChildrenOfAll(QualifyAll(parents, u), QName(Some(v), local))
         == QualifyAll(ChildrenOfAll(parents, QName(Some(v), local)), u)
    decreases |parents|
  {
    if |parents| > 0 {
      var q := QualifyAll(parents, u);
      assert q[0] == Qualify(parents[0], u) && q[1..] == QualifyAll(parents[1..], u);
      ForeignNameQualify(parents[0].children, u, v, local);
      ChildrenOfAllQualify(parents[1..], u, v, local);
      QualifyAllAppend(Named(parents[0].children, QName(Some(v), local)),
                       ChildrenOfAll(parents[1..], QName(Some(v), local)), u);
    }
  }
}
