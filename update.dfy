/** Rewriting bookmark urls: every url node whose url is exactly the old url gets the
    new url, at every depth; nothing else in the tree changes. */
module Rewriting {
  import opened BookmarkTree

  /** The tree after the rewrite. */
  function Retarget(nodes: seq<Node>, oldUrl: string, newUrl: string): (r: seq<Node>)
    ensures |r| == |nodes|
    decreases nodes
  {
    if nodes == [] then []
    else [RetargetNode(nodes[0], oldUrl, newUrl)] + Retarget(nodes[1..], oldUrl, newUrl)
  }

  function RetargetNode(n: Node, oldUrl: string, newUrl: string): Node
    decreases n
  {
    match n
    case Url(name, url) => if url == oldUrl then Url(name, newUrl) else n
    case Folder(name, Present(children)) => Folder(name, Present(Retarget(children, oldUrl, newUrl)))
    case _ => n
  }

  /** A level rewritten node by node is the rewritten level. */
  lemma {:induction false} RetargetPointwise(nodes: seq<Node>, r: seq<Node>, oldUrl: string, newUrl: string)
    requires |r| == |nodes|
    requires forall k :: 0 <= k < |nodes| ==> r[k] == RetargetNode(nodes[k], oldUrl, newUrl)
    ensures r == Retarget(nodes, oldUrl, newUrl)
    decreases nodes
  {
    if nodes != [] {
      RetargetPointwise(nodes[1..], r[1..], oldUrl, newUrl);
      assert r == [r[0]] + r[1..];
    }
  }

  /** Two trees with the same kinds of node in the same places, the same names, the
      same folders with and without children, and lists of the same lengths: they can
      differ only in the urls of url nodes. */
  predicate SameShape(a: seq<Node>, b: seq<Node>)
    decreases a
  {
    && |a| == |b|
    && (a != [] ==> SameNodeShape(a[0], b[0]) && SameShape(a[1..], b[1..]))
  }

  predicate SameNodeShape(x: Node, y: Node)
    decreases x
  {
    match x
    case Url(name, _) => y.Url? && y.name == name
    case Folder(name, Present(children)) =>
      y.Folder? && y.name == name && y.children.Present? && SameShape(children, y.children.list)
    case _ => y == x
  }

  /** The rewrite changes no name, no kind and no list length. */
  lemma {:induction false} RetargetKeepsShape(nodes: seq<Node>, oldUrl: string, newUrl: string)
    ensures SameShape(nodes, Retarget(nodes, oldUrl, newUrl))
    decreases nodes
  {
    if nodes != [] {
      RetargetKeepsShape(nodes[1..], oldUrl, newUrl);
      match nodes[0]
      case Folder(name, Present(children)) => RetargetKeepsShape(children, oldUrl, newUrl);
      case _ =>
    }
  }

  /** The catalog with each url node rewritten. */
  function RetargetEntries(entries: seq<Entry>, oldUrl: string, newUrl: string): (r: seq<Entry>)
    ensures |r| == |entries|
  {
    if entries == [] then []
    else [Entry(RetargetNode(entries[0].node, oldUrl, newUrl), entries[0].trail)]
         + RetargetEntries(entries[1..], oldUrl, newUrl)
  }

  lemma {:induction false} RetargetEntriesAppend(a: seq<Entry>, b: seq<Entry>, oldUrl: string, newUrl: string)
    ensures RetargetEntries(a + b, oldUrl, newUrl) == RetargetEntries(a, oldUrl, newUrl) + RetargetEntries(b, oldUrl, newUrl)
    decreases a
  {
    if a == [] {
      assert a + b == b;
    } else {
      assert (a + b)[1..] == a[1..] + b;
      RetargetEntriesAppend(a[1..], b, oldUrl, newUrl);
    }
  }

  lemma {:induction false} RetargetEntriesUnder(name: string, entries: seq<Entry>, oldUrl: string, newUrl: string)
    ensures RetargetEntries(Under(name, entries), oldUrl, newUrl) == Under(name, RetargetEntries(entries, oldUrl, newUrl))
    decreases entries
  {
    if entries != [] {
      assert Under(name, entries)[1..] == Under(name, entries[1..]);
      RetargetEntriesUnder(name, entries[1..], oldUrl, newUrl);
    }
  }

  /** Every url node, at whatever depth, keeps its place and its folders; the ones whose
      url was the old url now carry the new url and the others are unchanged. */
  lemma {:induction false} RetargetCatalog(nodes: seq<Node>, oldUrl: string, newUrl: string)
    ensures Catalog(Retarget(nodes, oldUrl, newUrl)) == RetargetEntries(Catalog(nodes), oldUrl, newUrl)
    decreases nodes
  {
    if nodes != [] {
      var n, rest := nodes[0], nodes[1..];
      var n' := RetargetNode(n, oldUrl, newUrl);
      assert nodes == [n] + rest;
      assert Retarget(nodes, oldUrl, newUrl) == [n'] + Retarget(rest, oldUrl, newUrl);
      CatalogCons(n, rest);
      CatalogCons(n', Retarget(rest, oldUrl, newUrl));
      RetargetCatalog(rest, oldUrl, newUrl);
      RetargetEntriesAppend(CatalogOf(n), Catalog(rest), oldUrl, newUrl);
      match n
      case Folder(name, Present(children)) =>
        RetargetCatalog(children, oldUrl, newUrl);
        RetargetEntriesUnder(name, Catalog(children), oldUrl, newUrl);
      case Url(_, _) =>
        assert CatalogOf(n') == RetargetEntries(CatalogOf(n), oldUrl, newUrl);
      case _ =>
    }
  }

  /** When the two urls differ, no url node carries the old url after the rewrite. */
  lemma OldUrlGone(nodes: seq<Node>, oldUrl: string, newUrl: string)
    requires oldUrl != newUrl
    ensures forall e :: e in Catalog(Retarget(nodes, oldUrl, newUrl)) ==> e.node.url != oldUrl
  {
    RetargetCatalog(nodes, oldUrl, newUrl);
    var before := Catalog(nodes);
    forall e | e in RetargetEntries(before, oldUrl, newUrl) ensures e.node.url != oldUrl {
      var k :| 0 <= k < |before| && RetargetEntries(before, oldUrl, newUrl)[k] == e;
      RetargetEntriesAt(before, oldUrl, newUrl, k);
    }
  }

  lemma {:induction false} RetargetEntriesAt(entries: seq<Entry>, oldUrl: string, newUrl: string, k: nat)
    requires k < |entries|
    ensures RetargetEntries(entries, oldUrl, newUrl)[k] == Entry(RetargetNode(entries[k].node, oldUrl, newUrl), entries[k].trail)
    decreases k
  {
    if k > 0 {
      RetargetEntriesAt(entries[1..], oldUrl, newUrl, k - 1);
    }
  }

  /** A tree in which no url node carries the old url is left as it is. */
  lemma {:induction false} RetargetWithoutMatchIsIdentity(nodes: seq<Node>, oldUrl: string, newUrl: string)
    requires forall e :: e in Catalog(nodes) ==> e.node.url != oldUrl
    ensures Retarget(nodes, oldUrl, newUrl) == nodes
    decreases nodes
  {
    if nodes != [] {
      var n := nodes[0];
      CatalogAppend([n], nodes[1..]);
      assert [n] + nodes[1..] == nodes;
      assert Catalog([n]) == CatalogOf(n);
      RetargetWithoutMatchIsIdentity(nodes[1..], oldUrl, newUrl);
      match n
      case Url(_, _) =>
        assert Entry(n, []) in Catalog(nodes);
      case Folder(name, Present(children)) =>
        forall e | e in Catalog(children) ensures e.node.url != oldUrl {
          var k :| 0 <= k < |Catalog(children)| && Catalog(children)[k] == e;
          assert Under(name, Catalog(children))[k] in Catalog(nodes);
        }
        RetargetWithoutMatchIsIdentity(children, oldUrl, newUrl);
      case _ =>
    }
  }

  /** Rewriting a url to itself changes nothing. */
  lemma {:induction false} RetargetToSameIsIdentity(nodes: seq<Node>, url: string)
    ensures Retarget(nodes, url, url) == nodes
    decreases nodes
  {
    if nodes != [] {
      assert nodes == [nodes[0]] + nodes[1..];
      RetargetToSameIsIdentity(nodes[1..], url);
      match nodes[0]
      case Folder(_, Present(children)) => RetargetToSameIsIdentity(children, url);
      case _ =>
    }
  }

  /** A second rewrite changes nothing. */
  lemma RetargetIdempotent(nodes: seq<Node>, oldUrl: string, newUrl: string)
    ensures Retarget(Retarget(nodes, oldUrl, newUrl), oldUrl, newUrl) == Retarget(nodes, oldUrl, newUrl)
  {
    if oldUrl == newUrl {
      RetargetToSameIsIdentity(nodes, oldUrl);
      RetargetToSameIsIdentity(Retarget(nodes, oldUrl, newUrl), oldUrl);
    } else {
      OldUrlGone(nodes, oldUrl, newUrl);
      RetargetWithoutMatchIsIdentity(Retarget(nodes, oldUrl, newUrl), oldUrl, newUrl);
    }
  }
}
