/** What a search of the bookmark tree returns. A search visits each level in array
    order, depth first, and reports the matching url nodes; folders are never results.
    The path of a result is built from the level the search started at. */
module Searching {
  import opened BookmarkTree

  /** A search result: the matched node and its display path. */
  datatype Item = Item(node: Node, path: string)

  function FirstOf<T>(s: seq<T>): (r: Option<T>)
    ensures r.None? <==> s == []
    ensures r.Some? ==> r.value == s[0]
  {
    if s == [] then None else Some(s[0])
  }

  /** Every matching url node below a level whose path is `path`, in depth-first
      pre-order, each with its path. */
  function Hits(nodes: seq<Node>, path: string, targetName: Criterion, targetUrl: Criterion): (r: seq<Item>)
    ensures forall k :: 0 <= k < |r| ==> Matches(r[k].node, targetName, targetUrl)
    decreases nodes
  {
    if nodes == [] then []
    else HitsOf(nodes[0], path, targetName, targetUrl) + Hits(nodes[1..], path, targetName, targetUrl)
  }

  function HitsOf(n: Node, path: string, targetName: Criterion, targetUrl: Criterion): (r: seq<Item>)
    ensures forall k :: 0 <= k < |r| ==> Matches(r[k].node, targetName, targetUrl)
    decreases n
  {
    match n
    case Url(name, _) => if Matches(n, targetName, targetUrl) then [Item(n, PathFor(path, name))] else []
    case Folder(name, Present(children)) => Hits(children, PathFor(path, name), targetName, targetUrl)
    case _ => []
  }

  lemma {:induction false} HitsAppend(a: seq<Node>, b: seq<Node>, path: string, targetName: Criterion, targetUrl: Criterion)
    ensures Hits(a + b, path, targetName, targetUrl) == Hits(a, path, targetName, targetUrl) + Hits(b, path, targetName, targetUrl)
    decreases a
  {
    if a == [] {
      assert a + b == b;
    } else {
      assert (a + b)[1..] == a[1..] + b;
      HitsAppend(a[1..], b, path, targetName, targetUrl);
    }
  }

  /** The reference reading of a search: walk the catalog of url nodes, keep the
      matching ones, and render each one's folders and name into a path. */
  function Expected(entries: seq<Entry>, base: string, targetName: Criterion, targetUrl: Criterion): seq<Item> {
    if entries == [] then []
    else Report(entries[0], base, targetName, targetUrl) + Expected(entries[1..], base, targetName, targetUrl)
  }

  /** One catalog entry as a search result, when its node matches. */
  function Report(e: Entry, base: string, targetName: Criterion, targetUrl: Criterion): seq<Item> {
    if Matches(e.node, targetName, targetUrl) then [Item(e.node, Render(base, e.trail + [NameOf(e.node)]))] else []
  }

  lemma {:induction false} ExpectedAppend(a: seq<Entry>, b: seq<Entry>, base: string, targetName: Criterion, targetUrl: Criterion)
    ensures Expected(a + b, base, targetName, targetUrl) == Expected(a, base, targetName, targetUrl) + Expected(b, base, targetName, targetUrl)
    decreases a
  {
    if a == [] {
      assert a + b == b;
    } else {
      assert (a + b)[0] == a[0];
      assert (a + b)[1..] == a[1..] + b;
      ExpectedAppend(a[1..], b, base, targetName, targetUrl);
      assert Expected(a + b, base, targetName, targetUrl) ==
             Report(a[0], base, targetName, targetUrl) + Expected(a[1..] + b, base, targetName, targetUrl);
    }
  }

  lemma {:induction false} ExpectedUnder(name: string, entries: seq<Entry>, base: string, targetName: Criterion, targetUrl: Criterion)
    ensures Expected(Under(name, entries), base, targetName, targetUrl) == Expected(entries, PathFor(base, name), targetName, targetUrl)
    decreases entries
  {
    if entries != [] {
      var e := entries[0];
      assert ([name] + e.trail + [NameOf(e.node)])[1..] == e.trail + [NameOf(e.node)];
      assert Under(name, entries)[1..] == Under(name, entries[1..]);
      ExpectedUnder(name, entries[1..], base, targetName, targetUrl);
    }
  }

  /** The search reports exactly the matching url nodes of the catalog, in pre-order,
      each with the path made of its folders' names and its own name. */
  lemma {:induction false} HitsAreExpected(nodes: seq<Node>, base: string, targetName: Criterion, targetUrl: Criterion)
    ensures Hits(nodes, base, targetName, targetUrl) == Expected(Catalog(nodes), base, targetName, targetUrl)
    decreases nodes
  {
    if nodes != [] {
      var n := nodes[0];
      assert Hits(nodes, base, targetName, targetUrl) == HitsOf(n, base, targetName, targetUrl) + Hits(nodes[1..], base, targetName, targetUrl);
      assert Catalog(nodes) == CatalogOf(n) + Catalog(nodes[1..]);
      HitsAreExpected(nodes[1..], base, targetName, targetUrl);
      ExpectedAppend(CatalogOf(n), Catalog(nodes[1..]), base, targetName, targetUrl);
      match n
      case Url(name, _) =>
        assert Render(base, [] + [name]) == Render(PathFor(base, name), []);
        assert Expected(CatalogOf(n), base, targetName, targetUrl) == HitsOf(n, base, targetName, targetUrl);
      case Folder(name, Present(children)) =>
        HitsAreExpected(children, PathFor(base, name), targetName, targetUrl);
        ExpectedUnder(name, Catalog(children), base, targetName, targetUrl);
      case _ =>
    }
  }

  /** With neither a truthy name nor a truthy url, a search finds nothing. */
  lemma {:induction false} NoCriteriaFindNothing(nodes: seq<Node>, path: string, targetName: Criterion, targetUrl: Criterion)
    requires !Truthy(targetName) && !Truthy(targetUrl)
    ensures Hits(nodes, path, targetName, targetUrl) == []
    decreases nodes
  {
    if nodes != [] {
      NoCriteriaFindNothing(nodes[1..], path, targetName, targetUrl);
      match nodes[0]
      case Folder(name, Present(children)) => NoCriteriaFindNothing(children, PathFor(path, name), targetName, targetUrl);
      case _ =>
    }
  }

  /** The matching url nodes alone, in pre-order (a search that builds no paths). */
  function Matching(nodes: seq<Node>, targetName: Criterion, targetUrl: Criterion): (r: seq<Node>)
    ensures forall k :: 0 <= k < |r| ==> Matches(r[k], targetName, targetUrl)
    decreases nodes
  {
    if nodes == [] then []
    else MatchingOf(nodes[0], targetName, targetUrl) + Matching(nodes[1..], targetName, targetUrl)
  }

  function MatchingOf(n: Node, targetName: Criterion, targetUrl: Criterion): (r: seq<Node>)
    ensures forall k :: 0 <= k < |r| ==> Matches(r[k], targetName, targetUrl)
    decreases n
  {
    match n
    case Url(_, _) => if Matches(n, targetName, targetUrl) then [n] else []
    case Folder(_, Present(children)) => Matching(children, targetName, targetUrl)
    case _ => []
  }

  lemma {:induction false} MatchingAppend(a: seq<Node>, b: seq<Node>, targetName: Criterion, targetUrl: Criterion)
    ensures Matching(a + b, targetName, targetUrl) == Matching(a, targetName, targetUrl) + Matching(b, targetName, targetUrl)
    decreases a
  {
    if a == [] {
      assert a + b == b;
    } else {
      assert (a + b)[1..] == a[1..] + b;
      MatchingAppend(a[1..], b, targetName, targetUrl);
    }
  }

  /** A node-only search of a level grows by what it finds on the next node, and so
      does a list of results it is appended to. */
  lemma MatchingStep(results: seq<Node>, current: seq<Node>, i: nat, targetName: Criterion, targetUrl: Criterion)
    requires i < |current|
    ensures Matching(current[..i + 1], targetName, targetUrl) ==
              Matching(current[..i], targetName, targetUrl) + MatchingOf(current[i], targetName, targetUrl)
    ensures results + Matching(current[..i + 1], targetName, targetUrl) ==
              (results + Matching(current[..i], targetName, targetUrl)) + MatchingOf(current[i], targetName, targetUrl)
  {
    assert current[..i + 1] == current[..i] + [current[i]];
    MatchingAppend(current[..i], [current[i]], targetName, targetUrl);
    assert [current[i]][1..] == [];
  }

  /** When nothing before node i matches, the level's first match is node i's. */
  lemma FirstMatchAt(current: seq<Node>, i: nat, targetName: Criterion, targetUrl: Criterion)
    requires i < |current|
    requires Matching(current[..i], targetName, targetUrl) == []
    requires MatchingOf(current[i], targetName, targetUrl) != []
    ensures FirstOf(Matching(current, targetName, targetUrl)) == FirstOf(MatchingOf(current[i], targetName, targetUrl))
  {
    MatchingStep([], current, i, targetName, targetUrl);
    assert current == current[..i + 1] + current[i + 1..];
    MatchingAppend(current[..i + 1], current[i + 1..], targetName, targetUrl);
  }

  function NodesOf(items: seq<Item>): (r: seq<Node>)
    ensures |r| == |items|
    ensures forall k :: 0 <= k < |r| ==> r[k] == items[k].node
  {
    if items == [] then [] else [items[0].node] + NodesOf(items[1..])
  }

  lemma {:induction false} NodesOfAppend(a: seq<Item>, b: seq<Item>)
    ensures NodesOf(a + b) == NodesOf(a) + NodesOf(b)
    decreases a
  {
    if a == [] {
      assert a + b == b;
    } else {
      assert (a + b)[1..] == a[1..] + b;
      NodesOfAppend(a[1..], b);
    }
  }

  /** The nodes a path-building search reports are the nodes a node-only search
      reports, whatever path it starts from. */
  lemma {:induction false} HitsNodesAreMatching(nodes: seq<Node>, path: string, targetName: Criterion, targetUrl: Criterion)
    ensures NodesOf(Hits(nodes, path, targetName, targetUrl)) == Matching(nodes, targetName, targetUrl)
    decreases nodes
  {
    if nodes != [] {
      var n := nodes[0];
      var a, b := HitsOf(n, path, targetName, targetUrl), Hits(nodes[1..], path, targetName, targetUrl);
      assert Hits(nodes, path, targetName, targetUrl) == a + b;
      assert Matching(nodes, targetName, targetUrl) == MatchingOf(n, targetName, targetUrl) + Matching(nodes[1..], targetName, targetUrl);
      NodesOfAppend(a, b);
      HitsNodesAreMatching(nodes[1..], path, targetName, targetUrl);
      match n {
        case Folder(name, Present(children)) =>
          HitsNodesAreMatching(children, PathFor(path, name), targetName, targetUrl);
        case Url(name, _) =>
          if Matches(n, targetName, targetUrl) {
            assert NodesOf([Item(n, PathFor(path, name))]) == [n];
          }
        case _ =>
      }
    }
  }

  /** With neither a truthy name nor a truthy url, a node-only search finds nothing. */
  lemma NoCriteriaMatchNone(nodes: seq<Node>, targetName: Criterion, targetUrl: Criterion)
    requires !Truthy(targetName) && !Truthy(targetUrl)
    ensures Matching(nodes, targetName, targetUrl) == []
  {
    NoCriteriaFindNothing(nodes, "", targetName, targetUrl);
    HitsNodesAreMatching(nodes, "", targetName, targetUrl);
  }

  // ---------------------------------------------------------------------------
  // The "return first" rule of the manager's search, as written: on each level a
  // direct url match wins over anything found in the folders of that level; only
  // when a level has no direct match does the first folder with a match decide.

  /** The first matching url node directly on this level, ignoring folders. */
  function DirectFirst(nodes: seq<Node>, path: string, targetName: Criterion, targetUrl: Criterion): Option<Item> {
    if nodes == [] then None
    else if Matches(nodes[0], targetName, targetUrl) then Some(Item(nodes[0], PathFor(path, nodes[0].name)))
    else DirectFirst(nodes[1..], path, targetName, targetUrl)
  }

  /** The result the manager's search gives on a level with "return first". */
  function Pick(nodes: seq<Node>, path: string, targetName: Criterion, targetUrl: Criterion): Option<Item>
    decreases nodes, 1
  {
    var direct := DirectFirst(nodes, path, targetName, targetUrl);
    if direct.Some? then direct else SubPick(nodes, path, targetName, targetUrl)
  }

  /** The pick of the first folder on this level whose subtree holds a match. */
  function SubPick(nodes: seq<Node>, path: string, targetName: Criterion, targetUrl: Criterion): Option<Item>
    decreases nodes, 0
  {
    if nodes == [] then None
    else match nodes[0]
      case Folder(name, Present(children)) =>
        var inner := Pick(children, PathFor(path, name), targetName, targetUrl);
        if inner.Some? then inner else SubPick(nodes[1..], path, targetName, targetUrl)
      case _ => SubPick(nodes[1..], path, targetName, targetUrl)
  }

  lemma {:induction false} DirectFirstAppend(a: seq<Node>, b: seq<Node>, path: string, targetName: Criterion, targetUrl: Criterion)
    ensures DirectFirst(a + b, path, targetName, targetUrl) ==
            if DirectFirst(a, path, targetName, targetUrl).Some? then DirectFirst(a, path, targetName, targetUrl)
            else DirectFirst(b, path, targetName, targetUrl)
    decreases a
  {
    if a == [] {
      assert a + b == b;
    } else {
      assert (a + b)[1..] == a[1..] + b;
      DirectFirstAppend(a[1..], b, path, targetName, targetUrl);
    }
  }

  lemma {:induction false} SubPickAppend(a: seq<Node>, b: seq<Node>, path: string, targetName: Criterion, targetUrl: Criterion)
    ensures SubPick(a + b, path, targetName, targetUrl) ==
            if SubPick(a, path, targetName, targetUrl).Some? then SubPick(a, path, targetName, targetUrl)
            else SubPick(b, path, targetName, targetUrl)
    decreases a
  {
    if a == [] {
      assert a + b == b;
    } else {
      assert (a + b)[0] == a[0];
      assert (a + b)[1..] == a[1..] + b;
      SubPickAppend(a[1..], b, path, targetName, targetUrl);
    }
  }

  lemma {:induction false} DirectFirstNone(nodes: seq<Node>, path: string, targetName: Criterion, targetUrl: Criterion)
    ensures DirectFirst(nodes, path, targetName, targetUrl).None? <==>
            forall k :: 0 <= k < |nodes| ==> !Matches(nodes[k], targetName, targetUrl)
    decreases nodes
  {
    if nodes != [] {
      DirectFirstNone(nodes[1..], path, targetName, targetUrl);
      assert forall k :: 0 < k < |nodes| ==> nodes[k] == nodes[1..][k - 1];
    }
  }

  /** What a search finds on a single node, by kind of node. */
  lemma SearchOne(node: Node, path: string, targetName: Criterion, targetUrl: Criterion)
    ensures Hits([node], path, targetName, targetUrl) == HitsOf(node, path, targetName, targetUrl)
    ensures DirectFirst([node], path, targetName, targetUrl) ==
              if Matches(node, targetName, targetUrl) then Some(Item(node, PathFor(path, NameOf(node)))) else None
    ensures SubPick([node], path, targetName, targetUrl) ==
              if node.Folder? && node.children.Present?
              then Pick(node.children.list, PathFor(path, node.name), targetName, targetUrl)
              else None
  {
    assert [node][1..] == [];
  }

  /** How each reading of a search grows when the level grows by one node. */
  lemma SearchStep(prefix: seq<Node>, node: Node, path: string, targetName: Criterion, targetUrl: Criterion)
    ensures Hits(prefix + [node], path, targetName, targetUrl) ==
              Hits(prefix, path, targetName, targetUrl) + HitsOf(node, path, targetName, targetUrl)
    ensures DirectFirst(prefix + [node], path, targetName, targetUrl) ==
              if DirectFirst(prefix, path, targetName, targetUrl).Some? then DirectFirst(prefix, path, targetName, targetUrl)
              else if Matches(node, targetName, targetUrl) then Some(Item(node, PathFor(path, NameOf(node))))
              else None
    ensures SubPick(prefix + [node], path, targetName, targetUrl) ==
              if SubPick(prefix, path, targetName, targetUrl).Some? then SubPick(prefix, path, targetName, targetUrl)
              else if node.Folder? && node.children.Present?
              then Pick(node.children.list, PathFor(path, node.name), targetName, targetUrl)
              else None
  {
    SearchOne(node, path, targetName, targetUrl);
    HitsAppend(prefix, [node], path, targetName, targetUrl);
    DirectFirstAppend(prefix, [node], path, targetName, targetUrl);
    SubPickAppend(prefix, [node], path, targetName, targetUrl);
  }

  /** A direct match after a prefix without one is the level's pick. */
  lemma DirectMatchIsPicked(nodes: seq<Node>, i: nat, path: string, targetName: Criterion, targetUrl: Criterion)
    requires i < |nodes|
    requires DirectFirst(nodes[..i], path, targetName, targetUrl).None?
    requires Matches(nodes[i], targetName, targetUrl)
    ensures DirectFirst(nodes, path, targetName, targetUrl) == Some(Item(nodes[i], PathFor(path, NameOf(nodes[i]))))
    ensures Pick(nodes, path, targetName, targetUrl) == DirectFirst(nodes, path, targetName, targetUrl)
  {
    assert nodes[..i + 1] == nodes[..i] + [nodes[i]];
    assert nodes == nodes[..i + 1] + nodes[i + 1..];
    SearchStep(nodes[..i], nodes[i], path, targetName, targetUrl);
    DirectFirstAppend(nodes[..i + 1], nodes[i + 1..], path, targetName, targetUrl);
  }

  /** How the pick of a level follows from its first node and the pick of the rest. */
  lemma PickStep(nodes: seq<Node>, path: string, targetName: Criterion, targetUrl: Criterion)
    requires nodes != []
    ensures Matches(nodes[0], targetName, targetUrl) ==>
              Pick(nodes, path, targetName, targetUrl) == Some(Item(nodes[0], PathFor(path, nodes[0].name)))
    ensures !Matches(nodes[0], targetName, targetUrl) && !(nodes[0].Folder? && nodes[0].children.Present?) ==>
              Pick(nodes, path, targetName, targetUrl) == Pick(nodes[1..], path, targetName, targetUrl)
    ensures nodes[0].Folder? && nodes[0].children.Present? ==>
              var rest := Pick(nodes[1..], path, targetName, targetUrl);
              var inner := Pick(nodes[0].children.list, PathFor(path, nodes[0].name), targetName, targetUrl);
              Pick(nodes, path, targetName, targetUrl) ==
                if DirectFirst(nodes[1..], path, targetName, targetUrl).Some? then rest
                else if inner.Some? then inner
                else rest
  {
  }

  /** The pick exists exactly when the search has a hit. */
  lemma {:induction false} PickExistsIffHit(nodes: seq<Node>, path: string, targetName: Criterion, targetUrl: Criterion)
    ensures Pick(nodes, path, targetName, targetUrl).Some? <==> Hits(nodes, path, targetName, targetUrl) != []
    decreases nodes
  {
    if nodes != [] {
      PickStep(nodes, path, targetName, targetUrl);
      PickExistsIffHit(nodes[1..], path, targetName, targetUrl);
      match nodes[0]
      case Folder(name, Present(children)) =>
        PickExistsIffHit(children, PathFor(path, name), targetName, targetUrl);
        if DirectFirst(nodes[1..], path, targetName, targetUrl).Some? {
          assert Pick(nodes[1..], path, targetName, targetUrl).Some?;
        }
      case _ =>
    }
  }

  /** The pick is always one of the hits: a matching url node with its correct path. */
  lemma {:induction false} PickIsAHit(nodes: seq<Node>, path: string, targetName: Criterion, targetUrl: Criterion)
    requires Pick(nodes, path, targetName, targetUrl).Some?
    ensures Pick(nodes, path, targetName, targetUrl).value in Hits(nodes, path, targetName, targetUrl)
    decreases nodes
  {
    var pick := Pick(nodes, path, targetName, targetUrl).value;
    var rest := Pick(nodes[1..], path, targetName, targetUrl);
    PickStep(nodes, path, targetName, targetUrl);
    assert Hits(nodes, path, targetName, targetUrl) ==
           HitsOf(nodes[0], path, targetName, targetUrl) + Hits(nodes[1..], path, targetName, targetUrl);
    if Matches(nodes[0], targetName, targetUrl) {
      assert HitsOf(nodes[0], path, targetName, targetUrl)[0] == pick;
    } else if rest == Some(pick) {
      PickIsAHit(nodes[1..], path, targetName, targetUrl);
    } else {
      var name, children := nodes[0].name, nodes[0].children.list;
      PickIsAHit(children, PathFor(path, name), targetName, targetUrl);
    }
  }

  /** No level has a direct url match after a folder of that level whose subtree
      holds a match, and the same holds inside every folder. */
  predicate Shadowless(nodes: seq<Node>, targetName: Criterion, targetUrl: Criterion)
    decreases nodes
  {
    nodes != [] ==>
      && Shadowless(nodes[1..], targetName, targetUrl)
      && match nodes[0]
         case Folder(_, Present(children)) =>
           && Shadowless(children, targetName, targetUrl)
           && (Matching(children, targetName, targetUrl) != [] ==>
                 forall k :: 0 < k < |nodes| ==> !Matches(nodes[k], targetName, targetUrl))
         case _ => true
  }

  /** On a tree without such shadowing, the pick is the first hit in pre-order. */
  lemma {:induction false} PickIsFirstWhenShadowless(nodes: seq<Node>, path: string, targetName: Criterion, targetUrl: Criterion)
    requires Shadowless(nodes, targetName, targetUrl)
    ensures Pick(nodes, path, targetName, targetUrl) == FirstOf(Hits(nodes, path, targetName, targetUrl))
    decreases nodes
  {
    if nodes != [] {
      var n, rest := nodes[0], nodes[1..];
      var hits := Hits(nodes, path, targetName, targetUrl);
      PickStep(nodes, path, targetName, targetUrl);
      PickIsFirstWhenShadowless(rest, path, targetName, targetUrl);
      assert hits == HitsOf(n, path, targetName, targetUrl) + Hits(rest, path, targetName, targetUrl);
      if n.Folder? && n.children.Present? {
        var children, inner := n.children.list, PathFor(path, n.name);
        PickIsFirstWhenShadowless(children, inner, targetName, targetUrl);
        if Hits(children, inner, targetName, targetUrl) != [] {
          // The folder holds a match, so no later node of the level is a direct match.
          HitsNodesAreMatching(children, inner, targetName, targetUrl);
          DirectFirstNone(rest, path, targetName, targetUrl);
          assert forall k :: 0 <= k < |rest| ==> rest[k] == nodes[k + 1];
          assert hits[0] == Hits(children, inner, targetName, targetUrl)[0];
        } else {
          assert hits == Hits(rest, path, targetName, targetUrl);
        }
      } else if Matches(n, targetName, targetUrl) {
        assert hits[0] == Item(n, PathFor(path, n.name));
      } else {
        assert hits == Hits(rest, path, targetName, targetUrl);
      }
    }
  }

  /** The manager's "return first" is not the first hit in pre-order: a match inside a
      folder loses to a later direct match on the folder's own level. */
  lemma PickIsNotAlwaysFirst()
    ensures var a, b := Url("a", "u"), Url("b", "u");
            var nodes := [Folder("F", Present([a])), b];
            && Hits(nodes, "", None, Some("u")) == [Item(a, "F > a"), Item(b, "b")]
            && Pick(nodes, "", None, Some("u")) == Some(Item(b, "b"))
  {
    var a, b := Url("a", "u"), Url("b", "u");
    var nodes := [Folder("F", Present([a])), b];
    assert nodes[1..] == [b];
    assert PathFor("F", "a") == "F > a" by {
      assert "F" + Separator + "a" == "F > a";
    }
    assert Hits([a], "F", None, Some("u")) == [Item(a, "F > a")];
    assert Hits([b], "", None, Some("u")) == [Item(b, "b")];
    assert DirectFirst([b], "", None, Some("u")) == Some(Item(b, "b"));
  }

  /** The intended "return first": a search that stops at the first hit in pre-order,
      whether that hit is a direct url node or lies inside a folder. */
  function FirstHit(nodes: seq<Node>, path: string, targetName: Criterion, targetUrl: Criterion): (r: Option<Item>)
    ensures r == FirstOf(Hits(nodes, path, targetName, targetUrl))
    decreases nodes
  {
    if nodes == [] then None
    else match nodes[0]
      case Url(name, _) =>
        if Matches(nodes[0], targetName, targetUrl) then Some(Item(nodes[0], PathFor(path, name)))
        else FirstHit(nodes[1..], path, targetName, targetUrl)
      case Folder(name, Present(children)) =>
        var inner := FirstHit(children, PathFor(path, name), targetName, targetUrl);
        if inner.Some? then inner else FirstHit(nodes[1..], path, targetName, targetUrl)
      case _ => FirstHit(nodes[1..], path, targetName, targetUrl)
  }
}
