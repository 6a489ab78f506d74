/** The standalone bookmark functions of favor2.py: the same three edits and searches
    as the manager, without paths. They too edit the caller's lists in place; here each
    takes a level and returns the level as the caller sees it afterwards. */
module Favor2 {
  import opened BookmarkTree
  import opened Pruning
  import opened Rewriting
  import opened Searching
  import opened ListRemoval

  // ---------------------------------------------------------------------------
  // update_bookmark_url

  /** Gives every url node whose url is `oldUrl`, at any depth, the url `newUrl`. */
  method UpdateBookmarkUrl(nodes: seq<Node>, oldUrl: string, newUrl: string) returns (r: seq<Node>)
    ensures r == Retarget(nodes, oldUrl, newUrl)
    decreases nodes
  {
    r := nodes;
    for i := 0 to |nodes|
      invariant |r| == |nodes|
      invariant forall k :: 0 <= k < i ==> r[k] == RetargetNode(nodes[k], oldUrl, newUrl)
      invariant forall k :: i <= k < |nodes| ==> r[k] == nodes[k]
    {
      var node := nodes[i];
      if node.Url? {
        if node.url == oldUrl {
          r := r[i := Url(node.name, newUrl)];
        }
      } else if node.Folder? && node.children.Present? {
        var updated := UpdateBookmarkUrl(node.children.list, oldUrl, newUrl);
        r := r[i := Folder(node.name, Present(updated))];
      }
    }
    RetargetPointwise(nodes, r, oldUrl, newUrl);
  }

  // ---------------------------------------------------------------------------
  // delete_bookmark

  /** Removes every url node matching the criteria, at any depth; a removal leaves the
      cursor on the node that takes the removed node's place. */
  method DeleteBookmark(nodes: seq<Node>, targetName: Criterion, targetUrl: Criterion) returns (r: seq<Node>)
    ensures r == Prune(nodes, KeepUnmatched(targetName, targetUrl))
    decreases nodes
  {
    ghost var keep := KeepUnmatched(targetName, targetUrl);
    r := nodes;
    var i := 0;
    ghost var k := 0;
    while i < |r|
      invariant k <= |nodes| && r == Cursor(nodes, k, keep) && i == |Prune(nodes[..k], keep)|
      decreases |nodes| - k
    {
      var node := r[i];
      if node.Url? {
        if Matches(node, targetName, targetUrl) {
          CursorDrop(nodes, k, keep);
          r := r[..i] + r[i + 1..];
          k := k + 1;
          continue;
        }
        CursorPass(nodes, k, keep);
      } else if node.Folder? && node.children.Present? {
        var pruned := DeleteBookmark(node.children.list, targetName, targetUrl);
        CursorKeep(nodes, k, Folder(node.name, Present(pruned)), keep);
        r := r[i := Folder(node.name, Present(pruned))];
      } else {
        CursorPass(nodes, k, keep);
      }
      k := k + 1;
      i := i + 1;
    }
    CursorEnd(nodes, keep);
  }

  // ---------------------------------------------------------------------------
  // find_bookmark

  /** A level holds a folder with a children list (possibly empty). */
  predicate HasFilledFolder(nodes: seq<Node>) {
    exists k :: 0 <= k < |nodes| && nodes[k].Folder? && nodes[k].children.Present?
  }

  /** How the nested search function ends: it returns a node or None, having appended
      to the shared results list; or it raises TypeError, which a "return all" search
      does when it extends the results with the None a nested call returned. */
  datatype Scan = Returned(hit: Option<Node>, results: seq<Node>) | Crashed

  /** The nested recursive_search of find_bookmark as written, with the shared results
      list passed in and out. With "return first" it answers the first match in
      pre-order and appends nothing. Without it, it appends the level's direct matches
      and raises at the first folder with a children list. */
  method RecursiveSearch(current: seq<Node>, targetName: Criterion, targetUrl: Criterion, returnFirst: bool, results: seq<Node>)
    returns (s: Scan)
    ensures returnFirst ==> s == Returned(FirstOf(Matching(current, targetName, targetUrl)), results)
    ensures !returnFirst && HasFilledFolder(current) ==> s == Crashed
    ensures !returnFirst && !HasFilledFolder(current) ==>
              s == Returned(None, results + Matching(current, targetName, targetUrl))
    decreases current
  {
    var acc := results;
    for i := 0 to |current|
      invariant returnFirst ==> acc == results && Matching(current[..i], targetName, targetUrl) == []
      invariant !returnFirst ==> !HasFilledFolder(current[..i])
      invariant !returnFirst ==> acc == results + Matching(current[..i], targetName, targetUrl)
    {
      var node := current[i];
      MatchingStep(results, current, i, targetName, targetUrl);
      FilledStep(current, i);
      if node.Url? {
        if Matches(node, targetName, targetUrl) {
          if returnFirst {
            FirstMatchAt(current, i, targetName, targetUrl);
            return Returned(Some(node), results);
          }
          acc := acc + [node];
        }
      } else if node.Folder? && node.children.Present? {
        var childResult := RecursiveSearch(node.children.list, targetName, targetUrl, returnFirst, acc);
        if !returnFirst {
          // results.extend(child_result): the nested call either raised, or returned
          // None, which extend rejects.
          return Crashed;
        }
        if childResult.hit.Some? {
          FirstMatchAt(current, i, targetName, targetUrl);
          return Returned(childResult.hit, results);
        }
      }
    }
    assert current[..|current|] == current;
    return Returned(None, acc);
  }

  /** A level's prefix holds a folder with children once one of its nodes is one. */
  lemma FilledStep(current: seq<Node>, i: nat)
    requires i < |current|
    ensures HasFilledFolder(current[..i + 1]) <==>
              HasFilledFolder(current[..i]) || (current[i].Folder? && current[i].children.Present?)
  {
    var prefix, longer := current[..i], current[..i + 1];
    assert forall k :: 0 <= k < i ==> longer[k] == prefix[k];
    assert longer[i] == current[i];
  }

  /** What find_bookmark gives its caller: the first match or None, every match, or
      the TypeError it raises. */
  datatype FindOutcome = First(hit: Option<Node>) | All(hits: seq<Node>) | TypeError

  /** find_bookmark as written: "return first" gives the first match in pre-order;
      "return all" raises whenever the top level has a folder with a children list, and
      otherwise lists only the top level's direct matches. */
  method FindBookmark(nodes: seq<Node>, targetName: Criterion, targetUrl: Criterion, returnFirst: bool)
    returns (r: FindOutcome)
    ensures returnFirst ==> r == First(FirstOf(Matching(nodes, targetName, targetUrl)))
    ensures !returnFirst && HasFilledFolder(nodes) ==> r == TypeError
    ensures !returnFirst && !HasFilledFolder(nodes) ==> r == All(Matching(nodes, targetName, targetUrl))
  {
    var s := RecursiveSearch(nodes, targetName, targetUrl, returnFirst, []);
    if s.Crashed? {
      return TypeError;
    }
    if returnFirst {
      return First(s.hit);
    }
    assert [] + Matching(nodes, targetName, targetUrl) == Matching(nodes, targetName, targetUrl);
    return All(s.results);
  }

  /** A "return all" search breaks on the simplest nested tree: one folder holding one
      matching bookmark raises instead of listing that bookmark. */
  lemma ReturnAllRaisesOnNestedTree()
    ensures var a := Url("a", "u");
            var nodes := [Folder("F", Present([a]))];
            && HasFilledFolder(nodes)
            && Matching(nodes, None, Some("u")) == [a]
  {
    var a := Url("a", "u");
    var nodes := [Folder("F", Present([a]))];
    assert nodes[0].Folder? && nodes[0].children.Present?;
    assert Matching([a], None, Some("u")) == [a];
  }

  /** The raise itself: a "return all" find on that tree ends in TypeError. */
  method ReturnAllOnNestedTree() returns (r: FindOutcome)
    ensures r == TypeError
  {
    ReturnAllRaisesOnNestedTree();
    r := FindBookmark([Folder("F", Present([Url("a", "u")]))], None, Some("u"), false);
  }

  /** The collection a "return all" search evidently intends: the nested call appends
      to the shared list itself, so nothing is extended afterwards. Every match at every
      depth is appended, in pre-order. */
  method CollectMatches(current: seq<Node>, targetName: Criterion, targetUrl: Criterion, results: seq<Node>)
    returns (acc: seq<Node>)
    ensures acc == results + Matching(current, targetName, targetUrl)
    decreases current
  {
    acc := results;
    for i := 0 to |current|
      invariant acc == results + Matching(current[..i], targetName, targetUrl)
    {
      var node := current[i];
      MatchingStep(results, current, i, targetName, targetUrl);
      if node.Url? {
        if Matches(node, targetName, targetUrl) {
          acc := acc + [node];
        }
      } else if node.Folder? && node.children.Present? {
        acc := CollectMatches(node.children.list, targetName, targetUrl, acc);
      }
    }
    assert current[..|current|] == current;
  }

  /** The corrected "return all" lists the same nodes, in the same order, as the
      manager's path-building search. */
  lemma CollectedAreTheManagersHits(nodes: seq<Node>, targetName: Criterion, targetUrl: Criterion)
    ensures Matching(nodes, targetName, targetUrl) == NodesOf(Hits(nodes, "", targetName, targetUrl))
  {
    HitsNodesAreMatching(nodes, "", targetName, targetUrl);
  }
}
