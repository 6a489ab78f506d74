/** The operations of EdgeBookmarkManager (bookmarkutility.py) on one level of the
    bookmark tree. The manager edits the caller's lists in place; here each operation
    takes a level and returns the level as the caller sees it afterwards. */
module BookmarkUtility {
  import opened BookmarkTree
  import opened Pruning
  import opened Rewriting
  import opened Searching
  import opened ListRemoval

  // ---------------------------------------------------------------------------
  // update_bookmark_url

  /** Gives every url node whose url is `oldUrl`, at any depth, the url `newUrl`. */
  method UpdateBookmarkUrl(nodes: seq<Node>, oldUrl: string, newUrl: string) returns (r: seq<Node>)
    ensures r == Retarget(nodes, oldUrl, newUrl)
    decreases nodes
  {
    r := nodes;
    for i := 0 to |nodes|
      invariant |r| == |nodes|
      invariant forall k :: 0 <= k < i ==> r[k] == RetargetNode(nodes[k], oldUrl, newUrl)
      invariant forall k :: i <= k < |nodes| ==> r[k] == nodes[k]
    {
      match nodes[i] {
        case Url(name, url) =>
          if url == oldUrl {
            r := r[i := Url(name, newUrl)];
          }
        case Folder(name, Present(children)) =>
          var updated := UpdateBookmarkUrl(children, oldUrl, newUrl);
          r := r[i := Folder(name, Present(updated))];
        case _ =>
      }
    }
    RetargetPointwise(nodes, r, oldUrl, newUrl);
  }

  // ---------------------------------------------------------------------------
  // delete_bookmark

  /** Removes every url node matching the criteria, at any depth. A removal does not
      advance the cursor, so the node that moves into its place is inspected next. */
  method DeleteBookmark(nodes: seq<Node>, targetName: Criterion, targetUrl: Criterion) returns (r: seq<Node>)
    ensures r == Prune(nodes, KeepUnmatched(targetName, targetUrl))
    decreases nodes
  {
    ghost var keep := KeepUnmatched(targetName, targetUrl);
    r := nodes;
    var i := 0;
    // k: how many of the original nodes the cursor has dealt with.
    ghost var k := 0;
    while i < |r|
      invariant k <= |nodes| && r == Cursor(nodes, k, keep) && i == |Prune(nodes[..k], keep)|
      decreases |nodes| - k
    {
      var node := r[i];
      if node.Url? {
        if Matches(node, targetName, targetUrl) {
          CursorDrop(nodes, k, keep);
          r := r[..i] + r[i + 1..];
          k := k + 1;
          continue;
        }
        CursorPass(nodes, k, keep);
      } else if node.Folder? && node.children.Present? {
        var pruned := DeleteBookmark(node.children.list, targetName, targetUrl);
        CursorKeep(nodes, k, Folder(node.name, Present(pruned)), keep);
        r := r[i := Folder(node.name, Present(pruned))];
      } else {
        CursorPass(nodes, k, keep);
      }
      k := k + 1;
      i := i + 1;
    }
    CursorEnd(nodes, keep);
  }

  // ---------------------------------------------------------------------------
  // find_bookmark

  /** What the nested search function hands back: a single result (only with "return
      first", for a direct match on the level) or a list of results. */
  datatype Search = Hit(item: Item) | Found(items: seq<Item>)

  /** The result a caller would take first from a search answer. */
  function Lead(s: Search): Option<Item> {
    match s
    case Hit(item) => Some(item)
    case Found(items) => FirstOf(items)
  }

  /** The nested recursive_search of find_bookmark, on a level whose path is `path`.
      Without "return first" it collects every hit in pre-order. With it, it returns a
      direct match of the level at once, and otherwise hands back what its folders
      found, which leads with the level's pick. */
  method RecursiveSearch(current: seq<Node>, path: string, targetName: Criterion, targetUrl: Criterion, returnFirst: bool)
    returns (res: Search)
    ensures !returnFirst ==> res == Found(Hits(current, path, targetName, targetUrl))
    ensures returnFirst ==> Lead(res) == Pick(current, path, targetName, targetUrl)
    ensures returnFirst ==> (res.Hit? <==> DirectFirst(current, path, targetName, targetUrl).Some?)
    decreases current
  {
    var found: seq<Item> := [];
    for i := 0 to |current|
      invariant !returnFirst ==> found == Hits(current[..i], path, targetName, targetUrl)
      invariant returnFirst ==> DirectFirst(current[..i], path, targetName, targetUrl).None?
      invariant returnFirst ==> FirstOf(found) == SubPick(current[..i], path, targetName, targetUrl)
    {
      var node := current[i];
      var currentPath := PathFor(path, NameOf(node));
      assert current[..i + 1] == current[..i] + [node];
      SearchStep(current[..i], node, path, targetName, targetUrl);
      if node.Url? && Matches(node, targetName, targetUrl) {
        var item := Item(node, currentPath);
        if returnFirst {
          DirectMatchIsPicked(current, i, path, targetName, targetUrl);
          return Hit(item);
        }
        found := found + [item];
      } else if node.Folder? && node.children.Present? {
        var childResult := RecursiveSearch(node.children.list, currentPath, targetName, targetUrl, returnFirst);
        match childResult {
          case Found(items) => found := found + items;
          case Hit(item) => found := found + [item];
        }
      }
    }
    assert current[..|current|] == current;
    return Found(found);
  }

  /** find_bookmark on a top-level list. Without "return first": every hit in
      pre-order. With it: the level's pick, or an empty list when nothing matches. */
  method FindBookmark(nodes: seq<Node>, targetName: Criterion, targetUrl: Criterion, returnFirst: bool)
    returns (r: Search)
    ensures !returnFirst ==> r == Found(Hits(nodes, "", targetName, targetUrl))
    ensures returnFirst ==> r == match Pick(nodes, "", targetName, targetUrl)
                                 case Some(item) => Hit(item)
                                 case None => Found([])
  {
    var result := RecursiveSearch(nodes, "", targetName, targetUrl, returnFirst);
    if returnFirst && result.Found? && |result.items| > 0 {
      return Hit(result.items[0]);
    }
    return result;
  }

  // ---------------------------------------------------------------------------
  // remove_invalid_bookmarks_async, check_and_remove_url, is_url_valid_async

  /** How the HEAD request for a url ends: with a response status, or with an
      exception (a transport error, a malformed url, or the 10-second timeout). */
  datatype Probe = Responded(status: int) | Raised

  /** A url is valid only when the request answers with status 200. */
  predicate IsUrlValid(outcome: Probe) {
    outcome == Responded(200)
  }

  /** The invalidator keeps a node whose url the probe finds valid; a node without a
      url cannot be requested, which counts as invalid. */
  function KeepValid(probe: string -> Probe): Node -> bool {
    (n: Node) => n.Url? && IsUrlValid(probe(n.url))
  }

  /** The check of one bookmark: when its url is not valid, the first element of the
      level equal to it is removed (None: no such element, list.remove's ValueError). */
  method CheckAndRemoveUrl(node: Node, nodes: seq<Node>, probe: string -> Probe) returns (r: Option<seq<Node>>)
    ensures KeepValid(probe)(node) ==> r == Some(nodes)
    ensures !KeepValid(probe)(node) ==> r == RemoveFirst(nodes, node)
  {
    var valid := node.Url? && IsUrlValid(probe(node.url));
    if !valid {
      return RemoveFirst(nodes, node);
    }
    return Some(nodes);
  }

  /** Discards every bookmark whose url is not valid, at any depth. Folders are cleaned
      first, one after the other; then the checks of the level's own bookmarks finish
      in an order the caller cannot control, given here by `pick`, which names the
      check that completes next among those still pending. Whatever that order, the
      level ends up filtered. */
  method RemoveInvalidBookmarks(nodes: seq<Node>, probe: string -> Probe, pick: seq<Node> -> nat)
    returns (r: seq<Node>)
    ensures r == Prune(nodes, KeepValid(probe))
    decreases nodes
  {
    var keep := KeepValid(probe);
    r := nodes;
    var tasks: seq<Node> := [];
    for i := 0 to |nodes|
      invariant PrunedUpTo(nodes, r, i, keep)
      invariant forall k :: 0 <= k < |tasks| ==> tasks[k].Url?
      invariant Doomed(tasks, keep) == Doomed(nodes[..i], keep)
    {
      ScheduleNext(nodes, i, tasks, keep);
      var handled := nodes[i];
      match nodes[i] {
        case Url(_, _) =>
          tasks := tasks + [nodes[i]];
        case Folder(name, Present(children)) =>
          var pruned := RemoveInvalidBookmarks(children, probe, pick);
          handled := Folder(name, Present(pruned));
        case _ =>
      }
      PrunedUpToNext(nodes, r, i, handled, keep);
      r := r[i := handled];
    }
    assert nodes[..|nodes|] == nodes;
    DoomedOfPrunedFolders(nodes, r, keep);
    PruneIsSiftOfPrunedFolders(nodes, r, keep);
    r := GatherChecks(r, tasks, probe, pick);
  }

  /** After the invalidator, every bookmark left at any depth answered its request
      with status 200; folders and untyped nodes are all still there, in order. */
  lemma OnlyValidBookmarksRemain(nodes: seq<Node>, probe: string -> Probe)
    ensures forall e :: e in Catalog(Prune(nodes, KeepValid(probe))) ==> probe(e.node.url) == Responded(200)
    ensures Skeleton(Prune(nodes, KeepValid(probe))) == Skeleton(nodes)
  {
    SurvivorsAreKept(nodes, KeepValid(probe));
    PruneKeepsSkeleton(nodes, KeepValid(probe));
  }

  /** The gathered checks of one level: they complete one at a time in the order
      `pick` chooses, and each one that finds its url invalid removes its node from the
      level. Whatever the order, the level ends up without its invalid bookmarks. */
  method GatherChecks(level: seq<Node>, tasks: seq<Node>, probe: string -> Probe, pick: seq<Node> -> nat)
    returns (r: seq<Node>)
    requires forall k :: 0 <= k < |tasks| ==> tasks[k].Url?
    requires Doomed(tasks, KeepValid(probe)) == Doomed(level, KeepValid(probe))
    ensures r == Sift(level, KeepValid(probe))
  {
    var keep := KeepValid(probe);
    r := level;
    ghost var removed: multiset<Node> := multiset{};
    var pending := tasks;
    DropNothing(level);
    while pending != []
      invariant forall k :: 0 <= k < |pending| ==> pending[k].Url?
      invariant removed + Doomed(pending, keep) == Doomed(level, keep)
      invariant r == DropFirst(level, removed)
      decreases |pending|
    {
      var j := pick(pending) % |pending|;
      var node := pending[j];
      CompleteCheck(level, removed, pending, j, keep);
      var outcome := CheckAndRemoveUrl(node, r, probe);
      if Dropped(node, keep) {
        removed := removed + multiset{node};
      }
      r := outcome.value;
      pending := pending[..j] + pending[j + 1..];
    }
    assert removed == Doomed(level, keep);
    DroppingTheDoomedSifts(level, keep);
  }
}
