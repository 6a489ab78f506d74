/** Removing url nodes from a bookmark tree, level by level. Deleting by name or url
    and discarding unreachable bookmarks have the same net effect: on every level, the
    url nodes that a predicate rejects are removed, everything else stays in order, and
    folders are pruned in turn. */
module Pruning {
  import opened BookmarkTree

  /** A url node that `keep` rejects; folders and untyped nodes are never dropped. */
  predicate Dropped(n: Node, keep: Node -> bool) {
    n.Url? && !keep(n)
  }

  /** The tree after every dropped url node at every depth is removed. */
  function Prune(nodes: seq<Node>, keep: Node -> bool): (r: seq<Node>)
    ensures |r| <= |nodes|
    decreases nodes
  {
    if nodes == [] then []
    else if Dropped(nodes[0], keep) then Prune(nodes[1..], keep)
    else [PruneWithin(nodes[0], keep)] + Prune(nodes[1..], keep)
  }

  /** A node with its own children pruned (only a folder with children changes). */
  function PruneWithin(n: Node, keep: Node -> bool): (r: Node)
    ensures r.Url? <==> n.Url?
    ensures n.Url? ==> r == n
    decreases n
  {
    match n
    case Folder(name, Present(children)) => Folder(name, Present(Prune(children, keep)))
    case _ => n
  }

  lemma {:induction false} PruneAppend(a: seq<Node>, b: seq<Node>, keep: Node -> bool)
    ensures Prune(a + b, keep) == Prune(a, keep) + Prune(b, keep)
    decreases a
  {
    if a == [] {
      assert a + b == b;
    } else {
      assert (a + b)[0] == a[0];
      assert (a + b)[1..] == a[1..] + b;
      PruneAppend(a[1..], b, keep);
    }
  }

  /** Pruning a prefix of a level one node longer. */
  lemma PrunePrefix(nodes: seq<Node>, k: nat, keep: Node -> bool)
    requires k < |nodes|
    ensures Prune(nodes[..k + 1], keep) ==
              Prune(nodes[..k], keep) + if Dropped(nodes[k], keep) then [] else [PruneWithin(nodes[k], keep)]
  {
    assert nodes[..k + 1] == nodes[..k] + [nodes[k]];
    PruneAppend(nodes[..k], [nodes[k]], keep);
    assert [nodes[k]][1..] == [];
  }

  /** An in-place delete over a level, once it has dealt with the first k nodes, holds
      their pruned form followed by the untouched rest. */
  function Cursor(nodes: seq<Node>, k: nat, keep: Node -> bool): (r: seq<Node>)
    requires k <= |nodes|
    ensures |r| == |Prune(nodes[..k], keep)| + (|nodes| - k)
    ensures k < |nodes| ==> r[|Prune(nodes[..k], keep)|] == nodes[k]
  {
    Prune(nodes[..k], keep) + nodes[k..]
  }

  /** The node at the cursor is dropped: popping it moves the cursor on to the next
      node, without growing the pruned part. */
  lemma CursorDrop(nodes: seq<Node>, k: nat, keep: Node -> bool)
    requires k < |nodes| && Dropped(nodes[k], keep)
    ensures var r, i := Cursor(nodes, k, keep), |Prune(nodes[..k], keep)|;
            r[..i] + r[i + 1..] == Cursor(nodes, k + 1, keep) && i == |Prune(nodes[..k + 1], keep)|
  {
    var done := Prune(nodes[..k], keep);
    var r := Cursor(nodes, k, keep);
    assert r[..|done|] == done;
    assert r[|done| + 1..] == nodes[k + 1..];
    PrunePrefix(nodes, k, keep);
  }

  /** The node at the cursor is kept as x, written in its place: the pruned part grows
      by one node. */
  lemma CursorKeep(nodes: seq<Node>, k: nat, x: Node, keep: Node -> bool)
    requires k < |nodes| && !Dropped(nodes[k], keep) && x == PruneWithin(nodes[k], keep)
    ensures var r, i := Cursor(nodes, k, keep), |Prune(nodes[..k], keep)|;
            r[i := x] == Cursor(nodes, k + 1, keep) && i + 1 == |Prune(nodes[..k + 1], keep)|
  {
    var done := Prune(nodes[..k], keep);
    var r := Cursor(nodes, k, keep)[|done| := x];
    assert r[..|done| + 1] == done + [x];
    assert r[|done| + 1..] == nodes[k + 1..];
    PrunePrefix(nodes, k, keep);
    assert r == r[..|done| + 1] + r[|done| + 1..];
  }

  /** The node at the cursor is kept as it is: the pruned part grows by that node. */
  lemma CursorPass(nodes: seq<Node>, k: nat, keep: Node -> bool)
    requires k < |nodes| && !Dropped(nodes[k], keep) && nodes[k] == PruneWithin(nodes[k], keep)
    ensures Cursor(nodes, k, keep) == Cursor(nodes, k + 1, keep)
    ensures |Prune(nodes[..k], keep)| + 1 == |Prune(nodes[..k + 1], keep)|
  {
    CursorKeep(nodes, k, nodes[k], keep);
    var r := Cursor(nodes, k, keep);
    assert r[|Prune(nodes[..k], keep)| := nodes[k]] == r;
  }

  /** Once every node is dealt with, the level is pruned. */
  lemma CursorEnd(nodes: seq<Node>, keep: Node -> bool)
    ensures Cursor(nodes, |nodes|, keep) == Prune(nodes, keep)
  {
    assert nodes[..|nodes|] == nodes;
    assert Prune(nodes, keep) + [] == Prune(nodes, keep);
  }

  /** A batch grows by one node. */
  lemma DoomedPrefix(nodes: seq<Node>, i: nat, keep: Node -> bool)
    requires i < |nodes|
    ensures Doomed(nodes[..i + 1], keep) ==
              Doomed(nodes[..i], keep) + if Dropped(nodes[i], keep) then multiset{nodes[i]} else multiset{}
  {
    assert nodes[..i + 1] == nodes[..i] + [nodes[i]];
    DoomedAppend(nodes[..i], [nodes[i]], keep);
    assert [nodes[i]][1..] == [];
  }

  /** One level's filter, without recursion: what a pass over a single list removes. */
  function Sift(nodes: seq<Node>, keep: Node -> bool): (r: seq<Node>)
    ensures |r| <= |nodes|
    ensures forall k :: 0 <= k < |r| ==> !Dropped(r[k], keep)
  {
    if nodes == [] then []
    else if Dropped(nodes[0], keep) then Sift(nodes[1..], keep)
    else [nodes[0]] + Sift(nodes[1..], keep)
  }

  /** The multiset of a level's dropped nodes: what the removals of one batch take out. */
  function Doomed(nodes: seq<Node>, keep: Node -> bool): multiset<Node> {
    if nodes == [] then multiset{}
    else if Dropped(nodes[0], keep) then multiset{nodes[0]} + Doomed(nodes[1..], keep)
    else Doomed(nodes[1..], keep)
  }

  /** A batch's dropped nodes are nodes of the level, each one a dropped node. */
  lemma {:induction false} DoomedAreDropped(nodes: seq<Node>, keep: Node -> bool)
    ensures Doomed(nodes, keep) <= multiset(nodes)
    ensures forall n :: n in Doomed(nodes, keep) ==> Dropped(n, keep)
    decreases nodes
  {
    if nodes != [] {
      assert nodes == [nodes[0]] + nodes[1..];
      DoomedAreDropped(nodes[1..], keep);
    }
  }

  lemma {:induction false} DoomedAppend(a: seq<Node>, b: seq<Node>, keep: Node -> bool)
    ensures Doomed(a + b, keep) == Doomed(a, keep) + Doomed(b, keep)
    decreases a
  {
    if a == [] {
      assert a + b == b;
    } else {
      assert (a + b)[1..] == a[1..] + b;
      DoomedAppend(a[1..], b, keep);
    }
  }

  /** Taking one node out of a batch takes it out of the batch's dropped nodes. */
  lemma DoomedWithout(nodes: seq<Node>, j: nat, keep: Node -> bool)
    requires j < |nodes|
    ensures Doomed(nodes, keep) ==
              Doomed(nodes[..j] + nodes[j + 1..], keep) + (if Dropped(nodes[j], keep) then multiset{nodes[j]} else multiset{})
  {
    assert nodes[..j + 1] == nodes[..j] + [nodes[j]];
    assert nodes == nodes[..j + 1] + nodes[j + 1..];
    DoomedAppend(nodes[..j] + [nodes[j]], nodes[j + 1..], keep);
    DoomedAppend(nodes[..j], [nodes[j]], keep);
    DoomedAppend(nodes[..j], nodes[j + 1..], keep);
  }

  /** Scheduling the url nodes of a level one by one collects its batch of dropped nodes. */
  lemma ScheduleNext(nodes: seq<Node>, i: nat, tasks: seq<Node>, keep: Node -> bool)
    requires i < |nodes|
    requires Doomed(tasks, keep) == Doomed(nodes[..i], keep)
    ensures nodes[i].Url? ==> Doomed(tasks + [nodes[i]], keep) == Doomed(nodes[..i + 1], keep)
    ensures !nodes[i].Url? ==> Doomed(tasks, keep) == Doomed(nodes[..i + 1], keep)
  {
    DoomedPrefix(nodes, i, keep);
    if nodes[i].Url? {
      DoomedAppend(tasks, [nodes[i]], keep);
      assert [nodes[i]][1..] == [];
    }
  }

  /** The in-place pass over a level: the first i nodes have had their folders pruned,
      the others are as they were. */
  predicate PrunedUpTo(nodes: seq<Node>, r: seq<Node>, i: nat, keep: Node -> bool) {
    && |r| == |nodes| && i <= |nodes|
    && (forall k :: 0 <= k < i ==> r[k] == PruneWithin(nodes[k], keep))
    && (forall k :: i <= k < |nodes| ==> r[k] == nodes[k])
  }

  /** Handling node i moves the pass on by one. */
  lemma PrunedUpToNext(nodes: seq<Node>, r: seq<Node>, i: nat, x: Node, keep: Node -> bool)
    requires PrunedUpTo(nodes, r, i, keep) && i < |nodes| && x == PruneWithin(nodes[i], keep)
    ensures PrunedUpTo(nodes, r[i := x], i + 1, keep)
  {
  }

  /** Pruning the folders of a level in place leaves its batch of dropped nodes as it was. */
  lemma {:induction false} DoomedOfPrunedFolders(nodes: seq<Node>, within: seq<Node>, keep: Node -> bool)
    requires |within| == |nodes|
    requires forall k :: 0 <= k < |nodes| ==> within[k] == PruneWithin(nodes[k], keep)
    ensures Doomed(within, keep) == Doomed(nodes, keep)
    decreases nodes
  {
    if nodes != [] {
      DoomedOfPrunedFolders(nodes[1..], within[1..], keep);
    }
  }

  /** Pruning a tree is sifting the level whose folders have been pruned already: the
      order in which the invalidator works (folders first, then the level's batch). */
  lemma {:induction false} PruneIsSiftOfPrunedFolders(nodes: seq<Node>, within: seq<Node>, keep: Node -> bool)
    requires |within| == |nodes|
    requires forall k :: 0 <= k < |nodes| ==> within[k] == PruneWithin(nodes[k], keep)
    ensures Prune(nodes, keep) == Sift(within, keep)
    decreases nodes
  {
    if nodes != [] {
      PruneIsSiftOfPrunedFolders(nodes[1..], within[1..], keep);
    }
  }

  /** The entries filtered by `keep`, in order, trails unchanged. */
  function KeptEntries(entries: seq<Entry>, keep: Node -> bool): seq<Entry> {
    if entries == [] then []
    else if Dropped(entries[0].node, keep) then KeptEntries(entries[1..], keep)
    else [entries[0]] + KeptEntries(entries[1..], keep)
  }

  lemma {:induction false} KeptEntriesAppend(a: seq<Entry>, b: seq<Entry>, keep: Node -> bool)
    ensures KeptEntries(a + b, keep) == KeptEntries(a, keep) + KeptEntries(b, keep)
    decreases a
  {
    if a == [] {
      assert a + b == b;
    } else {
      assert (a + b)[1..] == a[1..] + b;
      KeptEntriesAppend(a[1..], b, keep);
    }
  }

  lemma {:induction false} KeptEntriesUnder(name: string, entries: seq<Entry>, keep: Node -> bool)
    ensures KeptEntries(Under(name, entries), keep) == Under(name, KeptEntries(entries, keep))
    decreases entries
  {
    if entries != [] {
      assert Under(name, entries)[1..] == Under(name, entries[1..]);
      KeptEntriesUnder(name, entries[1..], keep);
    }
  }

  /** The url nodes that survive pruning are exactly those `keep` accepts, in the same
      pre-order and under the same folders as before. */
  lemma {:induction false} PruneCatalog(nodes: seq<Node>, keep: Node -> bool)
    ensures Catalog(Prune(nodes, keep)) == KeptEntries(Catalog(nodes), keep)
    decreases nodes
  {
    if nodes != [] {
      var n, rest := nodes[0], nodes[1..];
      assert nodes == [n] + rest;
      CatalogCons(n, rest);
      PruneCatalog(rest, keep);
      KeptEntriesAppend(CatalogOf(n), Catalog(rest), keep);
      if Dropped(n, keep) {
        assert Prune(nodes, keep) == Prune(rest, keep);
        assert KeptEntries(CatalogOf(n), keep) == [];
      } else {
        var n' := PruneWithin(n, keep);
        assert Prune(nodes, keep) == [n'] + Prune(rest, keep);
        CatalogCons(n', Prune(rest, keep));
        match n
        case Url(_, _) =>
          assert KeptEntries(CatalogOf(n), keep) == CatalogOf(n);
        case Folder(name, Present(children)) =>
          PruneCatalog(children, keep);
          KeptEntriesUnder(name, Catalog(children), keep);
        case _ =>
      }
    }
  }

  /** No url node that `keep` rejects remains at any depth. */
  lemma SurvivorsAreKept(nodes: seq<Node>, keep: Node -> bool)
    ensures forall e :: e in Catalog(Prune(nodes, keep)) ==> keep(e.node)
  {
    PruneCatalog(nodes, keep);
    KeptAreKept(Catalog(nodes), keep);
  }

  lemma {:induction false} KeptAreKept(entries: seq<Entry>, keep: Node -> bool)
    requires forall k :: 0 <= k < |entries| ==> entries[k].node.Url?
    ensures forall e :: e in KeptEntries(entries, keep) ==> keep(e.node)
    decreases entries
  {
    if entries != [] {
      KeptAreKept(entries[1..], keep);
    }
  }

  /** Pruning never removes or reorders folders or untyped nodes, at any depth. */
  lemma {:induction false} PruneKeepsSkeleton(nodes: seq<Node>, keep: Node -> bool)
    ensures Skeleton(Prune(nodes, keep)) == Skeleton(nodes)
    decreases nodes
  {
    if nodes != [] {
      var n := nodes[0];
      PruneKeepsSkeleton(nodes[1..], keep);
      match n
      case Url(_, _) =>
        if !Dropped(n, keep) {
          assert Prune(nodes, keep) == [n] + Prune(nodes[1..], keep);
        }
      case Folder(name, Present(children)) =>
        PruneKeepsSkeleton(children, keep);
        assert Prune(nodes, keep) == [PruneWithin(n, keep)] + Prune(nodes[1..], keep);
      case _ =>
        assert Prune(nodes, keep) == [n] + Prune(nodes[1..], keep);
    }
  }

  /** A tree in which `keep` accepts every url node is left exactly as it is. */
  lemma {:induction false} PruneKeepingAllIsIdentity(nodes: seq<Node>, keep: Node -> bool)
    requires forall e :: e in Catalog(nodes) ==> keep(e.node)
    ensures Prune(nodes, keep) == nodes
    decreases nodes
  {
    if nodes != [] {
      var n := nodes[0];
      CatalogAppend([n], nodes[1..]);
      assert [n] + nodes[1..] == nodes;
      assert Catalog([n]) == CatalogOf(n);
      PruneKeepingAllIsIdentity(nodes[1..], keep);
      match n
      case Url(_, _) =>
        assert Entry(n, []) in Catalog(nodes);
      case Folder(name, Present(children)) =>
        forall e | e in Catalog(children) ensures keep(e.node) {
          var k :| 0 <= k < |Catalog(children)| && Catalog(children)[k] == e;
          assert Under(name, Catalog(children))[k] in Catalog(nodes);
        }
        PruneKeepingAllIsIdentity(children, keep);
      case _ =>
    }
  }

  /** A second pass with the same predicate removes nothing. */
  lemma PruneIdempotent(nodes: seq<Node>, keep: Node -> bool)
    ensures Prune(Prune(nodes, keep), keep) == Prune(nodes, keep)
  {
    SurvivorsAreKept(nodes, keep);
    PruneKeepingAllIsIdentity(Prune(nodes, keep), keep);
  }

  /** Delete keeps every node that does not match the criteria. */
  function KeepUnmatched(targetName: Criterion, targetUrl: Criterion): Node -> bool {
    n => !Matches(n, targetName, targetUrl)
  }

  /** After a delete, no url node at any depth matches the criteria; adjacent matches
      included. */
  lemma DeleteLeavesNoMatch(nodes: seq<Node>, targetName: Criterion, targetUrl: Criterion)
    ensures forall e :: e in Catalog(Prune(nodes, KeepUnmatched(targetName, targetUrl))) ==>
                          !Matches(e.node, targetName, targetUrl)
  {
    SurvivorsAreKept(nodes, KeepUnmatched(targetName, targetUrl));
  }

  /** A delete with neither a truthy name nor a truthy url removes nothing. */
  lemma NoCriteriaDeletesNothing(nodes: seq<Node>, targetName: Criterion, targetUrl: Criterion)
    requires !Truthy(targetName) && !Truthy(targetUrl)
    ensures Prune(nodes, KeepUnmatched(targetName, targetUrl)) == nodes
  {
    PruneKeepingAllIsIdentity(nodes, KeepUnmatched(targetName, targetUrl));
  }
}
