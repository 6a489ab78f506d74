# Edge bookmark tree: search and edit operations

A Dafny model of the recursive bookmark-tree logic of Edge-bookmark-manager. The
browser keeps its bookmarks as a JSON tree. Every node is an object whose `"type"` is
`"url"` or `"folder"`, and a folder may carry a `"children"` list. The operations
walk one level of that tree, an ordered list of nodes, and recurse into folders.
There are two copies of the logic:

- `EdgeBookmarkManager` in bookmarkutility.py:
  - `update_bookmark_url` rewrites urls in place.
  - `delete_bookmark` removes matching bookmarks with a `pop`/`continue` cursor loop.
  - `find_bookmark` searches and builds a `" > "` path for each hit.
  - `remove_invalid_bookmarks_async`, `check_and_remove_url` and `is_url_valid_async` discard bookmarks whose url does not answer with status 200.
- The free functions `update_bookmark_url`, `delete_bookmark` and `find_bookmark` in favor2.py. These are earlier versions, and their search returns bare nodes.

Modules:

- `BookmarkTree` (tree.dfy): nodes, search criteria, the path rule, and the catalog of url nodes.
  - Criteria are truthy when present and non-empty.
  - A url node matches a truthy name or a truthy url.
  - The catalog lists every url node reachable in pre-order, with its folder trail.
- `Rewriting` (update.dfy): `Retarget`, the specification of an url update.
- `Pruning` (prune.dfy): `Prune`, the specification shared by delete and the invalidator.
  - On every level, the url nodes a `keep` predicate rejects are removed, and folders are pruned in turn.
  - It also holds the cursor lemmas of the delete loop and the batch bookkeeping of the invalidator.
- `ListRemoval` (removal.dfy): Python's `list.remove`. Also the argument that one level's batch of removals, finishing in any order, filters the level.
- `Searching` (search.dfy): what a search returns.
  - `Hits`: every match with its path, in pre-order.
  - `Matching`: matches without paths.
  - `Pick`: the manager's "return first" rule as written.
  - `FirstHit`: the first hit in pre-order.
- `BookmarkUtility` (bookmarkutility.dfy) and `Favor2` (favor2.dfy): the operations themselves, as methods with loops, proved against the functions above.

The source edits the caller's lists in place. Each method here takes a level and
returns the level as the caller sees it afterwards.

## Model

| member | source | states |
|---|---|---|
| `BookmarkTree.NoCriteriaMatchNothing` | bookmarkutility.py:120-121 | with neither a truthy name nor a truthy url, no node matches |
| `BookmarkTree.RenderIsJoin` | bookmarkutility.py:136 | building a path level by level from the top gives the names joined by " > ", with the top-level name first and no leading separator, whenever the top-level name is non-empty or is the only name; names further down may be empty |
| `BookmarkTree.EmptyTopNameDropsOut` | bookmarkutility.py:136 | a top-level folder with an empty name drops out of its descendants' paths, which start afresh with the next name |
| `Rewriting.RetargetKeepsShape` | bookmarkutility.py:105-112 | an update changes no name, no node kind, no presence of children and no list length |
| `Rewriting.RetargetCatalog` | bookmarkutility.py:107-111 | every url node keeps its place and its folders; it carries the new url exactly when its url was the old url, and is unchanged otherwise |
| `Rewriting.OldUrlGone` | bookmarkutility.py:107-108 | when the two urls differ, no url node at any depth carries the old url afterwards |
| `Rewriting.RetargetWithoutMatchIsIdentity` | bookmarkutility.py:105-112 | with no url node carrying the old url, the update changes nothing |
| `Rewriting.RetargetToSameIsIdentity` | bookmarkutility.py:107-109 | rewriting a url to itself changes nothing |
| `Rewriting.RetargetIdempotent` | bookmarkutility.py:105-112 | a second update with the same urls changes nothing, whether or not the two urls differ |
| `BookmarkUtility.UpdateBookmarkUrl` | bookmarkutility.py:105-112 | the loop over a level, recursing into folders with children, produces exactly the rewritten tree |
| `Favor2.UpdateBookmarkUrl` | favor2.py:19-30 | the earlier update produces the same rewritten tree |
| `Pruning.PruneCatalog` | bookmarkutility.py:114-127 | the url nodes left at any depth are exactly those the predicate keeps, in the same pre-order and under the same folders |
| `Pruning.SurvivorsAreKept` | bookmarkutility.py:116-127 | no url node that the predicate rejects is left at any depth |
| `Pruning.PruneKeepsSkeleton` | bookmarkutility.py:119-127 | folders (emptied or not) and untyped nodes are never removed or reordered, at any depth |
| `Pruning.PruneKeepingAllIsIdentity` | bookmarkutility.py:114-127 | a tree whose url nodes are all kept is left exactly as it is |
| `Pruning.PruneIdempotent` | bookmarkutility.py:65-80 | a second pass with the same predicate removes nothing |
| `Pruning.DeleteLeavesNoMatch` | bookmarkutility.py:116-127 | after a delete, no url node at any depth matches the criteria, adjacent matches included |
| `Pruning.NoCriteriaDeletesNothing` | bookmarkutility.py:120-121 | a delete with neither criterion truthy returns the tree unchanged |
| `Pruning.CursorDrop` | bookmarkutility.py:123-124 | popping a matching node at the cursor without advancing keeps the level equal to the pruned prefix followed by the untouched rest |
| `Pruning.CursorKeep` | bookmarkutility.py:125-127 | writing a folder's pruned children back and advancing keeps the same invariant |
| `Pruning.PruneIsSiftOfPrunedFolders` | bookmarkutility.py:65-73 | pruning a tree equals cleaning every folder first and then filtering the level's own bookmarks, the invalidator's order |
| `BookmarkUtility.DeleteBookmark` | bookmarkutility.py:114-127 | the cursor loop returns exactly the pruned tree for the "does not match" predicate |
| `Favor2.DeleteBookmark` | favor2.py:52-70 | the earlier delete, which skips nodes without a type, returns the same pruned tree |
| `ListRemoval.RemoveFirst` | bookmarkutility.py:80 | `list.remove` fails exactly when no element equals the node; otherwise the list loses the first element equal to it, and the rest keeps its order |
| `ListRemoval.RemoveAfterDrop` | bookmarkutility.py:80 | while occurrences of a value remain, the next removal of that value takes out its next occurrence |
| `ListRemoval.DroppingTheDoomedSifts` | bookmarkutility.py:73-80 | removing each rejected node once per occurrence leaves the level filtered, survivors in order |
| `ListRemoval.CompleteCheck` | bookmarkutility.py:73-80 | when one pending check completes, the rest of the batch still accounts for the remaining removals; a rejected node is removed by its value's next occurrence |
| `BookmarkUtility.CheckAndRemoveUrl` | bookmarkutility.py:75-92 | a node whose request answers 200 leaves the level unchanged; any other status or an exception removes the first element equal to it |
| `BookmarkUtility.RemoveInvalidBookmarks` | bookmarkutility.py:65-73 | for every order in which a level's checks complete, the result is the tree pruned to the bookmarks whose request answers 200 |
| `BookmarkUtility.GatherChecks` | bookmarkutility.py:73-80 | the checks of one level, completing in the order `pick` chooses, leave the level filtered |
| `BookmarkUtility.OnlyValidBookmarksRemain` | bookmarkutility.py:65-92 | after the invalidator, every bookmark left at any depth answered with status 200, and every folder and untyped node is still there in order |
| `Searching.Hits` | bookmarkutility.py:137-140 | every search result is a matching url node, never a folder |
| `Searching.HitsAreExpected` | bookmarkutility.py:133-150 | "return all" reports exactly the matching url nodes in pre-order, each with its folders' names and its own name rendered as its path, from the level the search started at |
| `Searching.NoCriteriaFindNothing` | bookmarkutility.py:138-139 | with neither criterion truthy the search finds nothing |
| `Searching.PickExistsIffHit` | bookmarkutility.py:152-155 | "return first" gives a result exactly when the tree holds a match |
| `Searching.PickIsAHit` | bookmarkutility.py:141-149 | the "return first" result is one of the hits, with its correct path |
| `Searching.PickIsFirstWhenShadowless` | bookmarkutility.py:141-149 | when no level has a direct match after a folder of that level that holds a match, "return first" is the first hit in pre-order |
| `Searching.PickIsNotAlwaysFirst` | bookmarkutility.py:141-149 | a tree where "return first" skips the first hit in pre-order for a later direct match |
| `Searching.FirstHit` | bookmarkutility.py:141-149 | the intended "return first": the first hit in pre-order, or none |
| `BookmarkUtility.RecursiveSearch` | bookmarkutility.py:133-150 | without "return first" the nested search returns every hit; with it, it returns a direct match at once, and otherwise a list that leads with the level's pick |
| `BookmarkUtility.FindBookmark` | bookmarkutility.py:129-155 | "return all" returns every hit with its path; "return first" returns the pick, or an empty list when nothing matches |
| `Searching.Matching` | favor2.py:105-113 | the node-only search returns matching url nodes only, never a folder |
| `Searching.HitsNodesAreMatching` | favor2.py:103-119 | the node-only search lists the same nodes, in the same order, as the path-building search |
| `Searching.NoCriteriaMatchNone` | favor2.py:107-108 | with neither criterion truthy the node-only search finds nothing |
| `Favor2.RecursiveSearch` | favor2.py:103-119 | with "return first" the nested search returns the first match in pre-order and appends nothing; without it, it raises on a folder with children and otherwise appends the level's matches |
| `Favor2.FindBookmark` | favor2.py:93-126 | "return first" gives the first match in pre-order or None; "return all" raises TypeError when the top level has a folder with children and otherwise lists the matches |
| `Favor2.ReturnAllRaisesOnNestedTree` | favor2.py:113-116 | one folder holding one matching bookmark makes "return all" raise instead of listing it |
| `Favor2.ReturnAllOnNestedTree` | favor2.py:113-116 | a "return all" find on one folder holding one matching bookmark ends in TypeError |
| `Favor2.CollectMatches` | favor2.py:111-116 | the intended "return all" appends every match at every depth, in pre-order |
| `Favor2.CollectedAreTheManagersHits` | favor2.py:103-119 | the intended "return all" of favor2.py lists the same nodes as the manager's search |

## Left out

- Reading and writing the bookmarks file is not modelled: `__init__` path building, `load_bookmarks`, `save_bookmarks`, favor2.py's `read_and_print_edge_bookmarks`, and favorites.py.
- `print_bookmark_tree` (both files) only prints. Its path follows the same rule as the search, which is modelled.
- Logging has no effect on the tree and is dropped.
- The HTTP HEAD request of `is_url_valid_async` is the `probe` parameter. Its session, redirects and 10-second timeout are folded into that parameter. A url gets the same outcome every time it is requested in one run.
- `asyncio.gather` scheduling is the `pick` parameter: any order in which one level's checks complete. A folder's cleanup is awaited before its level's checks start, so only the order within one batch varies.
- `BookmarkUtility.RemoveInvalidBookmarks`: the order comes from one function of the pending batch, shared by all levels. The result is the same for every such order.
- `BookmarkUtility.CheckAndRemoveUrl`: the ValueError branch of `list.remove` is modelled (`None`). `BookmarkUtility.GatherChecks` proves that it never happens.
- Python object identity and aliasing are not modelled. The model works on node values: a returned search result is a copy of the node, not the same dict, and in-place edits are new lists.
- Keys that are missing (`node.get` returning None for a name or url) are not modelled. Names and urls are strings; an untyped node's name is never used.
- Criteria that are not strings are not modelled. A criterion is absent or a string, truthy when non-empty.
- url_check.py, url_check2.py and bookmark_test.py are not part of this model. They are network scripts and a manual driver.

## Findings

| source | as written | input that shows it | evidently intended | confidence | as-written member | corrected member |
|---|---|---|---|---|---|---|
| bookmarkutility.py:141-149 | with "return first", a direct match on a level returns at once, but a match from an earlier folder on that level is only appended to the level's list | level `[Folder "F" [Url "a" "u"], Url "b" "u"]` with target url `"u"`: returns `b` (path `b`), though `a` (path `F > a`) comes first in pre-order | the first match in pre-order | medium, not executed | `Searching.PickIsNotAlwaysFirst` | `Searching.FirstHit` |
| favor2.py:113-116 | with "return all", the nested call returns None and `results.extend(None)` raises TypeError at the first folder with children | level `[Folder "F" [Url "a" "u"]]` with target url `"u"`: TypeError instead of `[a]` | every match at every depth appended to `results`, in pre-order | high, not executed | `Favor2.ReturnAllRaisesOnNestedTree` | `Favor2.CollectMatches` |
