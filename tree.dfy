/** The bookmark tree of a Chromium-based browser (Microsoft Edge) as the search and
    edit operations see it. The browser stores it as JSON: every node is an object whose
    "type" key selects its kind, and every operation works on one level of the tree, an
    ordered list of such objects, recursing into a folder's "children" list. */
module BookmarkTree {

  datatype Option<+T> = None | Some(value: T)

  /** The "children" key of a folder object: absent, or present with its ordered list. */
  datatype Children = Missing | Present(list: seq<Node>)

  /** A node of the tree.
      - Url: an object with "type" == "url".
      - Folder: an object with "type" == "folder"; operations recurse only into a folder
        whose children are Present.
      - Untyped: an object whose "type" is missing or unknown; every operation skips it. */
  datatype Node =
    | Url(name: string, url: string)
    | Folder(name: string, children: Children)
    | Untyped

  /** An optional search criterion (target_name or target_url, default None). */
  type Criterion = Option<string>

  /** A criterion takes part in matching only when it is truthy: None and "" are falsy. */
  predicate Truthy(c: Criterion) {
    c.Some? && c.value != ""
  }

  /** The matcher shared by find and delete: a url node whose name equals a truthy
      target name, or whose url equals a truthy target url. Folders and untyped nodes
      never match, and with no truthy criterion nothing matches. */
  predicate Matches(n: Node, targetName: Criterion, targetUrl: Criterion) {
    && n.Url?
    && ((Truthy(targetName) && n.name == targetName.value)
        || (Truthy(targetUrl) && n.url == targetUrl.value))
  }

  lemma NoCriteriaMatchNothing(n: Node, targetName: Criterion, targetUrl: Criterion)
    requires !Truthy(targetName) && !Truthy(targetUrl)
    ensures !Matches(n, targetName, targetUrl)
  {
  }

  /** The display name of a node (an untyped node has none that any operation uses). */
  function NameOf(n: Node): string {
    match n
    case Url(name, _) => name
    case Folder(name, _) => name
    case Untyped => ""
  }

  const Separator: string := " > "

  /** The path of a node named `name` on a level whose path is `path`: the name alone
      on the level the search started from (empty path), else path, " > ", name. */
  function PathFor(path: string, name: string): string {
    if path == "" then name else path + Separator + name
  }

  /** The path built by applying PathFor name after name, starting from `base`, as the
      traversal does on its way down. */
  function Render(base: string, names: seq<string>): string
    decreases |names|
  {
    if names == [] then base else Render(PathFor(base, names[0]), names[1..])
  }

  /** The names joined by the separator, the rendering a reader expects of a path. */
  function Join(names: seq<string>): string
    requires names != []
    decreases |names|
  {
    if |names| == 1 then names[0] else Join(names[..|names| - 1]) + Separator + names[|names| - 1]
  }

  /** Joining splits at the first name as well as at the last. */
  lemma {:induction false} JoinCons(names: seq<string>)
    requires |names| >= 2
    ensures Join(names) == names[0] + Separator + Join(names[1..])
    decreases |names|
  {
    var front, last := names[..|names| - 1], names[|names| - 1];
    if |names| > 2 {
      JoinCons(front);
      assert names[1..][..|names| - 2] == front[1..];
    }
  }

  /** Below a non-empty path, every further name is appended after a separator, empty
      names included. */
  lemma {:induction false} RenderFrom(base: string, names: seq<string>)
    requires base != "" && names != []
    ensures Render(base, names) == base + Separator + Join(names)
    decreases |names|
  {
    var next := PathFor(base, names[0]);
    assert next == base + Separator + names[0];
    if |names| > 1 {
      RenderFrom(next, names[1..]);
      JoinCons(names);
      assert next + Separator + Join(names[1..]) == base + Separator + (names[0] + Separator + Join(names[1..]));
    }
  }

  /** A path starting at the top level is exactly its names joined by " > ", the
      top-level name first with no leading separator, provided that name is not
      empty (or is the only one). Names further down may be empty. */
  lemma RenderIsJoin(names: seq<string>)
    requires names != [] && (names[0] != "" || |names| == 1)
    ensures Render("", names) == Join(names)
  {
    if |names| > 1 {
      RenderFrom(names[0], names[1..]);
      JoinCons(names);
    }
  }

  /** A top-level folder with an empty name drops out of its descendants' paths: the
      path starts afresh with the next name. */
  lemma EmptyTopNameDropsOut(rest: seq<string>)
    ensures Render("", [""] + rest) == Render("", rest)
  {
    assert ([""] + rest)[1..] == rest;
  }

  /** A url node reached by the traversal, with the names of the folders above it,
      outermost first, starting at the level the traversal was given. */
  datatype Entry = Entry(node: Node, trail: seq<string>)

  /** Every url node reachable from a level, in depth-first pre-order (array order,
      descending only into folders whose children are present), with its trail. */
  function Catalog(nodes: seq<Node>): (r: seq<Entry>)
    ensures forall k :: 0 <= k < |r| ==> r[k].node.Url?
    decreases nodes
  {
    if nodes == [] then [] else CatalogOf(nodes[0]) + Catalog(nodes[1..])
  }

  function CatalogOf(n: Node): (r: seq<Entry>)
    ensures forall k :: 0 <= k < |r| ==> r[k].node.Url?
    decreases n
  {
    match n
    case Url(_, _) => [Entry(n, [])]
    case Folder(name, Present(children)) => Under(name, Catalog(children))
    case _ => []
  }

  /** The entries of a folder's children, seen from the folder's own level. */
  function Under(name: string, entries: seq<Entry>): (r: seq<Entry>)
    ensures |r| == |entries|
    ensures forall k :: 0 <= k < |r| ==> r[k] == Entry(entries[k].node, [name] + entries[k].trail)
  {
    if entries == [] then []
    else [Entry(entries[0].node, [name] + entries[0].trail)] + Under(name, entries[1..])
  }

  lemma {:induction false} CatalogAppend(a: seq<Node>, b: seq<Node>)
    ensures Catalog(a + b) == Catalog(a) + Catalog(b)
    decreases a
  {
    if a == [] {
      assert a + b == b;
    } else {
      assert (a + b)[1..] == a[1..] + b;
      CatalogAppend(a[1..], b);
    }
  }

  lemma CatalogCons(n: Node, rest: seq<Node>)
    ensures Catalog([n] + rest) == CatalogOf(n) + Catalog(rest)
  {
    assert ([n] + rest)[0] == n;
    assert ([n] + rest)[1..] == rest;
  }

  /** The tree with every url node taken out at every depth: the folders (with their
      names and whether they have children) and untyped nodes, in their order. */
  function Skeleton(nodes: seq<Node>): seq<Node>
    decreases nodes
  {
    if nodes == [] then []
    else
      (match nodes[0]
       case Url(_, _) => []
       case Folder(name, Present(children)) => [Folder(name, Present(Skeleton(children)))]
       case other => [other])
      + Skeleton(nodes[1..])
  }
}
