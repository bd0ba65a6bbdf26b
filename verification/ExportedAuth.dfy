/** What an exported collection shows (crates/voleeo-export/src/postman.rs): every item in its place, with the auth it
    should carry. */
module ExportedAuth {
  import opened Text
  import opened Sequences
  import opened Forest
  import opened Bundles
  import opened PostmanExport
  import opened InheritedAuth

  // ---- what an item should carry ----

  /** Some folder on the chain from `x` upward has an active auth, the nearest one this. */
  ghost predicate FolderGives(c: Contents, x: Option<Id>, a: Auth) {
    x.Some? && exists k: nat :: IsNearest(ById(c.folders), ParentsById(c.folders), x.value, k, a)
  }

  ghost predicate NoFolderGives(c: Contents, x: Option<Id>) {
    x.Some? ==> NoneActive(ById(c.folders), ParentsById(c.folders), x.value)
  }

  predicate WorkspaceGives(c: Contents) { c.auth.Scheme? && c.auth.enabled }

  /** The auth inherited in folder `x`: nearest folder before workspace or the reverse, and `own` if neither has one. */
  ghost predicate Inherited(c: Contents, x: Option<Id>, from: InheritSource, own: Auth, a: Auth) {
    match from
    case FromFolder =>
      || FolderGives(c, x, a)
      || (NoFolderGives(c, x) && a == if WorkspaceGives(c) then c.auth else own)
    case FromWorkspace =>
      if WorkspaceGives(c) then a == c.auth else FolderGives(c, x, a) || (NoFolderGives(c, x) && a == own)
  }

  /** A root carries its own auth, or the one it inherits from where it asks. */
  ghost predicate RootCarries(c: Contents, x: Option<Id>, own: Auth, a: Auth) {
    if own.Inherit? then Inherited(c, x, own.from, own, a) else a == own
  }

  /** Anything nested resolves what it inherits from the workspace, and is left alone otherwise. */
  ghost predicate NestedCarries(c: Contents, x: Option<Id>, own: Auth, a: Auth) {
    if own == Inherit(FromWorkspace) then Inherited(c, x, FromWorkspace, own, a) else a == own
  }

  // ---- what a collection should show ----

  /** The item shows the node, with everything below it. */
  ghost predicate Shows(c: Contents, node: Node, item: Item)
    decreases item
  {
    match item
    case HttpItem(r, a) => node == HttpNode(r) && NestedCarries(c, r.folderId, r.auth, a)
    case FolderItem(f, a, items) =>
      && node == FolderNode(f) && NestedCarries(c, f.folderId, f.auth, a)
      && ShowAll(c, Children(c, Some(f.id)), items)
    case WorkspaceItem(_, _, _) => false
    case Endless => node.FolderNode?
  }

  ghost predicate ShowAll(c: Contents, nodes: seq<Node>, items: seq<Item>)
    decreases items
  {
    |items| == |nodes| && forall i :: 0 <= i < |items| ==> Shows(c, nodes[i], items[i])
  }

  ghost predicate ShowsRoot(c: Contents, f: ApiFolder, item: Item) {
    && item.FolderItem? && item.folder == f && RootCarries(c, f.folderId, f.auth, item.auth)
    && ShowAll(c, Children(c, Some(f.id)), item.items)
  }

  ghost predicate ShowsWorkspace(c: Contents, item: Item) {
    && item.WorkspaceItem? && item.name == c.name && item.auth == c.auth
    && ShowAll(c, Children(c, None), item.items)
  }

  /** One workspace: its selected roots in list order, or a wrapper around all of it. */
  ghost predicate ShowsBundle(c: Contents, roots: seq<(Id, Id)>, items: seq<Item>) {
    var selected := RootsOf(c, roots);
    if selected == [] then |items| == 1 && ShowsWorkspace(c, items[0])
    else |items| == |selected| && forall i :: 0 <= i < |items| ==> ShowsRoot(c, selected[i], items[i])
  }

  // ---- the export ----

  lemma InheritedIs(c: Contents, x: Option<Id>, from: InheritSource, own: Auth)
    ensures Inherited(c, x, from, own, EffectiveAuth(c, x, from, own))
  {
    if x.Some? {
      NearestAncestorDecides(c.folders, x.value);
    }
  }

  lemma {:induction false} NodesShown(c: Contents, nodes: seq<Node>, path: set<Id>)
    requires forall f :: FolderNode(f) in nodes ==> f in c.folders
    ensures ShowAll(c, nodes, BuildNodes(c, nodes, path))
    decreases |IdsOf(c.folders) - path|, 1, |nodes|
  {
    if nodes != [] {
      NodeShown(c, nodes[0], path);
      NodesShown(c, nodes[1..], path);
      var rest := BuildNodes(c, nodes[1..], path);
      forall i | 0 < i < |nodes| ensures Shows(c, nodes[i], rest[i - 1]) { assert nodes[1..][i - 1] == nodes[i]; }
    }
  }

  lemma {:induction false} NodeShown(c: Contents, node: Node, path: set<Id>)
    requires node.FolderNode? ==> node.folder in c.folders
    ensures Shows(c, node, NodeItem(c, node, path))
    decreases |IdsOf(c.folders) - path|, 0, 0
  {
    match node
    case HttpNode(r) => InheritedIs(c, r.folderId, FromWorkspace, r.auth);
    case FolderNode(f) =>
      InheritedIs(c, f.folderId, FromWorkspace, f.auth);
      if f.id !in path {
        PathGrows(c.folders, f, path);
        ChildrenMembers(c, Some(f.id));
        NodesShown(c, Children(c, Some(f.id)), path + {f.id});
      }
  }

  lemma BundleShown(c: Contents, roots: seq<(Id, Id)>)
    ensures ShowsBundle(c, roots, BundleItems(c, roots))
  {
    var selected := RootsOf(c, roots);
    if selected == [] {
      ChildrenMembers(c, None);
      NodesShown(c, Children(c, None), {});
    } else {
      forall i | 0 <= i < |selected| ensures ShowsRoot(c, selected[i], RootTree(c, selected[i])) {
        RootShown(c, selected[i]);
      }
    }
  }

  lemma RootShown(c: Contents, f: ApiFolder)
    ensures ShowsRoot(c, f, RootTree(c, f))
  {
    if f.auth.Inherit? { InheritedIs(c, f.folderId, f.auth.from, f.auth); }
    ChildrenMembers(c, Some(f.id));
    NodesShown(c, Children(c, Some(f.id)), {f.id});
  }

  /** The collection shows the workspaces one after the other. */
  ghost predicate ShowsCollection(cs: seq<Contents>, roots: seq<(Id, Id)>, items: seq<Item>) {
    exists parts: seq<seq<Item>> ::
      |parts| == |cs| && items == Flatten(parts) && forall i :: 0 <= i < |cs| ==> ShowsBundle(cs[i], roots, parts[i])
  }

  /** What the export returns: every selected root, nested folder and request in its place, with the auth it should
      carry. */
  lemma CollectionShown(cs: seq<Contents>, roots: seq<(Id, Id)>)
    ensures ShowsCollection(cs, roots, CollectionItems(cs, roots))
  {
    var parts := Map(cs, c => BundleItems(c, roots));
    forall i | 0 <= i < |cs| ensures ShowsBundle(cs[i], roots, parts[i]) { BundleShown(cs[i], roots); }
  }
}
