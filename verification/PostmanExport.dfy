/** Core types to a Postman collection (crates/voleeo-export/src/postman.rs and `children` in
    crates/voleeo-export/src/lib.rs): the tree of items and the auth each one gets. */
module PostmanExport {
  import opened Text
  import opened Sequences
  import opened Forest
  import opened Bundles

  datatype Node = FolderNode(folder: ApiFolder) | HttpNode(request: HttpRequest)

  function OrderOf(n: Node): int { match n case FolderNode(f) => f.order case HttpNode(r) => r.order }

  predicate NodeLeq(a: Node, b: Node) { OrderOf(a) <= OrderOf(b) }

  /** A collection item. `Endless` stands for a recursion that would not return: the export reached a
      folder while already inside it. */
  datatype Item =
    | WorkspaceItem(name: Bytes, auth: Auth, items: seq<Item>)
    | FolderItem(folder: ApiFolder, auth: Auth, items: seq<Item>)
    | HttpItem(request: HttpRequest, auth: Auth)
    | Endless

  // ---- children of one scope ----

  function FolderNodes(folders: seq<ApiFolder>, parent: Option<Id>): seq<Node> {
    Map(Filter(folders, (f: ApiFolder) => f.folderId == parent), (f: ApiFolder) => FolderNode(f))
  }

  function HttpNodes(requests: seq<HttpRequest>, parent: Option<Id>): seq<Node> {
    Map(Filter(requests, (r: HttpRequest) => r.folderId == parent), (r: HttpRequest) => HttpNode(r))
  }

  /** Direct children of a scope, folders and requests interleaved by `order`. */
  function Children(c: Contents, parent: Option<Id>): seq<Node> {
    SortBy(FolderNodes(c.folders, parent) + HttpNodes(c.requests, parent), NodeLeq)
  }

  method ChildrenLoop(c: Contents, parent: Option<Id>) returns (nodes: seq<Node>)
    ensures nodes == Children(c, parent)
  {
    nodes := [];
    assert c.folders[..0] == [];
    for i := 0 to |c.folders|
      invariant nodes == FolderNodes(c.folders[..i], parent)
    {
      assert c.folders[..i + 1] == c.folders[..i] + [c.folders[i]];
      FolderNodesSnoc(c.folders[..i], c.folders[i], parent);
      if c.folders[i].folderId == parent {
        nodes := nodes + [FolderNode(c.folders[i])];
      }
    }
    assert c.folders[..|c.folders|] == c.folders;
    assert c.requests[..0] == [];
    for i := 0 to |c.requests|
      invariant nodes == FolderNodes(c.folders, parent) + HttpNodes(c.requests[..i], parent)
    {
      assert c.requests[..i + 1] == c.requests[..i] + [c.requests[i]];
      HttpNodesSnoc(c.requests[..i], c.requests[i], parent);
      if c.requests[i].folderId == parent {
        nodes := nodes + [HttpNode(c.requests[i])];
      }
    }
    assert c.requests[..|c.requests|] == c.requests;
    nodes := SortBy(nodes, NodeLeq);
  }

  lemma FolderNodesSnoc(folders: seq<ApiFolder>, f: ApiFolder, parent: Option<Id>)
    ensures FolderNodes(folders + [f], parent)
         == FolderNodes(folders, parent) + if f.folderId == parent then [FolderNode(f)] else []
  {
    FilterSnoc(folders, f, (g: ApiFolder) => g.folderId == parent);
  }

  lemma HttpNodesSnoc(requests: seq<HttpRequest>, r: HttpRequest, parent: Option<Id>)
    ensures HttpNodes(requests + [r], parent)
         == if r.folderId == parent then HttpNodes(requests, parent) + [HttpNode(r)] else HttpNodes(requests, parent)
  {
    FilterSnoc(requests, r, (g: HttpRequest) => g.folderId == parent);
  }

  lemma ChildrenMembers(c: Contents, parent: Option<Id>)
    ensures forall f :: FolderNode(f) in Children(c, parent) <==> f in c.folders && f.folderId == parent
    ensures forall r :: HttpNode(r) in Children(c, parent) ==> r in c.requests && r.folderId == parent
    ensures forall q ::
        multiset(Children(c, parent))[HttpNode(q)] == if q.folderId == parent then multiset(c.requests)[q] else 0
    ensures UniqueIds(c.folders) ==> forall f :: multiset(Children(c, parent))[FolderNode(f)] <= 1
  {
    var nodes := Children(c, parent);
    forall f ensures FolderNode(f) in nodes <==> f in c.folders && f.folderId == parent {
      ChildrenCounted(c, parent, FolderNode(f));
    }
    forall r ensures multiset(nodes)[HttpNode(r)] == if r.folderId == parent then multiset(c.requests)[r] else 0 {
      ChildrenCounted(c, parent, HttpNode(r));
    }
    forall r | HttpNode(r) in nodes ensures r in c.requests && r.folderId == parent {
      ChildrenCounted(c, parent, HttpNode(r));
    }
    if UniqueIds(c.folders) {
      FoldersOnce(c.folders);
      forall f ensures multiset(nodes)[FolderNode(f)] <= 1 { ChildrenCounted(c, parent, FolderNode(f)); }
    }
  }

  /** Every child is there as often as in the lists. */
  lemma ChildrenCounted(c: Contents, parent: Option<Id>, n: Node)
    ensures multiset(Children(c, parent))[n] == match n
              case FolderNode(f) => if f.folderId == parent then multiset(c.folders)[f] else 0
              case HttpNode(r) => if r.folderId == parent then multiset(c.requests)[r] else 0
    ensures n in Children(c, parent) <==> multiset(Children(c, parent))[n] > 0
  {
    var fs, rs := FolderNodes(c.folders, parent), HttpNodes(c.requests, parent);
    SortPermutes(fs + rs, NodeLeq);
    FoldersCounted(c.folders, parent, n);
    RequestsCounted(c.requests, parent, n);
    assert multiset(fs + rs) == multiset(fs) + multiset(rs);
    assert n in Children(c, parent) <==> n in multiset(Children(c, parent));
  }

  /** Children come by ascending `order`; where it is equal, folders before requests and both as they are listed. */
  lemma ChildrenOrdered(c: Contents, parent: Option<Id>, order: int)
    ensures forall i, j :: 0 <= i < j < |Children(c, parent)| ==>
              OrderOf(Children(c, parent)[i]) <= OrderOf(Children(c, parent)[j])
    ensures Filter(Children(c, parent), (n: Node) => OrderOf(n) == order)
         == Map(Filter(c.folders, (f: ApiFolder) => f.folderId == parent && f.order == order),
                (f: ApiFolder) => FolderNode(f))
            + Map(Filter(c.requests, (r: HttpRequest) => r.folderId == parent && r.order == order),
                  (r: HttpRequest) => HttpNode(r))
  {
    var fs, rs := FolderNodes(c.folders, parent), HttpNodes(c.requests, parent);
    var tied := (n: Node) => OrderOf(n) == order;
    SortSorts(fs + rs, NodeLeq);
    SortStable(fs + rs, NodeLeq, tied);
    FilterAppend(fs, rs, tied);
    FoldersAt(c.folders, parent, order);
    RequestsAt(c.requests, parent, order);
  }

  lemma {:induction false} FoldersAt(folders: seq<ApiFolder>, parent: Option<Id>, order: int)
    ensures Filter(FolderNodes(folders, parent), (n: Node) => OrderOf(n) == order)
         == Map(Filter(folders, (f: ApiFolder) => f.folderId == parent && f.order == order),
                (f: ApiFolder) => FolderNode(f))
  {
    if folders != [] {
      var f, rest := folders[0], folders[1..];
      assert folders == [f] + rest;
      FoldersAt(rest, parent, order);
      FolderNodesHead(f, rest, parent);
      FilterHead(f, rest, (g: ApiFolder) => g.folderId == parent && g.order == order);
      FilterHead(FolderNode(f), FolderNodes(rest, parent), (n: Node) => OrderOf(n) == order);
      MapCons(f, Filter(rest, (g: ApiFolder) => g.folderId == parent && g.order == order),
              (g: ApiFolder) => FolderNode(g));
    }
  }

  lemma {:induction false} RequestsAt(requests: seq<HttpRequest>, parent: Option<Id>, order: int)
    ensures Filter(HttpNodes(requests, parent), (n: Node) => OrderOf(n) == order)
         == Map(Filter(requests, (r: HttpRequest) => r.folderId == parent && r.order == order),
                (r: HttpRequest) => HttpNode(r))
  {
    if requests != [] {
      var r, rest := requests[0], requests[1..];
      assert requests == [r] + rest;
      RequestsAt(rest, parent, order);
      HttpNodesHead(r, rest, parent);
      FilterHead(r, rest, (q: HttpRequest) => q.folderId == parent && q.order == order);
      FilterHead(HttpNode(r), HttpNodes(rest, parent), (n: Node) => OrderOf(n) == order);
      MapCons(r, Filter(rest, (q: HttpRequest) => q.folderId == parent && q.order == order),
              (q: HttpRequest) => HttpNode(q));
    }
  }

  lemma FolderNodesHead(f: ApiFolder, rest: seq<ApiFolder>, q: Option<Id>)
    ensures FolderNodes([f] + rest, q)
         == if f.folderId == q then [FolderNode(f)] + FolderNodes(rest, q) else FolderNodes(rest, q)
  {
    FilterHead(f, rest, (g: ApiFolder) => g.folderId == q);
  }

  lemma {:induction false} FoldersCounted(folders: seq<ApiFolder>, parent: Option<Id>, n: Node)
    ensures multiset(FolderNodes(folders, parent))[n]
         == match n case HttpNode(_) => 0 case FolderNode(f) => if f.folderId == parent then multiset(folders)[f] else 0
  {
    if folders != [] {
      FoldersCounted(folders[1..], parent, n);
      assert folders == [folders[0]] + folders[1..];
      FolderNodesHead(folders[0], folders[1..], parent);
    }
  }

  lemma HttpNodesHead(r: HttpRequest, rest: seq<HttpRequest>, q: Option<Id>)
    ensures HttpNodes([r] + rest, q)
         == if r.folderId == q then [HttpNode(r)] + HttpNodes(rest, q) else HttpNodes(rest, q)
  {
    FilterHead(r, rest, (g: HttpRequest) => g.folderId == q);
  }

  lemma {:induction false} RequestsCounted(requests: seq<HttpRequest>, parent: Option<Id>, n: Node)
    ensures multiset(HttpNodes(requests, parent))[n]
         == match n
            case FolderNode(_) => 0
            case HttpNode(r) => if r.folderId == parent then multiset(requests)[r] else 0
  {
    if requests != [] {
      RequestsCounted(requests[1..], parent, n);
      assert requests == [requests[0]] + requests[1..];
      HttpNodesHead(requests[0], requests[1..], parent);
    }
  }

  lemma {:induction false} FoldersOnce(folders: seq<ApiFolder>)
    requires UniqueIds(folders)
    ensures forall f :: multiset(folders)[f] <= 1
  {
    if folders != [] {
      FoldersOnce(folders[1..]);
      MultisetSplit(folders);
      assert folders[0] !in folders[1..];
    }
  }

  // ---- inherited auth ----

  function ById(folders: seq<ApiFolder>): map<Id, ApiFolder> {
    if folders == [] then map[]
    else ById(folders[..|folders| - 1])[folders[|folders| - 1].id := folders[|folders| - 1]]
  }

  /** The first active auth on the chain from `parent` upward. */
  function NearestActive(byId: map<Id, ApiFolder>, parent: Option<Id>, seen: set<Id>): Option<Auth>
    decreases |byId.Keys - seen|
  {
    match parent
    case None => None
    case Some(x) =>
      if x in seen || x !in byId then None
      else if IsActive(byId[x].auth) then Some(byId[x].auth)
      else
        assert byId.Keys - (seen + {x}) == byId.Keys - seen - {x};
        NearestActive(byId, byId[x].folderId, seen + {x})
  }

  /** What an inheriting item gets, `fallback` being its own configuration. */
  function EffectiveAuth(c: Contents, parent: Option<Id>, from: InheritSource, fallback: Auth): Auth {
    var workspace := if IsActive(c.auth) then Some(c.auth) else None;
    var folder := NearestActive(ById(c.folders), parent, {});
    var first := if from.FromWorkspace? then workspace else folder;
    var second := if from.FromWorkspace? then folder else workspace;
    match first case Some(a) => a case None => match second case Some(a) => a case None => fallback
  }

  method EffectiveInheritedAuth(c: Contents, parentId: Option<Id>, from: InheritSource, fallback: Auth)
    returns (auth: Auth)
    ensures auth == EffectiveAuth(c, parentId, from, fallback)
  {
    var workspaceAuth := if IsActive(c.auth) then Some(c.auth) else None;
    var byId := ById(c.folders);
    var parent := parentId;
    var seen: set<Id> := {};
    var folderAuth: Option<Auth> := None;
    while parent.Some?
      invariant folderAuth == None
      invariant NearestActive(byId, parent, seen) == NearestActive(byId, parentId, {})
      decreases |byId.Keys - seen|
    {
      var current := parent.value;
      if current in seen {
        break;
      }
      if current !in byId {
        break;
      }
      assert byId.Keys - (seen + {current}) == byId.Keys - seen - {current};
      seen := seen + {current};
      if IsActive(byId[current].auth) {
        folderAuth := Some(byId[current].auth);
        break;
      }
      parent := byId[current].folderId;
    }
    assert folderAuth == NearestActive(byId, parentId, {});
    var first, second := workspaceAuth, folderAuth;
    if from.FromFolder? {
      first, second := folderAuth, workspaceAuth;
    }
    auth := if first.Some? then first.value else if second.Some? then second.value else fallback;
  }

  /** A nested folder or request only resolves what it inherits from the workspace. */
  function NestedAuth(c: Contents, folderId: Option<Id>, auth: Auth): Auth {
    if auth.Inherit? && auth.from.FromWorkspace? then EffectiveAuth(c, folderId, FromWorkspace, auth) else auth
  }

  /** A root folder resolves everything it inherits. */
  function RootAuth(c: Contents, folder: ApiFolder): Auth {
    if folder.auth.Inherit? then EffectiveAuth(c, folder.folderId, folder.auth.from, folder.auth) else folder.auth
  }

  // ---- the item tree ----

  /** `build_items`; `path`: the folders whose items are being built around this call. */
  function BuildItems(c: Contents, parent: Option<Id>, path: set<Id>): seq<Item>
    decreases |IdsOf(c.folders) - path|, 2, 0
  {
    ChildrenMembers(c, parent);
    BuildNodes(c, Children(c, parent), path)
  }

  function BuildNodes(c: Contents, nodes: seq<Node>, path: set<Id>): seq<Item>
    requires forall f :: FolderNode(f) in nodes ==> f in c.folders
    decreases |IdsOf(c.folders) - path|, 1, |nodes|
  {
    if nodes == [] then [] else [NodeItem(c, nodes[0], path)] + BuildNodes(c, nodes[1..], path)
  }

  function NodeItem(c: Contents, node: Node, path: set<Id>): Item
    requires node.FolderNode? ==> node.folder in c.folders
    decreases |IdsOf(c.folders) - path|, 0, 0
  {
    match node
    case HttpNode(r) => HttpItem(r, NestedAuth(c, r.folderId, r.auth))
    case FolderNode(f) =>
      if f.id in path then Endless
      else
        PathGrows(c.folders, f, path);
        FolderItem(f, NestedAuth(c, f.folderId, f.auth), BuildItems(c, Some(f.id), path + {f.id}))
  }

  lemma PathGrows(folders: seq<ApiFolder>, f: ApiFolder, path: set<Id>)
    requires f in folders && f.id !in path
    ensures |IdsOf(folders) - (path + {f.id})| < |IdsOf(folders) - path|
  {
    assert IdsOf(folders) - (path + {f.id}) == IdsOf(folders) - path - {f.id};
  }

  function WorkspaceTree(c: Contents): Item { WorkspaceItem(c.name, c.auth, BuildItems(c, None, {})) }

  function RootTree(c: Contents, f: ApiFolder): Item {
    FolderItem(f, RootAuth(c, f), BuildItems(c, Some(f.id), {f.id}))
  }

  // ---- the selected roots ----

  /** Folder ids selected for one workspace among `(workspace, folder)` pairs. */
  function SelectedIds(roots: seq<(Id, Id)>, workspaceId: Id): set<Id> {
    set pair | pair in roots && pair.0 == workspaceId :: pair.1
  }

  /** Some proper ancestor of the folder is selected too. */
  ghost predicate Covered(p: Parents, selected: set<Id>, f: ApiFolder) {
    CoveredFrom(p, selected, f.folderId)
  }

  /** Some selected folder lies on the chain from `x` upward, `x` included. */
  ghost predicate CoveredFrom(p: Parents, selected: set<Id>, x: Option<Id>) {
    x.Some? && exists a :: a in selected && Under(p, x.value, a)
  }

  ghost predicate IsRoot(p: Parents, selected: set<Id>, f: ApiFolder) { f.id in selected && !Covered(p, selected, f) }

  /** Selected folders without a selected proper ancestor, in list order. */
  ghost function RootsOf(c: Contents, roots: seq<(Id, Id)>): seq<ApiFolder> {
    var p, selected := ParentsById(c.folders), SelectedIds(roots, c.workspaceId);
    Filter(c.folders, (f: ApiFolder) => IsRoot(p, selected, f))
  }

  method RootFolders(c: Contents, roots: seq<(Id, Id)>) returns (result: seq<ApiFolder>)
    ensures result == RootsOf(c, roots)
  {
    var selected := SelectedIds(roots, c.workspaceId);
    var parents := ParentsById(c.folders);
    result := [];
    assert c.folders[..0] == [];
    ghost var isRoot := (f: ApiFolder) => IsRoot(parents, selected, f);
    for i := 0 to |c.folders|
      invariant result == Filter(c.folders[..i], isRoot)
    {
      var f := c.folders[i];
      assert c.folders[..i + 1] == c.folders[..i] + [f];
      FilterSnoc(c.folders[..i], f, isRoot);
      if f.id in selected {
        var covered := HasSelectedAncestor(parents, selected, f);
        if !covered {
          result := result + [f];
        }
      }
    }
    assert c.folders[..|c.folders|] == c.folders;
  }

  /** The walk up from a selected folder; `seen` stops it on a cycle. */
  method HasSelectedAncestor(parents: Parents, selected: set<Id>, f: ApiFolder) returns (covered: bool)
    ensures covered <==> Covered(parents, selected, f)
  {
    var parent := f.folderId;
    var seen: set<Id> := {};
    while parent.Some?
      invariant CoveredFrom(parents, selected, f.folderId) <==> CoveredFrom(parents, selected, parent)
      invariant ClosedExcept(parents, seen, parent) && seen !! selected
      decreases if parent.Some? then 1 + |parents.Keys - seen| else 0
    {
      var x := parent.value;
      if x in selected {
        UnderSelf(parents, x);
        return true;
      }
      if x in seen {
        CycleUncovered(parents, selected, seen, x);
        return false;
      }
      if x in parents {
        assert parents.Keys - (seen + {x}) == parents.Keys - seen - {x};
      }
      CoveredStep(parents, selected, x);
      seen := seen + {x};
      parent := if x in parents then parents[x] else None;
    }
    return false;
  }

  lemma CoveredStep(p: Parents, selected: set<Id>, x: Id)
    requires x !in selected
    ensures CoveredFrom(p, selected, Some(x)) <==> CoveredFrom(p, selected, if x in p then p[x] else None)
  {
    if CoveredFrom(p, selected, Some(x)) {
      var a :| a in selected && Under(p, x, a);
      StrictIsUnder(p, x, a);
      FirstStep(p, x, a);
    }
    if x in p && p[x].Some? && CoveredFrom(p, selected, p[x]) {
      var a :| a in selected && Under(p, p[x].value, a);
      ParentIsAbove(p, x, p[x].value);
      UnderTransitive(p, x, p[x].value, a);
    }
  }

  lemma CycleUncovered(p: Parents, selected: set<Id>, seen: set<Id>, x: Id)
    requires ClosedExcept(p, seen, Some(x)) && x in seen && seen !! selected
    ensures !CoveredFrom(p, selected, Some(x))
  {
    if CoveredFrom(p, selected, Some(x)) {
      var a :| a in selected && Under(p, x, a);
      var n: nat :| Up(p, x, n) == Some(a);
      StaysIn(p, x, seen, n);
    }
  }

  /** Every parent of a member is a member, or is where the walk goes next. */
  predicate ClosedExcept(p: Parents, seen: set<Id>, next: Option<Id>) {
    forall y :: y in seen && y in p && p[y].Some? ==> p[y].value in seen || p[y] == next
  }

  lemma {:induction false} StaysIn(p: Parents, x: Id, seen: set<Id>, n: nat)
    requires ClosedExcept(p, seen, Some(x)) && x in seen
    ensures Up(p, x, n).Some? ==> Up(p, x, n).value in seen
  {
    if n > 0 { StaysIn(p, x, seen, n - 1); }
  }

  // ---- the whole collection ----

  /** The items of one workspace: its selected roots, or the workspace itself when there are none. */
  ghost function BundleItems(c: Contents, roots: seq<(Id, Id)>): seq<Item> {
    var selected := RootsOf(c, roots);
    if selected == [] then [WorkspaceTree(c)] else Map(selected, f => RootTree(c, f))
  }

  ghost function CollectionItems(bundles: seq<Contents>, roots: seq<(Id, Id)>): seq<Item> {
    Flatten(Map(bundles, c => BundleItems(c, roots)))
  }

  const EXPORT_NAME: Bytes := Ascii("Voleeo Export")

  /** `to_postman_with_roots`: the collection's name and items. */
  method ToPostmanWithRoots(bundles: seq<Contents>, roots: seq<(Id, Id)>) returns (name: Bytes, items: seq<Item>)
    ensures items == CollectionItems(bundles, roots)
    ensures name == if |bundles| != 1 then EXPORT_NAME
                    else if |RootsOf(bundles[0], roots)| == 1 then RootsOf(bundles[0], roots)[0].name
                    else bundles[0].name
  {
    if |bundles| == 1 {
      var selected := RootFolders(bundles[0], roots);
      name := if |selected| == 1 then selected[0].name else bundles[0].name;
    } else {
      name := EXPORT_NAME;
    }
    items := [];
    ghost var f := (c: Contents) => BundleItems(c, roots);
    for i := 0 to |bundles|
      invariant items == Flatten(Map(bundles[..i], f))
    {
      var selected := RootFolders(bundles[i], roots);
      var mine := if selected == [] then [WorkspaceTree(bundles[i])] else Map(selected, g => RootTree(bundles[i], g));
      assert mine == BundleItems(bundles[i], roots);
      FlattenSnoc(bundles, i, f);
      items := items + mine;
    }
    assert bundles[..|bundles|] == bundles;
  }

  lemma FlattenSnoc(bundles: seq<Contents>, i: nat, f: Contents -> seq<Item>)
    requires i < |bundles|
    ensures Flatten(Map(bundles[..i + 1], f)) == Flatten(Map(bundles[..i], f)) + f(bundles[i])
  {
    assert Map(bundles[..i + 1], f) == Map(bundles[..i], f) + [f(bundles[i])];
    FlattenAppend(Map(bundles[..i], f), [f(bundles[i])]);
    assert [f(bundles[i])][1..] == [];
    assert f(bundles[i]) + [] == f(bundles[i]);
  }
}
