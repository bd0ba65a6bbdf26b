/** Importing a tree into a workspace and exporting the workspace gives the tree back. */
module ImportThenExport {
  import opened Text
  import opened Sequences
  import opened Forest
  import opened Bundles
  import opened PostmanExport
  import opened InheritedAuth
  import opened ImportIr
  import opened ImportTree

  ghost function NewIds(items: seq<ImportedItem>, num: Numbering): set<Id> {
    set k | 0 <= k < Size(items) :: num.ids(k)
  }

  ghost function NewNodes(items: seq<ImportedItem>, num: Numbering): seq<Node> { Preorder(items, None, num, 0) }

  ghost predicate Foreign(x: Option<Id>, ids: set<Id>) { x.Some? ==> x.value !in ids }

  /** No folder or request has one of the ids, or lies in a folder with one. */
  ghost predicate Unmentioned(c: Contents, ids: set<Id>) {
    && (forall f :: f in c.folders ==> f.id !in ids && Foreign(f.folderId, ids))
    && (forall r :: r in c.requests ==> r.id !in ids && Foreign(r.folderId, ids))
  }

  /** Everything at the workspace root comes before `base`. */
  ghost predicate RootsBefore(c: Contents, base: int) {
    && (forall f :: f in c.folders && f.folderId == None ==> f.order < base)
    && (forall r :: r in c.requests && r.folderId == None ==> r.order < base)
  }

  /** `c'` is `c` with the plan written into it: what was there keeps its order in the lists, and the new
      folders and requests may be listed anywhere. */
  ghost predicate Landed(c: Contents, c': Contents, items: seq<ImportedItem>, num: Numbering) {
    var ids, nodes := NewIds(items, num), NewNodes(items, num);
    && c'.auth == c.auth
    && Filter(c'.folders, (f: ApiFolder) => f.id !in ids) == c.folders
    && multiset(c'.folders) == multiset(c.folders) + multiset(FoldersOf(nodes))
    && Filter(c'.requests, (r: HttpRequest) => r.id !in ids) == c.requests
    && multiset(c'.requests) == multiset(c.requests) + multiset(RequestsOf(nodes))
  }

  ghost predicate Imported(c: Contents, c': Contents, items: seq<ImportedItem>, num: Numbering) {
    Distinct(num.ids) && Unmentioned(c, NewIds(items, num)) && RootsBefore(c, num.base) && Landed(c, c', items, num)
  }

  // ---- the new nodes ----

  lemma NewNodesAre(items: seq<ImportedItem>, num: Numbering)
    ensures forall n :: n in NewNodes(items, num) ==>
              IdOf(n) in NewIds(items, num) && OrderOf(n) >= num.base
                && (ParentOf(n) == None || ParentOf(n).value in NewIds(items, num))
  {
    PreorderNumbers(items, None, num, 0);
    var nodes := NewNodes(items, num);
    forall n | n in nodes
      ensures IdOf(n) in NewIds(items, num) && OrderOf(n) >= num.base
          && (ParentOf(n) == None || ParentOf(n).value in NewIds(items, num))
    {
      var i: nat :| i < |nodes| && nodes[i] == n;
      if ParentOf(n) != None && ParentOf(n).value !in NewIds(items, num) {
        ForeignParent(items, None, num, 0, ParentOf(n));
      }
    }
  }

  lemma {:induction false} FoldersCount(nodes: seq<Node>, f: ApiFolder)
    ensures multiset(FoldersOf(nodes))[f] == multiset(nodes)[FolderNode(f)]
  {
    if nodes != [] {
      FoldersCount(nodes[1..], f);
      MultisetSplit(nodes);
      assert multiset(FolderIn(nodes[0]))[f] == if nodes[0] == FolderNode(f) then 1 else 0;
    }
  }

  lemma {:induction false} RequestsCount(nodes: seq<Node>, r: HttpRequest)
    ensures multiset(RequestsOf(nodes))[r] == multiset(nodes)[HttpNode(r)]
  {
    if nodes != [] {
      RequestsCount(nodes[1..], r);
      MultisetSplit(nodes);
      assert multiset(RequestIn(nodes[0]))[r] == if nodes[0] == HttpNode(r) then 1 else 0;
    }
  }

  // ---- children after the import ----

  ghost function IsOld(ids: set<Id>): Node -> bool { n => IdOf(n) !in ids }

  ghost function IsNew(ids: set<Id>): Node -> bool { n => IdOf(n) in ids }

  ghost function ScopeOf(c: Contents, q: Option<Id>): seq<Node> { FolderNodes(c.folders, q) + HttpNodes(c.requests, q) }

  lemma ScopeCount(c: Contents, q: Option<Id>, n: Node)
    ensures multiset(ScopeOf(c, q))[n]
         == if ParentOf(n) != q then 0
            else match n case FolderNode(f) => multiset(c.folders)[f] case HttpNode(r) => multiset(c.requests)[r]
  {
    FoldersCounted(c.folders, q, n);
    RequestsCounted(c.requests, q, n);
  }

  lemma {:induction false} FolderNodesFilter(folders: seq<ApiFolder>, q: Option<Id>, ids: set<Id>)
    ensures Filter(FolderNodes(folders, q), IsOld(ids))
        == FolderNodes(Filter(folders, (f: ApiFolder) => f.id !in ids), q)
  {
    if folders != [] {
      var f, rest := folders[0], folders[1..];
      assert folders == [f] + rest;
      FolderNodesFilter(rest, q, ids);
      FolderNodesHead(f, rest, q);
      FilterHead(FolderNode(f), FolderNodes(rest, q), IsOld(ids));
      FilterHead(f, rest, (g: ApiFolder) => g.id !in ids);
      FolderNodesHead(f, Filter(rest, (g: ApiFolder) => g.id !in ids), q);
    }
  }

  lemma {:induction false} HttpNodesFilter(requests: seq<HttpRequest>, q: Option<Id>, ids: set<Id>)
    ensures Filter(HttpNodes(requests, q), IsOld(ids))
        == HttpNodes(Filter(requests, (r: HttpRequest) => r.id !in ids), q)
  {
    if requests != [] {
      var r, rest := requests[0], requests[1..];
      assert requests == [r] + rest;
      HttpNodesFilter(rest, q, ids);
      HttpNodesHead(r, rest, q);
      FilterHead(HttpNode(r), HttpNodes(rest, q), IsOld(ids));
      FilterHead(r, rest, (g: HttpRequest) => g.id !in ids);
      HttpNodesHead(r, Filter(rest, (g: HttpRequest) => g.id !in ids), q);
    }
  }

  lemma OldScope(c: Contents, c': Contents, items: seq<ImportedItem>, num: Numbering, q: Option<Id>)
    requires Imported(c, c', items, num)
    ensures Filter(ScopeOf(c', q), IsOld(NewIds(items, num))) == ScopeOf(c, q)
  {
    var ids := NewIds(items, num);
    FilterAppend(FolderNodes(c'.folders, q), HttpNodes(c'.requests, q), IsOld(ids));
    FolderNodesFilter(c'.folders, q, ids);
    HttpNodesFilter(c'.requests, q, ids);
  }

  /** The new nodes of a scope, counted. */
  lemma NewScopeCount(c: Contents, c': Contents, items: seq<ImportedItem>, num: Numbering, q: Option<Id>, n: Node)
    requires Imported(c, c', items, num) && IdOf(n) in NewIds(items, num)
    ensures multiset(ScopeOf(c', q))[n] == multiset(InScope(NewNodes(items, num), q))[n]
  {
    var nodes := NewNodes(items, num);
    ScopeCount(c', q, n);
    FilterCount(nodes, (m: Node) => ParentOf(m) == q, n);
    match n {
      case FolderNode(f) =>
        FoldersCount(nodes, f);
        assert multiset(c.folders)[f] == 0;
      case HttpNode(r) =>
        RequestsCount(nodes, r);
        assert multiset(c.requests)[r] == 0;
    }
  }

  lemma NewScope(c: Contents, c': Contents, items: seq<ImportedItem>, num: Numbering, q: Option<Id>)
    requires Imported(c, c', items, num)
    ensures multiset(Filter(ScopeOf(c', q), IsNew(NewIds(items, num)))) == multiset(InScope(NewNodes(items, num), q))
  {
    var ids, nodes := NewIds(items, num), InScope(NewNodes(items, num), q);
    var mine := Filter(ScopeOf(c', q), IsNew(ids));
    NewNodesAre(items, num);
    forall n ensures multiset(mine)[n] == multiset(nodes)[n] {
      FilterCount(ScopeOf(c', q), IsNew(ids), n);
      if IdOf(n) in ids {
        NewScopeCount(c, c', items, num, q, n);
      } else {
        assert n !in NewNodes(items, num);
      }
    }
  }

  lemma ScopeMembers(c: Contents, c': Contents, items: seq<ImportedItem>, num: Numbering, q: Option<Id>, n: Node)
    requires Imported(c, c', items, num) && n in ScopeOf(c', q)
    ensures ParentOf(n) == q
    ensures if IdOf(n) in NewIds(items, num) then n in NewNodes(items, num)
            else match n case FolderNode(f) => f in c.folders case HttpNode(r) => r in c.requests
  {
    var ids := NewIds(items, num);
    ScopeCount(c', q, n);
    if IdOf(n) in ids {
      NewScopeCount(c, c', items, num, q, n);
      assert n in InScope(NewNodes(items, num), q);
    } else {
      OldScope(c, c', items, num, q);
      ScopeCount(c, q, n);
      assert n in Filter(ScopeOf(c', q), IsOld(ids));
    }
  }

  /** The old items of a scope that receives new ones come first. */
  lemma OldFirst(c: Contents, c': Contents, items: seq<ImportedItem>, num: Numbering, q: Option<Id>)
    requires Imported(c, c', items, num)
    ensures Splits(ScopeOf(c', q), NodeLeq, IsOld(NewIds(items, num)), IsNew(NewIds(items, num)))
  {
    var ids := NewIds(items, num);
    NewNodesAre(items, num);
    forall x, y | x in ScopeOf(c', q) && y in ScopeOf(c', q) && IsOld(ids)(x) && IsNew(ids)(y)
      ensures OrderOf(x) < OrderOf(y)
    {
      ScopeMembers(c, c', items, num, q, x);
      ScopeMembers(c, c', items, num, q, y);
    }
  }

  lemma NewSorted(items: seq<ImportedItem>, num: Numbering, q: Option<Id>)
    ensures Sorted(InScope(NewNodes(items, num), q), (a: Node, b: Node) => OrderOf(a) < OrderOf(b))
  {
    PreorderNumbers(items, None, num, 0);
    FilterSorted(NewNodes(items, num), (n: Node) => ParentOf(n) == q, (a: Node, b: Node) => OrderOf(a) < OrderOf(b));
  }

  /** Every scope keeps its items, followed by the new ones. */
  lemma ChildrenAfterImport(c: Contents, c': Contents, items: seq<ImportedItem>, num: Numbering, q: Option<Id>)
    requires Imported(c, c', items, num)
    ensures Children(c', q) == Children(c, q) + InScope(NewNodes(items, num), q)
  {
    var ids := NewIds(items, num);
    OldScope(c, c', items, num, q);
    OldFirst(c, c', items, num, q);
    SortSplit(ScopeOf(c', q), NodeLeq, IsOld(ids), IsNew(ids));
    NewScope(c, c', items, num, q);
    NewSorted(items, num, q);
    SortsTo(Filter(ScopeOf(c', q), IsNew(ids)), InScope(NewNodes(items, num), q));
  }

  lemma SortsTo(nodes: seq<Node>, sorted: seq<Node>)
    requires multiset(nodes) == multiset(sorted) && Sorted(sorted, (a: Node, b: Node) => OrderOf(a) < OrderOf(b))
    ensures SortBy(nodes, NodeLeq) == sorted
  {
    SortPermutes(nodes, NodeLeq);
    SortSorts(nodes, NodeLeq);
    SortedUnique(sorted, SortBy(nodes, NodeLeq), NodeLeq);
  }

  // ---- what was there is exported as before ----

  lemma ByIdSnoc(folders: seq<ApiFolder>, f: ApiFolder)
    ensures ById(folders + [f]) == ById(folders)[f.id := f]
  {
    assert (folders + [f])[..|folders|] == folders;
  }

  ghost function Outsiders(folders: seq<ApiFolder>, ids: set<Id>): seq<ApiFolder> {
    Filter(folders, (f: ApiFolder) => f.id !in ids)
  }

  lemma OutsidersSnoc(folders: seq<ApiFolder>, f: ApiFolder, ids: set<Id>)
    ensures Outsiders(folders + [f], ids)
        == if f.id in ids then Outsiders(folders, ids) else Outsiders(folders, ids) + [f]
  {
    FilterSnoc(folders, f, (g: ApiFolder) => g.id !in ids);
  }

  ghost function Entry(folders: seq<ApiFolder>, x: Id): Option<ApiFolder> {
    if x in ById(folders) then Some(ById(folders)[x]) else None
  }

  lemma EntrySnoc(folders: seq<ApiFolder>, f: ApiFolder, x: Id)
    ensures Entry(folders + [f], x) == if x == f.id then Some(f) else Entry(folders, x)
  {
    ByIdSnoc(folders, f);
  }

  lemma {:induction false} ByIdFiltered(folders: seq<ApiFolder>, ids: set<Id>, x: Id)
    ensures Entry(Outsiders(folders, ids), x) == if x in ids then None else Entry(folders, x)
  {
    if folders != [] {
      var before, f := folders[..|folders| - 1], folders[|folders| - 1];
      assert folders == before + [f];
      ByIdFiltered(before, ids, x);
      OutsidersSnoc(before, f, ids);
      EntrySnoc(before, f, x);
      EntrySnoc(Outsiders(before, ids), f, x);
    }
  }

  lemma AuthUntouched(c: Contents, c': Contents, items: seq<ImportedItem>, num: Numbering, folderId: Option<Id>)
    requires Imported(c, c', items, num) && Foreign(folderId, NewIds(items, num))
    ensures NearestActive(ById(c'.folders), folderId, {}) == NearestActive(ById(c.folders), folderId, {})
  {
    var ids := NewIds(items, num);
    assert Outsiders(c'.folders, ids) == c.folders;
    forall x ensures Entry(c.folders, x) == if x in ids then None else Entry(c'.folders, x) {
      ByIdFiltered(c'.folders, ids, x);
    }
    ByIdMeaning(c.folders);
    NearestKept(c'.folders, c.folders, folderId, {});
  }

  lemma NestedUntouched(c: Contents, c': Contents, items: seq<ImportedItem>, num: Numbering, folderId: Option<Id>,
                        auth: Auth)
    requires Imported(c, c', items, num) && Foreign(folderId, NewIds(items, num))
    ensures NestedAuth(c', folderId, auth) == NestedAuth(c, folderId, auth)
  {
    AuthUntouched(c, c', items, num, folderId);
  }

  lemma ScopeUntouched(c: Contents, c': Contents, items: seq<ImportedItem>, num: Numbering, q: Option<Id>)
    requires Imported(c, c', items, num) && q.Some? && Foreign(q, NewIds(items, num))
    ensures Children(c', q) == Children(c, q)
  {
    ChildrenAfterImport(c, c', items, num, q);
    NewNodesAre(items, num);
    InScopeNone(NewNodes(items, num), q);
  }

  ghost predicate NodeFrom(c: Contents, n: Node) {
    match n case FolderNode(f) => f in c.folders case HttpNode(r) => r in c.requests
  }

  ghost predicate NodesFrom(c: Contents, nodes: seq<Node>) { forall n :: n in nodes ==> NodeFrom(c, n) }

  lemma FromHead(c: Contents, nodes: seq<Node>)
    requires NodesFrom(c, nodes) && nodes != []
    ensures NodeFrom(c, nodes[0]) && NodesFrom(c, nodes[1..])
  {
    forall n | n in nodes[1..] ensures NodeFrom(c, n) { assert n in nodes; }
  }

  lemma ChildrenFrom(c: Contents, q: Option<Id>)
    ensures NodesFrom(c, Children(c, q))
  {
    ChildrenMembers(c, q);
  }

  lemma OldNodesStay(c: Contents, c': Contents, items: seq<ImportedItem>, num: Numbering, nodes: seq<Node>)
    requires Imported(c, c', items, num) && NodesFrom(c, nodes)
    ensures NodesFrom(c', nodes)
  {
    forall n | n in nodes ensures NodeFrom(c', n) {
      assert NodeFrom(c, n);
      match n
      case FolderNode(f) => assert f in Filter(c'.folders, (g: ApiFolder) => g.id !in NewIds(items, num));
      case HttpNode(r) => assert r in Filter(c'.requests, (g: HttpRequest) => g.id !in NewIds(items, num));
    }
  }

  lemma {:induction false} OldItems(c: Contents, c': Contents, items: seq<ImportedItem>, num: Numbering,
                                    nodes: seq<Node>, path: set<Id>)
    requires Imported(c, c', items, num) && NodesFrom(c, nodes) && NodesFrom(c', nodes)
    ensures BuildNodes(c', nodes, path) == BuildNodes(c, nodes, path)
    decreases |IdsOf(c.folders) - path|, 1, |nodes|
  {
    if nodes != [] {
      FromHead(c, nodes);
      FromHead(c', nodes);
      OldItem(c, c', items, num, nodes[0], path);
      OldItems(c, c', items, num, nodes[1..], path);
    }
  }

  lemma {:induction false} OldItem(c: Contents, c': Contents, items: seq<ImportedItem>, num: Numbering, node: Node,
                                   path: set<Id>)
    requires Imported(c, c', items, num) && NodeFrom(c, node) && NodeFrom(c', node)
    ensures NodeItem(c', node, path) == NodeItem(c, node, path)
    decreases |IdsOf(c.folders) - path|, 0, 0
  {
    match node
    case HttpNode(r) => NestedUntouched(c, c', items, num, r.folderId, r.auth);
    case FolderNode(f) =>
      NestedUntouched(c, c', items, num, f.folderId, f.auth);
      if f.id !in path {
        PathGrows(c.folders, f, path);
        OldFolder(c, c', items, num, f, path + {f.id});
      }
  }

  lemma {:induction false} OldFolder(c: Contents, c': Contents, items: seq<ImportedItem>, num: Numbering, f: ApiFolder,
                                     path: set<Id>)
    requires Imported(c, c', items, num) && f in c.folders
    ensures BuildItems(c', Some(f.id), path) == BuildItems(c, Some(f.id), path)
    decreases |IdsOf(c.folders) - path|, 2
  {
    ScopeUntouched(c, c', items, num, Some(f.id));
    ChildrenFrom(c, Some(f.id));
    ChildrenFrom(c', Some(f.id));
    OldItems(c, c', items, num, Children(c, Some(f.id)), path);
  }

  // ---- what is new is exported as imported ----

  lemma {:induction false} BuildAppend(c: Contents, a: seq<Node>, b: seq<Node>, path: set<Id>)
    requires NodesFrom(c, a) && NodesFrom(c, b) && NodesFrom(c, a + b)
    ensures BuildNodes(c, a + b, path) == BuildNodes(c, a, path) + BuildNodes(c, b, path)
    decreases |a|
  {
    if a == [] {
      assert a + b == b;
    } else {
      assert (a + b)[1..] == a[1..] + b;
      assert (a + b)[0] == a[0];
      FromHead(c, a);
      FromHead(c, a + b);
      BuildAppend(c, a[1..], b, path);
    }
  }

  /** The export can look up every folder of the imported tree by its number. */
  ghost predicate Linked(c': Contents, all: seq<Node>, num: Numbering, lo: nat, hi: nat) {
    forall k: nat :: lo <= k < hi ==> Children(c', Some(num.ids(k))) == InScope(all, Some(num.ids(k)))
  }

  ghost predicate Unvisited(path: set<Id>, num: Numbering, lo: nat, hi: nat) {
    forall k: nat :: lo <= k < hi ==> num.ids(k) !in path
  }

  /** All the export needs to rebuild the items numbered `lo` to `hi`. */
  ghost predicate Ready(c': Contents, all: seq<Node>, num: Numbering, lo: nat, hi: nat, path: set<Id>) {
    Linked(c', all, num, lo, hi) && Unvisited(path, num, lo, hi)
  }

  lemma {:induction false} Rebuilt(c': Contents, all: seq<Node>, items: seq<ImportedItem>, parent: Option<Id>,
                                   num: Numbering, k: nat, path: set<Id>)
    requires Distinct(num.ids) && Wired(all, items, num, k) && Ready(c', all, num, k, k + Size(items), path)
    requires NodesFrom(c', Tops(items, parent, num, k))
    ensures ExportedShapes(BuildNodes(c', Tops(items, parent, num, k), path)) == ImportedShapes(items)
    decreases items
  {
    if items != [] {
      var tops, next := Tops(items, parent, num, k), k + SizeOf(items[0]);
      assert tops[0] == NodeFor(items[0], parent, num, k) && tops[1..] == Tops(items[1..], parent, num, next);
      FromHead(c', tops);
      assert k + Size(items) == next + Size(items[1..]);
      ReadyParts(c', all, num, k, next, k + Size(items), path);
      RebuiltItem(c', all, items[0], parent, num, k, path);
      Rebuilt(c', all, items[1..], parent, num, next, path);
      HeadShape(c', tops, path);
    }
  }

  lemma ReadyParts(c': Contents, all: seq<Node>, num: Numbering, lo: nat, mid: nat, hi: nat, path: set<Id>)
    requires Ready(c', all, num, lo, hi, path) && lo <= mid <= hi
    ensures Ready(c', all, num, lo, mid, path) && Ready(c', all, num, mid, hi, path)
  {
  }

  lemma HeadShape(c': Contents, nodes: seq<Node>, path: set<Id>)
    requires nodes != [] && NodesFrom(c', nodes) && NodeFrom(c', nodes[0]) && NodesFrom(c', nodes[1..])
    ensures ExportedShapes(BuildNodes(c', nodes, path))
         == [ExportedShape(NodeItem(c', nodes[0], path))] + ExportedShapes(BuildNodes(c', nodes[1..], path))
  {
    var built := BuildNodes(c', nodes, path);
    assert built[0] == NodeItem(c', nodes[0], path) && built[1..] == BuildNodes(c', nodes[1..], path);
  }

  lemma {:induction false} RebuiltItem(c': Contents, all: seq<Node>, item: ImportedItem, parent: Option<Id>,
                                       num: Numbering, k: nat, path: set<Id>)
    requires Distinct(num.ids) && WiredItem(all, item, num, k) && Ready(c', all, num, k, k + SizeOf(item), path)
    requires NodeFrom(c', NodeFor(item, parent, num, k))
    ensures ExportedShape(NodeItem(c', NodeFor(item, parent, num, k), path)) == ImportedShape(item)
    decreases item
  {
    if item.Folder? {
      RebuiltFolder(c', all, item.folder, num, k, path);
    }
  }

  lemma {:induction false} RebuiltFolder(c': Contents, all: seq<Node>, f: ImportedFolder, num: Numbering, k: nat,
                                         path: set<Id>)
    requires Distinct(num.ids) && WiredItem(all, Folder(f), num, k)
        && Ready(c', all, num, k, k + SizeOf(Folder(f)), path)
    ensures ExportedShapes(BuildItems(c', Some(num.ids(k)), path + {num.ids(k)})) == ImportedShapes(f.items)
    decreases f
  {
    var x := num.ids(k);
    assert Children(c', Some(x)) == Tops(f.items, Some(x), num, k + 1);
    ChildrenFrom(c', Some(x));
    Rebuilt(c', all, f.items, Some(x), num, k + 1, path + {x});
  }

  /** Import, then export: a workspace that receives an imported tree is exported as before, followed by that
      tree: the same names, nesting, sibling order, auth and payloads, although folders and requests went into
      two lists and came back in any order. */
  lemma ImportExportRoundTrip(c: Contents, c': Contents, items: seq<ImportedItem>, num: Numbering)
    requires Imported(c, c', items, num)
    ensures var before, after := BuildItems(c, None, {}), BuildItems(c', None, {});
            && before <= after
            && ExportedShapes(after[|before|..]) == ImportedShapes(items)
  {
    RootsAfterImport(c, c', items, num);
    var tops := Tops(items, None, num, 0);
    BuildAppend(c', Children(c, None), tops, {});
    OldItems(c, c', items, num, Children(c, None), {});
    NewRebuilt(c, c', items, num);
  }

  lemma RootsAfterImport(c: Contents, c': Contents, items: seq<ImportedItem>, num: Numbering)
    requires Imported(c, c', items, num)
    ensures var tops := Tops(items, None, num, 0);
            && Children(c', None) == Children(c, None) + tops
            && NodesFrom(c, Children(c, None)) && NodesFrom(c', Children(c, None)) && NodesFrom(c', tops)
            && NodesFrom(c', Children(c, None) + tops)
  {
    ChildrenAfterImport(c, c', items, num, None);
    TopsInScope(items, None, num, 0);
    ChildrenFrom(c, None);
    ChildrenFrom(c', None);
    OldNodesStay(c, c', items, num, Children(c, None));
    var tops := Tops(items, None, num, 0);
    forall n | n in tops ensures NodeFrom(c', n) { assert n in Children(c, None) + tops; }
  }

  lemma NewRebuilt(c: Contents, c': Contents, items: seq<ImportedItem>, num: Numbering)
    requires Imported(c, c', items, num) && NodesFrom(c', Tops(items, None, num, 0))
    ensures ExportedShapes(BuildNodes(c', Tops(items, None, num, 0), {})) == ImportedShapes(items)
  {
    var all := NewNodes(items, num);
    NewWired(items, num);
    LinkedAfterImport(c, c', items, num);
    Rebuilt(c', all, items, None, num, 0, {});
  }

  lemma NewWired(items: seq<ImportedItem>, num: Numbering)
    requires Distinct(num.ids)
    ensures Wired(NewNodes(items, num), items, num, 0)
  {
    PreorderWired(items, None, num, 0, [], []);
    assert [] + NewNodes(items, num) + [] == NewNodes(items, num);
  }

  lemma NewFolder(items: seq<ImportedItem>, num: Numbering, f: ApiFolder)
    requires multiset(FoldersOf(NewNodes(items, num)))[f] > 0
    ensures f.id in NewIds(items, num)
  {
    FoldersCount(NewNodes(items, num), f);
    NewNodesAre(items, num);
    assert FolderNode(f) in NewNodes(items, num);
  }

  lemma NewRequest(items: seq<ImportedItem>, num: Numbering, r: HttpRequest)
    requires multiset(RequestsOf(NewNodes(items, num)))[r] > 0
    ensures r.id in NewIds(items, num)
  {
    RequestsCount(NewNodes(items, num), r);
    NewNodesAre(items, num);
    assert HttpNode(r) in NewNodes(items, num);
  }

  /** A new workspace holding the plan in whatever order exports as exactly the imported tree. */
  lemma NewWorkspaceRoundTrip(c: Contents, items: seq<ImportedItem>, num: Numbering)
    requires Distinct(num.ids)
    requires multiset(c.folders) == multiset(FoldersOf(NewNodes(items, num)))
    requires multiset(c.requests) == multiset(RequestsOf(NewNodes(items, num)))
    ensures ExportedShapes(BuildItems(c, None, {})) == ImportedShapes(items)
  {
    var empty := c.(folders := [], requests := []);
    forall f | f in c.folders ensures f.id in NewIds(items, num) { NewFolder(items, num, f); }
    forall r | r in c.requests ensures r.id in NewIds(items, num) { NewRequest(items, num, r); }
    FilterNone(c.folders, (f: ApiFolder) => f.id !in NewIds(items, num));
    FilterNone(c.requests, (r: HttpRequest) => r.id !in NewIds(items, num));
    ImportExportRoundTrip(empty, c, items, num);
    NothingThere(empty);
  }

  lemma NothingThere(c: Contents)
    requires c.folders == [] && c.requests == []
    ensures BuildItems(c, None, {}) == []
  {
    ChildrenMembers(c, None);
    assert ScopeOf(c, None) == [];
  }

  lemma LinkedAfterImport(c: Contents, c': Contents, items: seq<ImportedItem>, num: Numbering)
    requires Imported(c, c', items, num)
    ensures Linked(c', NewNodes(items, num), num, 0, Size(items))
  {
    forall k: nat | k < Size(items)
      ensures Children(c', Some(num.ids(k))) == InScope(NewNodes(items, num), Some(num.ids(k)))
    {
      ChildrenAfterImport(c, c', items, num, Some(num.ids(k)));
      NothingInside(c, NewIds(items, num), num.ids(k));
    }
  }

  lemma NothingInside(c: Contents, ids: set<Id>, x: Id)
    requires Unmentioned(c, ids) && x in ids
    ensures Children(c, Some(x)) == []
  {
    var nodes := Children(c, Some(x));
    if nodes != [] { ChildrenCounted(c, Some(x), nodes[0]); }
  }
}
