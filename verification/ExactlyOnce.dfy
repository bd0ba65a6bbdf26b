/** What reaches the exported collection: every kept request exactly once. */
module ExactlyOnce {
  import opened Text
  import opened Sequences
  import opened Forest
  import opened Bundles
  import opened PostmanExport

  // ---- emitted requests ----

  /** The requests in an item tree, with multiplicity. */
  function Emitted(items: seq<Item>): multiset<HttpRequest>
    decreases items
  {
    if items == [] then multiset{} else EmittedItem(items[0]) + Emitted(items[1..])
  }

  function EmittedItem(item: Item): multiset<HttpRequest>
    decreases item
  {
    match item
    case HttpItem(r, _) => multiset{r}
    case FolderItem(_, _, items) => Emitted(items)
    case WorkspaceItem(_, _, items) => Emitted(items)
    case Endless => multiset{}
  }

  predicate Finite(items: seq<Item>)
    decreases items
  {
    items != [] ==> FiniteItem(items[0]) && Finite(items[1..])
  }

  predicate FiniteItem(item: Item)
    decreases item
  {
    match item
    case HttpItem(_, _) => true
    case FolderItem(_, _, items) => Finite(items)
    case WorkspaceItem(_, _, items) => Finite(items)
    case Endless => false
  }

  ghost predicate Inside(p: Parents, q: HttpRequest, a: Id) { q.folderId.Some? && Under(p, q.folderId.value, a) }

  ghost predicate InsideSome(p: Parents, q: HttpRequest, nodes: seq<Node>) {
    exists f :: FolderNode(f) in nodes && Inside(p, q, f.id)
  }

  /** The folder can be entered: it is on no cycle, and nothing around it lies inside it. */
  ghost predicate Enterable(c: Contents, f: ApiFolder, path: set<Id>) {
    var p := ParentsById(c.folders);
    f in c.folders && f.id !in path && !OnCycle(p, f.id) && forall y :: y in path ==> !Under(p, y, f.id)
  }

  /** A list of siblings: every folder can be entered, once, and no two have anything inside in common. */
  ghost predicate Siblings(c: Contents, nodes: seq<Node>, path: set<Id>) {
    var p := ParentsById(c.folders);
    && (forall f :: FolderNode(f) in nodes ==> Enterable(c, f, path))
    && (forall f :: multiset(nodes)[FolderNode(f)] <= 1)
    && (forall f, g, x :: FolderNode(f) in nodes && FolderNode(g) in nodes && Under(p, x, f.id) && Under(p, x, g.id) ==>
      f.id == g.id)
  }

  lemma SameIdSameFolder(folders: seq<ApiFolder>, f: ApiFolder, g: ApiFolder)
    requires UniqueIds(folders) && f in folders && g in folders && f.id == g.id
    ensures f == g
  {
  }

  lemma FolderLink(folders: seq<ApiFolder>, f: ApiFolder)
    requires UniqueIds(folders) && f in folders
    ensures f.id in ParentsById(folders) && ParentsById(folders)[f.id] == f.folderId
  {
    ParentsMeaning(folders);
    var i :| 0 <= i < |folders| && folders[i] == f;
  }

  lemma FolderOf(folders: seq<ApiFolder>, x: Id) returns (f: ApiFolder)
    requires UniqueIds(folders) && x in ParentsById(folders)
    ensures f in folders && f.id == x && ParentsById(folders)[x] == f.folderId
  {
    ParentsMeaning(folders);
    var i :| 0 <= i < |folders| && folders[i].id == x;
    f := folders[i];
  }

  /** The children of an enterable folder are siblings again. */
  lemma ChildrenAreSiblings(c: Contents, f: ApiFolder, path: set<Id>)
    requires UniqueIds(c.folders) && Enterable(c, f, path)
    ensures Siblings(c, Children(c, Some(f.id)), path + {f.id})
  {
    var p, nodes := ParentsById(c.folders), Children(c, Some(f.id));
    ChildrenMembers(c, Some(f.id));
    forall d | FolderNode(d) in nodes ensures Enterable(c, d, path + {f.id}) {
      FolderLink(c.folders, d);
      NoCycleBelow(p, f.id, d.id);
      ParentIsAbove(p, d.id, f.id);
      UnderSelf(p, d.id);
      forall y | y in path ensures !Under(p, y, d.id) {
        if Under(p, y, d.id) { UnderTransitive(p, y, d.id, f.id); }
      }
    }
    forall d, e, x | FolderNode(d) in nodes && FolderNode(e) in nodes && Under(p, x, d.id) && Under(p, x, e.id)
      ensures d.id == e.id
    {
      FolderLink(c.folders, d);
      FolderLink(c.folders, e);
      SiblingsDisjoint(p, f.id, d.id, e.id, x);
    }
  }

  lemma TopLevelAreSiblings(c: Contents)
    requires UniqueIds(c.folders)
    ensures Siblings(c, Children(c, None), {})
  {
    var p, nodes := ParentsById(c.folders), Children(c, None);
    ChildrenMembers(c, None);
    forall d | FolderNode(d) in nodes ensures Enterable(c, d, {}) {
      FolderLink(c.folders, d);
      TopLevelDisjoint(p, d.id, d.id, d.id);
    }
    forall d, e, x | FolderNode(d) in nodes && FolderNode(e) in nodes && Under(p, x, d.id) && Under(p, x, e.id)
      ensures d.id == e.id
    {
      FolderLink(c.folders, d);
      FolderLink(c.folders, e);
      TopLevelDisjoint(p, d.id, e.id, x);
    }
  }

  /** A request inside a folder is directly in it or inside one of its child folders, not both. */
  lemma InsideSplits(c: Contents, f: ApiFolder, q: HttpRequest)
    requires UniqueIds(c.folders) && f in c.folders && !OnCycle(ParentsById(c.folders), f.id)
    ensures var p := ParentsById(c.folders);
            && (Inside(p, q, f.id) <==> q.folderId == Some(f.id) || InsideSome(p, q, Children(c, Some(f.id))))
            && !(q.folderId == Some(f.id) && InsideSome(p, q, Children(c, Some(f.id))))
  {
    var p, nodes := ParentsById(c.folders), Children(c, Some(f.id));
    ChildrenMembers(c, Some(f.id));
    if Inside(p, q, f.id) && q.folderId != Some(f.id) {
      StrictIsUnder(p, q.folderId.value, f.id);
      var x := LastStep(p, q.folderId.value, f.id);
      var d := FolderOf(c.folders, x);
      assert FolderNode(d) in nodes;
    }
    if q.folderId == Some(f.id) { UnderSelf(p, f.id); }
    if d :| FolderNode(d) in nodes && Inside(p, q, d.id) {
      FolderLink(c.folders, d);
      ParentIsAbove(p, d.id, f.id);
      UnderTransitive(p, q.folderId.value, d.id, f.id);
      NoCycleBelow(p, f.id, d.id);
    }
  }

  /** How often a list of siblings should emit `q`. */
  ghost function Share(c: Contents, nodes: seq<Node>, q: HttpRequest): nat {
    multiset(nodes)[HttpNode(q)] + if InsideSome(ParentsById(c.folders), q, nodes) then multiset(c.requests)[q] else 0
  }

  ghost function NodeShare(c: Contents, node: Node, q: HttpRequest): nat {
    match node
    case HttpNode(r) => if r == q then 1 else 0
    case FolderNode(f) => if Inside(ParentsById(c.folders), q, f.id) then multiset(c.requests)[q] else 0
  }

  lemma ShareSplits(c: Contents, nodes: seq<Node>, path: set<Id>, q: HttpRequest)
    requires UniqueIds(c.folders) && Siblings(c, nodes, path) && nodes != []
    ensures Siblings(c, nodes[1..], path)
    ensures nodes[0].FolderNode? ==> Enterable(c, nodes[0].folder, path)
    ensures Share(c, nodes, q) == NodeShare(c, nodes[0], q) + Share(c, nodes[1..], q)
  {
    SiblingsTail(c, nodes, path, q);
    MultisetSplit(nodes);
  }

  /** Building the items of a folder emits each request inside it as often as the workspace holds it, and
      nothing else; the recursion comes to an end. */
  lemma {:induction false} FolderEmits(c: Contents, f: ApiFolder, path: set<Id>, q: HttpRequest)
    requires UniqueIds(c.folders) && Enterable(c, f, path)
    ensures var items := BuildItems(c, Some(f.id), path + {f.id});
            Finite(items) && Emitted(items)[q] == NodeShare(c, FolderNode(f), q)
    decreases |IdsOf(c.folders) - (path + {f.id})|, 2, 0
  {
    ChildrenMembers(c, Some(f.id));
    ChildrenAreSiblings(c, f, path);
    InsideSplits(c, f, q);
    NodesEmit(c, Children(c, Some(f.id)), path + {f.id}, q);
  }

  lemma {:induction false} NodesEmit(c: Contents, nodes: seq<Node>, path: set<Id>, q: HttpRequest)
    requires UniqueIds(c.folders) && Siblings(c, nodes, path)
    ensures Finite(BuildNodes(c, nodes, path)) && Emitted(BuildNodes(c, nodes, path))[q] == Share(c, nodes, q)
    decreases |IdsOf(c.folders) - path|, 1, |nodes|
  {
    if nodes != [] {
      ShareSplits(c, nodes, path, q);
      NodesEmit(c, nodes[1..], path, q);
      ItemsCons(NodeItem(c, nodes[0], path), BuildNodes(c, nodes[1..], path));
      NodeEmits(c, nodes[0], path, q);
    }
  }

  lemma {:induction false} NodeEmits(c: Contents, node: Node, path: set<Id>, q: HttpRequest)
    requires UniqueIds(c.folders) && (node.FolderNode? ==> Enterable(c, node.folder, path))
    ensures var item := NodeItem(c, node, path);
            FiniteItem(item) && EmittedItem(item)[q] == NodeShare(c, node, q)
    decreases |IdsOf(c.folders) - path|, 0, 0
  {
    if node.FolderNode? {
      PathGrows(c.folders, node.folder, path);
      FolderEmits(c, node.folder, path, q);
    }
  }

  lemma ItemsCons(item: Item, rest: seq<Item>)
    ensures Emitted([item] + rest) == EmittedItem(item) + Emitted(rest)
    ensures Finite([item] + rest) <==> FiniteItem(item) && Finite(rest)
  {
    assert ([item] + rest)[1..] == rest;
  }

  lemma SiblingsTail(c: Contents, nodes: seq<Node>, path: set<Id>, q: HttpRequest)
    requires UniqueIds(c.folders) && Siblings(c, nodes, path) && nodes != []
    ensures Siblings(c, nodes[1..], path)
    ensures var p := ParentsById(c.folders);
            if nodes[0].FolderNode? then
              && Enterable(c, nodes[0].folder, path)
              && (InsideSome(p, q, nodes) <==> Inside(p, q, nodes[0].folder.id) || InsideSome(p, q, nodes[1..]))
              && !(Inside(p, q, nodes[0].folder.id) && InsideSome(p, q, nodes[1..]))
            else InsideSome(p, q, nodes) <==> InsideSome(p, q, nodes[1..])
  {
    var p, tail := ParentsById(c.folders), nodes[1..];
    MultisetSplit(nodes);
    forall n | n in tail ensures n in nodes {}
    if nodes[0].FolderNode? {
      var f := nodes[0].folder;
      assert FolderNode(f) in nodes;
      assert multiset(tail)[FolderNode(f)] == 0;
      if g :| FolderNode(g) in tail && Inside(p, q, g.id) && Inside(p, q, f.id) {
        SameIdSameFolder(c.folders, f, g);
      }
      if g :| FolderNode(g) in nodes && Inside(p, q, g.id) && g != f {
        assert FolderNode(g) in tail;
      }
    } else {
      if g :| FolderNode(g) in nodes && Inside(p, q, g.id) {
        assert FolderNode(g) in tail;
      }
    }
  }

  // ---- the selected roots ----

  function NodesOf(folders: seq<ApiFolder>): seq<Node> { Map(folders, (f: ApiFolder) => FolderNode(f)) }

  lemma NodesOfMeaning(folders: seq<ApiFolder>)
    ensures forall f :: FolderNode(f) in NodesOf(folders) <==> f in folders
    ensures forall q :: multiset(NodesOf(folders))[HttpNode(q)] == 0
    ensures UniqueIds(folders) ==> forall f :: multiset(NodesOf(folders))[FolderNode(f)] <= 1
  {
    forall n ensures n in NodesOf(folders) <==> multiset(NodesOf(folders))[n] > 0 {}
    forall n
      ensures multiset(NodesOf(folders))[n] == match n case FolderNode(f) => multiset(folders)[f] case HttpNode(_) => 0
    {
      NodesCounted(folders, n);
    }
    if UniqueIds(folders) { FoldersOnce(folders); }
  }

  lemma {:induction false} NodesCounted(folders: seq<ApiFolder>, n: Node)
    ensures multiset(NodesOf(folders))[n] == match n case FolderNode(f) => multiset(folders)[f] case HttpNode(_) => 0
  {
    if folders != [] {
      NodesCounted(folders[1..], n);
      assert folders == [folders[0]] + folders[1..];
      MapCons(folders[0], folders[1..], (f: ApiFolder) => FolderNode(f));
    }
  }

  /** No root lies below another selected folder. */
  lemma RootIsTopmost(p: Parents, selected: set<Id>, f: ApiFolder, a: Id)
    requires f.id in p && p[f.id] == f.folderId && IsRoot(p, selected, f) && a in selected
    ensures !StrictlyUnder(p, f.id, a)
  {
    if StrictlyUnder(p, f.id, a) { FirstStep(p, f.id, a); }
  }

  lemma RootsAreSiblings(c: Contents, roots: seq<(Id, Id)>)
    requires UniqueIds(c.folders)
    ensures Siblings(c, NodesOf(RootsOf(c, roots)), {})
  {
    var p, selected := ParentsById(c.folders), SelectedIds(roots, c.workspaceId);
    var list := RootsOf(c, roots);
    var nodes := NodesOf(list);
    FilterKeepsUnique(c.folders, (f: ApiFolder) => IsRoot(p, selected, f));
    NodesOfMeaning(list);
    forall f | FolderNode(f) in nodes ensures Enterable(c, f, {}) {
      FolderLink(c.folders, f);
      RootIsTopmost(p, selected, f, f.id);
    }
    forall f, g, x | FolderNode(f) in nodes && FolderNode(g) in nodes && Under(p, x, f.id) && Under(p, x, g.id)
      ensures f.id == g.id
    {
      FolderLink(c.folders, f);
      FolderLink(c.folders, g);
      RootIsTopmost(p, selected, f, g.id);
      RootIsTopmost(p, selected, g, f.id);
      Comparable(p, x, f.id, g.id);
      StrictIsUnder(p, f.id, g.id);
      StrictIsUnder(p, g.id, f.id);
    }
  }

  function RootTrees(c: Contents, list: seq<ApiFolder>): seq<Item> { Map(list, f => RootTree(c, f)) }

  lemma RootEmits(c: Contents, f: ApiFolder, q: HttpRequest)
    requires UniqueIds(c.folders) && Enterable(c, f, {})
    ensures FiniteItem(RootTree(c, f)) && EmittedItem(RootTree(c, f))[q] == NodeShare(c, FolderNode(f), q)
  {
    FolderEmits(c, f, {}, q);
    assert {} + {f.id} == {f.id};
  }

  lemma {:induction false} RootsEmit(c: Contents, list: seq<ApiFolder>, q: HttpRequest)
    requires UniqueIds(c.folders) && Siblings(c, NodesOf(list), {})
    ensures Finite(RootTrees(c, list)) && Emitted(RootTrees(c, list))[q] == Share(c, NodesOf(list), q)
  {
    if list != [] {
      assert NodesOf(list)[0] == FolderNode(list[0]) && NodesOf(list)[1..] == NodesOf(list[1..]);
      ShareSplits(c, NodesOf(list), {}, q);
      RootsEmit(c, list[1..], q);
      RootTreesCons(c, list);
      RootEmits(c, list[0], q);
    }
  }

  lemma RootTreesCons(c: Contents, list: seq<ApiFolder>)
    requires list != []
    ensures Finite(RootTrees(c, list)) <==> FiniteItem(RootTree(c, list[0])) && Finite(RootTrees(c, list[1..]))
    ensures Emitted(RootTrees(c, list)) == EmittedItem(RootTree(c, list[0])) + Emitted(RootTrees(c, list[1..]))
  {
    assert RootTrees(c, list) == [RootTree(c, list[0])] + RootTrees(c, list[1..]);
    ItemsCons(RootTree(c, list[0]), RootTrees(c, list[1..]));
  }

  /** The nodes the export starts from. */
  ghost function StartNodes(c: Contents, roots: seq<(Id, Id)>): seq<Node> {
    if RootsOf(c, roots) == [] then Children(c, None) else NodesOf(RootsOf(c, roots))
  }

  /** For any parent links with unique ids, cycles included, the export returns, and emits exactly the requests
      below the roots (of the whole workspace when no root is selected). */
  lemma BundleEmits(c: Contents, roots: seq<(Id, Id)>, q: HttpRequest)
    requires UniqueIds(c.folders)
    ensures Finite(BundleItems(c, roots)) && Emitted(BundleItems(c, roots))[q] == Share(c, StartNodes(c, roots), q)
  {
    if RootsOf(c, roots) == [] {
      TopLevelAreSiblings(c);
      NodesEmit(c, Children(c, None), {}, q);
      ItemsCons(WorkspaceTree(c), []);
      assert BundleItems(c, roots) == [WorkspaceTree(c)] + [];
    } else {
      RootsAreSiblings(c, roots);
      RootsEmit(c, RootsOf(c, roots), q);
      assert BundleItems(c, roots) == RootTrees(c, RootsOf(c, roots));
    }
  }

  // ---- selection, then export ----

  /** Some selected folder on a cycle lies above the folder `g`. */
  ghost predicate Blocked(p: Parents, selected: set<Id>, g: Option<Id>) {
    g.Some? && exists a :: a in selected && Under(p, g.value, a) && OnCycle(p, a)
  }

  /** Going up from a selected folder, with no selected folder on a cycle above, one meets a root. */
  lemma {:induction false} FindRoot(c: Contents, selected: set<Id>, s: Id, visited: set<Id>) returns (f: ApiFolder)
    requires UniqueIds(c.folders) && forall a :: a in selected ==> a in ParentsById(c.folders)
    requires s in selected && !Blocked(ParentsById(c.folders), selected, Some(s))
    requires visited <= selected && forall v :: v in visited ==> StrictlyUnder(ParentsById(c.folders), v, s)
    requires forall v :: v in visited ==> !Blocked(ParentsById(c.folders), selected, Some(v))
    ensures f in c.folders && IsRoot(ParentsById(c.folders), selected, f) && Under(ParentsById(c.folders), s, f.id)
    decreases |selected - visited|
  {
    var p := ParentsById(c.folders);
    f := FolderOf(c.folders, s);
    UnderSelf(p, s);
    if Covered(p, selected, f) {
      var a :| a in selected && Under(p, f.folderId.value, a);
      ParentIsAbove(p, s, f.folderId.value);
      UnderTransitive(p, s, f.folderId.value, a);
      forall v | v in visited + {s} ensures StrictlyUnder(p, v, a) {
        if v != s {
          StrictIsUnder(p, v, s);
          UnderTransitive(p, v, s, a);
        }
      }
      assert s !in visited;
      NotBlockedAbove(p, selected, s, a);
      assert selected - (visited + {s}) == selected - visited - {s};
      f := FindRoot(c, selected, a, visited + {s});
      UnderTransitive(p, s, a, f.id);
    }
  }

  lemma NotBlockedAbove(p: Parents, selected: set<Id>, s: Id, a: Id)
    requires !Blocked(p, selected, Some(s)) && Under(p, s, a)
    ensures !Blocked(p, selected, Some(a))
  {
    if b :| b in selected && Under(p, a, b) && OnCycle(p, b) { UnderTransitive(p, s, a, b); }
  }

  /** A root and a selected folder on a cycle are never above the same folder. */
  lemma RootsAvoidCycles(p: Parents, selected: set<Id>, f: ApiFolder, a: Id, x: Id)
    requires f.id in p && p[f.id] == f.folderId && IsRoot(p, selected, f)
    requires a in selected && OnCycle(p, a) && Under(p, x, a)
    ensures !Under(p, x, f.id)
  {
    RootIsTopmost(p, selected, f, a);
    RootIsTopmost(p, selected, f, f.id);
    StrictIsUnder(p, f.id, a);
    assert !Under(p, f.id, a);
    if Under(p, x, f.id) {
      Comparable(p, x, f.id, a);
      var n: nat :| Up(p, a, n) == Some(f.id);
      CycleIsClosed(p, a, n);
    }
  }

  /** In a bundle whose selected folders all exist, a request inside a selected folder is emitted, once per
      occurrence, unless a selected folder above it is on a cycle; then it is not emitted at all. */
  lemma SelectedEmits(c: Contents, roots: seq<(Id, Id)>, q: HttpRequest)
    requires UniqueIds(c.folders) && forall a :: a in SelectedIds(roots, c.workspaceId) ==> a in ParentsById(c.folders)
    requires q.folderId.Some? && UnderSome(ParentsById(c.folders), q.folderId.value, SelectedIds(roots, c.workspaceId))
    ensures Emitted(BundleItems(c, roots))[q]
         == if Blocked(ParentsById(c.folders), SelectedIds(roots, c.workspaceId), q.folderId) then 0
            else multiset(c.requests)[q]
  {
    var p, selected, g := ParentsById(c.folders), SelectedIds(roots, c.workspaceId), q.folderId.value;
    var list := RootsOf(c, roots);
    BundleEmits(c, roots, q);
    NodesOfMeaning(list);
    ChildrenMembers(c, None);
    if Blocked(p, selected, q.folderId) {
      var a :| a in selected && Under(p, g, a) && OnCycle(p, a);
      forall f | FolderNode(f) in StartNodes(c, roots) ensures !Inside(p, q, f.id) {
        FolderLink(c.folders, f);
        if list != [] {
          RootsAvoidCycles(p, selected, f, a, g);
        } else if Inside(p, q, f.id) {
          CycleHasNoTop(p, g, a, f.id);
        }
      }
    } else {
      var s :| s in selected && Under(p, g, s);
      NotBlockedAbove(p, selected, g, s);
      var f := FindRoot(c, selected, s, {});
      UnderTransitive(p, g, s, f.id);
      assert f in list;
      assert FolderNode(f) in NodesOf(list);
    }
  }

  /** Selecting folders and exporting the same folders emits every kept request exactly once per occurrence,
      and nothing else, except that what lies below a selected folder on a cycle is lost. */
  lemma FilterThenExport(c: Contents, roots: seq<(Id, Id)>, included: set<Id>, ancestors: set<Id>, q: HttpRequest)
    requires UniqueIds(c.folders)
    requires var selected := SelectedIds(roots, c.workspaceId);
             && (forall a :: a in selected ==> a in ParentsById(c.folders))
             && IsSubtree(c.folders, selected, included)
             && IsAncestry(ParentsById(c.folders), selected, ancestors)
    ensures var kept := Restrict(c, included, included + ancestors);
            && Finite(BundleItems(kept, roots))
            && Emitted(BundleItems(kept, roots))[q]
               == if Blocked(ParentsById(c.folders), SelectedIds(roots, c.workspaceId), q.folderId) then 0
                  else multiset(kept.requests)[q]
  {
    var p, selected := ParentsById(c.folders), SelectedIds(roots, c.workspaceId);
    var kept := Restrict(c, included, included + ancestors);
    var p' := ParentsById(kept.folders);
    RestrictionKeepsParents(c.folders, selected, included, ancestors);
    SubtreeMeaning(c.folders, selected, included);
    BundleEmits(kept, roots, q);
    if q in kept.requests {
      var g := q.folderId.value;
      InP(p, g, selected);
      KeptChains(p, p', g, selected);
      SelectedEmits(kept, roots, q);
    } else {
      NodesOfMeaning(RootsOf(kept, roots));
      ChildrenMembers(kept, None);
      assert multiset(kept.requests)[q] == 0;
    }
  }

  /** Whatever lies below an existing folder exists. */
  lemma InP(p: Parents, x: Id, roots: set<Id>)
    requires UnderSome(p, x, roots) && forall r :: r in roots ==> r in p
    ensures x in p
  {
    var r :| r in roots && Under(p, x, r);
    StrictIsUnder(p, x, r);
    if x != r { FirstStep(p, x, r); }
  }

  lemma KeptChains(p: Parents, q: Parents, g: Id, selected: set<Id>)
    requires KeepsParents(p, q) && g in q && forall a :: a in selected ==> a in q
    ensures UnderSome(q, g, selected) <==> UnderSome(p, g, selected)
    ensures Blocked(q, selected, Some(g)) <==> Blocked(p, selected, Some(g))
  {
    forall a ensures Under(q, g, a) <==> Under(p, g, a) { UnderKept(p, q, g, a); }
    forall a | a in selected ensures OnCycle(q, a) <==> OnCycle(p, a) { UnderKept(p, q, a, a); }
  }

  /** Exactly-once export, exactly: the emitted requests are the kept ones, as multisets, if and only if no
      kept request lies below a selected folder that is on a cycle. */
  lemma ExactlyOnceExport(c: Contents, roots: seq<(Id, Id)>, included: set<Id>, ancestors: set<Id>)
    requires UniqueIds(c.folders)
    requires var selected := SelectedIds(roots, c.workspaceId);
             && (forall a :: a in selected ==> a in ParentsById(c.folders))
             && IsSubtree(c.folders, selected, included)
             && IsAncestry(ParentsById(c.folders), selected, ancestors)
    ensures var kept := Restrict(c, included, included + ancestors);
            Emitted(BundleItems(kept, roots)) == multiset(kept.requests)
            <==> forall q :: q in kept.requests ==>
              !Blocked(ParentsById(c.folders), SelectedIds(roots, c.workspaceId), q.folderId)
  {
    var kept := Restrict(c, included, included + ancestors);
    forall q ensures Emitted(BundleItems(kept, roots))[q]
        == if Blocked(ParentsById(c.folders), SelectedIds(roots, c.workspaceId), q.folderId) then 0
           else multiset(kept.requests)[q]
    {
      FilterThenExport(c, roots, included, ancestors, q);
    }
    assert forall q :: q in kept.requests ==> multiset(kept.requests)[q] > 0;
  }
}
