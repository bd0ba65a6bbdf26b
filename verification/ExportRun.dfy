/** A whole export: folder selection on every workspace, then one collection (`load_bundle` in
    src-tauri/src/commands/export/mod.rs with the functions of crates/voleeo-export/src). */
module ExportRun {
  import opened Text
  import opened Sequences
  import opened Forest
  import opened Bundles
  import opened PostmanExport
  import opened ExactlyOnce
  import opened ExportedAuth

  // ---- what one workspace contributes ----

  /** The chain up from a folder ends at an existing top-level folder; a request outside folders is at the top. */
  ghost predicate ReachesTop(p: Parents, g: Option<Id>) {
    g.Some? ==> exists n: nat :: EndsAt(p, g.value, n)
  }

  ghost predicate EndsAt(p: Parents, x: Id, n: nat) {
    Up(p, x, n).Some? && Up(p, x, n).value in p && p[Up(p, x, n).value] == None
  }

  /** Whether the export of a workspace should hold the request. */
  ghost predicate Wanted(c: Contents, roots: seq<(Id, Id)>, q: HttpRequest) {
    var p, selected := ParentsById(c.folders), SelectedIds(roots, c.workspaceId);
    if selected == {} then ReachesTop(p, q.folderId)
    else q.folderId.Some? && UnderSome(p, q.folderId.value, selected) && !Blocked(p, selected, q.folderId)
  }

  ghost function Delivered(c: Contents, roots: seq<(Id, Id)>, q: HttpRequest): nat {
    if Wanted(c, roots, q) then multiset(c.requests)[q] else 0
  }

  /** A workspace exported whole emits each request once per occurrence, and loses exactly what lies below a
      missing folder or on a cycle. */
  lemma WholeWorkspaceEmits(c: Contents, roots: seq<(Id, Id)>, q: HttpRequest)
    requires UniqueIds(c.folders) && SelectedIds(roots, c.workspaceId) == {}
    ensures Emitted(BundleItems(c, roots))[q] == Delivered(c, roots, q)
  {
    BundleEmits(c, roots, q);
    ChildrenMembers(c, None);
    assert RootsOf(c, roots) == [] by { HasMember(RootsOf(c, roots)); }
    if q.folderId.Some? { TopIsInside(c, q); }
  }

  lemma TopIsInside(c: Contents, q: HttpRequest)
    requires UniqueIds(c.folders) && q.folderId.Some?
    ensures InsideSome(ParentsById(c.folders), q, Children(c, None)) <==> ReachesTop(ParentsById(c.folders), q.folderId)
  {
    var p, x := ParentsById(c.folders), q.folderId.value;
    ChildrenMembers(c, None);
    if f :| FolderNode(f) in Children(c, None) && Inside(p, q, f.id) {
      FolderLink(c.folders, f);
      var n: nat :| Up(p, x, n) == Some(f.id);
      assert EndsAt(p, x, n);
    }
    if n: nat :| EndsAt(p, x, n) {
      var f := FolderOf(c.folders, Up(p, x, n).value);
      assert FolderNode(f) in Children(c, None) && Inside(p, q, f.id);
    }
  }

  /** The folder ids selected for one workspace. */
  function FolderIdsFor(roots: seq<(Id, Id)>, workspaceId: Id): seq<Id> {
    Map(Filter(roots, (r: (Id, Id)) => r.0 == workspaceId), (r: (Id, Id)) => r.1)
  }

  lemma FolderIdsAre(roots: seq<(Id, Id)>, workspaceId: Id)
    ensures SetOf(FolderIdsFor(roots, workspaceId)) == SelectedIds(roots, workspaceId)
  {
    var mine := Filter(roots, (r: (Id, Id)) => r.0 == workspaceId);
    forall x | x in SelectedIds(roots, workspaceId) ensures x in FolderIdsFor(roots, workspaceId) {
      var r :| r in roots && r.0 == workspaceId && r.1 == x;
      assert r in mine;
      var i :| 0 <= i < |mine| && mine[i] == r;
      assert FolderIdsFor(roots, workspaceId)[i] == x;
    }
    forall x | x in FolderIdsFor(roots, workspaceId) ensures x in SelectedIds(roots, workspaceId) {
      var i :| 0 <= i < |mine| && FolderIdsFor(roots, workspaceId)[i] == x;
      assert mine[i] in roots;
    }
  }

  /** What the selection leaves of a workspace. */
  ghost predicate SelectedFrom(c: Contents, roots: seq<(Id, Id)>, after: Contents) {
    var selected := SelectedIds(roots, c.workspaceId);
    if selected == {} then after == c
    else
      && selected <= ParentsById(c.folders).Keys
      && exists included, ancestors ::
           && IsSubtree(c.folders, selected, included) && IsAncestry(ParentsById(c.folders), selected, ancestors)
           && after == Restrict(c, included, included + ancestors)
  }

  /** Selecting and exporting one workspace delivers exactly what is wanted of it. */
  lemma SelectionDelivers(c: Contents, roots: seq<(Id, Id)>, after: Contents, q: HttpRequest)
    requires UniqueIds(c.folders) && SelectedFrom(c, roots, after)
    ensures Emitted(BundleItems(after, roots))[q] == Delivered(c, roots, q)
  {
    var selected := SelectedIds(roots, c.workspaceId);
    if selected == {} {
      WholeWorkspaceEmits(c, roots, q);
    } else {
      var included, ancestors :| && IsSubtree(c.folders, selected, included)
                                 && IsAncestry(ParentsById(c.folders), selected, ancestors)
                                 && after == Restrict(c, included, included + ancestors);
      FilterThenExport(c, roots, included, ancestors, q);
      SubtreeMeaning(c.folders, selected, included);
      FilterCount(c.requests, (r: HttpRequest) => InSet(r.folderId, included), q);
    }
  }

  // ---- the whole collection ----

  ghost function DeliveredByAll(cs: seq<Contents>, roots: seq<(Id, Id)>, q: HttpRequest): nat {
    if cs == [] then 0 else Delivered(cs[0], roots, q) + DeliveredByAll(cs[1..], roots, q)
  }

  ghost function AllRequests(cs: seq<Contents>): multiset<HttpRequest> {
    if cs == [] then multiset{} else multiset(cs[0].requests) + AllRequests(cs[1..])
  }

  lemma {:induction false} EmittedAppend(a: seq<Item>, b: seq<Item>)
    ensures Emitted(a + b) == Emitted(a) + Emitted(b)
  {
    if a == [] {
      assert a + b == b;
    } else {
      EmittedAppend(a[1..], b);
      HeadTail(a, b);
    }
  }

  ghost predicate AllSelectedFrom(cs: seq<Contents>, roots: seq<(Id, Id)>, after: seq<Contents>) {
    |after| == |cs| && forall i :: 0 <= i < |cs| ==> UniqueIds(cs[i].folders) && SelectedFrom(cs[i], roots, after[i])
  }

  /** The collection emits, over all workspaces, what is wanted of each. */
  lemma {:induction false} CollectionDelivers(cs: seq<Contents>, roots: seq<(Id, Id)>, after: seq<Contents>,
                                              q: HttpRequest)
    requires AllSelectedFrom(cs, roots, after)
    ensures Emitted(CollectionItems(after, roots))[q] == DeliveredByAll(cs, roots, q)
  {
    if cs != [] {
      var f := (c: Contents) => BundleItems(c, roots);
      assert AllSelectedFrom(cs[1..], roots, after[1..]);
      CollectionDelivers(cs[1..], roots, after[1..], q);
      SelectionDelivers(cs[0], roots, after[0], q);
      CollectionHead(after, roots);
      EmittedAppend(BundleItems(after[0], roots), CollectionItems(after[1..], roots));
    }
  }

  lemma CollectionHead(cs: seq<Contents>, roots: seq<(Id, Id)>)
    requires cs != []
    ensures CollectionItems(cs, roots) == BundleItems(cs[0], roots) + CollectionItems(cs[1..], roots)
  {
    var f := (c: Contents) => BundleItems(c, roots);
    assert cs == [cs[0]] + cs[1..];
    MapCons(cs[0], cs[1..], f);
  }

  ghost predicate WantedEverywhere(cs: seq<Contents>, roots: seq<(Id, Id)>, q: HttpRequest) {
    forall i :: 0 <= i < |cs| && q in cs[i].requests ==> Wanted(cs[i], roots, q)
  }

  /** No workspace exported whole has a request below a missing folder or on a cycle, and none with a selection has
      one outside it or below a selected folder on a cycle. */
  ghost predicate AllWanted(cs: seq<Contents>, roots: seq<(Id, Id)>) { forall q :: WantedEverywhere(cs, roots, q) }

  lemma {:induction false} DeliveredAtMost(cs: seq<Contents>, roots: seq<(Id, Id)>, q: HttpRequest)
    ensures DeliveredByAll(cs, roots, q) <= AllRequests(cs)[q]
    ensures DeliveredByAll(cs, roots, q) == AllRequests(cs)[q] <==> WantedEverywhere(cs, roots, q)
  {
    if cs != [] {
      DeliveredAtMost(cs[1..], roots, q);
      assert q in cs[0].requests <==> multiset(cs[0].requests)[q] > 0;
      WantedCons(cs[0], cs[1..], roots, q);
      assert cs == [cs[0]] + cs[1..];
    }
  }

  lemma WantedCons(c: Contents, cs: seq<Contents>, roots: seq<(Id, Id)>, q: HttpRequest)
    ensures WantedEverywhere([c] + cs, roots, q)
        <==> (q in c.requests ==> Wanted(c, roots, q)) && WantedEverywhere(cs, roots, q)
  {
    var all := [c] + cs;
    assert all[0] == c && forall i :: 0 <= i < |cs| ==> all[i + 1] == cs[i];
  }

  /** The collection holds every request of every workspace exactly once per occurrence if and only if all are
      wanted. */
  lemma CollectionExactlyOnce(cs: seq<Contents>, roots: seq<(Id, Id)>, after: seq<Contents>)
    requires AllSelectedFrom(cs, roots, after)
    ensures Emitted(CollectionItems(after, roots)) == AllRequests(cs) <==> AllWanted(cs, roots)
  {
    ExactOnAll(cs, roots, after, Emitted(CollectionItems(after, roots)));
  }

  lemma ExactOnAll(cs: seq<Contents>, roots: seq<(Id, Id)>, after: seq<Contents>, emitted: multiset<HttpRequest>)
    requires AllSelectedFrom(cs, roots, after) && emitted == Emitted(CollectionItems(after, roots))
    ensures emitted == AllRequests(cs) <==> AllWanted(cs, roots)
  {
    var all := AllRequests(cs);
    forall q ensures emitted[q] == all[q] <==> WantedEverywhere(cs, roots, q) {
      CollectionDelivers(cs, roots, after, q);
      DeliveredAtMost(cs, roots, q);
    }
    if AllWanted(cs, roots) {
      forall q ensures emitted[q] == all[q] { assert WantedEverywhere(cs, roots, q); }
    }
  }

  /** Selecting top-level folders only, as the application's own command demands, loses nothing: everything inside
      a selected folder is wanted. */
  lemma TopLevelSelectionLosesNothing(c: Contents, roots: seq<(Id, Id)>, q: HttpRequest)
    requires var p, selected := ParentsById(c.folders), SelectedIds(roots, c.workspaceId);
             selected != {} && forall a :: a in selected ==> a in p && p[a] == None
    ensures Wanted(c, roots, q)
       <==> q.folderId.Some? && UnderSome(ParentsById(c.folders), q.folderId.value, SelectedIds(roots, c.workspaceId))
  {
    var p, selected := ParentsById(c.folders), SelectedIds(roots, c.workspaceId);
    forall a | a in selected ensures !OnCycle(p, a) {
      if OnCycle(p, a) { FirstStep(p, a, a); }
    }
  }

  // ---- the run ----

  ghost function ContentsOf(bundles: seq<Bundle>): (cs: seq<Contents>)
    reads bundles
    ensures |cs| == |bundles| && forall i :: 0 <= i < |bundles| ==> cs[i] == bundles[i].contents
  {
    if bundles == [] then [] else ContentsOf(bundles[..|bundles| - 1]) + [bundles[|bundles| - 1].contents]
  }

  ghost predicate UnchangedFrom(bundles: seq<Bundle>, cs: seq<Contents>, i: nat)
    reads bundles
    requires |cs| == |bundles|
  {
    forall j :: i <= j < |bundles| ==> bundles[j].contents == cs[j]
  }

  predicate Known(c: Contents, roots: seq<(Id, Id)>) {
    SelectedIds(roots, c.workspaceId) <= ParentsById(c.folders).Keys
  }

  ghost predicate SelectedUpTo(cs: seq<Contents>, roots: seq<(Id, Id)>, after: seq<Contents>) {
    |after| <= |cs| && forall j :: 0 <= j < |after| ==> Known(cs[j], roots) && SelectedFrom(cs[j], roots, after[j])
  }

  lemma SelectedSnoc(cs: seq<Contents>, roots: seq<(Id, Id)>, after: seq<Contents>, c: Contents)
    requires SelectedUpTo(cs, roots, after) && |after| < |cs|
    requires Known(cs[|after|], roots) && SelectedFrom(cs[|after|], roots, c)
    ensures SelectedUpTo(cs, roots, after + [c])
  {
  }

  /** The first bundles now hold these contents. */
  ghost predicate HoldNow(bundles: seq<Bundle>, after: seq<Contents>)
    reads bundles
  {
    |after| <= |bundles| && forall j :: 0 <= j < |after| ==> after[j] == bundles[j].contents
  }

  /** The collection holds what is wanted of every workspace, and everything exactly when all is wanted. */
  ghost predicate Delivers(cs: seq<Contents>, roots: seq<(Id, Id)>, items: seq<Item>) {
    && (forall q :: Emitted(items)[q] == DeliveredByAll(cs, roots, q))
    && (Emitted(items) == AllRequests(cs) <==> AllWanted(cs, roots))
  }

  predicate AllKnown(cs: seq<Contents>, roots: seq<(Id, Id)>) { forall i :: 0 <= i < |cs| ==> Known(cs[i], roots) }

  predicate AllDifferent(bundles: seq<Bundle>) { forall i, j :: 0 <= i < j < |bundles| ==> bundles[i] != bundles[j] }

  /** Select on every workspace, up to one with an unknown folder. */
  method SelectAll(bundles: seq<Bundle>, roots: seq<(Id, Id)>) returns (ok: bool, after: seq<Contents>)
    requires AllDifferent(bundles)
    modifies bundles
    ensures ok <==> AllKnown(old(ContentsOf(bundles)), roots)
    ensures ok ==> |after| == |bundles| && SelectedUpTo(old(ContentsOf(bundles)), roots, after)
    ensures ok ==> HoldNow(bundles, after)
  {
    ghost var cs := ContentsOf(bundles);
    after := [];
    for i := 0 to |bundles|
      invariant |after| == i && UnchangedFrom(bundles, cs, i) && SelectedUpTo(cs, roots, after)
      invariant HoldNow(bundles, after)
    {
      ok, after := SelectNext(bundles, roots, after, cs);
      if !ok {
        return;
      }
    }
    ok := true;
  }

  /** One round of the loop: the next workspace. */
  method SelectNext(bundles: seq<Bundle>, roots: seq<(Id, Id)>, after: seq<Contents>, ghost cs: seq<Contents>)
    returns (ok: bool, after': seq<Contents>)
    requires AllDifferent(bundles) && |cs| == |bundles| && |after| < |bundles|
    requires UnchangedFrom(bundles, cs, |after|) && SelectedUpTo(cs, roots, after) && HoldNow(bundles, after)
    modifies bundles[|after|]
    ensures ok <==> Known(cs[|after|], roots)
    ensures ok ==> |after'| == |after| + 1 && UnchangedFrom(bundles, cs, |after'|)
    ensures ok ==> SelectedUpTo(cs, roots, after') && HoldNow(bundles, after')
  {
    ok := SelectOne(bundles[|after|], roots);
    after' := after;
    if ok {
      SelectedSnoc(cs, roots, after, bundles[|after|].contents);
      after' := after + [bundles[|after|].contents];
    }
  }

  /** Select on every workspace, then export them all; nothing is exported when some selected folder is unknown. */
  method ExportWorkspaces(bundles: seq<Bundle>, roots: seq<(Id, Id)>) returns (ok: bool, name: Bytes, items: seq<Item>)
    requires AllDifferent(bundles) && forall i :: 0 <= i < |bundles| ==> UniqueIds(bundles[i].contents.folders)
    modifies bundles
    ensures ok <==> AllKnown(old(ContentsOf(bundles)), roots)
    ensures if ok then Delivers(old(ContentsOf(bundles)), roots, items) else items == []
    ensures ok ==> ShowsCollection(ContentsOf(bundles), roots, items)
  {
    ghost var cs := ContentsOf(bundles);
    var after;
    ok, after := SelectAll(bundles, roots);
    name, items := [], [];
    if ok {
      name, items := ToPostmanWithRoots(after, roots);
      RunDelivers(cs, roots, after);
      RunShows(bundles, roots, after);
    }
  }

  lemma RunDelivers(cs: seq<Contents>, roots: seq<(Id, Id)>, after: seq<Contents>)
    requires |after| == |cs| && SelectedUpTo(cs, roots, after)
    requires forall i :: 0 <= i < |cs| ==> UniqueIds(cs[i].folders)
    ensures Delivers(cs, roots, CollectionItems(after, roots))
  {
    assert AllSelectedFrom(cs, roots, after);
    forall q ensures Emitted(CollectionItems(after, roots))[q] == DeliveredByAll(cs, roots, q) {
      CollectionDelivers(cs, roots, after, q);
    }
    CollectionExactlyOnce(cs, roots, after);
  }

  lemma RunShows(bundles: seq<Bundle>, roots: seq<(Id, Id)>, after: seq<Contents>)
    requires |after| == |bundles| && HoldNow(bundles, after)
    ensures ShowsCollection(ContentsOf(bundles), roots, CollectionItems(after, roots))
  {
    assert after == ContentsOf(bundles);
    CollectionShown(after, roots);
  }

  method SelectOne(b: Bundle, roots: seq<(Id, Id)>) returns (ok: bool)
    modifies b
    ensures ok <==> Known(old(b.contents), roots)
    ensures ok ==> SelectedFrom(old(b.contents), roots, b.contents)
  {
    var folderIds := FolderIdsFor(roots, b.contents.workspaceId);
    FolderIdsAre(roots, b.contents.workspaceId);
    ghost var included, ancestors;
    ok, included, ancestors := b.FilterToFolders(folderIds);
    HasMember(folderIds);
    assert forall x :: x in folderIds <==> x in SetOf(folderIds);
  }

  // ---- requests that are lost ----

  /** Nothing selected, and a request in a folder that does not exist: it is missing from the export. */
  lemma MissingFolderLosesRequest(workspaceId: Id, q: HttpRequest)
    requires q.folderId.Some?
    ensures Emitted(BundleItems(Contents(workspaceId, [], NoAuth, [], [q], [], []), [])) == multiset{}
  {
    var c := Contents(workspaceId, [], NoAuth, [], [q], [], []);
    assert ParentsById(c.folders) == map[] && SelectedIds([], workspaceId) == {};
    if n: nat :| EndsAt(ParentsById(c.folders), q.folderId.value, n) { assert false; }
    forall r ensures Emitted(BundleItems(c, []))[r] == 0 {
      WholeWorkspaceEmits(c, [], r);
      assert r != q ==> multiset(c.requests)[r] == 0;
    }
  }

  const A: Id := [1]
  const B: Id := [2]
  const FOLDER_A := ApiFolder(A, Some(B), [], NoAuth, [], 0)
  const FOLDER_B := ApiFolder(B, Some(A), [], NoAuth, [], 1)

  /** Two folders that are each other's parent. */
  function Loop(workspaceId: Id, q: HttpRequest): Contents {
    Contents(workspaceId, [], NoAuth, [FOLDER_A, FOLDER_B], [q], [], [])
  }

  lemma LoopParents()
    ensures UniqueIds([FOLDER_A, FOLDER_B]) && ParentsById([FOLDER_A, FOLDER_B]) == map[A := Some(B), B := Some(A)]
  {
    var one := [FOLDER_A];
    assert one[..0] == [] && ParentsById(one) == map[A := Some(B)];
    assert [FOLDER_A, FOLDER_B][..1] == one;
  }

  lemma LoopSelection()
    ensures IsSubtree([FOLDER_A, FOLDER_B], {A}, {A, B})
    ensures IsAncestry(map[A := Some(B), B := Some(A)], {A}, {A, B})
  {
    var folders, p := [FOLDER_A, FOLDER_B], map[A := Some(B), B := Some(A)];
    forall t: set<Id> | {A} <= t && ClosedDown(folders, t) ensures {A, B} <= t {
      assert folders[1].folderId == Some(A);
    }
    forall t: set<Id> | HoldsParents(p, {A}, t) && ClosedUp(p, t) ensures {A, B} <= t {
      assert p[A] == Some(B) && p[B] == Some(A);
    }
  }

  lemma LoopIsCycle()
    ensures OnCycle(map[A := Some(B), B := Some(A)], A)
  {
    var p: Parents := map[A := Some(B), B := Some(A)];
    assert Up(p, A, 0) == Some(A) && Up(p, A, 1) == Some(B) && Up(p, A, 2) == Some(A);
  }

  lemma LoopIsKept(workspaceId: Id, q: HttpRequest)
    requires q.folderId == Some(A)
    ensures SelectedFrom(Loop(workspaceId, q), [(workspaceId, A)], Loop(workspaceId, q))
  {
    var c, s := Loop(workspaceId, q), {A, B};
    LoopParents();
    LoopSelection();
    FilterAll(c.folders, (f: ApiFolder) => f.id in s + s);
    FilterAll(c.requests, (r: HttpRequest) => InSet(r.folderId, s));
    assert Restrict(c, s, s + s) == c;
    assert SelectedIds([(workspaceId, A)], workspaceId) == {A};
  }

  /** With one of them selected, a request inside it is kept by the selection and missing from the export. */
  lemma CycleLosesRequest(workspaceId: Id, q: HttpRequest)
    requires q.folderId == Some(A)
    ensures SelectedFrom(Loop(workspaceId, q), [(workspaceId, A)], Loop(workspaceId, q))
    ensures Emitted(BundleItems(Loop(workspaceId, q), [(workspaceId, A)])) == multiset{}
  {
    var c, roots := Loop(workspaceId, q), [(workspaceId, A)];
    LoopParents();
    LoopIsKept(workspaceId, q);
    LoopIsCycle();
    assert SelectedIds(roots, workspaceId) == {A};
    UnderSelf(ParentsById(c.folders), A);
    assert Blocked(ParentsById(c.folders), {A}, q.folderId);
    forall r ensures Emitted(BundleItems(c, roots))[r] == 0 {
      SelectionDelivers(c, roots, c, r);
      assert r != q ==> multiset(c.requests)[r] == 0;
    }
  }
}
