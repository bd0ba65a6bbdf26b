/** A loaded workspace and the restriction to selected folders (crates/voleeo-export/src/lib.rs). */
module Bundles {
  import opened Text
  import opened Sequences
  import opened Forest

  datatype InheritSource = FromFolder | FromWorkspace

  /** `Scheme` stands for every concrete scheme. */
  datatype Auth = NoAuth | Inherit(from: InheritSource) | Scheme(config: Bytes, enabled: bool)

  predicate IsActive(a: Auth) { a.Scheme? && a.enabled }

  datatype ApiFolder = ApiFolder(id: Id, folderId: Option<Id>, name: Bytes, auth: Auth, settings: Bytes, order: int)

  datatype HttpRequest = HttpRequest(
    id: Id, folderId: Option<Id>, name: Bytes, httpMethod: Bytes, url: Bytes, auth: Auth, details: Bytes, order: int)

  /** A WebSocket connection or a gRPC request: only its folder matters here. */
  datatype Other = Other(id: Id, folderId: Option<Id>)

  datatype Contents = Contents(
    workspaceId: Id, name: Bytes, auth: Auth,
    folders: seq<ApiFolder>, requests: seq<HttpRequest>, ws: seq<Other>, grpc: seq<Other>)

  predicate UniqueIds(folders: seq<ApiFolder>) {
    forall i, j :: 0 <= i < j < |folders| ==> folders[i].id != folders[j].id
  }

  // ---- maps built from the folder list ----

  /** `collect()` into a map: a later folder with the same id wins. */
  function ParentsById(folders: seq<ApiFolder>): Parents {
    if folders == [] then map[]
    else
      var f := folders[|folders| - 1];
      ParentsById(folders[..|folders| - 1])[f.id := f.folderId]
  }

  lemma {:induction false} ParentsMeaning(folders: seq<ApiFolder>)
    ensures forall x :: x in ParentsById(folders) <==> exists i :: 0 <= i < |folders| && folders[i].id == x
    ensures UniqueIds(folders) ==>
              forall i :: 0 <= i < |folders| ==>
                  folders[i].id in ParentsById(folders) && ParentsById(folders)[folders[i].id] == folders[i].folderId
  {
    if folders != [] {
      var before, f := folders[..|folders| - 1], folders[|folders| - 1];
      ParentsMeaning(before);
      assert folders == before + [f];
      forall x ensures x in ParentsById(folders) <==> exists i :: 0 <= i < |folders| && folders[i].id == x {
        if x == f.id { assert folders[|folders| - 1].id == x; }
        if i :| 0 <= i < |before| && before[i].id == x { assert folders[i].id == x; }
        if i :| 0 <= i < |folders| && folders[i].id == x { if i < |before| { assert before[i].id == x; } }
      }
    }
  }

  // ---- the selection, specified ----

  predicate ClosedDown(folders: seq<ApiFolder>, s: set<Id>) {
    forall i :: 0 <= i < |folders| && folders[i].folderId.Some? && folders[i].folderId.value in s ==> folders[i].id in s
  }

  /** The least set that holds the roots and, with a folder, every folder inside it. */
  ghost predicate IsSubtree(folders: seq<ApiFolder>, roots: set<Id>, s: set<Id>) {
    roots <= s && ClosedDown(folders, s) && Forced(folders, roots, s)
  }

  /** Every closed set around the roots holds `s`. */
  ghost predicate Forced(folders: seq<ApiFolder>, roots: set<Id>, s: set<Id>) {
    forall t: set<Id> :: roots <= t && ClosedDown(folders, t) ==> s <= t
  }

  ghost predicate ClosedUp(p: Parents, s: set<Id>) {
    forall x :: x in s && x in p && p[x].Some? ==> p[x].value in s
  }

  ghost predicate HoldsParents(p: Parents, roots: set<Id>, s: set<Id>) {
    forall x :: x in roots && x in p && p[x].Some? ==> p[x].value in s
  }

  /** The least set that holds the parents of the roots and, with a folder, its parent. */
  ghost predicate IsAncestry(p: Parents, roots: set<Id>, s: set<Id>) {
    && HoldsParents(p, roots, s) && ClosedUp(p, s)
    && forall t: set<Id> :: HoldsParents(p, roots, t) && ClosedUp(p, t) ==> s <= t
  }

  predicate InSet(folderId: Option<Id>, s: set<Id>) { folderId.Some? && folderId.value in s }

  function Restrict(c: Contents, included: set<Id>, kept: set<Id>): Contents {
    c.(folders := Filter(c.folders, (f: ApiFolder) => f.id in kept),
       requests := Filter(c.requests, (r: HttpRequest) => InSet(r.folderId, included)),
       ws := Filter(c.ws, (o: Other) => InSet(o.folderId, included)),
       grpc := Filter(c.grpc, (o: Other) => InSet(o.folderId, included)))
  }

  /** Folders inside or above the selection, and everything else inside it, each as often as it was there. */
  ghost predicate KeepsExactly(before: Contents, after: Contents, included: set<Id>, ancestors: set<Id>) {
    && after.workspaceId == before.workspaceId && after.name == before.name && after.auth == before.auth
    && (forall f :: multiset(after.folders)[f]
                 == if f.id in included || f.id in ancestors then multiset(before.folders)[f] else 0)
    && (forall r :: multiset(after.requests)[r]
                 == if LiesIn(r.folderId, included) then multiset(before.requests)[r] else 0)
    && (forall o :: multiset(after.ws)[o] == if LiesIn(o.folderId, included) then multiset(before.ws)[o] else 0)
    && (forall o :: multiset(after.grpc)[o] == if LiesIn(o.folderId, included) then multiset(before.grpc)[o] else 0)
  }

  predicate LiesIn(folderId: Option<Id>, s: set<Id>) { match folderId case None => false case Some(x) => x in s }

  lemma RestrictKeeps(c: Contents, included: set<Id>, ancestors: set<Id>)
    ensures KeepsExactly(c, Restrict(c, included, included + ancestors), included, ancestors)
  {
    var after := Restrict(c, included, included + ancestors);
    forall f ensures multiset(after.folders)[f]
                  == if f.id in included || f.id in ancestors then multiset(c.folders)[f] else 0
    {
      FilterCount(c.folders, (g: ApiFolder) => g.id in included + ancestors, f);
    }
    forall r
      ensures multiset(after.requests)[r] == if LiesIn(r.folderId, included) then multiset(c.requests)[r] else 0
    {
      FilterCount(c.requests, (q: HttpRequest) => InSet(q.folderId, included), r);
    }
    forall o ensures multiset(after.ws)[o] == if LiesIn(o.folderId, included) then multiset(c.ws)[o] else 0 {
      FilterCount(c.ws, (p: Other) => InSet(p.folderId, included), o);
    }
    forall o ensures multiset(after.grpc)[o] == if LiesIn(o.folderId, included) then multiset(c.grpc)[o] else 0 {
      FilterCount(c.grpc, (p: Other) => InSet(p.folderId, included), o);
    }
  }

  function SetOf(ids: seq<Id>): set<Id> { set i | i in ids }

  // ---- the bundle ----

  class Bundle {
    var contents: Contents

    constructor (c: Contents)
      ensures contents == c
    {
      contents := c;
    }

    /** Keep the selected subtrees and the ancestors of the selected folders; `false`, and no change, when
        a selected folder is unknown. Any parent links will do, cycles and dangling ones included. */
    method FilterToFolders(folderIds: seq<Id>) returns (ok: bool, ghost included: set<Id>, ghost ancestors: set<Id>)
      modifies this
      ensures ok <==> forall x :: x in folderIds ==> x in ParentsById(old(contents.folders))
      ensures !ok || folderIds == [] ==> contents == old(contents)
      ensures ok && folderIds != [] ==>
                && IsSubtree(old(contents.folders), SetOf(folderIds), included)
                && IsAncestry(ParentsById(old(contents.folders)), SetOf(folderIds), ancestors)
                && contents == Restrict(old(contents), included, included + ancestors)
                && KeepsExactly(old(contents), contents, included, ancestors)
    {
      included, ancestors := {}, {};
      if folderIds == [] {
        return true, {}, {};
      }
      var folders := contents.folders;
      var parents := ParentsById(folders);
      if exists x | x in folderIds :: x !in parents {
        return false, {}, {};
      }
      var inside := CollectSubtrees(folders, folderIds);
      var above := CollectAncestors(parents, folderIds);
      var keep := inside + above;
      RestrictKeeps(contents, inside, above);
      contents := contents.(folders := Filter(folders, (f: ApiFolder) => f.id in keep));
      contents := contents.(requests := Filter(contents.requests, (r: HttpRequest) => InSet(r.folderId, inside)));
      contents := contents.(ws := Filter(contents.ws, (o: Other) => InSet(o.folderId, inside)));
      contents := contents.(grpc := Filter(contents.grpc, (o: Other) => InSet(o.folderId, inside)));
      return true, inside, above;
    }
  }

  /** Ids of the folders directly inside `parent`, in list order. */
  function ChildrenOf(folders: seq<ApiFolder>, parent: Id): seq<Id> {
    Map(Filter(folders, (f: ApiFolder) => f.folderId == Some(parent)), (f: ApiFolder) => f.id)
  }

  lemma ChildrenOfMeaning(folders: seq<ApiFolder>, parent: Id)
    ensures forall x :: x in ChildrenOf(folders, parent) <==>
              exists i :: 0 <= i < |folders| && folders[i].id == x && folders[i].folderId == Some(parent)
  {
    var mine := Filter(folders, (f: ApiFolder) => f.folderId == Some(parent));
    forall x ensures x in ChildrenOf(folders, parent) <==>
        exists i :: 0 <= i < |folders| && folders[i].id == x && folders[i].folderId == Some(parent)
    {
      if x in ChildrenOf(folders, parent) {
        var k :| 0 <= k < |mine| && mine[k].id == x;
        assert mine[k] in folders;
      }
      if i :| 0 <= i < |folders| && folders[i].id == x && folders[i].folderId == Some(parent) {
        assert folders[i] in mine;
        var k :| 0 <= k < |mine| && mine[k] == folders[i];
        assert ChildrenOf(folders, parent)[k] == x;
      }
    }
  }

  function IdsOf(folders: seq<ApiFolder>): set<Id> { set f | f in folders :: f.id }

  /** The worklist: it only ever adds ids that every closed set around the roots must hold. */
  method CollectSubtrees(folders: seq<ApiFolder>, folderIds: seq<Id>) returns (included: set<Id>)
    ensures IsSubtree(folders, SetOf(folderIds), included)
  {
    included := SetOf(folderIds);
    var pending := folderIds;
    while pending != []
      invariant SetOf(folderIds) <= included && SetOf(pending) <= included
      invariant Forced(folders, SetOf(folderIds), included)
      invariant DoneExcept(folders, included, SetOf(pending))
      decreases |IdsOf(folders) - included|, |pending|
    {
      var parent, rest := pending[|pending| - 1], pending[..|pending| - 1];
      assert pending == rest + [parent];
      SetOfSnoc(rest, parent);
      included, pending := Round(folders, included, rest, parent, SetOf(folderIds));
    }
    assert included - SetOf(pending) == included;
  }

  /** One turn of the worklist, for `parent`. */
  method Round(folders: seq<ApiFolder>, included: set<Id>, rest: seq<Id>, parent: Id, ghost roots: set<Id>)
    returns (included': set<Id>, pending': seq<Id>)
    requires parent in included && SetOf(rest) <= included
    requires Forced(folders, roots, included) && DoneExcept(folders, included, SetOf(rest) + {parent})
    ensures included <= included' && SetOf(pending') <= included'
    ensures Forced(folders, roots, included') && DoneExcept(folders, included', SetOf(pending'))
    ensures |IdsOf(folders) - included'| < |IdsOf(folders) - included| || (included' == included && pending' == rest)
  {
    var news := NewOnes(ChildrenOf(folders, parent), included);
    RoundKeeps(folders, roots, included, SetOf(rest), parent, SetOf(news));
    NewShrinks(folders, parent, included, SetOf(news));
    SetOfAppend(rest, news);
    if news != [] {
      assert news[0] in SetOf(news);
    } else {
      assert SetOf(news) == {};
      assert rest + news == rest;
    }
    included' := included + SetOf(news);
    pending' := rest + news;
  }

  lemma SetOfAppend(a: seq<Id>, b: seq<Id>)
    ensures SetOf(a + b) == SetOf(a) + SetOf(b)
  {
  }

  lemma SetOfSnoc(a: seq<Id>, x: Id)
    ensures SetOf(a + [x]) == SetOf(a) + {x}
  {
  }

  /** Folders inside an included folder are included, unless that folder still waits its turn. */
  predicate DoneExcept(folders: seq<ApiFolder>, included: set<Id>, waiting: set<Id>) {
    forall i :: 0 <= i < |folders| && folders[i].folderId.Some? && folders[i].folderId.value in included - waiting
      ==> folders[i].id in included
  }

  /** The children that `included.insert` reports as new, each once. */
  method NewOnes(children: seq<Id>, included: set<Id>) returns (news: seq<Id>)
    ensures SetOf(news) == SetOf(children) - included
  {
    news := [];
    var now := included;
    for k := 0 to |children|
      invariant now == included + SetOf(children[..k])
      invariant SetOf(news) == SetOf(children[..k]) - included
    {
      assert children[..k + 1] == children[..k] + [children[k]];
      assert SetOf(children[..k + 1]) == SetOf(children[..k]) + {children[k]};
      if children[k] !in now {
        assert SetOf(news + [children[k]]) == SetOf(news) + {children[k]};
        now := now + {children[k]};
        news := news + [children[k]];
      }
    }
    assert children[..|children|] == children;
  }

  lemma RoundKeeps(folders: seq<ApiFolder>, roots: set<Id>, included: set<Id>, waiting: set<Id>, parent: Id,
                   news: set<Id>)
    requires parent in included && news == SetOf(ChildrenOf(folders, parent)) - included
    requires Forced(folders, roots, included) && DoneExcept(folders, included, waiting + {parent})
    ensures Forced(folders, roots, included + news)
    ensures DoneExcept(folders, included + news, waiting + news)
  {
    ChildrenOfMeaning(folders, parent);
    forall t: set<Id> | roots <= t && ClosedDown(folders, t) ensures included + news <= t {
      assert included <= t;
    }
    forall i | 0 <= i < |folders| && folders[i].folderId.Some?
        && folders[i].folderId.value in included + news - (waiting + news)
      ensures folders[i].id in included + news
    {
      if folders[i].folderId.value == parent { assert folders[i].id in ChildrenOf(folders, parent); }
    }
  }

  lemma NewShrinks(folders: seq<ApiFolder>, parent: Id, included: set<Id>, news: set<Id>)
    requires news == SetOf(ChildrenOf(folders, parent)) - included
    ensures if news == {} then included + news == included
            else |IdsOf(folders) - (included + news)| < |IdsOf(folders) - included|
  {
    ChildrenOfMeaning(folders, parent);
    if x :| x in news {
      assert x in ChildrenOf(folders, parent);
      var i :| 0 <= i < |folders| && folders[i].id == x;
      assert folders[i] in folders;
      var before, after := IdsOf(folders) - included, IdsOf(folders) - (included + news);
      assert x in before && x !in after && after <= before - {x};
      FewerElements(after, before - {x});
    }
  }

  method CollectAncestors(parents: Parents, folderIds: seq<Id>) returns (above: set<Id>)
    ensures IsAncestry(parents, SetOf(folderIds), above)
  {
    above := {};
    for k := 0 to |folderIds|
      invariant ClosedUp(parents, above)
      invariant HoldsParents(parents, SetOf(folderIds[..k]), above)
      invariant forall t: set<Id> :: HoldsParents(parents, SetOf(folderIds), t) && ClosedUp(parents, t) ==> above <= t
    {
      var root := folderIds[k];
      var chain := AncestorChain(parents, root);
      assert forall x :: x in folderIds[..k + 1] ==> x in folderIds[..k] || x == root;
      assert root in SetOf(folderIds);
      above := above + chain;
    }
    assert folderIds[..|folderIds|] == folderIds;
  }

  /** The walk up from one root; `seen` stops it on a cycle. */
  method AncestorChain(parents: Parents, root: Id) returns (seen: set<Id>)
    ensures IsAncestry(parents, {root}, seen)
  {
    var parent := if root in parents then parents[root] else None;
    seen := {};
    while parent.Some?
      invariant Climbing(parents, root, seen, parent)
      decreases if parent.Some? then 1 + |parents.Keys - seen| else 0
    {
      if parent.value in seen {
        break;
      }
      if parent.value in parents {
        assert parents.Keys - (seen + {parent.value}) == parents.Keys - seen - {parent.value};
      }
      ClimbOn(parents, root, seen, parent.value);
      seen := seen + {parent.value};
      parent := if parent.value in parents then parents[parent.value] else None;
    }
  }

  function ParentIn(p: Parents, x: Id): Option<Id> { if x in p then p[x] else None }

  /** All that was seen is needed, and only `next` may be missing. */
  ghost predicate Climbing(p: Parents, root: Id, seen: set<Id>, next: Option<Id>) {
    && (forall x :: (x in seen || x == root) && x in p && p[x].Some? ==> p[x].value in seen || next == p[x])
    && forall t: set<Id> :: HoldsParents(p, {root}, t) && ClosedUp(p, t) ==>
      seen <= t && (next.Some? ==> next.value in t)
  }

  lemma ClimbOn(p: Parents, root: Id, seen: set<Id>, x: Id)
    requires Climbing(p, root, seen, Some(x))
    ensures Climbing(p, root, seen + {x}, ParentIn(p, x))
  {
  }

  // ---- what the selection means, for unique ids ----

  /** Below one of the roots. */
  ghost predicate UnderSome(p: Parents, x: Id, roots: set<Id>) { exists r :: r in roots && Under(p, x, r) }

  ghost predicate AboveSome(p: Parents, x: Id, roots: set<Id>) { exists r :: r in roots && StrictlyUnder(p, r, x) }

  lemma {:induction false} UnderIsForced(folders: seq<ApiFolder>, s: set<Id>, x: Id, n: nat)
    requires UniqueIds(folders) && ClosedDown(folders, s)
    requires Up(ParentsById(folders), x, n).Some? && Up(ParentsById(folders), x, n).value in s
    ensures x in s
  {
    var p := ParentsById(folders);
    if n > 0 {
      ParentsMeaning(folders);
      var y := Up(p, x, n - 1).value;
      var i :| 0 <= i < |folders| && folders[i].id == y;
      UnderIsForced(folders, s, x, n - 1);
    }
  }

  /** The subtree is the descendant closure: exactly what lies below a selected folder. */
  lemma SubtreeMeaning(folders: seq<ApiFolder>, roots: set<Id>, s: set<Id>)
    requires UniqueIds(folders) && IsSubtree(folders, roots, s)
    ensures forall x :: x in s <==> UnderSome(ParentsById(folders), x, roots)
  {
    var p := ParentsById(folders);
    forall x | UnderSome(p, x, roots) ensures x in s {
      var r :| r in roots && Under(p, x, r);
      var n: nat :| Up(p, x, n) == Some(r);
      UnderIsForced(folders, s, x, n);
    }
    var t := set x | x in s && UnderSome(p, x, roots);
    forall r | r in roots ensures r in t { UnderSelf(p, r); }
    ParentsMeaning(folders);
    forall i | 0 <= i < |folders| && folders[i].folderId.Some? && folders[i].folderId.value in t
      ensures folders[i].id in t
    {
      var r :| r in roots && Under(p, folders[i].folderId.value, r);
      ParentIsAbove(p, folders[i].id, folders[i].folderId.value);
      UnderTransitive(p, folders[i].id, folders[i].folderId.value, r);
    }
    assert s <= t;
  }

  lemma {:induction false} AboveIsForced(p: Parents, roots: set<Id>, s: set<Id>, r: Id, n: nat)
    requires r in roots && HoldsParents(p, roots, s) && ClosedUp(p, s) && n >= 1 && Up(p, r, n).Some?
    ensures Up(p, r, n).value in s
  {
    if n > 1 {
      AboveIsForced(p, roots, s, r, n - 1);
    } else {
      assert Up(p, r, 0) == Some(r);
    }
  }

  /** The ancestry is exactly what lies strictly above a selected folder. */
  lemma AncestryMeaning(p: Parents, roots: set<Id>, s: set<Id>)
    requires IsAncestry(p, roots, s)
    ensures forall x :: x in s <==> AboveSome(p, x, roots)
  {
    forall x | AboveSome(p, x, roots) ensures x in s {
      var r :| r in roots && StrictlyUnder(p, r, x);
      var n: nat :| n >= 1 && Up(p, r, n) == Some(x);
      AboveIsForced(p, roots, s, r, n);
    }
    var t := set x | x in s && AboveSome(p, x, roots);
    forall r | r in roots && r in p && p[r].Some? ensures p[r].value in t { ParentIsAbove(p, r, p[r].value); }
    forall x | x in t && x in p && p[x].Some? ensures p[x].value in t {
      var r :| r in roots && StrictlyUnder(p, r, x);
      ParentIsAbove(p, x, p[x].value);
      StrictIsUnder(p, r, x);
      UnderTransitive(p, r, x, p[x].value);
    }
    assert s <= t;
  }

  lemma FilterKeepsUnique(folders: seq<ApiFolder>, f: ApiFolder -> bool)
    requires UniqueIds(folders)
    ensures UniqueIds(Filter(folders, f))
  {
    FilterKeepsPairwise(folders, f, (a: ApiFolder, b: ApiFolder) => a.id != b.id);
  }

  /** The folders kept are the subtree and the ancestors; with a folder its parent is kept whenever it exists,
      so the chains of kept folders are those of the whole workspace. */
  lemma RestrictionKeepsParents(folders: seq<ApiFolder>, roots: set<Id>, included: set<Id>, ancestors: set<Id>)
    requires UniqueIds(folders)
    requires IsSubtree(folders, roots, included) && IsAncestry(ParentsById(folders), roots, ancestors)
    ensures var kept := Filter(folders, (f: ApiFolder) => f.id in included + ancestors);
            && UniqueIds(kept)
            && KeepsParents(ParentsById(folders), ParentsById(kept))
            && forall x :: x in ParentsById(kept) <==> x in ParentsById(folders) && x in included + ancestors
  {
    var p, all := ParentsById(folders), included + ancestors;
    FilterKeepsUnique(folders, (f: ApiFolder) => f.id in all);
    FilteredParents(folders, all);
    SubtreeMeaning(folders, roots, included);
    AncestryMeaning(p, roots, ancestors);
    forall x | x in all && x in p && p[x].Some? ensures p[x].value in all {
      ParentStays(p, roots, included, ancestors, x);
    }
  }

  lemma FilteredParents(folders: seq<ApiFolder>, all: set<Id>)
    requires UniqueIds(folders) && UniqueIds(Filter(folders, (f: ApiFolder) => f.id in all))
    ensures var p, q := ParentsById(folders), ParentsById(Filter(folders, (f: ApiFolder) => f.id in all));
            forall x :: (x in q <==> x in p && x in all) && (x in q ==> q[x] == p[x])
  {
    var p, kept := ParentsById(folders), Filter(folders, (f: ApiFolder) => f.id in all);
    var q := ParentsById(kept);
    ParentsMeaning(folders);
    ParentsMeaning(kept);
    forall x | x in q ensures x in p && x in all && q[x] == p[x] {
      var i :| 0 <= i < |kept| && kept[i].id == x;
      assert kept[i] in folders;
      var j :| 0 <= j < |folders| && folders[j] == kept[i];
    }
    forall x | x in p && x in all ensures x in q {
      var j :| 0 <= j < |folders| && folders[j].id == x;
      assert folders[j] in kept;
    }
  }

  lemma ParentStays(p: Parents, roots: set<Id>, included: set<Id>, ancestors: set<Id>, x: Id)
    requires forall y :: y in included <==> UnderSome(p, y, roots)
    requires forall y :: y in ancestors <==> AboveSome(p, y, roots)
    requires x in included + ancestors && x in p && p[x].Some?
    ensures p[x].value in included + ancestors
  {
    var y := p[x].value;
    ParentIsAbove(p, x, y);
    if x in included {
      var r :| r in roots && Under(p, x, r);
      StrictIsUnder(p, x, r);
      if x == r {
        assert AboveSome(p, y, roots);
      } else {
        FirstStep(p, x, r);
        assert UnderSome(p, y, roots);
      }
    } else {
      var r :| r in roots && StrictlyUnder(p, r, x);
      StrictIsUnder(p, r, x);
      UnderTransitive(p, r, x, y);
      assert AboveSome(p, y, roots);
    }
  }
}
