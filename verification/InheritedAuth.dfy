/** The auth an inheriting item is exported with (`effective_inherited_auth` in
    crates/voleeo-export/src/postman.rs): what it means, and that it survives a folder selection. */
module InheritedAuth {
  import opened Text
  import opened Forest
  import opened Bundles
  import opened PostmanExport
  import opened ExactlyOnce

  lemma {:induction false} ByIdMeaning(folders: seq<ApiFolder>)
    ensures forall x :: x in ById(folders) <==> x in ParentsById(folders)
    ensures forall x :: x in ById(folders) ==> ById(folders)[x].folderId == ParentsById(folders)[x]
    ensures forall x :: x in ById(folders) ==> ById(folders)[x] in folders && ById(folders)[x].id == x
  {
    if folders != [] {
      var before, f := folders[..|folders| - 1], folders[|folders| - 1];
      ByIdMeaning(before);
      assert folders == before + [f];
    }
  }

  /** The two indexes of a folder list agree. */
  ghost predicate Linked(byId: map<Id, ApiFolder>, p: Parents) {
    byId.Keys == p.Keys && forall x :: x in byId ==> byId[x].folderId == p[x]
  }

  /** The `n`-th ancestor is a folder with this auth. */
  ghost predicate AuthAt(byId: map<Id, ApiFolder>, p: Parents, x: Id, n: nat, a: Auth) {
    Up(p, x, n).Some? && Up(p, x, n).value in byId && byId[Up(p, x, n).value].auth == a
  }

  ghost predicate InactiveAt(byId: map<Id, ApiFolder>, p: Parents, x: Id, n: nat) {
    Up(p, x, n).Some? && Up(p, x, n).value in byId && !IsActive(byId[Up(p, x, n).value].auth)
  }

  /** The nearest ancestor with an active auth, in terms of the chain upward. */
  ghost predicate IsNearest(byId: map<Id, ApiFolder>, p: Parents, x: Id, n: nat, a: Auth) {
    AuthAt(byId, p, x, n, a) && IsActive(a) && forall m: nat :: m < n ==> InactiveAt(byId, p, x, m)
  }

  ghost predicate NoneActive(byId: map<Id, ApiFolder>, p: Parents, x: Id) {
    forall n: nat, a :: AuthAt(byId, p, x, n, a) ==> !IsActive(a)
  }

  /** `r` is the auth of the nearest ancestor with an active one, or no ancestor has one. */
  ghost predicate Decides(byId: map<Id, ApiFolder>, p: Parents, x: Id, r: Option<Auth>) {
    match r
    case Some(a) => exists k: nat :: IsNearest(byId, p, x, k, a)
    case None => NoneActive(byId, p, x)
  }

  /** What the walk has established at its `n`-th step: everything passed is inactive and in `seen`, and
      nothing else is. */
  ghost predicate Climbed(byId: map<Id, ApiFolder>, p: Parents, x: Id, n: nat, seen: set<Id>) {
    && Up(p, x, n).Some?
    && (forall m: nat :: m < n ==> InactiveAt(byId, p, x, m) && Up(p, x, m).value in seen)
    && (forall y :: y in seen ==> exists m: nat :: m < n && Up(p, x, m) == Some(y))
  }

  /** The walk with its `seen` set finds the nearest ancestor whose auth is active, or there is none, on any
      parent links. */
  lemma {:induction false} NearestMeaning(byId: map<Id, ApiFolder>, p: Parents, x: Id, n: nat, seen: set<Id>)
    requires Linked(byId, p) && Climbed(byId, p, x, n, seen)
    ensures Decides(byId, p, x, NearestActive(byId, Up(p, x, n), seen))
    decreases |byId.Keys - seen|
  {
    var y := Up(p, x, n).value;
    if y in seen {
      forall m: nat, a | AuthAt(byId, p, x, m, a) ensures !IsActive(a) { LoopsBack(byId, p, x, n, seen, m); }
    } else if y !in byId {
      ChainEnds(byId, p, x, n, seen);
    } else if IsActive(byId[y].auth) {
      FoundHere(byId, p, x, n, seen);
    } else {
      StepUp(byId, p, x, n, seen);
    }
  }

  lemma {:induction false} StepUp(byId: map<Id, ApiFolder>, p: Parents, x: Id, n: nat, seen: set<Id>)
    requires Linked(byId, p) && Climbed(byId, p, x, n, seen)
    requires InactiveAt(byId, p, x, n) && Up(p, x, n).value !in seen
    ensures Decides(byId, p, x, NearestActive(byId, Up(p, x, n), seen))
    decreases |byId.Keys - seen|, 0
  {
    var y := Up(p, x, n).value;
    WalkUnfolds(byId, p, y, seen);
    assert Up(p, x, n + 1) == p[y];
    if p[y].Some? {
      OneFurther(byId, p, x, n, seen);
      NearestMeaning(byId, p, x, n + 1, seen + {y});
    } else {
      ChainEnds(byId, p, x, n, seen);
    }
  }

  lemma WalkUnfolds(byId: map<Id, ApiFolder>, p: Parents, y: Id, seen: set<Id>)
    requires Linked(byId, p) && y in byId && !IsActive(byId[y].auth) && y !in seen
    ensures NearestActive(byId, Some(y), seen) == NearestActive(byId, p[y], seen + {y})
    ensures |byId.Keys - (seen + {y})| < |byId.Keys - seen|
    ensures p[y].None? ==> NearestActive(byId, Some(y), seen).None?
  {
    assert byId.Keys - (seen + {y}) == byId.Keys - seen - {y};
  }

  lemma FoundHere(byId: map<Id, ApiFolder>, p: Parents, x: Id, n: nat, seen: set<Id>)
    requires Climbed(byId, p, x, n, seen) && Up(p, x, n).value in byId && IsActive(byId[Up(p, x, n).value].auth)
    ensures Decides(byId, p, x, Some(byId[Up(p, x, n).value].auth))
  {
    assert IsNearest(byId, p, x, n, byId[Up(p, x, n).value].auth);
  }

  lemma ChainEnds(byId: map<Id, ApiFolder>, p: Parents, x: Id, n: nat, seen: set<Id>)
    requires Climbed(byId, p, x, n, seen) && Up(p, x, n + 1).None?
    requires Up(p, x, n).value in byId ==> InactiveAt(byId, p, x, n)
    ensures NoneActive(byId, p, x)
  {
    forall m: nat, a | AuthAt(byId, p, x, m, a) ensures !IsActive(a) {
      if m < n { assert InactiveAt(byId, p, x, m); }
      if m > n { UpSome(p, x, n + 1, m); }
    }
  }

  lemma OneFurther(byId: map<Id, ApiFolder>, p: Parents, x: Id, n: nat, seen: set<Id>)
    requires Climbed(byId, p, x, n, seen) && InactiveAt(byId, p, x, n) && Up(p, x, n + 1).Some?
    ensures Climbed(byId, p, x, n + 1, seen + {Up(p, x, n).value})
  {
    var y := Up(p, x, n).value;
    forall z | z in seen + {y} ensures exists m: nat :: m < n + 1 && Up(p, x, m) == Some(z) {
      if z != y {
        var m: nat :| m < n && Up(p, x, m) == Some(z);
        assert m < n + 1;
      }
    }
  }

  /** Once the chain meets `seen` again it never leaves it. */
  lemma {:induction false} LoopsBack(byId: map<Id, ApiFolder>, p: Parents, x: Id, n: nat, seen: set<Id>, m: nat)
    requires Climbed(byId, p, x, n, seen) && Up(p, x, n).value in seen
    ensures InactiveAt(byId, p, x, m) && Up(p, x, m).value in seen
  {
    if m > n {
      LoopsBack(byId, p, x, n, seen, m - 1);
      var i: nat :| i < n && Up(p, x, i) == Up(p, x, m - 1);
      assert Up(p, x, i + 1) == Up(p, x, m);
      if i + 1 == n { LoopsBack(byId, p, x, n, seen, n); }
    } else if m == n {
      var i: nat :| i < n && Up(p, x, i) == Up(p, x, n);
      assert InactiveAt(byId, p, x, i);
    }
  }

  /** The auth a folder inherits is the one of its nearest ancestor that has one. */
  lemma NearestAncestorDecides(folders: seq<ApiFolder>, x: Id)
    ensures Decides(ById(folders), ParentsById(folders), x, NearestActive(ById(folders), Some(x), {}))
  {
    ByIdMeaning(folders);
    assert Up(ParentsById(folders), x, 0) == Some(x);
    NearestMeaning(ById(folders), ParentsById(folders), x, 0, {});
  }

  lemma NearestIsUnique(byId: map<Id, ApiFolder>, p: Parents, x: Id, k: nat, a: Auth, m: nat, b: Auth)
    requires IsNearest(byId, p, x, k, a) && IsNearest(byId, p, x, m, b)
    ensures a == b
  {
    assert k < m ==> InactiveAt(byId, p, x, k);
    assert m < k ==> InactiveAt(byId, p, x, m);
  }

  /** What an item inside folder `x` inherits: from its nearest folder with an active auth, then from the
      workspace, or the other way round when it inherits from the workspace; its own auth if neither has one. */
  lemma InheritedAuthMeaning(c: Contents, x: Id, from: InheritSource, fallback: Auth)
    ensures var byId, p, r := ById(c.folders), ParentsById(c.folders), EffectiveAuth(c, Some(x), from, fallback);
            && (from.FromWorkspace? && IsActive(c.auth) ==> r == c.auth)
            && (from.FromFolder? || !IsActive(c.auth) ==> forall k: nat, a :: IsNearest(byId, p, x, k, a) ==> r == a)
            && (NoneActive(byId, p, x) ==> r == if IsActive(c.auth) then c.auth else fallback)
  {
    NearestAncestorDecides(c.folders, x);
    InheritedFromNearest(c, x, from, fallback, NearestActive(ById(c.folders), Some(x), {}));
  }

  lemma InheritedFromNearest(c: Contents, x: Id, from: InheritSource, fallback: Auth, found: Option<Auth>)
    requires found == NearestActive(ById(c.folders), Some(x), {})
    requires Decides(ById(c.folders), ParentsById(c.folders), x, found)
    ensures from.FromFolder? || !IsActive(c.auth) ==>
              forall k: nat, a :: IsNearest(ById(c.folders), ParentsById(c.folders), x, k, a) ==>
                  EffectiveAuth(c, Some(x), from, fallback) == a
    ensures NoneActive(ById(c.folders), ParentsById(c.folders), x) ==> found == None
  {
    var byId, p := ById(c.folders), ParentsById(c.folders);
    if found.Some? {
      var m: nat :| IsNearest(byId, p, x, m, found.value);
      assert AuthAt(byId, p, x, m, found.value);
      forall k: nat, a | IsNearest(byId, p, x, k, a) ensures a == found.value {
        NearestIsUnique(byId, p, x, k, a, m, found.value);
      }
    } else {
      forall k: nat, a ensures !IsNearest(byId, p, x, k, a) { assert AuthAt(byId, p, x, k, a) ==> !IsActive(a); }
    }
  }

  lemma {:induction false} NearestKept(folders: seq<ApiFolder>, kept: seq<ApiFolder>, parent: Option<Id>, seen: set<Id>)
    requires forall x :: x in ById(kept) ==> x in ById(folders) && ById(kept)[x] == ById(folders)[x]
    requires forall x :: x in ById(kept) && ById(kept)[x].folderId.Some? ==>
               (ById(kept)[x].folderId.value in ById(folders) ==> ById(kept)[x].folderId.value in ById(kept))
    requires parent.Some? && parent.value in ById(folders) ==> parent.value in ById(kept)
    ensures NearestActive(ById(kept), parent, seen) == NearestActive(ById(folders), parent, seen)
    decreases |ById(folders).Keys - seen|
  {
    if parent.Some? && parent.value !in seen && parent.value in ById(kept) && !IsActive(ById(kept)[parent.value].auth) {
      var x := parent.value;
      assert ById(folders).Keys - (seen + {x}) == ById(folders).Keys - seen - {x};
      NearestKept(folders, kept, ById(kept)[x].folderId, seen + {x});
    }
  }

  /** Some folder or request lies directly in this scope. */
  ghost predicate HoldsIn(c: Contents, folderId: Option<Id>) {
    || (exists f :: f in c.folders && f.folderId == folderId)
    || (exists r :: r in c.requests && r.folderId == folderId)
  }

  /** The ancestors are kept for inheritance, and they suffice: what a kept folder or request inherits is the
      same before and after the selection. */
  lemma SelectionKeepsAuth(c: Contents, selected: set<Id>, included: set<Id>, ancestors: set<Id>,
                           folderId: Option<Id>, from: InheritSource, fallback: Auth)
    requires UniqueIds(c.folders) && (forall a :: a in selected ==> a in ParentsById(c.folders))
    requires IsSubtree(c.folders, selected, included) && IsAncestry(ParentsById(c.folders), selected, ancestors)
    requires HoldsIn(Restrict(c, included, included + ancestors), folderId)
    ensures EffectiveAuth(Restrict(c, included, included + ancestors), folderId, from, fallback)
         == EffectiveAuth(c, folderId, from, fallback)
  {
    NearestSurvives(c, selected, included, ancestors, folderId);
  }

  lemma NearestSurvives(c: Contents, selected: set<Id>, included: set<Id>, ancestors: set<Id>, folderId: Option<Id>)
    requires UniqueIds(c.folders) && (forall a :: a in selected ==> a in ParentsById(c.folders))
    requires IsSubtree(c.folders, selected, included) && IsAncestry(ParentsById(c.folders), selected, ancestors)
    requires HoldsIn(Restrict(c, included, included + ancestors), folderId)
    ensures NearestActive(ById(Restrict(c, included, included + ancestors).folders), folderId, {})
         == NearestActive(ById(c.folders), folderId, {})
  {
    KeptById(c, selected, included, ancestors);
    ParentKnown(c, selected, included, ancestors, folderId);
    NearestKept(c.folders, Restrict(c, included, included + ancestors).folders, folderId, {});
  }

  lemma KeptById(c: Contents, selected: set<Id>, included: set<Id>, ancestors: set<Id>)
    requires UniqueIds(c.folders)
    requires IsSubtree(c.folders, selected, included) && IsAncestry(ParentsById(c.folders), selected, ancestors)
    ensures var all, kept := ById(c.folders), ById(Restrict(c, included, included + ancestors).folders);
            && (forall x :: x in kept ==> x in all && kept[x] == all[x])
            && (forall x :: x in kept && kept[x].folderId.Some? && kept[x].folderId.value in all ==>
              kept[x].folderId.value in kept)
  {
    var kept := Restrict(c, included, included + ancestors);
    RestrictionKeepsParents(c.folders, selected, included, ancestors);
    ByIdMeaning(c.folders);
    ByIdMeaning(kept.folders);
    forall x | x in ById(kept.folders) ensures ById(kept.folders)[x] == ById(c.folders)[x] {
      assert ById(kept.folders)[x] in c.folders;
      SameIdSameFolder(c.folders, ById(kept.folders)[x], ById(c.folders)[x]);
    }
  }

  /** The folder around a kept folder or request is kept, if it exists. */
  lemma ParentKnown(c: Contents, selected: set<Id>, included: set<Id>, ancestors: set<Id>, folderId: Option<Id>)
    requires UniqueIds(c.folders) && (forall a :: a in selected ==> a in ParentsById(c.folders))
    requires IsSubtree(c.folders, selected, included) && IsAncestry(ParentsById(c.folders), selected, ancestors)
    requires HoldsIn(Restrict(c, included, included + ancestors), folderId)
    ensures folderId.Some? && folderId.value in ById(c.folders) ==>
              folderId.value in ById(Restrict(c, included, included + ancestors).folders)
  {
    var kept := Restrict(c, included, included + ancestors);
    if f :| f in kept.folders && f.folderId == folderId {
      FolderParentKnown(c, selected, included, ancestors, f);
    } else {
      var r :| r in kept.requests && r.folderId == folderId;
      RequestParentKnown(c, selected, included, ancestors, r);
    }
  }

  lemma FolderParentKnown(c: Contents, selected: set<Id>, included: set<Id>, ancestors: set<Id>, f: ApiFolder)
    requires UniqueIds(c.folders)
    requires IsSubtree(c.folders, selected, included) && IsAncestry(ParentsById(c.folders), selected, ancestors)
    requires f in Restrict(c, included, included + ancestors).folders
    ensures f.folderId.Some? && f.folderId.value in ById(c.folders) ==>
              f.folderId.value in ById(Restrict(c, included, included + ancestors).folders)
  {
    var kept := Restrict(c, included, included + ancestors);
    RestrictionKeepsParents(c.folders, selected, included, ancestors);
    ByIdMeaning(c.folders);
    ByIdMeaning(kept.folders);
    FolderLink(kept.folders, f);
  }

  lemma RequestParentKnown(c: Contents, selected: set<Id>, included: set<Id>, ancestors: set<Id>, r: HttpRequest)
    requires UniqueIds(c.folders) && (forall a :: a in selected ==> a in ParentsById(c.folders))
    requires IsSubtree(c.folders, selected, included) && IsAncestry(ParentsById(c.folders), selected, ancestors)
    requires r in Restrict(c, included, included + ancestors).requests
    ensures r.folderId.Some? && r.folderId.value in ById(c.folders) ==>
              r.folderId.value in ById(Restrict(c, included, included + ancestors).folders)
  {
    var kept := Restrict(c, included, included + ancestors);
    RestrictionKeepsParents(c.folders, selected, included, ancestors);
    SubtreeMeaning(c.folders, selected, included);
    ByIdMeaning(kept.folders);
    InP(ParentsById(c.folders), r.folderId.value, selected);
    ByIdMeaning(c.folders);
  }
}
