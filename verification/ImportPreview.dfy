/** The preview tree of an import and the selection made on it (crates/voleeo-import/src/convert.rs): both
    passes number the items the same way. */
module ImportPreview {
  import opened Text
  import opened Sequences
  import opened ImportIr

  datatype ImportNode = ImportNode(
    id: Bytes, isFolder: bool, name: Bytes, httpMethod: Option<Bytes>, path: Option<Bytes>, children: seq<ImportNode>)

  /** Preview of `items`, the first of which has index `i` under `prefix`. */
  function BuildNodes(items: seq<ImportedItem>, prefix: Bytes, i: nat): seq<ImportNode> {
    if items == [] then [] else [BuildNode(items[0], prefix, i)] + BuildNodes(items[1..], prefix, i + 1)
  }

  function BuildNode(item: ImportedItem, prefix: Bytes, i: nat): ImportNode {
    var id := prefix + Decimal(i);
    match item
    case Folder(f) => ImportNode(id, true, f.name, None, None, BuildNodes(f.items, id + [DOT], 0))
    case Request(r) => ImportNode(id, false, r.name, Some(r.httpMethod), Some(r.path), [])
  }

  /** Node by node: kind, name, method and path of the item, its position as id, and the nodes of what is inside. */
  ghost predicate Mirrors(nodes: seq<ImportNode>, items: seq<ImportedItem>, prefix: Bytes, i: nat)
    decreases items
  {
    && |nodes| == |items|
    && forall k :: 0 <= k < |items| ==> nodes[k].id == prefix + Decimal(i + k) && MirrorsItem(nodes[k], items[k])
  }

  ghost predicate MirrorsItem(node: ImportNode, item: ImportedItem)
    decreases item
  {
    match item
    case Folder(f) =>
      && node.isFolder && node.name == f.name && node.httpMethod.None? && node.path.None?
      && Mirrors(node.children, f.items, node.id + [DOT], 0)
    case Request(r) =>
      && !node.isFolder && node.name == r.name && node.httpMethod == Some(r.httpMethod) && node.path == Some(r.path)
      && node.children == []
  }

  /** The preview shows the tree as it is. */
  lemma {:induction false} PreviewMirrors(items: seq<ImportedItem>, prefix: Bytes, i: nat)
    ensures Mirrors(BuildNodes(items, prefix, i), items, prefix, i)
    decreases items
  {
    if items != [] {
      NodeMirrors(items[0], prefix, i);
      PreviewMirrors(items[1..], prefix, i + 1);
      var nodes, rest := BuildNodes(items, prefix, i), BuildNodes(items[1..], prefix, i + 1);
      forall k | 0 < k < |items| ensures nodes[k].id == prefix + Decimal(i + k) && MirrorsItem(nodes[k], items[k]) {
        assert nodes[k] == rest[k - 1] && items[1..][k - 1] == items[k];
        assert rest[k - 1].id == prefix + Decimal(i + 1 + (k - 1));
      }
    }
  }

  lemma {:induction false} NodeMirrors(item: ImportedItem, prefix: Bytes, i: nat)
    ensures MirrorsItem(BuildNode(item, prefix, i), item)
    decreases item
  {
    if item.Folder? { PreviewMirrors(item.folder.items, prefix + Decimal(i) + [DOT], 0); }
  }

  function PreviewNodes(items: seq<ImportedItem>): seq<ImportNode> { BuildNodes(items, [], 0) }

  /** What the selection keeps of `items`, the first of which has index `i` under `prefix`. */
  function Kept(items: seq<ImportedItem>, selected: set<Bytes>, prefix: Bytes, i: nat): seq<ImportedItem> {
    if items == [] then [] else KeptItem(items[0], selected, prefix, i) + Kept(items[1..], selected, prefix, i + 1)
  }

  function KeptItem(item: ImportedItem, selected: set<Bytes>, prefix: Bytes, i: nat): seq<ImportedItem> {
    var id := prefix + Decimal(i);
    match item
    case Request(_) => if id in selected then [item] else []
    case Folder(f) =>
      var kids := Kept(f.items, selected, id + [DOT], 0);
      if kids != [] || (f.items == [] && id in selected) then [Folder(f.(items := kids))] else []
  }

  method FilterItems(items: seq<ImportedItem>, selected: set<Bytes>) returns (out: seq<ImportedItem>)
    ensures out == Kept(items, selected, [], 0)
  {
    out := FilterInner(items, selected, []);
  }

  method FilterInner(items: seq<ImportedItem>, selected: set<Bytes>, prefix: Bytes) returns (out: seq<ImportedItem>)
    ensures out == Kept(items, selected, prefix, 0)
    decreases items
  {
    out := [];
    assert items[0..] == items;
    for i := 0 to |items|
      invariant out + Kept(items[i..], selected, prefix, i) == Kept(items, selected, prefix, 0)
    {
      assert items[i..][0] == items[i] && items[i..][1..] == items[i + 1..];
      var kept := FilterOneItem(items[i], selected, prefix, i);
      out := out + kept;
    }
    assert items[|items|..] == [];
  }

  /** One round of the loop: the item pushed, if any. */
  method FilterOneItem(item: ImportedItem, selected: set<Bytes>, prefix: Bytes, i: nat) returns (out: seq<ImportedItem>)
    ensures out == KeptItem(item, selected, prefix, i)
    decreases item
  {
    var id := prefix + Decimal(i);
    match item
    case Request(_) => out := if id in selected then [item] else [];
    case Folder(f) =>
      var kids := FilterInner(f.items, selected, id + [DOT]);
      out := [];
      if kids != [] || (f.items == [] && id in selected) {
        out := [Folder(f.(items := kids))];
      }
  }

  // ---- ids ----

  /** Every id of a preview tree, in preorder. */
  function AllIds(nodes: seq<ImportNode>): seq<Bytes> {
    if nodes == [] then [] else IdsIn(nodes[0]) + AllIds(nodes[1..])
  }

  function IdsIn(node: ImportNode): seq<Bytes> { [node.id] + AllIds(node.children) }

  /** `id` is `prefix`, the number `j`, and then nothing or a dot and more. */
  ghost predicate Numbered(id: Bytes, prefix: Bytes, j: nat) {
    exists tail: Bytes :: id == prefix + Decimal(j) + tail && (tail == [] || tail[0] == DOT)
  }

  lemma NumberedOnce(id: Bytes, prefix: Bytes, i: nat, j: nat)
    requires Numbered(id, prefix, i) && Numbered(id, prefix, j)
    ensures i == j
  {
    var s: Bytes :| id == prefix + Decimal(i) + s && (s == [] || s[0] == DOT);
    var t: Bytes :| id == prefix + Decimal(j) + t && (t == [] || t[0] == DOT);
    assert Decimal(i) + s == id[|prefix|..] == Decimal(j) + t;
    DigitsFirst(Decimal(i), s, Decimal(j), t);
    DecimalInjective(i, j);
  }

  lemma DigitsFirst(a: Bytes, s: Bytes, b: Bytes, t: Bytes)
    requires (forall k :: 0 <= k < |a| ==> IsDigit(a[k])) && (forall k :: 0 <= k < |b| ==> IsDigit(b[k]))
    requires (s == [] || s[0] == DOT) && (t == [] || t[0] == DOT)
    requires a + s == b + t
    ensures a == b
  {
    assert DOT !in a && DOT !in b;
    SplitHead(a, s, DOT);
    SplitHead(b, t, DOT);
    assert Split(a + s, DOT)[0] == a && Split(b + t, DOT)[0] == b;
  }

  lemma {:induction false} IdsAreNumbered(items: seq<ImportedItem>, prefix: Bytes, i: nat)
    ensures forall id :: id in AllIds(BuildNodes(items, prefix, i)) ==>
        exists j: nat :: j >= i && Numbered(id, prefix, j)
    decreases items
  {
    if items != [] {
      NodeIsNumbered(items[0], prefix, i);
      IdsAreNumbered(items[1..], prefix, i + 1);
    }
  }

  lemma {:induction false} NodeIsNumbered(item: ImportedItem, prefix: Bytes, i: nat)
    ensures forall id :: id in IdsIn(BuildNode(item, prefix, i)) ==> Numbered(id, prefix, i)
    ensures forall id :: id in AllIds(BuildNode(item, prefix, i).children) ==> |id| > |BuildNode(item, prefix, i).id|
    decreases item
  {
    var node := BuildNode(item, prefix, i);
    assert node.id == prefix + Decimal(i) + [];
    if item.Folder? {
      IdsAreNumbered(item.folder.items, node.id + [DOT], 0);
      forall id | id in AllIds(node.children) ensures Numbered(id, prefix, i) && |id| > |node.id| {
        var j: nat :| Numbered(id, node.id + [DOT], j);
        var tail: Bytes :| id == node.id + [DOT] + Decimal(j) + tail && (tail == [] || tail[0] == DOT);
        assert id == prefix + Decimal(i) + ([DOT] + Decimal(j) + tail);
      }
    }
  }

  /** Preview ids are pairwise distinct, at all depths. */
  lemma {:induction false} PreviewIdsDistinct(items: seq<ImportedItem>, prefix: Bytes, i: nat)
    ensures NoDuplicates(AllIds(BuildNodes(items, prefix, i)))
    decreases items
  {
    if items != [] {
      var first, rest := IdsIn(BuildNode(items[0], prefix, i)), AllIds(BuildNodes(items[1..], prefix, i + 1));
      NodeIdsDistinct(items[0], prefix, i);
      PreviewIdsDistinct(items[1..], prefix, i + 1);
      NodeIsNumbered(items[0], prefix, i);
      IdsAreNumbered(items[1..], prefix, i + 1);
      forall id | id in first ensures id !in rest {
        if j: nat :| j >= i + 1 && Numbered(id, prefix, j) { NumberedOnce(id, prefix, i, j); }
      }
      NoDuplicatesAppend(first, rest);
    }
  }

  lemma {:induction false} NodeIdsDistinct(item: ImportedItem, prefix: Bytes, i: nat)
    ensures NoDuplicates(IdsIn(BuildNode(item, prefix, i)))
    decreases item
  {
    NodeIsNumbered(item, prefix, i);
    if item.Folder? { PreviewIdsDistinct(item.folder.items, prefix + Decimal(i) + [DOT], 0); }
  }

  // ---- the selection, in terms of the preview ----

  /** A request or an empty folder, with the folders around it (without their items). */
  datatype Leaf = Leaf(around: seq<ImportedFolder>, item: ImportedItem)

  /** The leaves of a tree, in order. */
  function Leaves(items: seq<ImportedItem>, around: seq<ImportedFolder>): seq<Leaf> {
    if items == [] then [] else LeavesOf(items[0], around) + Leaves(items[1..], around)
  }

  function LeavesOf(item: ImportedItem, around: seq<ImportedFolder>): seq<Leaf> {
    match item
    case Request(_) => [Leaf(around, item)]
    case Folder(f) => if f.items == [] then [Leaf(around, item)] else Leaves(f.items, around + [f.(items := [])])
  }

  /** The ids the preview shows for them. */
  function LeafIds(nodes: seq<ImportNode>): seq<Bytes> {
    if nodes == [] then [] else LeafIdsOf(nodes[0]) + LeafIds(nodes[1..])
  }

  function LeafIdsOf(node: ImportNode): seq<Bytes> { if node.children == [] then [node.id] else LeafIds(node.children) }

  /** The elements of `s` whose id is selected, in order. */
  function Picked<T>(s: seq<T>, ids: seq<Bytes>, selected: set<Bytes>): seq<T>
    requires |s| == |ids|
  {
    if s == [] then [] else (if ids[0] in selected then [s[0]] else []) + Picked(s[1..], ids[1..], selected)
  }

  lemma {:induction false} PickedAppend<T>(a: seq<T>, aIds: seq<Bytes>, b: seq<T>, bIds: seq<Bytes>,
                                           selected: set<Bytes>)
    requires |a| == |aIds| && |b| == |bIds|
    ensures Picked(a + b, aIds + bIds, selected) == Picked(a, aIds, selected) + Picked(b, bIds, selected)
  {
    if a == [] {
      assert a + b == b && aIds + bIds == bIds;
    } else {
      PickedAppend(a[1..], aIds[1..], b, bIds, selected);
      HeadTail(a, b);
      HeadTail(aIds, bIds);
      var first := if aIds[0] in selected then [a[0]] else [];
      Regroup(first, Picked(a[1..], aIds[1..], selected), Picked(b, bIds, selected));
    }
  }

  lemma {:induction false} SameLeaves(items: seq<ImportedItem>, prefix: Bytes, i: nat, around: seq<ImportedFolder>)
    ensures |Leaves(items, around)| == |LeafIds(BuildNodes(items, prefix, i))|
    ensures items != [] ==> Leaves(items, around) != []
    decreases items
  {
    if items != [] {
      SameLeavesOf(items[0], prefix, i, around);
      SameLeaves(items[1..], prefix, i + 1, around);
    }
  }

  lemma {:induction false} SameLeavesOf(item: ImportedItem, prefix: Bytes, i: nat, around: seq<ImportedFolder>)
    ensures |LeavesOf(item, around)| == |LeafIdsOf(BuildNode(item, prefix, i))| >= 1
    decreases item
  {
    if item.Folder? && item.folder.items != [] {
      SameLeaves(item.folder.items, prefix + Decimal(i) + [DOT], 0, around + [item.folder.(items := [])]);
    }
  }

  /** The selection keeps exactly the requests and the empty folders whose preview id is selected, in order and
      inside the same folders; so a folder it keeps is empty only if it was empty and selected. */
  lemma {:induction false} SelectionKeeps(items: seq<ImportedItem>, selected: set<Bytes>, prefix: Bytes, i: nat,
                                          around: seq<ImportedFolder>)
    ensures |Leaves(items, around)| == |LeafIds(BuildNodes(items, prefix, i))|
    ensures Leaves(Kept(items, selected, prefix, i), around)
         == Picked(Leaves(items, around), LeafIds(BuildNodes(items, prefix, i)), selected)
    decreases items
  {
    SameLeaves(items, prefix, i, around);
    if items != [] {
      SelectionKeepsItem(items[0], selected, prefix, i, around);
      SelectionKeeps(items[1..], selected, prefix, i + 1, around);
      PickedAppend(LeavesOf(items[0], around), LeafIdsOf(BuildNode(items[0], prefix, i)),
                   Leaves(items[1..], around), LeafIds(BuildNodes(items[1..], prefix, i + 1)), selected);
      LeavesAppend(KeptItem(items[0], selected, prefix, i), Kept(items[1..], selected, prefix, i + 1), around);
    }
  }

  lemma {:induction false} LeavesAppend(a: seq<ImportedItem>, b: seq<ImportedItem>, around: seq<ImportedFolder>)
    ensures Leaves(a + b, around) == Leaves(a, around) + Leaves(b, around)
  {
    if a == [] {
      assert a + b == b;
    } else {
      LeavesAppend(a[1..], b, around);
      HeadTail(a, b);
      Regroup(LeavesOf(a[0], around), Leaves(a[1..], around), Leaves(b, around));
    }
  }

  lemma {:induction false} SelectionKeepsItem(item: ImportedItem, selected: set<Bytes>, prefix: Bytes, i: nat,
                                              around: seq<ImportedFolder>)
    ensures |LeavesOf(item, around)| == |LeafIdsOf(BuildNode(item, prefix, i))|
    ensures Leaves(KeptItem(item, selected, prefix, i), around)
         == Picked(LeavesOf(item, around), LeafIdsOf(BuildNode(item, prefix, i)), selected)
    decreases item
  {
    SameLeavesOf(item, prefix, i, around);
    var id := prefix + Decimal(i);
    var out := KeptItem(item, selected, prefix, i);
    if item.Folder? && item.folder.items != [] {
      var f := item.folder;
      var kids := Kept(f.items, selected, id + [DOT], 0);
      SelectionKeeps(f.items, selected, id + [DOT], 0, around + [f.(items := [])]);
      SameLeaves(kids, [], 0, around + [f.(items := [])]);
      if kids != [] { LeavesOne(Folder(f.(items := kids)), around); }
    } else {
      LeavesOne(item, around);
    }
  }

  lemma LeavesOne(item: ImportedItem, around: seq<ImportedFolder>)
    ensures Leaves([item], around) == LeavesOf(item, around)
  {
    assert [item][1..] == [];
    assert LeavesOf(item, around) + [] == LeavesOf(item, around);
  }

  /** Selecting every leaf keeps the tree as it is. */
  lemma {:induction false} SelectAllKeepsAll(items: seq<ImportedItem>, selected: set<Bytes>, prefix: Bytes, i: nat)
    requires forall id :: id in LeafIds(BuildNodes(items, prefix, i)) ==> id in selected
    ensures Kept(items, selected, prefix, i) == items
    decreases items
  {
    if items != [] {
      SelectAllKeepsItem(items[0], selected, prefix, i);
      SelectAllKeepsAll(items[1..], selected, prefix, i + 1);
    }
  }

  lemma {:induction false} SelectAllKeepsItem(item: ImportedItem, selected: set<Bytes>, prefix: Bytes, i: nat)
    requires forall id :: id in LeafIdsOf(BuildNode(item, prefix, i)) ==> id in selected
    ensures KeptItem(item, selected, prefix, i) == [item]
    decreases item
  {
    if item.Folder? { SelectAllKeepsAll(item.folder.items, selected, prefix + Decimal(i) + [DOT], 0); }
  }

  /** The leaf ids are among the ids shown. */
  lemma {:induction false} LeafIdsShown(nodes: seq<ImportNode>)
    ensures forall id :: id in LeafIds(nodes) ==> id in AllIds(nodes)
    decreases nodes
  {
    if nodes != [] {
      LeafIdsShownIn(nodes[0]);
      LeafIdsShown(nodes[1..]);
    }
  }

  lemma {:induction false} LeafIdsShownIn(node: ImportNode)
    ensures forall id :: id in LeafIdsOf(node) ==> id in IdsIn(node)
    decreases node
  {
    LeafIdsShown(node.children);
  }

  /** The round trip through the preview: the ids shown are distinct, selecting all of them changes nothing,
      and selecting none drops everything. */
  lemma SelectionRoundTrip(items: seq<ImportedItem>)
    ensures NoDuplicates(AllIds(PreviewNodes(items)))
    ensures Kept(items, set id | id in AllIds(PreviewNodes(items)), [], 0) == items
    ensures Kept(items, {}, [], 0) == []
  {
    var nodes := PreviewNodes(items);
    PreviewIdsDistinct(items, [], 0);
    LeafIdsShown(nodes);
    SelectAllKeepsAll(items, set id | id in AllIds(nodes), [], 0);
    SelectionKeeps(items, {}, [], 0, []);
    NonePicked(Leaves(items, []), LeafIds(nodes));
    SameLeaves(Kept(items, {}, [], 0), [], 0, []);
  }

  lemma {:induction false} NonePicked<T>(s: seq<T>, ids: seq<Bytes>)
    requires |s| == |ids|
    ensures Picked(s, ids, {}) == []
  {
    if s != [] { NonePicked(s[1..], ids[1..]); }
  }
}
