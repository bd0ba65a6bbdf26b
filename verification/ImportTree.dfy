/** Flattening an imported tree into folders and requests with parent links and an `order`
    (crates/voleeo-import/src/convert.rs), and what the export makes of the result. */
module ImportTree {
  import opened Text
  import opened Sequences
  import opened Forest
  import opened Bundles
  import opened PostmanExport
  import opened ImportIr

  /** The `order` of the first item, and the ids `new_id` will hand out, one for each item. */
  datatype Numbering = Numbering(base: int, ids: nat -> Id)

  ghost predicate Distinct(ids: nat -> Id) { forall i: nat, j: nat :: ids(i) == ids(j) ==> i == j }

  function ToAuth(auth: ImportedAuth): Auth {
    match auth
    case NoneGiven => NoAuth
    case Unsupported(_) => NoAuth
    case InheritFromParent => Inherit(FromFolder)
    case Configured(config) => Scheme(config, true)
  }

  /** A configured scheme is enabled, inheriting means from the folder, and nothing else has an auth. */
  lemma AuthConverted(auth: ImportedAuth)
    ensures ToAuth(auth).Scheme? <==> auth.Configured?
    ensures auth.Configured? ==> ToAuth(auth).config == auth.config && IsActive(ToAuth(auth))
    ensures ToAuth(auth).Inherit? <==> auth.InheritFromParent?
    ensures ToAuth(auth) != Inherit(FromWorkspace)
  {
  }

  function ToFolder(f: ImportedFolder, parent: Option<Id>, num: Numbering, k: nat): ApiFolder {
    ApiFolder(num.ids(k), parent, f.name, ToAuth(f.auth), f.settings, num.base + k)
  }

  function ToRequest(r: ImportedRequest, parent: Option<Id>, num: Numbering, k: nat): HttpRequest {
    HttpRequest(num.ids(k), parent, r.name, r.httpMethod, r.url, ToAuth(r.auth), r.details, num.base + k)
  }

  // ---- the flattened tree, in preorder ----

  function Size(items: seq<ImportedItem>): nat {
    if items == [] then 0 else SizeOf(items[0]) + Size(items[1..])
  }

  function SizeOf(item: ImportedItem): (n: nat)
    ensures n >= 1
  {
    match item case Request(_) => 1 case Folder(f) => 1 + Size(f.items)
  }

  function NodeFor(item: ImportedItem, parent: Option<Id>, num: Numbering, k: nat): Node {
    match item
    case Request(r) => HttpNode(ToRequest(r, parent, num, k))
    case Folder(f) => FolderNode(ToFolder(f, parent, num, k))
  }

  /** Every item, numbered from `k`. */
  function Preorder(items: seq<ImportedItem>, parent: Option<Id>, num: Numbering, k: nat): seq<Node> {
    if items == [] then []
    else PreorderOf(items[0], parent, num, k) + Preorder(items[1..], parent, num, k + SizeOf(items[0]))
  }

  function PreorderOf(item: ImportedItem, parent: Option<Id>, num: Numbering, k: nat): seq<Node> {
    [NodeFor(item, parent, num, k)]
      + match item case Request(_) => [] case Folder(f) => Preorder(f.items, Some(num.ids(k)), num, k + 1)
  }

  /** The top level only. */
  function Tops(items: seq<ImportedItem>, parent: Option<Id>, num: Numbering, k: nat): seq<Node> {
    if items == [] then []
    else [NodeFor(items[0], parent, num, k)] + Tops(items[1..], parent, num, k + SizeOf(items[0]))
  }

  function FoldersOf(nodes: seq<Node>): seq<ApiFolder> {
    if nodes == [] then [] else FolderIn(nodes[0]) + FoldersOf(nodes[1..])
  }

  function FolderIn(n: Node): seq<ApiFolder> { match n case FolderNode(f) => [f] case HttpNode(_) => [] }

  function RequestsOf(nodes: seq<Node>): seq<HttpRequest> {
    if nodes == [] then [] else RequestIn(nodes[0]) + RequestsOf(nodes[1..])
  }

  function RequestIn(n: Node): seq<HttpRequest> { match n case FolderNode(_) => [] case HttpNode(r) => [r] }

  lemma {:induction false} FoldersAppend(a: seq<Node>, b: seq<Node>)
    ensures FoldersOf(a + b) == FoldersOf(a) + FoldersOf(b)
  {
    if a == [] {
      assert a + b == b;
    } else {
      FoldersAppend(a[1..], b);
      HeadTail(a, b);
      Regroup(FolderIn(a[0]), FoldersOf(a[1..]), FoldersOf(b));
    }
  }

  lemma {:induction false} RequestsAppend(a: seq<Node>, b: seq<Node>)
    ensures RequestsOf(a + b) == RequestsOf(a) + RequestsOf(b)
  {
    if a == [] {
      assert a + b == b;
    } else {
      RequestsAppend(a[1..], b);
      HeadTail(a, b);
      Regroup(RequestIn(a[0]), RequestsOf(a[1..]), RequestsOf(b));
    }
  }

  class ConvertedPlan {
    var folders: seq<ApiFolder>
    var requests: seq<HttpRequest>
    var counter: nat

    constructor ()
      ensures folders == [] && requests == [] && counter == 0
    {
      folders, requests, counter := [], [], 0;
    }

    method ConvertItems(items: seq<ImportedItem>, parent: Option<Id>, num: Numbering)
      modifies this
      ensures folders == old(folders) + FoldersOf(Preorder(items, parent, num, old(counter)))
      ensures requests == old(requests) + RequestsOf(Preorder(items, parent, num, old(counter)))
      ensures counter == old(counter) + Size(items)
      decreases items
    {
      ghost var allFolders := folders + FoldersOf(Preorder(items, parent, num, counter));
      ghost var allRequests := requests + RequestsOf(Preorder(items, parent, num, counter));
      ghost var end := counter + Size(items);
      assert items[0..] == items;
      for i := 0 to |items|
        invariant Remains(items[i..], parent, num, allFolders, allRequests, end)
      {
        ghost var fs, rs, k := folders, requests, counter;
        assert items[i..][0] == items[i] && items[i..][1..] == items[i + 1..];
        ConvertItem(items[i], parent, num);
        RemainsAfter(items[i..], parent, num, k, fs, rs);
      }
      assert items[|items|..] == [];
    }

    /** With the remaining items, the plan becomes the given one. */
    ghost predicate Remains(items: seq<ImportedItem>, parent: Option<Id>, num: Numbering,
                            allFolders: seq<ApiFolder>, allRequests: seq<HttpRequest>, end: nat)
      reads this
    {
      && folders + FoldersOf(Preorder(items, parent, num, counter)) == allFolders
      && requests + RequestsOf(Preorder(items, parent, num, counter)) == allRequests
      && counter + Size(items) == end
    }

    /** One round of the loop. */
    method ConvertItem(item: ImportedItem, parent: Option<Id>, num: Numbering)
      modifies this
      ensures folders == old(folders) + FoldersOf(PreorderOf(item, parent, num, old(counter)))
      ensures requests == old(requests) + RequestsOf(PreorderOf(item, parent, num, old(counter)))
      ensures counter == old(counter) + SizeOf(item)
      decreases item
    {
      PartsOfItem(item, parent, num, counter);
      var k := counter;
      counter := counter + 1;
      match item
      case Folder(f) =>
        folders := folders + [ToFolder(f, parent, num, k)];
        Regroup(old(folders), [ToFolder(f, parent, num, k)],
          FoldersOf(Preorder(f.items, Some(num.ids(k)), num, k + 1)));
        ConvertItems(f.items, Some(num.ids(k)), num);
      case Request(r) =>
        requests := requests + [ToRequest(r, parent, num, k)];
    }
  }

  /** Moving the first item's part into the plan leaves the whole as it was. */
  lemma RemainsAfter(items: seq<ImportedItem>, parent: Option<Id>, num: Numbering, k: nat, fs: seq<ApiFolder>,
                     rs: seq<HttpRequest>)
    requires items != []
    ensures var rest := Preorder(items[1..], parent, num, k + SizeOf(items[0]));
            && fs + FoldersOf(PreorderOf(items[0], parent, num, k)) + FoldersOf(rest)
              == fs + FoldersOf(Preorder(items, parent, num, k))
            && rs + RequestsOf(PreorderOf(items[0], parent, num, k)) + RequestsOf(rest)
              == rs + RequestsOf(Preorder(items, parent, num, k))
  {
    var rest := Preorder(items[1..], parent, num, k + SizeOf(items[0]));
    PartsOfHead(items, parent, num, k);
    Regroup(fs, FoldersOf(PreorderOf(items[0], parent, num, k)), FoldersOf(rest));
    Regroup(rs, RequestsOf(PreorderOf(items[0], parent, num, k)), RequestsOf(rest));
  }

  lemma PartsOfHead(items: seq<ImportedItem>, parent: Option<Id>, num: Numbering, k: nat)
    requires items != []
    ensures var rest := Preorder(items[1..], parent, num, k + SizeOf(items[0]));
            && FoldersOf(Preorder(items, parent, num, k))
              == FoldersOf(PreorderOf(items[0], parent, num, k)) + FoldersOf(rest)
            && RequestsOf(Preorder(items, parent, num, k))
              == RequestsOf(PreorderOf(items[0], parent, num, k)) + RequestsOf(rest)
  {
    var head, rest := PreorderOf(items[0], parent, num, k), Preorder(items[1..], parent, num, k + SizeOf(items[0]));
    FoldersAppend(head, rest);
    RequestsAppend(head, rest);
  }

  lemma PartsOfItem(item: ImportedItem, parent: Option<Id>, num: Numbering, k: nat)
    ensures FoldersOf(PreorderOf(item, parent, num, k)) == match item
              case Request(_) => []
              case Folder(f) =>
                [ToFolder(f, parent, num, k)] + FoldersOf(Preorder(f.items, Some(num.ids(k)), num, k + 1))
    ensures RequestsOf(PreorderOf(item, parent, num, k)) == match item
              case Request(r) => [ToRequest(r, parent, num, k)]
              case Folder(f) => RequestsOf(Preorder(f.items, Some(num.ids(k)), num, k + 1))
  {
    var nodes := PreorderOf(item, parent, num, k);
    assert nodes[1..]
        == match item case Request(_) => [] case Folder(f) => Preorder(f.items, Some(num.ids(k)), num, k + 1);
  }

  method BuildPlan(items: seq<ImportedItem>, num: Numbering) returns (plan: ConvertedPlan)
    ensures fresh(plan)
    ensures plan.folders == FoldersOf(Preorder(items, None, num, 0))
    ensures plan.requests == RequestsOf(Preorder(items, None, num, 0))
  {
    plan := new ConvertedPlan();
    plan.ConvertItems(items, None, num);
  }

  // ---- numbers, orders and parents of the flattened tree ----

  function IdOf(n: Node): Id { match n case FolderNode(f) => f.id case HttpNode(r) => r.id }

  function ParentOf(n: Node): Option<Id> { match n case FolderNode(f) => f.folderId case HttpNode(r) => r.folderId }

  /** Item number `k + i` of the flattened tree carries the id and the order of that number. */
  lemma {:induction false} PreorderNumbers(items: seq<ImportedItem>, parent: Option<Id>, num: Numbering, k: nat)
    ensures |Preorder(items, parent, num, k)| == Size(items)
    ensures forall i :: 0 <= i < Size(items) ==>
              var n := Preorder(items, parent, num, k)[i]; IdOf(n) == num.ids(k + i) && OrderOf(n) == num.base + k + i
    decreases items
  {
    if items != [] {
      NumbersOfItem(items[0], parent, num, k);
      PreorderNumbers(items[1..], parent, num, k + SizeOf(items[0]));
    }
  }

  lemma {:induction false} NumbersOfItem(item: ImportedItem, parent: Option<Id>, num: Numbering, k: nat)
    ensures |PreorderOf(item, parent, num, k)| == SizeOf(item)
    ensures forall i :: 0 <= i < SizeOf(item) ==>
              var n := PreorderOf(item, parent, num, k)[i]; IdOf(n) == num.ids(k + i) && OrderOf(n) == num.base + k + i
    decreases item
  {
    if item.Folder? { PreorderNumbers(item.folder.items, Some(num.ids(k)), num, k + 1); }
  }

  /** No item but those of the top level has a parent outside the tree. */
  lemma {:induction false} ForeignParent(items: seq<ImportedItem>, parent: Option<Id>, num: Numbering, k: nat,
                                         q: Option<Id>)
    requires q != parent && forall i: nat :: k <= i < k + Size(items) ==> q != Some(num.ids(i))
    ensures forall n :: n in Preorder(items, parent, num, k) ==> ParentOf(n) != q
    decreases items
  {
    if items != [] {
      ForeignToItem(items[0], parent, num, k, q);
      ForeignParent(items[1..], parent, num, k + SizeOf(items[0]), q);
    }
  }

  lemma {:induction false} ForeignToItem(item: ImportedItem, parent: Option<Id>, num: Numbering, k: nat, q: Option<Id>)
    requires q != parent && forall i: nat :: k <= i < k + SizeOf(item) ==> q != Some(num.ids(i))
    ensures forall n :: n in PreorderOf(item, parent, num, k) ==> ParentOf(n) != q
    decreases item
  {
    if item.Folder? { ForeignParent(item.folder.items, Some(num.ids(k)), num, k + 1, q); }
  }

  ghost function InScope(nodes: seq<Node>, q: Option<Id>): seq<Node> { Filter(nodes, (n: Node) => ParentOf(n) == q) }

  lemma InScopeAppend(a: seq<Node>, b: seq<Node>, q: Option<Id>)
    ensures InScope(a + b, q) == InScope(a, q) + InScope(b, q)
  {
    FilterAppend(a, b, (n: Node) => ParentOf(n) == q);
  }

  lemma InScopeNone(nodes: seq<Node>, q: Option<Id>)
    requires forall n :: n in nodes ==> ParentOf(n) != q
    ensures InScope(nodes, q) == []
  {
    FilterNone(nodes, (n: Node) => ParentOf(n) == q);
  }

  /** The top level is what has the parent of the top level, in order. */
  lemma {:induction false} TopsInScope(items: seq<ImportedItem>, parent: Option<Id>, num: Numbering, k: nat)
    requires Distinct(num.ids) && forall i: nat :: k <= i < k + Size(items) ==> parent != Some(num.ids(i))
    ensures InScope(Preorder(items, parent, num, k), parent) == Tops(items, parent, num, k)
    decreases items
  {
    if items != [] {
      TopsInScope(items[1..], parent, num, k + SizeOf(items[0]));
      ItemInScope(items[0], parent, num, k);
      InScopeAppend(PreorderOf(items[0], parent, num, k),
                    Preorder(items[1..], parent, num, k + SizeOf(items[0])), parent);
    }
  }

  lemma ItemInScope(item: ImportedItem, parent: Option<Id>, num: Numbering, k: nat)
    requires forall i: nat :: k <= i < k + SizeOf(item) ==> parent != Some(num.ids(i))
    ensures InScope(PreorderOf(item, parent, num, k), parent) == [NodeFor(item, parent, num, k)]
  {
    var head := NodeFor(item, parent, num, k);
    var below := match item case Request(_) => [] case Folder(f) => Preorder(f.items, Some(num.ids(k)), num, k + 1);
    if item.Folder? { ForeignParent(item.folder.items, Some(num.ids(k)), num, k + 1, parent); }
    InScopeNone(below, parent);
    assert PreorderOf(item, parent, num, k) == [head] + below;
    InScopeAppend([head], below, parent);
    FilterOne(head, (n: Node) => ParentOf(n) == parent);
  }

  /** `all` holds, for every folder in `items`, exactly that folder's items, in order. */
  ghost predicate Wired(all: seq<Node>, items: seq<ImportedItem>, num: Numbering, k: nat) {
    items != [] ==> WiredItem(all, items[0], num, k) && Wired(all, items[1..], num, k + SizeOf(items[0]))
  }

  ghost predicate WiredItem(all: seq<Node>, item: ImportedItem, num: Numbering, k: nat) {
    match item
    case Request(_) => true
    case Folder(f) =>
      InScope(all, Some(num.ids(k))) == Tops(f.items, Some(num.ids(k)), num, k + 1) && Wired(all, f.items, num, k + 1)
  }

  /** Nothing in `nodes` lies directly in one of the folders numbered `lo` to `hi`. */
  ghost predicate Outside(nodes: seq<Node>, num: Numbering, lo: nat, hi: nat) {
    forall n, i: nat :: n in nodes && lo <= i < hi ==> ParentOf(n) != Some(num.ids(i))
  }

  lemma {:induction false} PreorderWired(items: seq<ImportedItem>, parent: Option<Id>, num: Numbering, k: nat,
                                         before: seq<Node>, after: seq<Node>)
    requires Distinct(num.ids) && forall i: nat :: k <= i < k + Size(items) ==> parent != Some(num.ids(i))
    requires Outside(before, num, k, k + Size(items)) && Outside(after, num, k, k + Size(items))
    ensures Wired(before + Preorder(items, parent, num, k) + after, items, num, k)
    decreases items
  {
    if items != [] {
      var size := SizeOf(items[0]);
      var head, rest := PreorderOf(items[0], parent, num, k), Preorder(items[1..], parent, num, k + size);
      PreorderOutside(items[1..], parent, num, k + size, k, k + size);
      OutsideAppend(rest, after, num, k, k + size);
      ItemWired(items[0], parent, num, k, before, rest + after);
      ItemOutside(items[0], parent, num, k, k + size, k + Size(items));
      OutsideAppend(before, head, num, k + size, k + Size(items));
      PreorderWired(items[1..], parent, num, k + size, before + head, after);
      RegroupFour(before, head, rest, after);
    }
  }

  lemma OutsideAppend(a: seq<Node>, b: seq<Node>, num: Numbering, lo: nat, hi: nat)
    requires Outside(a, num, lo, hi) && Outside(b, num, lo, hi)
    ensures Outside(a + b, num, lo, hi)
  {
    forall n, i: nat | n in a + b && lo <= i < hi ensures ParentOf(n) != Some(num.ids(i)) {
      assert n in a || n in b;
    }
  }

  lemma RegroupFour<T>(a: seq<T>, b: seq<T>, c: seq<T>, d: seq<T>)
    ensures a + b + (c + d) == a + (b + c) + d == (a + b) + c + d
  {
  }

  lemma PreorderOutside(items: seq<ImportedItem>, parent: Option<Id>, num: Numbering, k: nat, lo: nat, hi: nat)
    requires Distinct(num.ids) && forall i: nat :: lo <= i < hi ==> parent != Some(num.ids(i))
    requires hi <= k || k + Size(items) <= lo
    ensures Outside(Preorder(items, parent, num, k), num, lo, hi)
  {
    forall n, i: nat | n in Preorder(items, parent, num, k) && lo <= i < hi ensures ParentOf(n) != Some(num.ids(i)) {
      ForeignParent(items, parent, num, k, Some(num.ids(i)));
    }
  }

  lemma ItemOutside(item: ImportedItem, parent: Option<Id>, num: Numbering, k: nat, lo: nat, hi: nat)
    requires Distinct(num.ids) && forall i: nat :: lo <= i < hi ==> parent != Some(num.ids(i))
    requires k + SizeOf(item) <= lo
    ensures Outside(PreorderOf(item, parent, num, k), num, lo, hi)
  {
    if item.Folder? { PreorderOutside(item.folder.items, Some(num.ids(k)), num, k + 1, lo, hi); }
  }

  lemma {:induction false} ItemWired(item: ImportedItem, parent: Option<Id>, num: Numbering, k: nat, before: seq<Node>,
                                     after: seq<Node>)
    requires Distinct(num.ids) && forall i: nat :: k <= i < k + SizeOf(item) ==> parent != Some(num.ids(i))
    requires Outside(before, num, k, k + SizeOf(item)) && Outside(after, num, k, k + SizeOf(item))
    ensures WiredItem(before + PreorderOf(item, parent, num, k) + after, item, num, k)
    decreases item
  {
    if item.Folder? {
      var f, head := item.folder, [NodeFor(item, parent, num, k)];
      var below := Preorder(f.items, Some(num.ids(k)), num, k + 1);
      assert before + PreorderOf(item, parent, num, k) + after == (before + head) + below + after;
      OutsideSnoc(before, head[0], num, k, k + SizeOf(item));
      PreorderWired(f.items, Some(num.ids(k)), num, k + 1, before + head, after);
      FolderScope(f.items, num, k, before + head, after);
    }
  }

  lemma OutsideSnoc(before: seq<Node>, n: Node, num: Numbering, lo: nat, hi: nat)
    requires Outside(before, num, lo, hi) && forall i: nat :: lo <= i < hi ==> ParentOf(n) != Some(num.ids(i))
    ensures Outside(before + [n], num, lo, hi)
  {
  }

  lemma FolderScope(items: seq<ImportedItem>, num: Numbering, k: nat, before: seq<Node>, after: seq<Node>)
    requires Distinct(num.ids) && Outside(before, num, k, k + 1) && Outside(after, num, k, k + 1)
    ensures var self := Some(num.ids(k)); var below := Preorder(items, self, num, k + 1);
            InScope(before + below + after, self) == Tops(items, self, num, k + 1)
  {
    var self := Some(num.ids(k));
    var below := Preorder(items, self, num, k + 1);
    InScopeAppend(before, below, self);
    InScopeAppend(before + below, after, self);
    InScopeNone(before, self);
    InScopeNone(after, self);
    TopsInScope(items, self, num, k + 1);
  }

  // ---- what the user sees of a tree ----

  /** Names, nesting, sibling order, auth and payload, without ids and `order`. */
  datatype Shape =
    | FolderShape(name: Bytes, auth: Auth, settings: Bytes, items: seq<Shape>)
    | RequestShape(name: Bytes, httpMethod: Bytes, url: Bytes, auth: Auth, details: Bytes)
    | NoShape

  function ImportedShapes(items: seq<ImportedItem>): seq<Shape> {
    if items == [] then [] else [ImportedShape(items[0])] + ImportedShapes(items[1..])
  }

  function ImportedShape(item: ImportedItem): Shape {
    match item
    case Request(r) => RequestShape(r.name, r.httpMethod, r.url, ToAuth(r.auth), r.details)
    case Folder(f) => FolderShape(f.name, ToAuth(f.auth), f.settings, ImportedShapes(f.items))
  }

  function ExportedShapes(items: seq<Item>): seq<Shape> {
    if items == [] then [] else [ExportedShape(items[0])] + ExportedShapes(items[1..])
  }

  function ExportedShape(item: Item): Shape {
    match item
    case HttpItem(r, auth) => RequestShape(r.name, r.httpMethod, r.url, auth, r.details)
    case FolderItem(f, auth, items) => FolderShape(f.name, auth, f.settings, ExportedShapes(items))
    case WorkspaceItem(_, _, _) => NoShape
    case Endless => NoShape
  }
}
