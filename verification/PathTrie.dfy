/** Nesting requests into folders by URL path (`group_by_path`, `node_to_items` in
    crates/voleeo-import/src/util.rs). */
module PathTrie {
  import opened Text
  import opened Sequences
  import opened ImportIr

  /** One node of the URL-path trie; children are kept ascending by segment, as a `BTreeMap` does. */
  datatype PathNode = PathNode(requests: seq<ImportedRequest>, children: seq<Child>)
  datatype Child = Child(seg: Bytes, node: PathNode)

  const EMPTY_NODE := PathNode([], [])

  function Segments(r: ImportedRequest): seq<Bytes> {
    Filter(Split(r.path, SLASH), s => s != [])
  }

  /** The segments are what stands between slashes, however many there are. */
  lemma SegmentsMeaning(r: ImportedRequest, pieces: seq<Bytes>)
    requires pieces != [] && r.path == Join(pieces, SLASH) && forall i :: 0 <= i < |pieces| ==> SLASH !in pieces[i]
    ensures Segments(r) == Filter(pieces, s => s != [])
  {
    SplitJoin(pieces, SLASH);
  }

  // ---- building and reading off ----

  function Insert(node: PathNode, segs: seq<Bytes>, r: ImportedRequest): PathNode
    decreases |segs|, 0
  {
    if segs == [] then node.(requests := node.requests + [r])
    else node.(children := InsertChild(node.children, segs[0], segs[1..], r))
  }

  /** `children.entry(seg).or_default()`, then on into the child. */
  function InsertChild(children: seq<Child>, seg: Bytes, rest: seq<Bytes>, r: ImportedRequest): seq<Child>
    decreases |rest|, 1 + |children|
  {
    if children == [] then [Child(seg, Insert(EMPTY_NODE, rest, r))]
    else if children[0].seg == seg then [Child(seg, Insert(children[0].node, rest, r))] + children[1..]
    else if BytesLeq(seg, children[0].seg) then [Child(seg, Insert(EMPTY_NODE, rest, r))] + children
    else [children[0]] + InsertChild(children[1..], seg, rest, r)
  }

  function InsertAll(node: PathNode, requests: seq<ImportedRequest>): PathNode {
    if requests == [] then node
    else
      var r := requests[|requests| - 1];
      Insert(InsertAll(node, requests[..|requests| - 1]), Segments(r), r)
  }

  /** A lone leaf operation gets no folder of its own. */
  predicate Collapses(node: PathNode) { !(|node.requests| > 1 || node.children != []) }

  function NodeToItems(node: PathNode): seq<ImportedItem>
    decreases node, 0
  {
    Map(node.requests, r => Request(r)) + ChildrenToItems(node.children)
  }

  function ChildrenToItems(children: seq<Child>): seq<ImportedItem>
    decreases children, 1
  {
    if children == [] then []
    else
      var c := children[0];
      (if Collapses(c.node) then Map(c.node.requests, r => Request(r))
       else [Folder(ImportedFolder(c.seg, NoneGiven, [], NodeToItems(c.node)))])
      + ChildrenToItems(children[1..])
  }

  method GroupByPath(requests: seq<ImportedRequest>) returns (items: seq<ImportedItem>)
    ensures items == NodeToItems(InsertAll(EMPTY_NODE, requests))
  {
    var root := EMPTY_NODE;
    for i := 0 to |requests|
      invariant root == InsertAll(EMPTY_NODE, requests[..i])
    {
      assert requests[..i + 1][..i] == requests[..i];
      root := Insert(root, Segments(requests[i]), requests[i]);
    }
    assert requests[..|requests|] == requests;
    items := NodeToItems(root);
  }

  // ---- lookups in the trie ----

  function ChildNode(children: seq<Child>, seg: Bytes): PathNode {
    if children == [] then EMPTY_NODE
    else if children[0].seg == seg then children[0].node
    else ChildNode(children[1..], seg)
  }

  function NodeAt(node: PathNode, segs: seq<Bytes>): PathNode
    decreases |segs|
  {
    if segs == [] then node else NodeAt(ChildNode(node.children, segs[0]), segs[1..])
  }

  /** Children are ascending, and every child holds something. */
  predicate Ascending(children: seq<Child>) {
    forall i, j :: 0 <= i < j < |children| ==>
        children[i].seg != children[j].seg && BytesLeq(children[i].seg, children[j].seg)
  }

  predicate WellFormed(node: PathNode)
    decreases node
  {
    && Ascending(node.children)
    && forall i :: 0 <= i < |node.children| ==>
         WellFormed(node.children[i].node) && node.children[i].node != EMPTY_NODE
  }

  lemma InsertNotEmpty(node: PathNode, segs: seq<Bytes>, r: ImportedRequest)
    ensures Insert(node, segs, r) != EMPTY_NODE
  {
    if segs != [] { assert |InsertChild(node.children, segs[0], segs[1..], r)| > 0; }
  }

  lemma {:induction false} InsertWellFormed(node: PathNode, segs: seq<Bytes>, r: ImportedRequest)
    requires WellFormed(node)
    ensures WellFormed(Insert(node, segs, r))
    decreases |segs|, 0
  {
    if segs != [] { InsertChildWellFormed(node.children, segs[0], segs[1..], r); }
  }

  /** The segment comes strictly before those of all children. */
  ghost predicate Before(seg: Bytes, children: seq<Child>) {
    forall c :: c in children ==> c.seg != seg && BytesLeq(seg, c.seg)
  }

  lemma ConsWellFormed(c: Child, tail: seq<Child>)
    requires WellFormed(PathNode([], tail)) && WellFormed(c.node) && c.node != EMPTY_NODE && Before(c.seg, tail)
    ensures WellFormed(PathNode([], [c] + tail))
  {
    var all := [c] + tail;
    assert forall i :: 1 <= i < |all| ==> all[i] == tail[i - 1] && all[i] in tail;
  }

  lemma FirstBefore(children: seq<Child>)
    requires WellFormed(PathNode([], children)) && children != []
    ensures Before(children[0].seg, children[1..]) && WellFormed(PathNode([], children[1..]))
    ensures WellFormed(children[0].node) && children[0].node != EMPTY_NODE
  {
    forall c | c in children[1..] ensures c.seg != children[0].seg && BytesLeq(children[0].seg, c.seg) {
      var i :| 0 <= i < |children[1..]| && children[1..][i] == c;
      assert children[i + 1] == c;
    }
  }

  lemma EarlierBefore(seg: Bytes, children: seq<Child>)
    requires children != [] && Before(children[0].seg, children[1..]) && seg != children[0].seg
        && BytesLeq(seg, children[0].seg)
    ensures Before(seg, children)
  {
    forall c | c in children ensures c.seg != seg && BytesLeq(seg, c.seg) {
      if c != children[0] {
        assert c in children[1..];
        BytesLeqTransitive(seg, children[0].seg, c.seg);
        if c.seg == seg { BytesLeqAntisymmetric(seg, children[0].seg); }
      }
    }
  }

  lemma {:induction false} InsertChildWellFormed(children: seq<Child>, seg: Bytes, rest: seq<Bytes>, r: ImportedRequest)
    requires WellFormed(PathNode([], children))
    ensures WellFormed(PathNode([], InsertChild(children, seg, rest, r)))
    ensures forall c :: c in InsertChild(children, seg, rest, r) ==> c.seg == seg || c in children
    decreases |rest|, 1 + |children|
  {
    InsertNotEmpty(EMPTY_NODE, rest, r);
    InsertWellFormed(EMPTY_NODE, rest, r);
    var added := Child(seg, Insert(EMPTY_NODE, rest, r));
    if children == [] {
      ConsWellFormed(added, []);
    } else {
      var first, tail := children[0], children[1..];
      FirstBefore(children);
      if first.seg == seg {
        InsertNotEmpty(first.node, rest, r);
        InsertWellFormed(first.node, rest, r);
        ConsWellFormed(Child(seg, Insert(first.node, rest, r)), tail);
      } else if BytesLeq(seg, first.seg) {
        EarlierBefore(seg, children);
        ConsWellFormed(added, children);
      } else {
        BytesLeqTotal(seg, first.seg);
        InsertChildWellFormed(tail, seg, rest, r);
        ConsWellFormed(first, InsertChild(tail, seg, rest, r));
      }
    }
  }

  lemma {:induction false} ChildAfterInsert(children: seq<Child>, seg: Bytes, rest: seq<Bytes>, r: ImportedRequest,
                                            s: Bytes)
    requires Ascending(children)
    ensures ChildNode(InsertChild(children, seg, rest, r), s)
         == if s == seg then Insert(ChildNode(children, s), rest, r) else ChildNode(children, s)
    decreases |children|
  {
    if children != [] && children[0].seg != seg {
      if BytesLeq(seg, children[0].seg) {
        AbsentBefore(children, seg);
        assert ([Child(seg, Insert(EMPTY_NODE, rest, r))] + children)[1..] == children;
      } else {
        ChildAfterInsert(children[1..], seg, rest, r, s);
        assert ([children[0]] + InsertChild(children[1..], seg, rest, r))[1..]
            == InsertChild(children[1..], seg, rest, r);
      }
    }
  }

  lemma {:induction false} AbsentBefore(children: seq<Child>, seg: Bytes)
    requires Ascending(children) && children != [] && children[0].seg != seg && BytesLeq(seg, children[0].seg)
    ensures ChildNode(children, seg) == EMPTY_NODE
  {
    if |children| > 1 {
      BytesLeqTransitive(seg, children[0].seg, children[1].seg);
      if children[1].seg == seg { BytesLeqAntisymmetric(seg, children[0].seg); }
      AbsentBefore(children[1..], seg);
    }
  }

  lemma {:induction false} ChildWellFormed(children: seq<Child>, seg: Bytes)
    requires WellFormed(PathNode([], children))
    ensures WellFormed(ChildNode(children, seg))
  {
    if children != [] && children[0].seg != seg {
      assert WellFormed(PathNode([], children[1..]));
      ChildWellFormed(children[1..], seg);
    }
  }

  /** Inserting adds the request at the end of exactly one node. */
  lemma {:induction false} InsertAddsAt(node: PathNode, segs: seq<Bytes>, r: ImportedRequest, q: seq<Bytes>)
    requires WellFormed(node)
    ensures NodeAt(Insert(node, segs, r), q).requests == NodeAt(node, q).requests + if q == segs then [r] else []
    decreases |q|
  {
    if segs != [] && q != [] {
      ChildAfterInsert(node.children, segs[0], segs[1..], r, q[0]);
      assert q == [q[0]] + q[1..] && segs == [segs[0]] + segs[1..];
      assert WellFormed(PathNode([], node.children));
      ChildWellFormed(node.children, q[0]);
      if q[0] == segs[0] { InsertAddsAt(ChildNode(node.children, q[0]), segs[1..], r, q[1..]); }
    }
  }

  function AtPath(q: seq<Bytes>): ImportedRequest -> bool { r => Segments(r) == q }

  lemma {:induction false} InsertAllWellFormed(requests: seq<ImportedRequest>)
    ensures WellFormed(InsertAll(EMPTY_NODE, requests))
  {
    if requests != [] {
      var before, last := requests[..|requests| - 1], requests[|requests| - 1];
      InsertAllWellFormed(before);
      InsertWellFormed(InsertAll(EMPTY_NODE, before), Segments(last), last);
    }
  }

  /** The trie of a list holds, at path `q`, the requests with that path, in input order. */
  ghost predicate HoldsAt(requests: seq<ImportedRequest>, q: seq<Bytes>) {
    NodeAt(InsertAll(EMPTY_NODE, requests), q).requests == Filter(requests, AtPath(q))
  }

  lemma TrieHolds(requests: seq<ImportedRequest>, q: seq<Bytes>)
    ensures HoldsAt(requests, q)
  {
    TrieHoldsFirst(requests, |requests|, q);
    assert requests[..|requests|] == requests;
  }

  lemma {:induction false} TrieHoldsFirst(requests: seq<ImportedRequest>, n: nat, q: seq<Bytes>)
    requires n <= |requests|
    ensures HoldsAt(requests[..n], q)
  {
    if n == 0 {
      NothingHeld(q);
    } else {
      TrieHoldsFirst(requests, n - 1, q);
      TrieHoldsOneMore(requests[..n - 1], requests[n - 1], q);
      TakeSnoc(requests, n - 1);
    }
  }

  lemma NothingHeld(q: seq<Bytes>)
    ensures HoldsAt([], q)
  {
    NothingInEmpty(q);
  }

  lemma TrieHoldsOneMore(before: seq<ImportedRequest>, last: ImportedRequest, q: seq<Bytes>)
    requires HoldsAt(before, q)
    ensures HoldsAt(before + [last], q)
  {
    assert (before + [last])[..|before|] == before;
    InsertAllWellFormed(before);
    InsertAddsAt(InsertAll(EMPTY_NODE, before), Segments(last), last, q);
    FilterSnoc(before, last, AtPath(q));
  }

  lemma {:induction false} NothingInEmpty(q: seq<Bytes>)
    ensures NodeAt(EMPTY_NODE, q) == EMPTY_NODE
  {
    if q != [] { NothingInEmpty(q[1..]); }
  }

  // ---- where requests end up ----

  /** A request and the names of the folders around it. */
  datatype Placement = Placement(at: seq<Bytes>, request: ImportedRequest)

  function Placed(items: seq<ImportedItem>, at: seq<Bytes>): seq<Placement>
    decreases items
  {
    if items == [] then []
    else
      PlacedItem(items[0], at) + Placed(items[1..], at)
  }

  function PlacedItem(item: ImportedItem, at: seq<Bytes>): seq<Placement>
    decreases item
  {
    match item
    case Request(r) => [Placement(at, r)]
    case Folder(f) => Placed(f.items, at + [f.name])
  }

  function PlaceAll(requests: seq<ImportedRequest>, at: seq<Bytes>): seq<Placement> {
    Map(requests, r => Placement(at, r))
  }

  lemma {:induction false} PlacedAppend(a: seq<ImportedItem>, b: seq<ImportedItem>, at: seq<Bytes>)
    ensures Placed(a + b, at) == Placed(a, at) + Placed(b, at)
    decreases |a|
  {
    if a == [] {
      assert a + b == b;
    } else {
      PlacedAppend(a[1..], b, at);
      HeadTail(a, b);
      Regroup(PlacedItem(a[0], at), Placed(a[1..], at), Placed(b, at));
    }
  }

  lemma {:induction false} PlacedRequests(requests: seq<ImportedRequest>, at: seq<Bytes>)
    ensures Placed(Map(requests, r => Request(r)), at) == PlaceAll(requests, at)
    decreases |requests|
  {
    if requests != [] {
      PlacedRequests(requests[1..], at);
      assert Map(requests, r => Request(r))[1..] == Map(requests[1..], r => Request(r));
      assert PlaceAll(requests, at) == [Placement(at, requests[0])] + PlaceAll(requests[1..], at);
    }
  }

  /** Every request sits at the node of its own path. */
  predicate Local(node: PathNode, prefix: seq<Bytes>)
    decreases node
  {
    && (forall r :: r in node.requests ==> Segments(r) == prefix)
    && forall i :: 0 <= i < |node.children| ==> Local(node.children[i].node, prefix + [node.children[i].seg])
  }

  lemma {:induction false} InsertLocal(node: PathNode, prefix: seq<Bytes>, segs: seq<Bytes>, r: ImportedRequest)
    requires Local(node, prefix) && Segments(r) == prefix + segs
    ensures Local(Insert(node, segs, r), prefix)
    decreases |segs|, 0
  {
    if segs == [] {
      assert prefix + segs == prefix;
    } else {
      InsertChildLocal(node.children, prefix, segs[0], segs[1..], r);
    }
  }

  lemma {:induction false} InsertChildLocal(children: seq<Child>, prefix: seq<Bytes>, seg: Bytes, rest: seq<Bytes>,
                                            r: ImportedRequest)
    requires Local(PathNode([], children), prefix) && Segments(r) == prefix + ([seg] + rest)
    ensures Local(PathNode([], InsertChild(children, seg, rest, r)), prefix)
    decreases |rest|, 1 + |children|
  {
    assert prefix + ([seg] + rest) == prefix + [seg] + rest;
    InsertLocal(EMPTY_NODE, prefix + [seg], rest, r);
    if children != [] {
      var tail := children[1..];
      assert Local(PathNode([], tail), prefix);
      if children[0].seg == seg {
        InsertLocal(children[0].node, prefix + [seg], rest, r);
      } else if !BytesLeq(seg, children[0].seg) {
        InsertChildLocal(tail, prefix, seg, rest, r);
      }
    }
  }

  lemma {:induction false} InsertAllLocal(requests: seq<ImportedRequest>)
    ensures Local(InsertAll(EMPTY_NODE, requests), [])
  {
    if requests != [] {
      var before, last := requests[..|requests| - 1], requests[|requests| - 1];
      InsertAllLocal(before);
      assert [] + Segments(last) == Segments(last);
      InsertLocal(InsertAll(EMPTY_NODE, before), [], Segments(last), last);
    }
  }

  function ForPath(q: seq<Bytes>): Placement -> bool { (p: Placement) => Segments(p.request) == q }

  /** What the items of one child contribute. */
  function PlacedChild(c: Child, at: seq<Bytes>): seq<Placement> {
    if Collapses(c.node) then PlaceAll(c.node.requests, at) else Placed(NodeToItems(c.node), at + [c.seg])
  }

  lemma PlacedChildren(children: seq<Child>, at: seq<Bytes>)
    requires children != []
    ensures Placed(ChildrenToItems(children), at)
         == PlacedChild(children[0], at) + Placed(ChildrenToItems(children[1..]), at)
  {
    var c := children[0];
    if Collapses(c.node) {
      PlacedRequests(c.node.requests, at);
      PlacedAppend(Map(c.node.requests, r => Request(r)), ChildrenToItems(children[1..]), at);
    } else {
      var folder := Folder(ImportedFolder(c.seg, NoneGiven, [], NodeToItems(c.node)));
      assert ChildrenToItems(children) == [folder] + ChildrenToItems(children[1..]);
      PlacedAppend([folder], ChildrenToItems(children[1..]), at);
      assert [folder][1..] == [];
      assert Placed([folder], at) == PlacedItem(folder, at) + [];
    }
  }

  lemma PlacedNode(node: PathNode, at: seq<Bytes>)
    ensures Placed(NodeToItems(node), at) == PlaceAll(node.requests, at) + Placed(ChildrenToItems(node.children), at)
  {
    PlacedRequests(node.requests, at);
    PlacedAppend(Map(node.requests, r => Request(r)), ChildrenToItems(node.children), at);
  }

  /** Everything below a node keeps the node's path as a prefix of its own. */
  lemma {:induction false} PlacedPrefix(node: PathNode, prefix: seq<Bytes>, at: seq<Bytes>)
    requires Local(node, prefix)
    ensures forall p :: p in Placed(NodeToItems(node), at) ==> prefix <= Segments(p.request)
    decreases node, 1
  {
    PlacedNode(node, at);
    assert Local(PathNode([], node.children), prefix);
    ChildrenPrefix(node.children, prefix, at);
  }

  lemma {:induction false} ChildrenPrefix(children: seq<Child>, prefix: seq<Bytes>, at: seq<Bytes>)
    requires Local(PathNode([], children), prefix)
    ensures forall p :: p in Placed(ChildrenToItems(children), at) ==> prefix < Segments(p.request)
    decreases children
  {
    if children != [] {
      PlacedChildren(children, at);
      assert Local(PathNode([], children[1..]), prefix);
      ChildrenPrefix(children[1..], prefix, at);
      ChildPrefix(children[0], prefix, at);
    }
  }

  lemma {:induction false} ChildPrefix(c: Child, prefix: seq<Bytes>, at: seq<Bytes>)
    requires Local(c.node, prefix + [c.seg])
    ensures forall p :: p in PlacedChild(c, at) ==> prefix + [c.seg] <= Segments(p.request)
    decreases c, 0
  {
    if !Collapses(c.node) { PlacedPrefix(c.node, prefix + [c.seg], at + [c.seg]); }
  }

  /** The folders around the requests stored at relative path `q`. */
  function HomeIn(node: PathNode, q: seq<Bytes>, at: seq<Bytes>): seq<Bytes> {
    if q != [] && Collapses(NodeAt(node, q)) then at + q[..|q| - 1] else at + q
  }

  /** What the items of a node hold for the path below it, at its home. */
  ghost predicate NodeGathered(node: PathNode, prefix: seq<Bytes>, at: seq<Bytes>, q: seq<Bytes>) {
    Filter(Placed(NodeToItems(node), at), ForPath(prefix + q))
      == PlaceAll(NodeAt(node, q).requests, HomeIn(node, q, at))
  }

  lemma {:induction false} Gather(node: PathNode, prefix: seq<Bytes>, at: seq<Bytes>, q: seq<Bytes>)
    requires WellFormed(node) && Local(node, prefix)
    ensures NodeGathered(node, prefix, at, q)
    decreases node, 1
  {
    if q == [] {
      GatherHere(node, prefix, at);
    } else {
      assert Local(PathNode([], node.children), prefix) && WellFormed(PathNode([], node.children));
      GatherChildren(node.children, prefix, at, q);
      GatherBelow(node, prefix, at, q);
    }
  }

  lemma GatherParts(node: PathNode, at: seq<Bytes>, p: Placement -> bool)
    ensures Filter(Placed(NodeToItems(node), at), p)
         == Filter(PlaceAll(node.requests, at), p) + Filter(Placed(ChildrenToItems(node.children), at), p)
  {
    PlacedNode(node, at);
    FilterAppend(PlaceAll(node.requests, at), Placed(ChildrenToItems(node.children), at), p);
  }

  lemma {:induction false} GatherHere(node: PathNode, prefix: seq<Bytes>, at: seq<Bytes>)
    requires Local(node, prefix)
    ensures NodeGathered(node, prefix, at, [])
    decreases node, 0
  {
    assert prefix + [] == prefix && at + [] == at;
    GatherParts(node, at, ForPath(prefix));
    FilterAll(PlaceAll(node.requests, at), ForPath(prefix));
    assert Local(PathNode([], node.children), prefix);
    ChildrenPrefix(node.children, prefix, at);
    FilterNone(Placed(ChildrenToItems(node.children), at), ForPath(prefix));
  }

  lemma GatherBelow(node: PathNode, prefix: seq<Bytes>, at: seq<Bytes>, q: seq<Bytes>)
    requires Local(node, prefix) && q != [] && Gathered(node.children, prefix, at, q)
    ensures NodeGathered(node, prefix, at, q)
  {
    GatherParts(node, at, ForPath(prefix + q));
    FilterNone(PlaceAll(node.requests, at), ForPath(prefix + q));
    assert NodeAt(PathNode([], node.children), q) == NodeAt(node, q);
  }

  /** What the children hold at `q` is what the trie holds there, placed at its home. */
  ghost predicate Gathered(children: seq<Child>, prefix: seq<Bytes>, at: seq<Bytes>, q: seq<Bytes>) {
    var node := PathNode([], children);
    Filter(Placed(ChildrenToItems(children), at), ForPath(prefix + q))
      == PlaceAll(NodeAt(node, q).requests, HomeIn(node, q, at))
  }

  lemma {:induction false} GatherChildren(children: seq<Child>, prefix: seq<Bytes>, at: seq<Bytes>, q: seq<Bytes>)
    requires WellFormed(PathNode([], children)) && Local(PathNode([], children), prefix) && q != []
    ensures Gathered(children, prefix, at, q)
    decreases children
  {
    if children == [] {
      NothingInEmpty(q);
    } else {
      var c, tail := children[0], children[1..];
      assert WellFormed(PathNode([], tail)) && Local(PathNode([], tail), prefix);
      GatherChildren(tail, prefix, at, q);
      GatherSplits(children, prefix, at, q);
      if c.seg == q[0] {
        GatherHit(children, prefix, at, q);
      } else {
        OtherChild(c, prefix, at, q);
        GatherMiss(children, prefix, at, q);
      }
    }
  }

  lemma GatherSplits(children: seq<Child>, prefix: seq<Bytes>, at: seq<Bytes>, q: seq<Bytes>)
    requires children != []
    ensures Filter(Placed(ChildrenToItems(children), at), ForPath(prefix + q))
         == Filter(PlacedChild(children[0], at), ForPath(prefix + q))
            + Filter(Placed(ChildrenToItems(children[1..]), at), ForPath(prefix + q))
  {
    PlacedChildren(children, at);
    FilterAppend(PlacedChild(children[0], at), Placed(ChildrenToItems(children[1..]), at), ForPath(prefix + q));
  }

  lemma GatherHit(children: seq<Child>, prefix: seq<Bytes>, at: seq<Bytes>, q: seq<Bytes>)
    requires WellFormed(PathNode([], children)) && Local(PathNode([], children), prefix)
    requires children != [] && q != [] && children[0].seg == q[0] && Gathered(children[1..], prefix, at, q)
    requires Filter(Placed(ChildrenToItems(children), at), ForPath(prefix + q))
          == Filter(PlacedChild(children[0], at), ForPath(prefix + q))
             + Filter(Placed(ChildrenToItems(children[1..]), at), ForPath(prefix + q))
    ensures Gathered(children, prefix, at, q)
  {
    GatherChild(children[0], prefix, at, q);
    NotInTail(children, q);
    assert Filter(Placed(ChildrenToItems(children[1..]), at), ForPath(prefix + q)) == [];
  }

  lemma GatherMiss(children: seq<Child>, prefix: seq<Bytes>, at: seq<Bytes>, q: seq<Bytes>)
    requires children != [] && q != [] && children[0].seg != q[0] && Gathered(children[1..], prefix, at, q)
    requires Filter(Placed(ChildrenToItems(children), at), ForPath(prefix + q))
          == [] + Filter(Placed(ChildrenToItems(children[1..]), at), ForPath(prefix + q))
    ensures Gathered(children, prefix, at, q)
  {
    assert NodeAt(PathNode([], children), q) == NodeAt(PathNode([], children[1..]), q);
  }

  lemma OtherChild(c: Child, prefix: seq<Bytes>, at: seq<Bytes>, q: seq<Bytes>)
    requires Local(c.node, prefix + [c.seg]) && q != [] && c.seg != q[0]
    ensures Filter(PlacedChild(c, at), ForPath(prefix + q)) == []
  {
    ChildPrefix(c, prefix, at);
    assert (prefix + q)[|prefix|] == q[0] && (prefix + [c.seg])[|prefix|] == c.seg;
    FilterNone(PlacedChild(c, at), ForPath(prefix + q));
  }

  lemma NotInTail(children: seq<Child>, q: seq<Bytes>)
    requires Ascending(children) && children != [] && q != [] && q[0] == children[0].seg
    ensures NodeAt(PathNode([], children[1..]), q) == EMPTY_NODE
    ensures NodeAt(PathNode([], children), q) == NodeAt(children[0].node, q[1..])
  {
    AbsentInTail(children);
    NothingInEmpty(q[1..]);
  }

  lemma {:induction false} AbsentInTail(children: seq<Child>)
    requires Ascending(children) && children != []
    ensures ChildNode(children[1..], children[0].seg) == EMPTY_NODE
  {
    AbsentEverywhere(children[1..], children[0].seg);
  }

  lemma {:induction false} AbsentEverywhere(children: seq<Child>, seg: Bytes)
    requires forall i :: 0 <= i < |children| ==> children[i].seg != seg
    ensures ChildNode(children, seg) == EMPTY_NODE
  {
    if children != [] { AbsentEverywhere(children[1..], seg); }
  }

  lemma {:induction false} GatherChild(c: Child, prefix: seq<Bytes>, at: seq<Bytes>, q: seq<Bytes>)
    requires WellFormed(c.node) && Local(c.node, prefix + [c.seg]) && q != [] && q[0] == c.seg
    ensures Filter(PlacedChild(c, at), ForPath(prefix + q))
         == PlaceAll(NodeAt(c.node, q[1..]).requests,
                     if Collapses(NodeAt(c.node, q[1..])) then at + q[..|q| - 1] else at + q)
    decreases c, 2
  {
    var rest := q[1..];
    assert q == [c.seg] + rest;
    assert prefix + q == prefix + [c.seg] + rest && at + q == at + [c.seg] + rest;
    if Collapses(c.node) {
      GatherCollapsed(c, prefix, at, q);
    } else {
      Gather(c.node, prefix + [c.seg], at + [c.seg], rest);
      if rest != [] {
        assert q[..|q| - 1] == [c.seg] + rest[..|rest| - 1];
        assert at + q[..|q| - 1] == at + [c.seg] + rest[..|rest| - 1];
      }
    }
  }

  lemma GatherCollapsed(c: Child, prefix: seq<Bytes>, at: seq<Bytes>, q: seq<Bytes>)
    requires Local(c.node, prefix + [c.seg]) && q != [] && q[0] == c.seg && Collapses(c.node)
    ensures Filter(PlacedChild(c, at), ForPath(prefix + q))
         == PlaceAll(NodeAt(c.node, q[1..]).requests,
                     if Collapses(NodeAt(c.node, q[1..])) then at + q[..|q| - 1] else at + q)
  {
    var rest := q[1..];
    assert q == [c.seg] + rest;
    assert prefix + q == prefix + [c.seg] + rest;
    if rest == [] {
      assert q[..|q| - 1] == [] && at + [] == at;
      FilterAll(PlacedChild(c, at), ForPath(prefix + q));
    } else {
      NothingInEmpty(rest[1..]);
      FilterNone(PlacedChild(c, at), ForPath(prefix + q));
    }
  }

  // ---- the result, in terms of the input ----

  /** The folders around a request with path `q`: all its segments, or all but the last when no other
      request shares the path or goes below it. */
  ghost predicate Alone(requests: seq<ImportedRequest>, q: seq<Bytes>) {
    |Filter(requests, AtPath(q))| <= 1 && !exists r :: r in requests && q < Segments(r)
  }

  ghost function Home(requests: seq<ImportedRequest>, q: seq<Bytes>): seq<Bytes> {
    if q != [] && Alone(requests, q) then q[..|q| - 1] else q
  }

  lemma {:induction false} NodeAtSplit(node: PathNode, q: seq<Bytes>, t: seq<Bytes>)
    ensures NodeAt(node, q + t) == NodeAt(NodeAt(node, q), t)
    decreases |q|
  {
    if q == [] {
      assert q + t == t;
    } else {
      NodeAtSplit(ChildNode(node.children, q[0]), q[1..], t);
      assert (q + t)[1..] == q[1..] + t;
    }
  }

  lemma {:induction false} NodeAtWellFormed(node: PathNode, q: seq<Bytes>)
    requires WellFormed(node)
    ensures WellFormed(NodeAt(node, q))
    decreases |q|
  {
    if q != [] {
      assert WellFormed(PathNode([], node.children));
      ChildWellFormed(node.children, q[0]);
      NodeAtWellFormed(ChildNode(node.children, q[0]), q[1..]);
    }
  }

  lemma {:induction false} SomewhereBelow(node: PathNode) returns (t: seq<Bytes>)
    requires WellFormed(node) && node != EMPTY_NODE
    ensures NodeAt(node, t).requests != []
    decreases node
  {
    if node.requests != [] {
      t := [];
    } else {
      var c := node.children[0];
      var below := SomewhereBelow(c.node);
      t := [c.seg] + below;
      assert t[1..] == below;
    }
  }

  lemma ChildrenMeanBelow(requests: seq<ImportedRequest>, q: seq<Bytes>) returns (r: ImportedRequest)
    requires NodeAt(InsertAll(EMPTY_NODE, requests), q).children != []
    ensures r in requests && q < Segments(r)
  {
    var root := InsertAll(EMPTY_NODE, requests);
    InsertAllWellFormed(requests);
    NodeAtWellFormed(root, q);
    var c := NodeAt(root, q).children[0];
    var below := SomewhereBelow(c.node);
    var t := [c.seg] + below;
    assert t[1..] == below;
    NodeAtSplit(root, q, t);
    TrieHolds(requests, q + t);
    r := NodeAt(root, q + t).requests[0];
    assert r in Filter(requests, AtPath(q + t));
  }

  lemma BelowMeansChildren(requests: seq<ImportedRequest>, q: seq<Bytes>, r: ImportedRequest)
    requires r in requests && q < Segments(r)
    ensures NodeAt(InsertAll(EMPTY_NODE, requests), q).children != []
  {
    var root := InsertAll(EMPTY_NODE, requests);
    var t := Segments(r)[|q|..];
    assert Segments(r) == q + t;
    NodeAtSplit(root, q, t);
    TrieHolds(requests, q + t);
    assert r in Filter(requests, AtPath(q + t));
    NothingInEmpty(t[1..]);
  }

  lemma CollapseMeansAlone(requests: seq<ImportedRequest>, q: seq<Bytes>)
    ensures Collapses(NodeAt(InsertAll(EMPTY_NODE, requests), q)) <==> Alone(requests, q)
  {
    TrieHolds(requests, q);
    if NodeAt(InsertAll(EMPTY_NODE, requests), q).children != [] {
      var r := ChildrenMeanBelow(requests, q);
    }
    if r :| r in requests && q < Segments(r) {
      BelowMeansChildren(requests, q, r);
    }
  }

  /** The whole result: for every path, the requests with that path come out once each, in input order,
      all under the folders named by the path, or by all but its last segment when the request is alone. */
  lemma GroupByPathPlaces(requests: seq<ImportedRequest>, q: seq<Bytes>)
    ensures Filter(Placed(NodeToItems(InsertAll(EMPTY_NODE, requests)), []), ForPath(q))
         == PlaceAll(Filter(requests, AtPath(q)), Home(requests, q))
  {
    var root := InsertAll(EMPTY_NODE, requests);
    InsertAllWellFormed(requests);
    InsertAllLocal(requests);
    Gather(root, [], [], q);
    assert [] + q == q;
    TrieHolds(requests, q);
    CollapseMeansAlone(requests, q);
    if q != [] { assert [] + q[..|q| - 1] == q[..|q| - 1]; }
  }

  /** Requests are conserved: the result holds each as often as the input did. */
  lemma GroupByPathConserves(requests: seq<ImportedRequest>)
    ensures multiset(Emitted(NodeToItems(InsertAll(EMPTY_NODE, requests)))) == multiset(requests)
  {
    forall r: ImportedRequest
      ensures multiset(Emitted(NodeToItems(InsertAll(EMPTY_NODE, requests))))[r] == multiset(requests)[r]
    {
      RequestConserved(requests, r);
    }
  }

  lemma RequestConserved(requests: seq<ImportedRequest>, r: ImportedRequest)
    ensures multiset(Emitted(NodeToItems(InsertAll(EMPTY_NODE, requests))))[r] == multiset(requests)[r]
  {
    GroupByPathPlaces(requests, Segments(r));
    CountedAtPath(requests, r, Placed(NodeToItems(InsertAll(EMPTY_NODE, requests)), []), Home(requests, Segments(r)));
  }

  lemma CountedAtPath(requests: seq<ImportedRequest>, r: ImportedRequest, placed: seq<Placement>, home: seq<Bytes>)
    requires Filter(placed, ForPath(Segments(r))) == PlaceAll(Filter(requests, AtPath(Segments(r))), home)
    ensures multiset(Map(placed, RequestOf))[r] == multiset(requests)[r]
  {
    FilterCounts(requests, AtPath(Segments(r)), r);
    FilterCounts(Map(placed, RequestOf), AtPath(Segments(r)), r);
    RequestsAtPath(placed, Segments(r));
    PlacedBack(Filter(requests, AtPath(Segments(r))), home);
  }

  lemma {:induction false} PlacedBack(requests: seq<ImportedRequest>, at: seq<Bytes>)
    ensures Map(PlaceAll(requests, at), RequestOf) == requests
  {
    if requests != [] { PlacedBack(requests[1..], at); }
  }

  function RequestOf(p: Placement): ImportedRequest { p.request }

  /** The requests of a tree, in order. */
  function Emitted(items: seq<ImportedItem>): seq<ImportedRequest> {
    Map(Placed(items, []), RequestOf)
  }

  lemma {:induction false} FilterCounts(s: seq<ImportedRequest>, p: ImportedRequest -> bool, x: ImportedRequest)
    requires p(x)
    ensures multiset(Filter(s, p))[x] == multiset(s)[x]
  {
    if s != [] {
      FilterCounts(s[1..], p, x);
      MultisetSplit(s);
    }
  }

  lemma {:induction false} RequestsAtPath(placed: seq<Placement>, q: seq<Bytes>)
    ensures Filter(Map(placed, RequestOf), AtPath(q)) == Map(Filter(placed, ForPath(q)), RequestOf)
  {
    if placed != [] {
      var x, rest := placed[0], placed[1..];
      assert placed == [x] + rest;
      RequestsAtPath(rest, q);
      MapCons(x, rest, RequestOf);
      FilterHead(x.request, Map(rest, RequestOf), AtPath(q));
      FilterHead(x, rest, ForPath(q));
      MapCons(x, Filter(rest, ForPath(q)), RequestOf);
    }
  }

  // ---- shape of the folders ----

  /** Sibling folders have different names and no folder is without a request below it. */
  ghost predicate Tidy(items: seq<ImportedItem>)
    decreases items
  {
    && (forall i, j :: 0 <= i < j < |items| && items[i].Folder? && items[j].Folder? ==>
          items[i].folder.name != items[j].folder.name)
    && (forall i :: 0 <= i < |items| ==> TidyItem(items[i]))
  }

  ghost predicate TidyItem(item: ImportedItem)
    decreases item
  {
    match item
    case Request(_) => true
    case Folder(f) => Tidy(f.items) && Placed(f.items, []) != []
  }

  lemma {:induction false} NotEmptyPlaces(node: PathNode, at: seq<Bytes>)
    requires WellFormed(node) && node != EMPTY_NODE
    ensures Placed(NodeToItems(node), at) != []
    decreases node
  {
    PlacedNode(node, at);
    if node.requests == [] {
      var c := node.children[0];
      PlacedChildren(node.children, at);
      if !Collapses(c.node) { NotEmptyPlaces(c.node, at + [c.seg]); }
    }
  }

  lemma {:induction false} NodeTidy(node: PathNode)
    requires WellFormed(node)
    ensures Tidy(NodeToItems(node))
    decreases node, 1
  {
    assert WellFormed(PathNode([], node.children));
    ChildrenTidy(node.children);
  }

  /** Every folder among the items is named after one of the children. */
  ghost predicate NamedAfter(items: seq<ImportedItem>, children: seq<Child>) {
    forall i :: i in items && i.Folder? ==> exists c :: c in children && c.seg == i.folder.name
  }

  lemma {:induction false} ChildrenTidy(children: seq<Child>)
    requires WellFormed(PathNode([], children))
    ensures Tidy(ChildrenToItems(children)) && NamedAfter(ChildrenToItems(children), children)
    decreases children
  {
    if children != [] {
      var c, tail := children[0], children[1..];
      assert WellFormed(PathNode([], tail));
      ChildrenTidy(tail);
      if Collapses(c.node) {
        LeavesKeepTidy(c.node.requests, ChildrenToItems(tail), tail, children);
      } else {
        NodeTidy(c.node);
        NotEmptyPlaces(c.node, []);
        FolderKeepsTidy(c, ChildrenToItems(tail), tail);
        assert children == [c] + tail;
      }
    }
  }

  lemma LeavesKeepTidy(requests: seq<ImportedRequest>, rest: seq<ImportedItem>, tail: seq<Child>, children: seq<Child>)
    requires Tidy(rest) && NamedAfter(rest, tail) && forall c :: c in tail ==> c in children
    ensures Tidy(Map(requests, r => Request(r)) + rest) && NamedAfter(Map(requests, r => Request(r)) + rest, children)
  {
    var items := Map(requests, r => Request(r)) + rest;
    assert forall i :: 0 <= i < |requests| ==> items[i].Request?;
    assert forall i :: |requests| <= i < |items| ==> items[i] == rest[i - |requests|];
    forall i | 0 <= i < |items| ensures TidyItem(items[i]) {
      if i < |requests| { assert items[i] == Request(requests[i]); }
    }
    forall i | i in items && i.Folder? ensures exists c :: c in children && c.seg == i.folder.name {
      assert i in rest;
      var d :| d in tail && d.seg == i.folder.name;
      assert d in children;
    }
  }

  lemma FolderKeepsTidy(c: Child, rest: seq<ImportedItem>, tail: seq<Child>)
    requires Tidy(rest) && NamedAfter(rest, tail) && forall d :: d in tail ==> d.seg != c.seg
    requires Tidy(NodeToItems(c.node)) && Placed(NodeToItems(c.node), []) != []
    ensures var folder := Folder(ImportedFolder(c.seg, NoneGiven, [], NodeToItems(c.node)));
            Tidy([folder] + rest) && NamedAfter([folder] + rest, [c] + tail)
  {
    var folder := Folder(ImportedFolder(c.seg, NoneGiven, [], NodeToItems(c.node)));
    var items := [folder] + rest;
    assert forall i :: 1 <= i < |items| ==> items[i] == rest[i - 1];
    forall j | 0 <= j < |rest| && rest[j].Folder? ensures rest[j].folder.name != c.seg {
      assert rest[j] in rest;
      var d :| d in tail && d.seg == rest[j].folder.name;
    }
    forall i | i in items && i.Folder? ensures exists d :: d in [c] + tail && d.seg == i.folder.name {
      if i in rest {
        var d :| d in tail && d.seg == i.folder.name;
        assert d in [c] + tail;
      } else {
        assert c in [c] + tail && i == folder;
      }
    }
  }

  /** Sibling folders get different names, and no folder is empty of requests. */
  lemma GroupByPathTidy(requests: seq<ImportedRequest>)
    ensures Tidy(NodeToItems(InsertAll(EMPTY_NODE, requests)))
  {
    InsertAllWellFormed(requests);
    NodeTidy(InsertAll(EMPTY_NODE, requests));
  }

  // ---- the order of what comes out ----

  /** The segment at `depth` that an item stands for: a folder's name, or that of a request's path if it is so long. */
  function SegmentOf(item: ImportedItem, depth: nat): Option<Bytes> {
    match item
    case Folder(f) => Some(f.name)
    case Request(r) => if depth < |Segments(r)| then Some(Segments(r)[depth]) else None
  }

  /** Requests that end here come first, and then everything by ascending segment. */
  ghost predicate Precedes(a: ImportedItem, b: ImportedItem, depth: nat) {
    var x, y := SegmentOf(a, depth), SegmentOf(b, depth);
    x.None? || (y.Some? && Less(x.value, y.value))
  }

  /** The same in every folder; folders carry nothing but their name. */
  ghost predicate InPathOrder(items: seq<ImportedItem>, depth: nat)
    decreases items
  {
    && (forall i, j :: 0 <= i < j < |items| ==> Precedes(items[i], items[j], depth))
    && (forall i :: 0 <= i < |items| ==> OrderedInside(items[i], depth))
  }

  ghost predicate OrderedInside(item: ImportedItem, depth: nat)
    decreases item
  {
    match item
    case Request(_) => true
    case Folder(f) => f.auth.NoneGiven? && f.settings == [] && InPathOrder(f.items, depth + 1)
  }

  /** Every item stands for one of these segments. */
  ghost predicate StandFor(items: seq<ImportedItem>, children: seq<Child>, depth: nat) {
    forall i :: 0 <= i < |items| ==> StandsFor(items[i], children, depth)
  }

  ghost predicate StandsFor(item: ImportedItem, children: seq<Child>, depth: nat) {
    exists c :: c in children && SegmentOf(item, depth) == Some(c.seg)
  }

  lemma {:induction false} NodeInOrder(node: PathNode, prefix: seq<Bytes>)
    requires WellFormed(node) && Local(node, prefix)
    ensures InPathOrder(NodeToItems(node), |prefix|)
    decreases node, 1
  {
    var bare := PathNode([], node.children);
    assert WellFormed(bare) && Local(bare, prefix);
    ChildrenInOrder(node.children, prefix);
    OwnFirst(node.requests, ChildrenToItems(node.children), |prefix|);
  }

  lemma OwnFirst(requests: seq<ImportedRequest>, rest: seq<ImportedItem>, depth: nat)
    requires (forall r :: r in requests ==> |Segments(r)| == depth) && InPathOrder(rest, depth)
    ensures InPathOrder(Map(requests, r => Request(r)) + rest, depth)
  {
    var own := Map(requests, r => Request(r));
    var all := own + rest;
    forall i | 0 <= i < |requests| ensures all[i].Request? && SegmentOf(all[i], depth).None? {
      assert all[i] == Request(requests[i]) && requests[i] in requests;
    }
    forall i, j | 0 <= i < j < |all| ensures Precedes(all[i], all[j], depth) {
      if i >= |own| { assert all[i] == rest[i - |own|] && all[j] == rest[j - |own|]; }
    }
    forall i | 0 <= i < |all| ensures OrderedInside(all[i], depth) {
      if i >= |own| { assert all[i] == rest[i - |own|]; }
    }
  }

  lemma {:induction false} ChildrenInOrder(children: seq<Child>, prefix: seq<Bytes>)
    requires WellFormed(PathNode([], children)) && Local(PathNode([], children), prefix)
    ensures InPathOrder(ChildrenToItems(children), |prefix|)
    ensures StandFor(ChildrenToItems(children), children, |prefix|)
    decreases children
  {
    if children != [] {
      var c, tail := children[0], children[1..];
      TailOf(children, prefix);
      ChildrenInOrder(tail, prefix);
      ChildInOrder(c, prefix);
      FirstBefore(children);
      JoinInOrder(c, ItemsOfChild(c), tail, ChildrenToItems(tail), |prefix|);
      assert children == [c] + tail;
    }
  }

  lemma {:induction false} ChildInOrder(c: Child, prefix: seq<Bytes>)
    requires WellFormed(c.node) && Local(c.node, prefix + [c.seg])
    ensures |ItemsOfChild(c)| <= 1
    ensures forall i :: 0 <= i < |ItemsOfChild(c)| ==>
              SegmentOf(ItemsOfChild(c)[i], |prefix|) == Some(c.seg) && OrderedInside(ItemsOfChild(c)[i], |prefix|)
    decreases c
  {
    if !Collapses(c.node) { NodeInOrder(c.node, prefix + [c.seg]); }
    FirstStandsFor(c, prefix);
  }

  /** The items of the first child. */
  function ItemsOfChild(c: Child): seq<ImportedItem> {
    if Collapses(c.node) then Map(c.node.requests, r => Request(r))
    else [Folder(ImportedFolder(c.seg, NoneGiven, [], NodeToItems(c.node)))]
  }

  lemma TailOf(children: seq<Child>, prefix: seq<Bytes>)
    requires children != [] && WellFormed(PathNode([], children)) && Local(PathNode([], children), prefix)
    ensures WellFormed(PathNode([], children[1..])) && Local(PathNode([], children[1..]), prefix)
    ensures WellFormed(children[0].node) && Local(children[0].node, prefix + [children[0].seg])
    ensures ChildrenToItems(children) == ItemsOfChild(children[0]) + ChildrenToItems(children[1..])
  {
  }

  lemma FirstStandsFor(c: Child, prefix: seq<Bytes>)
    requires Local(c.node, prefix + [c.seg])
    requires !Collapses(c.node) ==> InPathOrder(NodeToItems(c.node), |prefix| + 1)
    ensures |ItemsOfChild(c)| <= 1
    ensures forall i :: 0 <= i < |ItemsOfChild(c)| ==>
              SegmentOf(ItemsOfChild(c)[i], |prefix|) == Some(c.seg) && OrderedInside(ItemsOfChild(c)[i], |prefix|)
  {
    if Collapses(c.node) { LeafStandsFor(c, prefix); }
  }

  lemma LeafStandsFor(c: Child, prefix: seq<Bytes>)
    requires Local(c.node, prefix + [c.seg]) && Collapses(c.node)
    ensures forall r :: r in c.node.requests ==> SegmentOf(Request(r), |prefix|) == Some(c.seg)
  {
    forall r | r in c.node.requests ensures SegmentOf(Request(r), |prefix|) == Some(c.seg) {
      assert Segments(r) == prefix + [c.seg];
    }
  }

  lemma JoinInOrder(c: Child, first: seq<ImportedItem>, tail: seq<Child>, rest: seq<ImportedItem>, depth: nat)
    requires |first| <= 1 && InPathOrder(rest, depth) && StandFor(rest, tail, depth) && Before(c.seg, tail)
    requires forall i :: 0 <= i < |first| ==>
               SegmentOf(first[i], depth) == Some(c.seg) && OrderedInside(first[i], depth)
    ensures InPathOrder(first + rest, depth) && StandFor(first + rest, [c] + tail, depth)
  {
    var all := first + rest;
    forall i | 0 <= i < |rest|
      ensures StandsFor(rest[i], [c] + tail, depth)
      ensures SegmentOf(rest[i], depth).Some? && Less(c.seg, SegmentOf(rest[i], depth).value)
    {
      assert StandsFor(rest[i], tail, depth);
      var d :| d in tail && SegmentOf(rest[i], depth) == Some(d.seg);
      assert d in [c] + tail;
      BytesLeqMeaning(c.seg, d.seg);
    }
    assert c in [c] + tail;
    forall i | |first| <= i < |all| ensures all[i] == rest[i - |first|] {}
    forall i | 0 <= i < |all| ensures StandsFor(all[i], [c] + tail, depth) && OrderedInside(all[i], depth) {}
  }

  /** Requests with the path of a folder come first in it, then sub-folders and lone requests by ascending segment. */
  lemma GroupByPathOrdered(requests: seq<ImportedRequest>)
    ensures InPathOrder(NodeToItems(InsertAll(EMPTY_NODE, requests)), 0)
  {
    InsertAllWellFormed(requests);
    InsertAllLocal(requests);
    NodeInOrder(InsertAll(EMPTY_NODE, requests), []);
  }
}
