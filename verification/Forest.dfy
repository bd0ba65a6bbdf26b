/** Parent links between folders: chains upward, possibly cyclic, possibly dangling. */
module Forest {
  import opened Text

  type Id = Bytes
  type Parents = map<Id, Option<Id>>

  /** The `n`-th ancestor of `x`, following parent links; `x` itself for 0. */
  function Up(p: Parents, x: Id, n: nat): Option<Id> {
    if n == 0 then Some(x)
    else
      match Up(p, x, n - 1)
      case None => None
      case Some(y) => if y in p then p[y] else None
  }

  /** `x` is `a` or lies below it. */
  ghost predicate Under(p: Parents, x: Id, a: Id) { exists n: nat :: Up(p, x, n) == Some(a) }

  ghost predicate StrictlyUnder(p: Parents, x: Id, a: Id) { exists n: nat :: n >= 1 && Up(p, x, n) == Some(a) }

  ghost predicate OnCycle(p: Parents, x: Id) { StrictlyUnder(p, x, x) }

  lemma {:induction false} UpAdds(p: Parents, x: Id, m: nat, n: nat)
    requires Up(p, x, m).Some?
    ensures Up(p, x, m + n) == Up(p, Up(p, x, m).value, n)
  {
    if n > 0 { UpAdds(p, x, m, n - 1); }
  }

  lemma UnderSelf(p: Parents, x: Id)
    ensures Under(p, x, x)
  {
    assert Up(p, x, 0) == Some(x);
  }

  lemma UnderTransitive(p: Parents, x: Id, y: Id, z: Id)
    requires Under(p, x, y) && Under(p, y, z)
    ensures Under(p, x, z)
    ensures StrictlyUnder(p, x, y) || StrictlyUnder(p, y, z) ==> StrictlyUnder(p, x, z)
  {
    var m: nat :| Up(p, x, m) == Some(y);
    var n: nat :| Up(p, y, n) == Some(z);
    UpAdds(p, x, m, n);
    if StrictlyUnder(p, x, y) {
      var m': nat :| m' >= 1 && Up(p, x, m') == Some(y);
      UpAdds(p, x, m', n);
    }
    if StrictlyUnder(p, y, z) {
      var n': nat :| n' >= 1 && Up(p, y, n') == Some(z);
      UpAdds(p, x, m, n');
    }
  }

  lemma StrictIsUnder(p: Parents, x: Id, a: Id)
    ensures StrictlyUnder(p, x, a) ==> Under(p, x, a)
    ensures Under(p, x, a) ==> x == a || StrictlyUnder(p, x, a)
  {
    if Under(p, x, a) {
      var n: nat :| Up(p, x, n) == Some(a);
    }
  }

  lemma ParentIsAbove(p: Parents, x: Id, y: Id)
    requires x in p && p[x] == Some(y)
    ensures StrictlyUnder(p, x, y) && Under(p, x, y)
  {
    assert Up(p, x, 0) == Some(x);
    assert Up(p, x, 1) == Some(y);
  }

  /** What lies strictly below `a` lies below one of its children, and conversely a proper ancestor of `x` is
      its parent or above it. */
  lemma FirstStep(p: Parents, x: Id, a: Id)
    requires StrictlyUnder(p, x, a)
    ensures x in p && p[x].Some? && Under(p, p[x].value, a)
  {
    var n: nat :| n >= 1 && Up(p, x, n) == Some(a);
    UpSome(p, x, 1, n);
    assert Up(p, x, 0) == Some(x);
    UpAdds(p, x, 1, n - 1);
  }

  lemma {:induction false} UpSome(p: Parents, x: Id, m: nat, n: nat)
    requires m <= n && Up(p, x, n).Some?
    ensures Up(p, x, m).Some?
  {
    if m < n { UpSome(p, x, m, n - 1); }
  }

  lemma LastStep(p: Parents, x: Id, a: Id) returns (c: Id)
    requires StrictlyUnder(p, x, a)
    ensures Under(p, x, c) && c in p && p[c] == Some(a)
  {
    var n: nat :| n >= 1 && Up(p, x, n) == Some(a);
    c := Up(p, x, n - 1).value;
  }

  /** Two ancestors of one node lie on one chain. */
  lemma Comparable(p: Parents, x: Id, a: Id, b: Id)
    requires Under(p, x, a) && Under(p, x, b)
    ensures Under(p, a, b) || Under(p, b, a)
  {
    var m: nat :| Up(p, x, m) == Some(a);
    var n: nat :| Up(p, x, n) == Some(b);
    if m <= n { UpAdds(p, x, m, n - m); } else { UpAdds(p, x, n, m - n); }
  }

  /** Below a node that is on no cycle there are no cycles, and nothing there lies above the node. */
  lemma NoCycleBelow(p: Parents, a: Id, c: Id)
    requires !OnCycle(p, a) && c in p && p[c] == Some(a)
    ensures !OnCycle(p, c) && !Under(p, a, c) && c != a
  {
    ParentIsAbove(p, c, a);
    if Under(p, a, c) { UnderTransitive(p, a, c, a); }
    if OnCycle(p, c) { FirstStep(p, c, c); }
  }

  /** Two children of one cycle-free node have nothing below them in common. */
  lemma SiblingsDisjoint(p: Parents, a: Id, c: Id, d: Id, x: Id)
    requires !OnCycle(p, a) && c in p && d in p && p[c] == Some(a) && p[d] == Some(a)
    requires Under(p, x, c) && Under(p, x, d)
    ensures c == d
  {
    Comparable(p, x, c, d);
    NoCycleBelow(p, a, c);
    NoCycleBelow(p, a, d);
    StrictIsUnder(p, c, d);
    StrictIsUnder(p, d, c);
    if c != d {
      if StrictlyUnder(p, c, d) { FirstStep(p, c, d); } else { FirstStep(p, d, c); }
    }
  }

  /** Top-level folders are on no cycle and have nothing below them in common. */
  lemma TopLevelDisjoint(p: Parents, c: Id, d: Id, x: Id)
    requires c in p && p[c].None? && d in p && p[d].None?
    ensures !OnCycle(p, c)
    ensures Under(p, x, c) && Under(p, x, d) ==> c == d
  {
    if OnCycle(p, c) { FirstStep(p, c, c); }
    if Under(p, x, c) && Under(p, x, d) {
      Comparable(p, x, c, d);
      StrictIsUnder(p, c, d);
      StrictIsUnder(p, d, c);
      if c != d {
        if StrictlyUnder(p, c, d) { FirstStep(p, c, d); } else { FirstStep(p, d, c); }
      }
    }
  }

  /** A chain that enters a cycle stays on it. */
  lemma {:induction false} CycleIsClosed(p: Parents, a: Id, n: nat)
    requires OnCycle(p, a) && Up(p, a, n).Some?
    ensures Under(p, Up(p, a, n).value, a)
  {
    if n == 0 {
      UnderSelf(p, a);
    } else {
      CycleIsClosed(p, a, n - 1);
      var y := Up(p, a, n - 1).value;
      StrictIsUnder(p, y, a);
      FirstStep(p, y, a);
    }
  }

  /** No chain that passes a cycle ends at a top-level folder. */
  lemma CycleHasNoTop(p: Parents, x: Id, a: Id, t: Id)
    requires OnCycle(p, a) && Under(p, x, a) && Under(p, x, t)
    ensures t in p && p[t].Some?
  {
    Comparable(p, x, a, t);
    if Under(p, a, t) {
      var n: nat :| Up(p, a, n) == Some(t);
      CycleIsClosed(p, a, n);
    }
    StrictIsUnder(p, t, a);
    FirstStep(p, t, a);
  }

  // ---- dropping nodes ----

  /** `q` keeps some of the links of `p`, and with a node every parent that exists. */
  ghost predicate KeepsParents(p: Parents, q: Parents) {
    && (forall x :: x in q ==> x in p && q[x] == p[x])
    && (forall x :: x in q && q[x].Some? && q[x].value in p ==> q[x].value in q)
  }

  lemma {:induction false} UpKept(p: Parents, q: Parents, x: Id, n: nat)
    requires KeepsParents(p, q) && x in q
    ensures Up(q, x, n) == Up(p, x, n)
    ensures Up(p, x, n).Some? && Up(p, x, n).value in p ==> Up(p, x, n).value in q
  {
    if n > 0 {
      UpKept(p, q, x, n - 1);
    }
  }

  /** Chains from kept nodes are the same before and after. */
  lemma UnderKept(p: Parents, q: Parents, x: Id, a: Id)
    requires KeepsParents(p, q) && x in q
    ensures Under(q, x, a) <==> Under(p, x, a)
    ensures StrictlyUnder(q, x, a) <==> StrictlyUnder(p, x, a)
  {
    forall n: nat ensures Up(q, x, n) == Up(p, x, n) { UpKept(p, q, x, n); }
  }
}
