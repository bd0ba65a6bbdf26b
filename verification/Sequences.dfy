/** Collection helpers: filtering, mapping, counting and the stable sort of Rust's `sort_by`. */
module Sequences {

  function Filter<T(!new)>(s: seq<T>, p: T -> bool): (r: seq<T>)
    ensures |r| <= |s|
    ensures forall x :: x in r <==> x in s && p(x)
  {
    if s == [] then [] else (if p(s[0]) then [s[0]] else []) + Filter(s[1..], p)
  }

  function Map<A, B>(s: seq<A>, f: A -> B): (r: seq<B>)
    ensures |r| == |s|
    ensures forall i :: 0 <= i < |s| ==> r[i] == f(s[i])
  {
    seq(|s|, i requires 0 <= i < |s| => f(s[i]))
  }

  function Flatten<T>(ss: seq<seq<T>>): seq<T> {
    if ss == [] then [] else ss[0] + Flatten(ss[1..])
  }

  lemma HasMember<T>(s: seq<T>)
    ensures s == [] || s[0] in s
  {
  }

  lemma SliceSnoc<T>(s: seq<T>, i: nat, k: nat)
    requires i <= k < |s|
    ensures s[i..k + 1] == s[i..k] + [s[k]]
  {
  }

  lemma TakeSnoc<T>(s: seq<T>, k: nat)
    requires k < |s|
    ensures s[..k + 1] == s[..k] + [s[k]]
  {
  }

  lemma HeadTail<T>(a: seq<T>, b: seq<T>)
    requires a != []
    ensures a + b != [] && (a + b)[0] == a[0] && (a + b)[1..] == a[1..] + b
  {
  }

  lemma Regroup<T>(a: seq<T>, b: seq<T>, c: seq<T>)
    ensures (a + b) + c == a + (b + c)
  {
  }

  lemma {:induction false} FlattenAppend<T>(a: seq<seq<T>>, b: seq<seq<T>>)
    ensures Flatten(a + b) == Flatten(a) + Flatten(b)
  {
    if a == [] {
      assert a + b == b;
    } else {
      FlattenAppend(a[1..], b);
      HeadTail(a, b);
      Regroup(a[0], Flatten(a[1..]), Flatten(b));
    }
  }

  lemma {:induction false} FilterAppend<T(!new)>(a: seq<T>, b: seq<T>, p: T -> bool)
    ensures Filter(a + b, p) == Filter(a, p) + Filter(b, p)
  {
    if a == [] {
      assert a + b == b;
    } else {
      FilterAppend(a[1..], b, p);
      HeadTail(a, b);
      Regroup(if p(a[0]) then [a[0]] else [], Filter(a[1..], p), Filter(b, p));
    }
  }

  lemma FilterOne<T(!new)>(x: T, p: T -> bool)
    ensures Filter([x], p) == if p(x) then [x] else []
  {
    assert [x][1..] == [];
  }

  lemma FilterSnoc<T(!new)>(s: seq<T>, x: T, p: T -> bool)
    ensures Filter(s + [x], p) == Filter(s, p) + if p(x) then [x] else []
  {
    FilterAppend(s, [x], p);
    FilterOne(x, p);
  }

  /** One more element of a sequence being filtered from the front. */
  lemma FilterTake<T(!new)>(s: seq<T>, k: nat, p: T -> bool)
    requires k < |s|
    ensures Filter(s[..k + 1], p) == if p(s[k]) then Filter(s[..k], p) + [s[k]] else Filter(s[..k], p)
  {
    assert s[..k + 1] == s[..k] + [s[k]];
    FilterSnoc(s[..k], s[k], p);
  }

  lemma {:induction false} FilterAll<T(!new)>(s: seq<T>, p: T -> bool)
    requires forall x :: x in s ==> p(x)
    ensures Filter(s, p) == s
  {
    if s != [] { FilterAll(s[1..], p); }
  }

  lemma {:induction false} FilterNone<T(!new)>(s: seq<T>, p: T -> bool)
    requires forall x :: x in s ==> !p(x)
    ensures Filter(s, p) == []
  {
    if s != [] { FilterNone(s[1..], p); }
  }

  /** Filtering by a stronger predicate first changes nothing. */
  lemma {:induction false} FilterFilter<T(!new)>(s: seq<T>, p: T -> bool, q: T -> bool)
    requires forall x :: x in s && q(x) ==> p(x)
    ensures Filter(Filter(s, p), q) == Filter(s, q)
  {
    if s != [] {
      FilterFilter(s[1..], p, q);
      if p(s[0]) {
        assert Filter(s, p)[1..] == Filter(s[1..], p);
      } else {
        assert Filter(s, p) == Filter(s[1..], p);
      }
    }
  }

  /** Every element is related to each later one. */
  predicate Pairwise<T>(s: seq<T>, related: (T, T) -> bool) {
    forall i, j :: 0 <= i < j < |s| ==> related(s[i], s[j])
  }

  lemma {:induction false} FilterKeepsPairwise<T(!new)>(s: seq<T>, p: T -> bool, related: (T, T) -> bool)
    requires Pairwise(s, related)
    ensures Pairwise(Filter(s, p), related)
  {
    if s != [] {
      FilterKeepsPairwise(s[1..], p, related);
      forall y | y in Filter(s[1..], p) ensures related(s[0], y) {
        var k :| 0 <= k < |s[1..]| && s[1..][k] == y;
        assert s[k + 1] == y;
      }
    }
  }

  lemma FilterHead<T(!new)>(x: T, s: seq<T>, p: T -> bool)
    ensures Filter([x] + s, p) == if p(x) then [x] + Filter(s, p) else Filter(s, p)
  {
    assert ([x] + s)[1..] == s;
  }

  lemma MapCons<A, B>(x: A, s: seq<A>, f: A -> B)
    ensures Map([x] + s, f) == [f(x)] + Map(s, f)
  {
  }

  lemma {:induction false} FilterCount<T(!new)>(s: seq<T>, p: T -> bool, x: T)
    ensures multiset(Filter(s, p))[x] == if p(x) then multiset(s)[x] else 0
  {
    if s != [] {
      FilterCount(s[1..], p, x);
      MultisetSplit(s);
    }
  }

  lemma {:induction false} FilterSorted<T(!new)>(s: seq<T>, p: T -> bool, leq: (T, T) -> bool)
    requires Sorted(s, leq)
    ensures Sorted(Filter(s, p), leq)
  {
    if s != [] {
      TailKeeps(s, leq);
      FilterSorted(s[1..], p, leq);
      assert forall y :: y in s[1..] ==> leq(s[0], y);
    }
  }

  predicate NoDuplicates<T(==)>(s: seq<T>) {
    forall i, j :: 0 <= i < j < |s| ==> s[i] != s[j]
  }

  lemma NoDuplicatesAppend<T>(a: seq<T>, b: seq<T>)
    requires NoDuplicates(a) && NoDuplicates(b) && forall x :: x in a ==> x !in b
    ensures NoDuplicates(a + b)
  {
    forall i, j | 0 <= i < j < |a + b| ensures (a + b)[i] != (a + b)[j] {
      assert i < |a| ==> (a + b)[i] in a;
      assert j >= |a| ==> (a + b)[j] in b;
    }
  }

  lemma FewerElements<T>(a: set<T>, b: set<T>)
    requires a <= b
    ensures |a| <= |b|
  {
    assert b == a + (b - a);
  }

  lemma MultisetSplit<T>(s: seq<T>)
    requires s != []
    ensures multiset(s) == multiset{s[0]} + multiset(s[1..])
  {
    assert s == [s[0]] + s[1..];
  }

  lemma MultisetRemove<T>(s: seq<T>, j: nat)
    requires j < |s|
    ensures multiset(s) == multiset(s[..j] + s[j + 1..]) + multiset{s[j]}
  {
    assert s == s[..j] + [s[j]] + s[j + 1..];
  }

  lemma {:induction false} MapKeepsMultisets<A, B>(a: seq<A>, b: seq<A>, f: A -> B)
    requires multiset(a) == multiset(b)
    ensures multiset(Map(a, f)) == multiset(Map(b, f))
  {
    SameSize(a, b);
    if a != [] {
      var j := PickOut(a, b);
      var rest := b[..j] + b[j + 1..];
      MapKeepsMultisets(a[1..], rest, f);
      MapHead(a, f);
      MapRemove(b, j, f);
    }
  }

  /** Where the first element of `a` sits in `b`, and what remains of both. */
  lemma PickOut<T>(a: seq<T>, b: seq<T>) returns (j: nat)
    requires a != [] && multiset(a) == multiset(b)
    ensures j < |b| && b[j] == a[0] && multiset(a[1..]) == multiset(b[..j] + b[j + 1..])
  {
    assert a[0] in multiset(b);
    j :| j < |b| && b[j] == a[0];
    MultisetSplit(a);
    MultisetRemove(b, j);
    assert multiset(a[1..]) == multiset(a) - multiset{a[0]};
    assert multiset(b[..j] + b[j + 1..]) == multiset(b) - multiset{b[j]};
  }

  lemma MapHead<A, B>(s: seq<A>, f: A -> B)
    requires s != []
    ensures multiset(Map(s, f)) == multiset(Map(s[1..], f)) + multiset{f(s[0])}
  {
    assert Map(s, f) == [f(s[0])] + Map(s[1..], f);
  }

  lemma MapRemove<A, B>(s: seq<A>, j: nat, f: A -> B)
    requires j < |s|
    ensures multiset(Map(s, f)) == multiset(Map(s[..j] + s[j + 1..], f)) + multiset{f(s[j])}
  {
    MultisetRemove(Map(s, f), j);
    assert Map(s[..j] + s[j + 1..], f) == Map(s, f)[..j] + Map(s, f)[j + 1..];
  }

  // ---- stable sorting ----

  ghost predicate TotalPreorder<T(!new)>(leq: (T, T) -> bool) {
    && (forall a, b :: leq(a, b) || leq(b, a))
    && (forall a, b, c :: leq(a, b) && leq(b, c) ==> leq(a, c))
  }

  /** No two different elements of `s` are tied. */
  predicate AntisymmetricOn<T(==)>(s: seq<T>, leq: (T, T) -> bool) {
    forall i, j :: 0 <= i < |s| && 0 <= j < |s| && leq(s[i], s[j]) && leq(s[j], s[i]) ==> s[i] == s[j]
  }

  predicate Sorted<T>(s: seq<T>, leq: (T, T) -> bool) {
    forall i, j :: 0 <= i < j < |s| ==> leq(s[i], s[j])
  }

  function InsertSorted<T>(x: T, s: seq<T>, leq: (T, T) -> bool): seq<T> {
    if s == [] then [x] else if leq(x, s[0]) then [x] + s else [s[0]] + InsertSorted(x, s[1..], leq)
  }

  /** The result of `sort_by`; the lemmas below fix it uniquely: sorted, a permutation, and stable. */
  function SortBy<T>(s: seq<T>, leq: (T, T) -> bool): seq<T> {
    if s == [] then [] else InsertSorted(s[0], SortBy(s[1..], leq), leq)
  }

  lemma {:induction false} InsertPermutes<T>(x: T, s: seq<T>, leq: (T, T) -> bool)
    ensures multiset(InsertSorted(x, s, leq)) == multiset{x} + multiset(s)
  {
    if s != [] && !leq(x, s[0]) {
      InsertPermutes(x, s[1..], leq);
      MultisetSplit(s);
    }
  }

  lemma {:induction false} SortPermutes<T>(s: seq<T>, leq: (T, T) -> bool)
    ensures multiset(SortBy(s, leq)) == multiset(s)
  {
    if s != [] {
      SortPermutes(s[1..], leq);
      InsertPermutes(s[0], SortBy(s[1..], leq), leq);
      MultisetSplit(s);
    }
  }

  lemma {:induction false} InsertSorts<T(!new)>(x: T, s: seq<T>, leq: (T, T) -> bool)
    requires TotalPreorder(leq) && Sorted(s, leq)
    ensures Sorted(InsertSorted(x, s, leq), leq)
  {
    if s != [] && !leq(x, s[0]) {
      InsertSorts(x, s[1..], leq);
      InsertPermutes(x, s[1..], leq);
      var r := InsertSorted(x, s[1..], leq);
      forall y | y in r ensures leq(s[0], y) {
        assert y in multiset(r);
        assert y == x || y in s[1..];
      }
    }
  }

  lemma {:induction false} SortSorts<T(!new)>(s: seq<T>, leq: (T, T) -> bool)
    requires TotalPreorder(leq)
    ensures Sorted(SortBy(s, leq), leq)
  {
    if s != [] {
      SortSorts(s[1..], leq);
      InsertSorts(s[0], SortBy(s[1..], leq), leq);
    }
  }

  /** The order cannot tell the elements with `p` apart. */
  ghost predicate Tied<T(!new)>(s: seq<T>, leq: (T, T) -> bool, p: T -> bool) {
    forall a, b :: a in s && b in s && p(a) && p(b) ==> leq(a, b)
  }

  lemma TiedSubset<T(!new)>(s: seq<T>, t: seq<T>, leq: (T, T) -> bool, p: T -> bool)
    requires Tied(s, leq, p) && forall x :: x in t ==> x in s
    ensures Tied(t, leq, p)
  {
  }

  lemma {:induction false} InsertStable<T(!new)>(x: T, s: seq<T>, leq: (T, T) -> bool, p: T -> bool)
    requires Tied([x] + s, leq, p)
    ensures Filter(InsertSorted(x, s, leq), p) == Filter([x] + s, p)
  {
    if s != [] && !leq(x, s[0]) {
      assert x in [x] + s && s[0] in [x] + s;
      TiedSubset([x] + s, [x] + s[1..], leq, p);
      InsertStable(x, s[1..], leq, p);
      FilterHead(s[0], InsertSorted(x, s[1..], leq), p);
      FilterSwap(x, s[0], s[1..], p);
      assert s == [s[0]] + s[1..];
    }
  }

  lemma FilterSwap<T(!new)>(x: T, y: T, s: seq<T>, p: T -> bool)
    requires !(p(x) && p(y))
    ensures Filter([x] + ([y] + s), p) == (if p(y) then [y] else []) + Filter([x] + s, p)
  {
    FilterHead(x, [y] + s, p);
    FilterHead(y, s, p);
    FilterHead(x, s, p);
  }

  /** Stability: elements the order cannot tell apart keep their input order. */
  lemma {:induction false} SortStable<T(!new)>(s: seq<T>, leq: (T, T) -> bool, p: T -> bool)
    requires Tied(s, leq, p)
    ensures Filter(SortBy(s, leq), p) == Filter(s, p)
  {
    if s != [] {
      var t := SortBy(s[1..], leq);
      TiedSubset(s, s[1..], leq, p);
      SortStable(s[1..], leq, p);
      SortMembers(s[1..], leq);
      TiedSubset(s, [s[0]] + t, leq, p);
      InsertStable(s[0], t, leq, p);
      FilterHead(s[0], t, p);
      FilterHead(s[0], s[1..], p);
      assert s == [s[0]] + s[1..];
    }
  }

  /** `p` and `q` divide `s`, and every element with `p` comes strictly before every element with `q`. */
  ghost predicate Splits<T(!new)>(s: seq<T>, leq: (T, T) -> bool, p: T -> bool, q: T -> bool) {
    && (forall x :: x in s ==> p(x) != q(x))
    && forall x, y :: x in s && y in s && p(x) && q(y) ==> leq(x, y) && !leq(y, x)
  }

  /** A sort sorts the two parts one after the other. */
  lemma {:induction false} SortSplit<T(!new)>(s: seq<T>, leq: (T, T) -> bool, p: T -> bool, q: T -> bool)
    requires Splits(s, leq, p, q)
    ensures SortBy(s, leq) == SortBy(Filter(s, p), leq) + SortBy(Filter(s, q), leq)
  {
    if s != [] {
      SortSplit(s[1..], leq, p, q);
      SortSplitStep(s[0], s[1..], leq, p, q);
      assert s == [s[0]] + s[1..];
    }
  }

  lemma SortSplitStep<T(!new)>(x: T, s: seq<T>, leq: (T, T) -> bool, p: T -> bool, q: T -> bool)
    requires Splits([x] + s, leq, p, q)
    requires SortBy(s, leq) == SortBy(Filter(s, p), leq) + SortBy(Filter(s, q), leq)
    ensures SortBy([x] + s, leq) == SortBy(Filter([x] + s, p), leq) + SortBy(Filter([x] + s, q), leq)
  {
    assert x in [x] + s && ([x] + s)[1..] == s;
    assert forall y :: y in s ==> y in [x] + s;
    SortMembers(Filter(s, p), leq);
    SortMembers(Filter(s, q), leq);
    if p(x) {
      InsertLow(x, SortBy(Filter(s, p), leq), SortBy(Filter(s, q), leq), leq);
      FilterHead(x, s, p);
      FilterHead(x, s, q);
    } else {
      InsertHigh(x, SortBy(Filter(s, p), leq), SortBy(Filter(s, q), leq), leq);
      FilterHead(x, s, p);
      FilterHead(x, s, q);
    }
  }

  lemma SortMembers<T>(s: seq<T>, leq: (T, T) -> bool)
    ensures forall x :: x in SortBy(s, leq) <==> x in s
  {
    SortPermutes(s, leq);
    assert forall x :: x in SortBy(s, leq) <==> x in multiset(SortBy(s, leq));
    assert forall x :: x in s <==> x in multiset(s);
  }

  lemma {:induction false} InsertLow<T(!new)>(x: T, low: seq<T>, high: seq<T>, leq: (T, T) -> bool)
    requires forall y :: y in high ==> leq(x, y)
    ensures InsertSorted(x, low + high, leq) == InsertSorted(x, low, leq) + high
  {
    if low == [] {
      assert low + high == high;
    } else {
      assert (low + high)[1..] == low[1..] + high;
      InsertLow(x, low[1..], high, leq);
    }
  }

  lemma {:induction false} InsertHigh<T(!new)>(x: T, low: seq<T>, high: seq<T>, leq: (T, T) -> bool)
    requires forall y :: y in low ==> !leq(x, y)
    ensures InsertSorted(x, low + high, leq) == low + InsertSorted(x, high, leq)
  {
    if low == [] {
      assert low + high == high;
    } else {
      assert (low + high)[1..] == low[1..] + high;
      InsertHigh(x, low[1..], high, leq);
    }
  }

  /** Two sorted arrangements of one multiset are equal when the order is antisymmetric on it. */
  lemma {:induction false} SortedUnique<T(!new)>(a: seq<T>, b: seq<T>, leq: (T, T) -> bool)
    requires Sorted(a, leq) && Sorted(b, leq) && multiset(a) == multiset(b)
    requires AntisymmetricOn(a, leq)
    ensures a == b
  {
    SameSize(a, b);
    if a != [] {
      SameFirst(a, b, leq);
      SameTail(a, b);
      TailKeeps(a, leq);
      TailKeeps(b, leq);
      SortedUnique(a[1..], b[1..], leq);
      assert a == [a[0]] + a[1..] && b == [b[0]] + b[1..];
    }
  }

  lemma SameSize<T>(a: seq<T>, b: seq<T>)
    requires multiset(a) == multiset(b)
    ensures |a| == |b|
  {
    assert |a| == |multiset(a)| && |b| == |multiset(b)|;
  }

  lemma SameTail<T>(a: seq<T>, b: seq<T>)
    requires a != [] && b != [] && a[0] == b[0] && multiset(a) == multiset(b)
    ensures multiset(a[1..]) == multiset(b[1..])
  {
    MultisetSplit(a);
    MultisetSplit(b);
    assert multiset(a[1..]) == multiset(a) - multiset{a[0]};
    assert multiset(b[1..]) == multiset(b) - multiset{b[0]};
  }

  lemma TailKeeps<T(!new)>(s: seq<T>, leq: (T, T) -> bool)
    requires s != []
    ensures Sorted(s, leq) ==> Sorted(s[1..], leq)
    ensures AntisymmetricOn(s, leq) ==> AntisymmetricOn(s[1..], leq)
  {
  }

  lemma SameFirst<T(!new)>(a: seq<T>, b: seq<T>, leq: (T, T) -> bool)
    requires a != [] && b != []
    requires Sorted(a, leq) && Sorted(b, leq) && multiset(a) == multiset(b)
    requires AntisymmetricOn(a, leq)
    ensures a[0] == b[0]
  {
    assert b[0] in multiset(a) && a[0] in multiset(b);
    var i :| 0 <= i < |a| && a[i] == b[0];
    var j :| 0 <= j < |b| && b[j] == a[0];
    if i > 0 && j > 0 {
      assert leq(a[0], a[i]) && leq(b[0], b[j]);
      assert a[0] in a && a[i] in a;
    }
  }
}
