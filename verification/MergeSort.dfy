/// The bottom-up merge sort of uthash as a function on sequences: what one pass and all passes
/// compute, and that the result is a sorted and stable permutation.
module MergeSort {
  function Min(a: nat, b: nat): nat {
    if a < b then a else b
  }

  ghost function Merge<X>(cmp: (X, X) -> int, p: seq<X>, q: seq<X>): (r: seq<X>)
    ensures |r| == |p| + |q|
    decreases |p| + |q|
  {
    if p == [] then q
    else if q == [] then p
    else if cmp(p[0], q[0]) <= 0 then [p[0]] + Merge(cmp, p[1..], q)
    else [q[0]] + Merge(cmp, p, q[1..])
  }

  // One pass: consecutive runs of length n are merged two by two.
  ghost function Pass<X>(cmp: (X, X) -> int, s: seq<X>, n: nat): (r: seq<X>)
    requires n > 0
    ensures |r| == |s|
    decreases |s|
  {
    if s == [] then []
    else
      var p := Min(n, |s|);
      var q := Min(n, |s| - p);
      Merge(cmp, s[..p], s[p..p + q]) + Pass(cmp, s[p + q..], n)
  }

  // Passes with doubled run length until one merge covers everything.
  ghost function Sort<X>(cmp: (X, X) -> int, s: seq<X>, n: nat): (r: seq<X>)
    requires n > 0
    ensures |r| == |s|
    decreases |s| - n
  {
    if |s| <= 2 * n then Pass(cmp, s, n) else Sort(cmp, Pass(cmp, s, n), 2 * n)
  }

  // Permutation

  lemma HeadCounted<X>(a: X, s: seq<X>, t: seq<X>)
    requires t != [] && t[0] == a && t[1..] == s
    ensures multiset([a] + s) == multiset{a} + multiset(s) == multiset(t)
  {
    assert t == [a] + s;
  }

  lemma {:induction false} MergePermutes<X>(cmp: (X, X) -> int, p: seq<X>, q: seq<X>)
    ensures multiset(Merge(cmp, p, q)) == multiset(p) + multiset(q)
    decreases |p| + |q|
  {
    if p != [] && q != [] {
      var r := Merge(cmp, p, q);
      if cmp(p[0], q[0]) <= 0 {
        MergePermutes(cmp, p[1..], q);
        HeadCounted(p[0], p[1..], p);
        HeadCounted(p[0], Merge(cmp, p[1..], q), r);
      } else {
        MergePermutes(cmp, p, q[1..]);
        HeadCounted(q[0], q[1..], q);
        HeadCounted(q[0], Merge(cmp, p, q[1..]), r);
      }
    }
  }

  lemma {:induction false} PassPermutes<X>(cmp: (X, X) -> int, s: seq<X>, n: nat)
    requires n > 0
    ensures multiset(Pass(cmp, s, n)) == multiset(s)
    decreases |s|
  {
    hide Merge;
    if s != [] {
      var p := Min(n, |s|);
      var q := Min(n, |s| - p);
      MergePermutes(cmp, s[..p], s[p..p + q]);
      PassPermutes(cmp, s[p + q..], n);
      assert s == s[..p] + s[p..p + q] + s[p + q..];
    }
  }

  lemma {:induction false} SortPermutes<X>(cmp: (X, X) -> int, s: seq<X>, n: nat)
    requires n > 0
    ensures multiset(Sort(cmp, s, n)) == multiset(s)
    decreases |s| - n
  {
    PassPermutes(cmp, s, n);
    if |s| > 2 * n {
      SortPermutes(cmp, Pass(cmp, s, n), 2 * n);
    }
  }

  // Order

  // On the given elements the comparison is total and transitive.
  ghost predicate Preorder<X>(cmp: (X, X) -> int, u: multiset<X>) {
    && (forall x, y :: x in u && y in u ==> cmp(x, y) <= 0 || cmp(y, x) <= 0)
    && (forall x, y, z :: x in u && y in u && z in u && cmp(x, y) <= 0 && cmp(y, z) <= 0 ==> cmp(x, z) <= 0)
  }

  ghost predicate Sorted<X>(cmp: (X, X) -> int, s: seq<X>) {
    forall i, j :: 0 <= i < j < |s| ==> cmp(s[i], s[j]) <= 0
  }

  // The elements that x compares equal with, in their order.
  ghost function Equals<X>(cmp: (X, X) -> int, x: X, s: seq<X>): seq<X> {
    if s == [] then []
    else (if cmp(x, s[0]) <= 0 && cmp(s[0], x) <= 0 then [s[0]] else []) + Equals(cmp, x, s[1..])
  }

  lemma {:induction false} EqualsAppend<X>(cmp: (X, X) -> int, x: X, s: seq<X>, t: seq<X>)
    ensures Equals(cmp, x, s + t) == Equals(cmp, x, s) + Equals(cmp, x, t)
  {
    if s == [] {
      assert s + t == t;
    } else {
      assert (s + t)[1..] == s[1..] + t;
      EqualsAppend(cmp, x, s[1..], t);
    }
  }

  lemma HeadBelow<X>(cmp: (X, X) -> int, a: X, s: seq<X>)
    requires Sorted(cmp, s) && forall y :: y in s ==> cmp(a, y) <= 0
    ensures Sorted(cmp, [a] + s)
  {
  }

  lemma SortedTail<X>(cmp: (X, X) -> int, s: seq<X>)
    requires s != [] && Sorted(cmp, s)
    ensures Sorted(cmp, s[1..]) && forall y :: y in s[1..] ==> cmp(s[0], y) <= 0
  {
  }

  lemma MergeElements<X>(cmp: (X, X) -> int, p: seq<X>, q: seq<X>)
    ensures forall y :: y in Merge(cmp, p, q) <==> y in p || y in q
  {
    MergePermutes(cmp, p, q);
    forall y ensures y in Merge(cmp, p, q) <==> y in p || y in q {
      assert y in multiset(Merge(cmp, p, q)) <==> y in multiset(p) || y in multiset(q);
    }
  }

  lemma BelowMerged<X>(cmp: (X, X) -> int, a: X, p: seq<X>, q: seq<X>)
    requires forall y :: y in p || y in q ==> cmp(a, y) <= 0
    ensures forall y :: y in Merge(cmp, p, q) ==> cmp(a, y) <= 0
  {
    MergeElements(cmp, p, q);
  }

  lemma Total<X>(cmp: (X, X) -> int, x: X, y: X, u: multiset<X>)
    requires Preorder(cmp, u) && x in u && y in u
    ensures cmp(x, y) <= 0 || cmp(y, x) <= 0
  {
  }

  lemma BelowBoth<X>(cmp: (X, X) -> int, p: seq<X>, q: seq<X>, u: multiset<X>)
    requires p != [] && q != [] && Preorder(cmp, u) && Sorted(cmp, p) && Sorted(cmp, q) && cmp(p[0], q[0]) <= 0
    requires forall y :: y in p || y in q ==> y in u
    ensures forall y :: y in p[1..] || y in q ==> cmp(p[0], y) <= 0
  {
    SortedTail(cmp, p);
    SortedTail(cmp, q);
    assert p[0] in p && q[0] in q;
    forall y | y in q ensures cmp(p[0], y) <= 0 {
      if y != q[0] {
        assert y in q[1..];
      }
    }
  }

  lemma {:induction false} MergeSorts<X>(cmp: (X, X) -> int, p: seq<X>, q: seq<X>, u: multiset<X>)
    requires Preorder(cmp, u) && Sorted(cmp, p) && Sorted(cmp, q)
    requires forall y :: y in p || y in q ==> y in u
    ensures Sorted(cmp, Merge(cmp, p, q))
    decreases |p| + |q|
  {
    hide Preorder, Sorted;
    if p != [] && q != [] {
      assert cmp(p[0], q[0]) <= 0 || cmp(q[0], p[0]) <= 0 by {
        Total(cmp, p[0], q[0], u);
      }
      SortedTail(cmp, p);
      SortedTail(cmp, q);
      if cmp(p[0], q[0]) <= 0 {
        MergeSorts(cmp, p[1..], q, u);
        BelowBoth(cmp, p, q, u);
        BelowMerged(cmp, p[0], p[1..], q);
        HeadBelow(cmp, p[0], Merge(cmp, p[1..], q));
      } else {
        MergeSorts(cmp, p, q[1..], u);
        BelowBoth(cmp, q, p, u);
        BelowMerged(cmp, q[0], p, q[1..]);
        HeadBelow(cmp, q[0], Merge(cmp, p, q[1..]));
      }
    }
  }

  // Nothing in the sorted p compares equal with x if its head is above an element equal with x.
  lemma {:induction false} NoEqualsAbove<X>(cmp: (X, X) -> int, x: X, p: seq<X>, b: X, u: multiset<X>)
    requires Preorder(cmp, u) && x in u && b in u && forall y :: y in p ==> y in u
    requires cmp(x, b) <= 0 && forall y :: y in p ==> cmp(y, b) > 0
    ensures Equals(cmp, x, p) == []
  {
    if p != [] {
      assert p[0] in p;
      NoEqualsAbove(cmp, x, p[1..], b, u);
    }
  }

  lemma AllAbove<X>(cmp: (X, X) -> int, p: seq<X>, b: X, u: multiset<X>)
    requires p != [] && Preorder(cmp, u) && Sorted(cmp, p) && b in u && cmp(p[0], b) > 0
    requires forall y :: y in p ==> y in u
    ensures forall y :: y in p ==> cmp(y, b) > 0
  {
    SortedTail(cmp, p);
    assert p[0] in p;
    forall y | y in p ensures cmp(y, b) > 0 {
      if y != p[0] {
        assert y in p[1..];
      }
    }
  }

  lemma {:induction false} MergeStable<X>(cmp: (X, X) -> int, x: X, p: seq<X>, q: seq<X>, u: multiset<X>)
    requires Preorder(cmp, u) && x in u && Sorted(cmp, p) && Sorted(cmp, q)
    requires forall y :: y in p || y in q ==> y in u
    ensures Equals(cmp, x, Merge(cmp, p, q)) == Equals(cmp, x, p) + Equals(cmp, x, q)
    decreases |p| + |q|
  {
    hide Preorder, Sorted, Equals, Merge;
    MergeCases(cmp, p, q);
    if p == [] || q == [] {
      NoEquals(cmp, x);
    } else if cmp(p[0], q[0]) <= 0 {
      SortedTail(cmp, p);
      MergeStable(cmp, x, p[1..], q, u);
      EqualsHead(cmp, x, p[0], Merge(cmp, p[1..], q));
      EqualsHead(cmp, x, p[0], p[1..]);
      assert p == [p[0]] + p[1..];
    } else {
      SortedTail(cmp, q);
      MergeStable(cmp, x, p, q[1..], u);
      EqualsHead(cmp, x, q[0], Merge(cmp, p, q[1..]));
      EqualsHead(cmp, x, q[0], q[1..]);
      assert q == [q[0]] + q[1..];
      if cmp(x, q[0]) <= 0 && cmp(q[0], x) <= 0 {
        AllAbove(cmp, p, q[0], u);
        NoEqualsAbove(cmp, x, p, q[0], u);
      }
    }
  }

  lemma NoEquals<X>(cmp: (X, X) -> int, x: X)
    ensures Equals(cmp, x, []) == []
  {
  }

  lemma EqualsHead<X>(cmp: (X, X) -> int, x: X, a: X, s: seq<X>)
    ensures Equals(cmp, x, [a] + s) == (if cmp(x, a) <= 0 && cmp(a, x) <= 0 then [a] else []) + Equals(cmp, x, s)
  {
    assert ([a] + s)[1..] == s;
  }

  lemma MergeCases<X>(cmp: (X, X) -> int, p: seq<X>, q: seq<X>)
    ensures p == [] ==> Merge(cmp, p, q) == q
    ensures q == [] ==> Merge(cmp, p, q) == p
    ensures p != [] && q != [] ==>
      Merge(cmp, p, q) == if cmp(p[0], q[0]) <= 0 then [p[0]] + Merge(cmp, p[1..], q)
        else [q[0]] + Merge(cmp, p, q[1..])
  {
  }

  // Every run of length n, counted from the front, is sorted.
  ghost predicate RunsSorted<X>(cmp: (X, X) -> int, s: seq<X>, n: nat)
    requires n > 0
    decreases |s|
  {
    s == [] || (Sorted(cmp, s[..Min(n, |s|)]) && RunsSorted(cmp, s[Min(n, |s|)..], n))
  }

  lemma {:induction false} RunsOfOne<X>(cmp: (X, X) -> int, s: seq<X>)
    ensures RunsSorted(cmp, s, 1)
  {
    if s != [] {
      RunsOfOne(cmp, s[1..]);
    }
  }

  lemma FirstRuns<X>(cmp: (X, X) -> int, s: seq<X>, n: nat)
    requires n > 0 && s != [] && RunsSorted(cmp, s, n)
    ensures var p := Min(n, |s|);
      var q := Min(n, |s| - p);
      && Sorted(cmp, s[..p]) && Sorted(cmp, s[p..p + q]) && RunsSorted(cmp, s[p + q..], n)
  {
    hide Sorted, RunsSorted;
    var p := Min(n, |s|);
    var q := Min(n, |s| - p);
    assert s[p..][..q] == s[p..p + q] && s[p..][q..] == s[p + q..];
    FirstRun(cmp, s, n);
    if s[p..] == [] {
      NoRuns(cmp, s[p + q..], n);
      EmptySorted(cmp, s[p..p + q]);
    } else {
      FirstRun(cmp, s[p..], n);
    }
  }

  lemma FirstRun<X>(cmp: (X, X) -> int, s: seq<X>, n: nat)
    requires n > 0 && s != [] && RunsSorted(cmp, s, n)
    ensures Sorted(cmp, s[..Min(n, |s|)]) && RunsSorted(cmp, s[Min(n, |s|)..], n)
  {
  }

  lemma EmptySorted<X>(cmp: (X, X) -> int, s: seq<X>)
    requires s == []
    ensures Sorted(cmp, s)
  {
  }

  lemma RunsPrepend<X>(cmp: (X, X) -> int, run: seq<X>, rest: seq<X>, n: nat)
    requires n > 0 && Sorted(cmp, run) && RunsSorted(cmp, rest, n)
    requires 0 < |run| <= n && (|run| < n ==> rest == [])
    ensures RunsSorted(cmp, run + rest, n)
  {
    assert (run + rest)[..|run|] == run && (run + rest)[|run|..] == rest;
  }

  lemma {:induction false} PassMerges<X>(cmp: (X, X) -> int, s: seq<X>, n: nat, u: multiset<X>)
    requires n > 0 && Preorder(cmp, u) && RunsSorted(cmp, s, n)
    requires forall y :: y in s ==> y in u
    ensures RunsSorted(cmp, Pass(cmp, s, n), 2 * n)
    decreases |s|
  {
    hide Merge, Sorted, Preorder, RunsSorted;
    if s != [] {
      var p := Min(n, |s|);
      var q := Min(n, |s| - p);
      FirstRuns(cmp, s, n);
      MergeSorts(cmp, s[..p], s[p..p + q], u);
      PassMerges(cmp, s[p + q..], n, u);
      RunsPrepend(cmp, Merge(cmp, s[..p], s[p..p + q]), Pass(cmp, s[p + q..], n), 2 * n);
    } else {
      NoRuns(cmp, s, 2 * n);
    }
  }

  lemma NoRuns<X>(cmp: (X, X) -> int, s: seq<X>, n: nat)
    requires n > 0 && s == []
    ensures RunsSorted(cmp, s, n)
  {
  }

  lemma {:induction false} PassStable<X>(cmp: (X, X) -> int, x: X, s: seq<X>, n: nat, u: multiset<X>)
    requires n > 0 && Preorder(cmp, u) && RunsSorted(cmp, s, n) && x in u
    requires forall y :: y in s ==> y in u
    ensures Equals(cmp, x, Pass(cmp, s, n)) == Equals(cmp, x, s)
    decreases |s|
  {
    hide Merge, Sorted, Preorder, RunsSorted, Equals;
    if s != [] {
      var p := Min(n, |s|);
      var q := Min(n, |s| - p);
      var left, right, rest := s[..p], s[p..p + q], s[p + q..];
      FirstRuns(cmp, s, n);
      PassStable(cmp, x, rest, n, u);
      MergeStable(cmp, x, left, right, u);
      EqualsAppend(cmp, x, Merge(cmp, left, right), Pass(cmp, rest, n));
      EqualsAppend(cmp, x, left, right);
      EqualsAppend(cmp, x, left + right, rest);
      assert s == left + right + rest;
    }
  }

  lemma {:induction false} SortMerges<X>(cmp: (X, X) -> int, s: seq<X>, n: nat)
    requires n > 0 && Preorder(cmp, multiset(s)) && RunsSorted(cmp, s, n)
    ensures Sorted(cmp, Sort(cmp, s, n))
    ensures forall x :: x in s ==> Equals(cmp, x, Sort(cmp, s, n)) == Equals(cmp, x, s)
    decreases |s| - n
  {
    hide Pass, Preorder, Equals;
    PassMerges(cmp, s, n, multiset(s));
    PassPermutes(cmp, s, n);
    var t := Pass(cmp, s, n);
    forall x | x in s ensures Equals(cmp, x, t) == Equals(cmp, x, s) && x in t {
      PassStable(cmp, x, s, n, multiset(s));
      assert x in multiset(t);
    }
    if |s| > 2 * n {
      SortMerges(cmp, t, 2 * n);
    } else if s != [] {
      assert t[..Min(2 * n, |t|)] == t;
    }
  }

  // The result t of sorting s stably: in order, and elements that compare equal are where they were.
  ghost predicate StablySorted<X>(cmp: (X, X) -> int, s: seq<X>, t: seq<X>) {
    && multiset(t) == multiset(s) && Sorted(cmp, t)
    && forall x :: x in s ==> Equals(cmp, x, t) == Equals(cmp, x, s)
  }

  // The whole sort: a sorted, stable permutation for every total preorder.
  lemma SortCorrect<X>(cmp: (X, X) -> int, s: seq<X>)
    requires Preorder(cmp, multiset(s))
    ensures StablySorted(cmp, s, Sort(cmp, s, 1))
  {
    SortPermutes(cmp, s, 1);
    RunsOfOne(cmp, s);
    SortMerges(cmp, s, 1);
  }
}
