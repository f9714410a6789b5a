/// HASH_SRT: the merge sort that relinks the application-order list of a hash table in place.
module HashSort {
  import opened MergeSort

  // The hash handle of an element: its place in the application order and in its bucket.
  class Handle<T> {
    const item: T
    const hashv: nat
    var next: Handle?<T>
    var prev: Handle?<T>
    var hhNext: Handle?<T>
    var hhPrev: Handle?<T>

    constructor (item: T, hashv: nat)
      ensures this.item == item && this.hashv == hashv && next == null && prev == null
    {
      this.item, this.hashv := item, hashv;
      next, prev, hhNext, hhPrev := null, null, null, null;
    }
  }

  // Following next from x passes through s and then arrives at end.
  ghost predicate ChainTo<T>(x: Handle?<T>, s: seq<Handle<T>>, end: Handle?<T>)
    reads s
  {
    if s == [] then x == end else x == s[0] && ChainTo(s[0].next, s[1..], end)
  }

  ghost predicate PrevsOf<T>(s: seq<Handle<T>>)
    reads s
  {
    && (s != [] ==> s[0].prev == null)
    && forall i {:trigger s[i].prev} :: 0 < i < |s| ==> s[i].prev == s[i - 1]
  }

  ghost predicate NoDup<X>(s: seq<X>) {
    forall i, j :: 0 <= i < j < |s| ==> s[i] != s[j]
  }

  // The elements already merged, those left of the first run, and those from the second run on.
  ghost predicate Apart<X>(out: seq<X>, p: seq<X>, z: seq<X>) {
    && NoDup(out) && NoDup(p) && NoDup(z)
    && (forall x :: x in out ==> x !in p && x !in z)
    && (forall x :: x in p ==> x !in z)
  }

  lemma ApartTakeP<X>(out: seq<X>, p: seq<X>, z: seq<X>)
    requires Apart(out, p, z) && p != []
    ensures NoDup(out) && p[0] !in out && p[0] !in p[1..] && p[0] !in z && Apart(out + [p[0]], p[1..], z)
    ensures forall x :: x in out ==> x !in p[1..] && x !in z
  {
  }

  lemma ApartTakeZ<X>(out: seq<X>, p: seq<X>, z: seq<X>)
    requires Apart(out, p, z) && z != []
    ensures NoDup(out) && z[0] !in out && z[0] !in p && z[0] !in z[1..] && Apart(out + [z[0]], p, z[1..])
    ensures forall x :: x in out ==> x !in p && x !in z[1..]
  {
  }

  lemma MergeTakeP<X>(cmp: (X, X) -> int, out: seq<X>, p: seq<X>, q: seq<X>)
    requires p != [] && (q == [] || cmp(p[0], q[0]) <= 0)
    ensures out + Merge(cmp, p, q) == (out + [p[0]]) + Merge(cmp, p[1..], q)
  {
    assert p == [p[0]] + p[1..];
    assert q == [] ==> Merge(cmp, p[1..], q) == p[1..];
  }

  lemma MergeTakeQ<X>(cmp: (X, X) -> int, out: seq<X>, p: seq<X>, q: seq<X>)
    requires q != [] && (p == [] || cmp(p[0], q[0]) > 0)
    ensures out + Merge(cmp, p, q) == (out + [q[0]]) + Merge(cmp, p, q[1..])
  {
    assert q == [q[0]] + q[1..];
  }

  // A doubly linked list from head on.
  ghost predicate IsList<T>(head: Handle?<T>, s: seq<Handle<T>>)
    reads s
  {
    NoDup(s) && ChainTo(head, s, null) && PrevsOf(s)
  }

  // A list under construction: the next of its last element is not set yet.
  ghost predicate IsOpen<T>(list: Handle?<T>, tail: Handle?<T>, s: seq<Handle<T>>)
    reads s
    ensures IsOpen(list, tail, s) && tail != null ==> tail in s
  {
    && PrevsOf(s)
    && if s == [] then list == null && tail == null
       else tail == s[|s| - 1] && ChainTo(list, s[..|s| - 1], tail)
  }

  lemma {:induction false} ChainSnoc<T>(x: Handle?<T>, s: seq<Handle<T>>, e: Handle<T>, end: Handle?<T>)
    requires ChainTo(x, s, e) && e.next == end
    ensures ChainTo(x, s + [e], end)
  {
    if s != [] {
      ChainSnoc(s[0].next, s[1..], e, end);
      assert (s + [e])[1..] == s[1..] + [e];
    } else {
      assert ([e])[1..] == [];
    }
  }

  lemma {:induction false} ChainSplit<T>(x: Handle?<T>, s: seq<Handle<T>>, n: nat, end: Handle?<T>)
    requires n <= |s| && ChainTo(x, s, end)
    ensures ChainTo(x, s[..n], if n < |s| then s[n] else end)
    ensures ChainTo(if n < |s| then s[n] else end, s[n..], end)
  {
    if n == 0 {
      assert s[..0] == [] && s[0..] == s;
    } else {
      ChainSplit(s[0].next, s[1..], n - 1, end);
      assert s[..n][1..] == s[1..][..n - 1] && s[1..][n - 1..] == s[n..];
    }
  }

  // Appends e to the open list.
  method Append<T>(list: Handle?<T>, tail: Handle?<T>, e: Handle<T>, ghost out: seq<Handle<T>>)
    returns (list': Handle<T>, tail': Handle<T>)
    requires IsOpen(list, tail, out) && NoDup(out) && e !in out
    modifies (if tail != null then {tail} else {})`next, {e}`prev
    ensures IsOpen(list', tail', out + [e])
  {
    list', tail' := e, e;
    assert PrevsOf(out);
    if tail != null {
      Link(list, tail, e, out);
      list' := list;
    }
    e.prev := tail;
    ghost var out' := out + [e];
    forall i | 0 <= i < |out| ensures out[i].prev == old(out[i].prev) {
      assert out[i] in out;
    }
    assert out != [] ==> out'[0] == out[0] && out'[|out| - 1] == tail;
    assert out'[..|out|] == out;
  }

  method Link<T>(list: Handle?<T>, tail: Handle<T>, e: Handle?<T>, ghost out: seq<Handle<T>>)
    requires IsOpen(list, tail, out) && NoDup(out)
    modifies {tail}`next
    ensures ChainTo(list, out, e) && PrevsOf(out)
  {
    assert PrevsOf(out);
    ghost var init := out[..|out| - 1];
    assert tail !in init;
    tail.next := e;
    ChainSnoc(list, init, tail, e);
    assert out == init + [tail];
    forall i | 0 <= i < |out| ensures out[i].prev == old(out[i].prev) {
      assert out[i] in out;
    }
  }

  // The open list, what is left of the first run at p, which ends at r, and the rest of the list at q.
  ghost predicate Merging<T>(list: Handle?<T>, tail: Handle?<T>, out: seq<Handle<T>>, p: Handle?<T>,
                             run: seq<Handle<T>>,
                             r: Handle?<T>, q: Handle?<T>, rest: seq<Handle<T>>, all: set<Handle<T>>)
    reads all, out, run, rest
  {
    && IsOpen(list, tail, out) && Apart(out, run, rest) && ChainTo(p, run, r) && ChainTo(q, rest, null)
    && (forall h :: h in out ==> h in all) && (forall h :: h in run ==> h in all)
    && (forall h :: h in rest ==> h in all)
  }

  // The next element comes from the first run.
  method TakeP<T>(list0: Handle?<T>, tail0: Handle?<T>, p0: Handle<T>, r: Handle?<T>, q: Handle?<T>,
                  ghost out: seq<Handle<T>>,
                  ghost run: seq<Handle<T>>, ghost rest: seq<Handle<T>>, ghost all: set<Handle<T>>)
    returns (list: Handle?<T>, tail: Handle?<T>, p: Handle?<T>)
    requires Merging(list0, tail0, out, p0, run, r, q, rest, all) && run != []
    modifies all`next, all`prev
    ensures Merging(list, tail, out + [run[0]], p, run[1..], r, q, rest, all)
  {
    hide Apart, NoDup, IsOpen;
    ApartTakeP(out, run, rest);
    p := p0.next;
    list, tail := Append(list0, tail0, p0, out);
  }

  // The next element comes from the second run.
  method TakeQ<T>(list0: Handle?<T>, tail0: Handle?<T>, p: Handle?<T>, r: Handle?<T>, q0: Handle<T>,
                  ghost out: seq<Handle<T>>,
                  ghost run: seq<Handle<T>>, ghost rest: seq<Handle<T>>, ghost all: set<Handle<T>>)
    returns (list: Handle?<T>, tail: Handle?<T>, q: Handle?<T>)
    requires Merging(list0, tail0, out, p, run, r, q0, rest, all) && rest != []
    modifies all`next, all`prev
    ensures Merging(list, tail, out + [rest[0]], p, run, r, q, rest[1..], all)
  {
    hide Apart, NoDup, IsOpen;
    ApartTakeZ(out, run, rest);
    q := q0.next;
    list, tail := Append(list0, tail0, q0, out);
  }

  lemma MergingEnds<T>(list: Handle?<T>, tail: Handle?<T>, out: seq<Handle<T>>, p: Handle?<T>, run: seq<Handle<T>>,
                       r: Handle?<T>, q: Handle?<T>, rest: seq<Handle<T>>, all: set<Handle<T>>)
    requires Merging(list, tail, out, p, run, r, q, rest, all)
    ensures (q == null <==> rest == []) && (rest != [] ==> q == rest[0]) && (run != [] ==> p == run[0])
    ensures IsOpen(list, tail, out) && Apart(out, run, rest) && ChainTo(q, rest, null)
    ensures forall h ::
      h in out ==> h in all
  {
    hide Apart, NoDup, IsOpen;
  }

  lemma TakeFirst<X>(s: seq<X>, k: nat)
    requires 0 < k <= |s|
    ensures s[..k][1..] == s[1..][..k - 1] && s[1..][k - 1..] == s[k..] && s[..k] != [] && s[..k][0] == s[0]
  {
  }

  // Merges the run at p with the run at q, onto the end of the open list. The second run is
  // the first qsize0 elements of the rest, or all of it if the list ends before.
  method MergeRuns<T>(list0: Handle?<T>, tail0: Handle?<T>, ghost out0: seq<Handle<T>>,
                      p0: Handle?<T>, psize0: nat, ghost run0: seq<Handle<T>>,
                      q0: Handle?<T>, qsize0: nat, ghost rest0: seq<Handle<T>>,
                      cmp: (Handle<T>, Handle<T>) -> int, ghost all: set<Handle<T>>)
    returns (list: Handle?<T>, tail: Handle?<T>, q: Handle?<T>, ghost out: seq<Handle<T>>)
    requires Merging(list0, tail0, out0, p0, run0, q0, q0, rest0, all) && psize0 == |run0|
    modifies all`next, all`prev
    ensures var k := Min(qsize0, |rest0|);
      out == out0 + Merge(cmp, run0, rest0[..k]) && Merging(list, tail, out, null, [], null, q, rest0[k..], all)
  {
    hide Apart, NoDup, IsOpen, Merge, Merging, ChainTo;
    var p, psize, qsize := p0, psize0, qsize0;
    list, tail, q, out := list0, tail0, q0, out0;
    ghost var run, rest, k := run0, rest0, Min(qsize0, |rest0|);
    while psize > 0 || (qsize > 0 && q != null)
      invariant Merging(list, tail, out, p, run, q0, q, rest, all) && psize == |run|
      invariant k == Min(qsize, |rest|) && rest[k..] == rest0[Min(qsize0, |rest0|)..]
      invariant out + Merge(cmp, run, rest[..k]) == out0 + Merge(cmp, run0, rest0[..Min(qsize0, |rest0|)])
      decreases |run| + k
    {
      MergingEnds(list, tail, out, p, run, q0, q, rest, all);
      var fromQ;
      if psize == 0 {
        fromQ := true;
      } else if qsize == 0 || q == null {
        fromQ := false;
      } else {
        fromQ := cmp(p, q) > 0;
      }
      if fromQ {
        TakeFirst(rest, k);
        MergeTakeQ(cmp, out, run, rest[..k]);
        list, tail, q := TakeQ(list, tail, p, q0, q, out, run, rest, all);
        qsize := qsize - 1;
        out, rest, k := out + [rest[0]], rest[1..], k - 1;
      } else {
        MergeTakeP(cmp, out, run, rest[..k]);
        list, tail, p := TakeP(list, tail, p, q0, q, out, run, rest, all);
        psize := psize - 1;
        out, run := out + [run[0]], run[1..];
      }
    }
    MergingEnds(list, tail, out, p, run, q0, q, rest, all);
    MergeEnds(cmp, out, rest[..k]);
    MergedIs(list, tail, out, q, rest, all);
  }

  lemma MergedIs<T>(list: Handle?<T>, tail: Handle?<T>, out: seq<Handle<T>>, q: Handle?<T>, rest: seq<Handle<T>>,
                    all: set<Handle<T>>)
    requires exists p, r :: Merging(list, tail, out, p, [], r, q, rest, all)
    ensures Merging(list, tail, out, null, [], null, q, rest, all)
  {
  }

  lemma MergeEnds<X>(cmp: (X, X) -> int, out: seq<X>, q: seq<X>)
    requires q == []
    ensures out + Merge(cmp, [], q) == out
  {
  }

  // Steps over the first run: n elements, or all there are.
  method StepOver<T>(p: Handle<T>, n: nat, ghost s: seq<Handle<T>>) returns (q: Handle?<T>, psize: nat)
    requires ChainTo(p, s, null) && s != [] && n > 0
    ensures psize == Min(n, |s|) && ChainTo(p, s[..psize], q) && ChainTo(q, s[psize..], null)
  {
    q, psize := p, 0;
    while psize < n && q != null
      invariant psize <= |s| && psize <= n && ChainTo(q, s[psize..], null)
      invariant q == if psize < |s| then s[psize] else null
    {
      assert s[psize..][1..] == s[psize + 1..];
      psize := psize + 1;
      q := q.next;
    }
    ChainSplit(p, s, psize, null);
  }

  // The list at p, as its first run and what comes after it.
  lemma MergingSplit<T>(list: Handle?<T>, tail: Handle?<T>, out: seq<Handle<T>>, p: Handle<T>, q: Handle?<T>, n: nat,
                        rest: seq<Handle<T>>, all: set<Handle<T>>)
    requires Merging(list, tail, out, null, [], null, p, rest, all) && n <= |rest|
    requires ChainTo(p, rest[..n], q) && ChainTo(q, rest[n..], null)
    ensures Merging(list, tail, out, p, rest[..n], q, q, rest[n..], all)
  {
    hide Apart, NoDup, IsOpen, ChainTo;
    assert rest == rest[..n] + rest[n..];
    ApartSplit(out, rest[..n], rest[n..]);
  }

  lemma Slices<X>(s: seq<X>, p: nat, k: nat)
    requires p + k <= |s|
    ensures s[p..][..k] == s[p..p + k] && s[p..][k..] == s[p + k..]
  {
  }

  // Merges the first two runs of the list at p onto the end of the open list.
  method PassOne<T>(list0: Handle?<T>, tail0: Handle?<T>, ghost out0: seq<Handle<T>>, p: Handle<T>, n: nat,
                    ghost rest0: seq<Handle<T>>, cmp: (Handle<T>, Handle<T>) -> int, ghost all: set<Handle<T>>)
    returns (list: Handle?<T>, tail: Handle?<T>, q: Handle?<T>, ghost out: seq<Handle<T>>, ghost rest: seq<Handle<T>>)
    requires Merging(list0, tail0, out0, null, [], null, p, rest0, all) && rest0 != [] && n > 0
    modifies all`next, all`prev
    ensures var psize := Min(n, |rest0|);
      var qsize := Min(n, |rest0| - psize);
      && out == out0 + Merge(cmp, rest0[..psize], rest0[psize..psize + qsize])
      && rest == rest0[psize + qsize..]
    ensures Merging(list, tail, out, null, [], null, q, rest, all)
  {
    hide Merge, Apart, IsOpen, NoDup, Merging, ChainTo;
    MergingEnds(list0, tail0, out0, null, [], null, p, rest0, all);
    var q0, psize := StepOver(p, n, rest0);
    MergingSplit(list0, tail0, out0, p, q0, psize, rest0, all);
    ghost var k := Min(n, |rest0| - psize);
    Slices(rest0, psize, k);
    list, tail, q, out := MergeRuns(list0, tail0, out0, p, psize, rest0[..psize], q0, n, rest0[psize..], cmp, all);
    rest := rest0[psize + k..];
  }

  // One pass over the list: every two neighbouring runs of length n are merged.
  method PassList<T>(head: Handle<T>, ghost s: seq<Handle<T>>, n: nat, cmp: (Handle<T>, Handle<T>) -> int,
                     ghost all: set<Handle<T>>)
    returns (list: Handle?<T>, tail: Handle?<T>, nmerges: nat, ghost out: seq<Handle<T>>)
    requires ChainTo(head, s, null) && NoDup(s) && s != [] && n > 0 && forall h :: h in s ==> h in all
    modifies all`next, all`prev
    ensures out == Pass(cmp, s, n) && IsList(list, out) && tail == out[|out| - 1]
    ensures nmerges <= 1 <==> |s| <= 2 * n
    ensures forall h :: h in out ==> h in all
  {
    hide Merge, Pass, Apart, IsOpen, NoDup, PrevsOf, ChainTo, Merging;
    MergingStart(head, s, all);
    list, tail, nmerges, out := MergeAll(head, s, n, cmp, all);
    MergingEnds(list, tail, out, null, [], null, null, [], all);
    ApartOut(out, []);
    Close(list, tail, out);
  }

  method MergeAll<T>(head: Handle<T>, ghost s: seq<Handle<T>>, n: nat, cmp: (Handle<T>, Handle<T>) -> int,
                     ghost all: set<Handle<T>>)
    returns (list: Handle?<T>, tail: Handle?<T>, nmerges: nat, ghost out: seq<Handle<T>>)
    requires Merging(null, null, [], null, [], null, head, s, all) && s != [] && n > 0
    modifies all`next, all`prev
    ensures out == Pass(cmp, s, n) && Merging(list, tail, out, null, [], null, null, [], all)
    ensures nmerges <= 1 <==> |s| <= 2 * n
  {
    hide Merge, Pass, Apart, IsOpen, NoDup, PrevsOf, ChainTo, Merging, MergesSoFar;
    var p: Handle?<T> := head;
    list, tail, nmerges, out := null, null, 0, [];
    ghost var rest := s;
    NoMerge(s, n);
    while p != null
      invariant Merging(list, tail, out, null, [], null, p, rest, all)
      invariant out + Pass(cmp, rest, n) == Pass(cmp, s, n)
      invariant MergesSoFar(nmerges, rest, s, n)
      decreases |rest|
    {
      MergingEnds(list, tail, out, null, [], null, p, rest, all);
      PassStep(cmp, out, rest, n);
      OneMore(nmerges, rest, s, n);
      nmerges := nmerges + 1;
      list, tail, p, out, rest := PassOne(list, tail, out, p, n, rest, cmp, all);
    }
    MergingEnds(list, tail, out, null, [], null, p, rest, all);
    MergesInAll(nmerges, rest, s, n);
    PassEnds(cmp, out, rest, n);
  }

  // How far so many merges of runs of length n have come.
  ghost predicate MergesSoFar<X>(nmerges: nat, rest: seq<X>, s: seq<X>, n: nat) {
    && (nmerges == 0 ==> rest == s) && (nmerges == 1 ==> rest == s[Min(2 * n, |s|)..])
    && (nmerges > 1 ==> |s| > 2 * n)
  }

  lemma NoMerge<X>(s: seq<X>, n: nat)
    ensures MergesSoFar(0, s, s, n)
  {
  }

  lemma OneMore<X>(nmerges: nat, rest: seq<X>, s: seq<X>, n: nat)
    requires MergesSoFar(nmerges, rest, s, n) && rest != [] && n > 0
    ensures var p := Min(n, |rest|);
      MergesSoFar(nmerges + 1, rest[p + Min(n, |rest| - p)..], s, n) && p + Min(n, |rest| - p) > 0
  {
  }

  lemma MergesInAll<X>(nmerges: nat, rest: seq<X>, s: seq<X>, n: nat)
    requires MergesSoFar(nmerges, rest, s, n) && rest == [] && s != []
    ensures nmerges <= 1 <==> |s| <= 2 * n
  {
  }

  // The end of a pass.
  method Close<T>(list: Handle?<T>, tail: Handle?<T>, ghost out: seq<Handle<T>>)
    requires IsOpen(list, tail, out) && NoDup(out)
    modifies (if tail != null then {tail} else {})`next
    ensures IsList(list, out) && (out != [] ==> tail == out[|out| - 1])
  {
    hide NoDup, PrevsOf;
    OpenTail(list, tail, out);
    if tail != null {
      Link(list, tail, null, out);
    }
  }

  lemma MergingStart<T>(head: Handle<T>, s: seq<Handle<T>>, all: set<Handle<T>>)
    requires ChainTo(head, s, null) && NoDup(s) && forall h :: h in s ==> h in all
    ensures Merging(null, null, [], null, [], null, head, s, all)
  {
    hide NoDup;
    NothingOut(s);
  }

  lemma NothingOut<T>(s: seq<Handle<T>>)
    requires NoDup(s)
    ensures Apart([], [], s) && IsOpen<T>(null, null, [])
  {
  }

  lemma OpenTail<T>(list: Handle?<T>, tail: Handle?<T>, s: seq<Handle<T>>)
    requires IsOpen(list, tail, s)
    ensures PrevsOf(s) && (s != [] ==> tail == s[|s| - 1])
  {
  }

  lemma ApartSplit<X>(out: seq<X>, p: seq<X>, q: seq<X>)
    requires Apart(out, [], p + q)
    ensures Apart(out, p, q) && forall x :: x in p || x in q ==> x in p + q
  {
    var z := p + q;
    forall i, j | 0 <= i < j < |p| ensures p[i] != p[j] {
      assert z[i] != z[j];
    }
    forall i, j | 0 <= i < j < |q| ensures q[i] != q[j] {
      assert z[|p| + i] != z[|p| + j];
    }
    forall i, j | 0 <= i < |p| && 0 <= j < |q| ensures p[i] != q[j] {
      assert z[i] != z[|p| + j];
    }
    assert forall x :: x in p || x in q ==> x in z;
  }

  lemma ApartOut<X>(out: seq<X>, z: seq<X>)
    requires Apart(out, [], z)
    ensures NoDup(out)
  {
  }

  lemma PassStep<X>(cmp: (X, X) -> int, out: seq<X>, z: seq<X>, n: nat)
    requires n > 0 && z != []
    ensures var p := Min(n, |z|);
      var q := Min(n, |z| - p);
      out + Pass(cmp, z, n) == (out + Merge(cmp, z[..p], z[p..p + q])) + Pass(cmp, z[p + q..], n)
  {
    hide Merge;
    var p := Min(n, |z|);
    var q := Min(n, |z| - p);
    PassUnfolds(cmp, z, n);
    Assoc(out, Merge(cmp, z[..p], z[p..p + q]), Pass(cmp, z[p + q..], n));
  }

  lemma PassUnfolds<X>(cmp: (X, X) -> int, z: seq<X>, n: nat)
    requires n > 0 && z != []
    ensures var p := Min(n, |z|);
      var q := Min(n, |z| - p);
      Pass(cmp, z, n) == Merge(cmp, z[..p], z[p..p + q]) + Pass(cmp, z[p + q..], n)
  {
    hide Merge;
  }

  lemma Assoc<X>(a: seq<X>, b: seq<X>, c: seq<X>)
    ensures a + (b + c) == (a + b) + c
  {
  }

  lemma PassEnds<X>(cmp: (X, X) -> int, out: seq<X>, z: seq<X>, n: nat)
    requires n > 0 && z == []
    ensures out + Pass(cmp, z, n) == out
  {
  }

  // The passes with doubled run length, until one merge was enough. Bucket chains are not touched.
  method HashSrt<T>(head0: Handle<T>, ghost items: seq<Handle<T>>, cmp: (Handle<T>, Handle<T>) -> int)
    returns (head: Handle<T>, tail: Handle<T>, ghost sorted: seq<Handle<T>>)
    requires IsList(head0, items) && items != []
    modifies (set h | h in items)`next, (set h | h in items)`prev
    ensures sorted == Sort(cmp, items, 1)
    ensures IsList(head, sorted) && head == sorted[0] && tail == sorted[|sorted| - 1]
  {
    hide Sort, Pass;
    ghost var all := set h | h in items;
    var insize, looping := 1, true;
    head, tail, sorted := head0, head0, items;
    while looping
      invariant IsList(head, sorted) && |sorted| == |items| && insize > 0
      invariant forall h :: h in sorted ==> h in all
      invariant looping ==> Sort(cmp, sorted, insize) == Sort(cmp, items, 1)
      invariant !looping ==> sorted == Sort(cmp, items, 1) && tail == sorted[|sorted| - 1]
      decreases looping, |items| - insize
    {
      var list, last, nmerges;
      ghost var out;
      list, last, nmerges, out := PassList(head, sorted, insize, cmp, all);
      SortStep(cmp, sorted, insize);
      head, sorted := list, out;
      if nmerges <= 1 {
        looping := false;
        tail := last;
      }
      insize := insize * 2;
    }
  }

  lemma SortStep<X>(cmp: (X, X) -> int, s: seq<X>, n: nat)
    requires n > 0
    ensures Sort(cmp, s, n) == if |s| <= 2 * n then Pass(cmp, s, n) else Sort(cmp, Pass(cmp, s, n), 2 * n)
  {
  }
}
