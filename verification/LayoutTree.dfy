/// The tiling layout as a value: a tree of windows, how a window is added beside the focused one
/// and taken out again, and the rectangles the windows get.
module LayoutTree {
  type Buffer = nat  // a buffer is known by its identity

  datatype Dir = Horizontal | Vertical

  // The direction of a container says how it lies among its siblings.
  datatype Tree = Leaf(dir: Dir, buf: Buffer) | Inner(dir: Dir, kids: seq<Tree>)

  // The buffers from left to right and from top to bottom.
  function Bufs(t: Tree): seq<Buffer> {
    match t
    case Leaf(_, buf) => [buf]
    case Inner(_, kids) => BufsOf(kids)
  }

  function BufsOf(kids: seq<Tree>): seq<Buffer> {
    if kids == [] then [] else Bufs(kids[0]) + BufsOf(kids[1..])
  }

  ghost predicate Uniform(kids: seq<Tree>, dir: Dir) {
    forall k :: k in kids ==> k.dir == dir
  }

  // Siblings lie in one direction, and a container that is not the root has at least two children.
  ghost predicate Good(t: Tree) {
    t.Inner? ==>
      && |t.kids| >= 2 && (exists dir :: Uniform(t.kids, dir)) && forall k :: k in t.kids ==> Good(k)
  }

  ghost predicate GoodRoot(t: Tree) {
    t.Inner? && t.dir == Horizontal && Uniform(t.kids, Horizontal) && forall k :: k in t.kids ==> Good(k)
  }

  ghost predicate Distinct(s: seq<Buffer>) {
    forall i, j :: 0 <= i < j < |s| ==> s[i] != s[j]
  }

  // The new window goes before the focused one. If it lies in another direction, the two share the place
  // that the focused one had.
  function Beside(leaf: Tree, n: Buffer, dir: Dir): seq<Tree>
    requires leaf.Leaf?
  {
    if dir == leaf.dir then [Leaf(dir, n), leaf]
    else [Inner(leaf.dir, [Leaf(dir, n), Leaf(dir, leaf.buf)])]
  }

  function AddedOne(t: Tree, f: Buffer, n: Buffer, dir: Dir): seq<Tree> {
    match t
    case Leaf(_, buf) => if buf == f then Beside(t, n, dir) else [t]
    case Inner(d, kids) => [Inner(d, AddedIn(kids, f, n, dir))]
  }

  function AddedIn(kids: seq<Tree>, f: Buffer, n: Buffer, dir: Dir): seq<Tree> {
    if kids == [] then [] else AddedOne(kids[0], f, n, dir) + AddedIn(kids[1..], f, n, dir)
  }

  // The only child left takes the place of its container.
  function Raised(dir: Dir, t: Tree): Tree {
    match t
    case Leaf(_, buf) => Leaf(dir, buf)
    case Inner(_, kids) => Inner(dir, kids)
  }

  function RemovedOne(t: Tree, b: Buffer): seq<Tree> {
    match t
    case Leaf(_, buf) => if buf == b then [] else [t]
    case Inner(d, kids) =>
      var rest := RemovedIn(kids, b);
      if |rest| == 1 then [Raised(d, rest[0])] else [Inner(d, rest)]
  }

  function RemovedIn(kids: seq<Tree>, b: Buffer): seq<Tree> {
    if kids == [] then [] else RemovedOne(kids[0], b) + RemovedIn(kids[1..], b)
  }

  // The root is never collapsed.
  function Added(root: Tree, f: Buffer, n: Buffer, dir: Dir): Tree {
    if root.Leaf? then root else Inner(root.dir, AddedIn(root.kids, f, n, dir))
  }

  function Removed(root: Tree, b: Buffer): Tree {
    if root.Leaf? then root else Inner(root.dir, RemovedIn(root.kids, b))
  }

  // The order of the buffers

  function PutBefore(s: seq<Buffer>, f: Buffer, n: Buffer): seq<Buffer> {
    if s == [] then [] else (if s[0] == f then [n, f] else [s[0]]) + PutBefore(s[1..], f, n)
  }

  function Without(s: seq<Buffer>, b: Buffer): seq<Buffer> {
    if s == [] then [] else (if s[0] == b then [] else [s[0]]) + Without(s[1..], b)
  }

  lemma Assoc<X>(h: seq<X>, a: seq<X>, b: seq<X>)
    ensures h + (a + b) == (h + a) + b
  {
  }

  lemma {:induction false} BufsAppend(a: seq<Tree>, b: seq<Tree>)
    ensures BufsOf(a + b) == BufsOf(a) + BufsOf(b)
  {
    if a == [] {
      assert a + b == b;
    } else {
      BufsAppend(a[1..], b);
      assert (a + b)[1..] == a[1..] + b && (a + b)[0] == a[0];
      Assoc(Bufs(a[0]), BufsOf(a[1..]), BufsOf(b));
    }
  }

  lemma {:induction false} PutAppend(a: seq<Buffer>, b: seq<Buffer>, f: Buffer, n: Buffer)
    ensures PutBefore(a + b, f, n) == PutBefore(a, f, n) + PutBefore(b, f, n)
  {
    if a == [] {
      assert a + b == b;
    } else {
      PutAppend(a[1..], b, f, n);
      assert (a + b)[1..] == a[1..] + b && (a + b)[0] == a[0];
      Assoc(if a[0] == f then [n, f] else [a[0]], PutBefore(a[1..], f, n), PutBefore(b, f, n));
    }
  }

  lemma {:induction false} WithoutAppend(a: seq<Buffer>, b: seq<Buffer>, x: Buffer)
    ensures Without(a + b, x) == Without(a, x) + Without(b, x)
  {
    if a == [] {
      assert a + b == b;
    } else {
      WithoutAppend(a[1..], b, x);
      assert (a + b)[1..] == a[1..] + b && (a + b)[0] == a[0];
      Assoc(if a[0] == x then [] else [a[0]], Without(a[1..], x), Without(b, x));
    }
  }

  lemma {:induction false} BufsAddedOne(t: Tree, f: Buffer, n: Buffer, dir: Dir)
    ensures BufsOf(AddedOne(t, f, n, dir)) == PutBefore(Bufs(t), f, n)
  {
    match t
    case Leaf(_, buf) =>
      if buf == f {
        var two := [Leaf(dir, n), Leaf(dir, buf)];
        assert BufsOf(two) == [n] + BufsOf(two[1..]) && two[1..] == [Leaf(dir, buf)];
        assert dir == t.dir ==> Beside(t, n, dir) == two;
      }
    case Inner(d, kids) =>
      BufsAdded(kids, f, n, dir);
  }

  // Adding puts the new buffer right before the focused one and changes nothing else in the order.
  lemma {:induction false} BufsAdded(kids: seq<Tree>, f: Buffer, n: Buffer, dir: Dir)
    ensures BufsOf(AddedIn(kids, f, n, dir)) == PutBefore(BufsOf(kids), f, n)
  {
    if kids != [] {
      BufsAddedOne(kids[0], f, n, dir);
      BufsAdded(kids[1..], f, n, dir);
      BufsAppend(AddedOne(kids[0], f, n, dir), AddedIn(kids[1..], f, n, dir));
      PutAppend(Bufs(kids[0]), BufsOf(kids[1..]), f, n);
    }
  }

  lemma {:induction false} BufsRemovedOne(t: Tree, b: Buffer)
    ensures BufsOf(RemovedOne(t, b)) == Without(Bufs(t), b)
  {
    if t.Inner? {
      BufsRemoved(t.kids, b);
      var rest := RemovedIn(t.kids, b);
      if |rest| == 1 {
        assert BufsOf(rest) == Bufs(rest[0]) == Bufs(Raised(t.dir, rest[0]));
      }
    }
  }

  // Removing takes the buffer out and changes nothing else in the order.
  lemma {:induction false} BufsRemoved(kids: seq<Tree>, b: Buffer)
    ensures BufsOf(RemovedIn(kids, b)) == Without(BufsOf(kids), b)
  {
    if kids != [] {
      BufsRemovedOne(kids[0], b);
      BufsRemoved(kids[1..], b);
      BufsAppend(RemovedOne(kids[0], b), RemovedIn(kids[1..], b));
      WithoutAppend(Bufs(kids[0]), BufsOf(kids[1..]), b);
    }
  }

  // Removing a buffer that was just added gives back the tree.

  lemma {:induction false} RemovedAddedOne(t: Tree, f: Buffer, n: Buffer, dir: Dir)
    requires Good(t) && n !in Bufs(t) && n != f
    ensures RemovedIn(AddedOne(t, f, n, dir), n) == [t]
  {
    match t
    case Leaf(_, buf) =>
      if buf == f && dir == t.dir {
        assert [Leaf(dir, n), t][1..] == [t];
        RemovedSingle(t, n);
      } else if buf == f {
        var two := [Leaf(dir, n), Leaf(dir, f)];
        assert two[1..] == [Leaf(dir, f)];
        RemovedSingle(Leaf(dir, f), n);
        RemovedSingle(Inner(t.dir, two), n);
        assert RemovedIn(two, n) == [Leaf(dir, f)];
      } else {
        RemovedSingle(t, n);
      }
    case Inner(d, kids) =>
      RemovedAdded(kids, f, n, dir);
      RemovedSingle(Inner(d, AddedIn(kids, f, n, dir)), n);
  }

  lemma RemovedSingle(t: Tree, b: Buffer)
    ensures RemovedIn([t], b) == RemovedOne(t, b)
  {
    assert [t][1..] == [];
  }

  lemma {:induction false} RemovedAppend(a: seq<Tree>, b: seq<Tree>, x: Buffer)
    ensures RemovedIn(a + b, x) == RemovedIn(a, x) + RemovedIn(b, x)
  {
    if a == [] {
      assert a + b == b;
    } else {
      RemovedAppend(a[1..], b, x);
      assert (a + b)[1..] == a[1..] + b && (a + b)[0] == a[0];
      Assoc(RemovedOne(a[0], x), RemovedIn(a[1..], x), RemovedIn(b, x));
    }
  }

  lemma {:induction false} RemovedAdded(kids: seq<Tree>, f: Buffer, n: Buffer, dir: Dir)
    requires (forall k :: k in kids ==> Good(k)) && n !in BufsOf(kids) && n != f
    ensures RemovedIn(AddedIn(kids, f, n, dir), n) == kids
  {
    if kids != [] {
      RemovedAddedOne(kids[0], f, n, dir);
      RemovedAdded(kids[1..], f, n, dir);
      RemovedAppend(AddedOne(kids[0], f, n, dir), AddedIn(kids[1..], f, n, dir), n);
    }
  }

  lemma RemoveUndoesAdd(root: Tree, f: Buffer, n: Buffer, dir: Dir)
    requires GoodRoot(root) && n !in Bufs(root) && n != f
    ensures Removed(Added(root, f, n, dir), n) == root
  {
    RemovedAdded(root.kids, f, n, dir);
  }

  // What the operations do to a list of children, given what they do to each.

  lemma {:induction false} AddedAppend(a: seq<Tree>, b: seq<Tree>, f: Buffer, n: Buffer, dir: Dir)
    ensures AddedIn(a + b, f, n, dir) == AddedIn(a, f, n, dir) + AddedIn(b, f, n, dir)
  {
    if a == [] {
      assert a + b == b;
    } else {
      AddedAppend(a[1..], b, f, n, dir);
      assert (a + b)[1..] == a[1..] + b && (a + b)[0] == a[0];
      Assoc(AddedOne(a[0], f, n, dir), AddedIn(a[1..], f, n, dir), AddedIn(b, f, n, dir));
    }
  }

  lemma {:induction false} AddedEach(ts: seq<Tree>, rs: seq<Tree>, f: Buffer, n: Buffer, dir: Dir)
    requires |ts| == |rs|
    requires forall i {:trigger ts[i]} {:trigger rs[i]} ::
      0 <= i < |ts| ==> AddedOne(ts[i], f, n, dir) == [rs[i]]
    ensures AddedIn(ts, f, n, dir) == rs
  {
    if ts != [] {
      assert AddedOne(ts[0], f, n, dir) == [rs[0]];
      AddedEach(ts[1..], rs[1..], f, n, dir);
    }
  }

  lemma AddedAround(a: seq<Tree>, t: Tree, b: seq<Tree>, f: Buffer, n: Buffer, dir: Dir)
    ensures AddedIn(a + ([t] + b), f, n, dir) ==
      AddedIn(a, f, n, dir) + (AddedOne(t, f, n, dir) + AddedIn(b, f, n, dir))
  {
    hide AddedOne;
    AddedAppend(a, [t] + b, f, n, dir);
    assert ([t] + b)[1..] == b;
  }

  lemma AddedRight(ts: seq<Tree>, rs: seq<Tree>, k: nat, f: Buffer, n: Buffer, dir: Dir)
    requires |ts| + 1 == |rs| && k < |ts|
    requires forall i {:trigger ts[i]} :: k < i < |ts| ==> AddedOne(ts[i], f, n, dir) == [rs[i + 1]]
    ensures AddedIn(ts[k + 1..], f, n, dir) == rs[k + 2..]
  {
    hide AddedOne, AddedIn;
    var right, after := ts[k + 1..], rs[k + 2..];
    forall i | 0 <= i < |right| ensures AddedOne(right[i], f, n, dir) == [after[i]] {
      assert right[i] == ts[k + 1 + i] && after[i] == rs[k + 2 + i];
    }
    AddedEach(right, after, f, n, dir);
  }

  lemma TwoIn<X>(s: seq<X>, k: nat)
    requires k + 1 < |s|
    ensures s[..k] + ([s[k], s[k + 1]] + s[k + 2..]) == s
  {
  }

  lemma AddedAt(ts: seq<Tree>, rs: seq<Tree>, k: nat, f: Buffer, n: Buffer, dir: Dir)
    requires |ts| + 1 == |rs| && k < |ts| && AddedOne(ts[k], f, n, dir) == [rs[k], rs[k + 1]]
    requires forall i {:trigger ts[i]} :: 0 <= i < |ts| && i != k ==>
      AddedOne(ts[i], f, n, dir) == [rs[if i < k then i else i + 1]]
    ensures AddedIn(ts, f, n, dir) == rs
  {
    hide AddedOne, AddedIn;
    AddedRight(ts, rs, k, f, n, dir);
    AddedEach(ts[..k], rs[..k], f, n, dir);
    AddedAround(ts[..k], ts[k], ts[k + 1..], f, n, dir);
    Around(ts, k);
    TwoIn(rs, k);
  }

  lemma {:induction false} RemovedEach(ts: seq<Tree>, rs: seq<Tree>, b: Buffer)
    requires |ts| == |rs|
    requires forall i {:trigger ts[i]} {:trigger rs[i]} ::
      0 <= i < |ts| ==> RemovedOne(ts[i], b) == [rs[i]]
    ensures RemovedIn(ts, b) == rs
  {
    if ts != [] {
      assert RemovedOne(ts[0], b) == [rs[0]];
      RemovedEach(ts[1..], rs[1..], b);
    }
  }

  lemma RemovedAround(a: seq<Tree>, t: Tree, b: seq<Tree>, x: Buffer)
    ensures RemovedIn(a + ([t] + b), x) == RemovedIn(a, x) + (RemovedOne(t, x) + RemovedIn(b, x))
  {
    hide RemovedOne;
    RemovedAppend(a, [t] + b, x);
    assert ([t] + b)[1..] == b;
  }

  lemma RemovedRight(ts: seq<Tree>, rs: seq<Tree>, k: nat, b: Buffer)
    requires |ts| == |rs| + 1 && k < |ts|
    requires forall i {:trigger ts[i]} :: k < i < |ts| ==> RemovedOne(ts[i], b) == [rs[i - 1]]
    ensures RemovedIn(ts[k + 1..], b) == rs[k..]
  {
    hide RemovedOne, RemovedIn;
    var right, after := ts[k + 1..], rs[k..];
    forall i | 0 <= i < |right| ensures RemovedOne(right[i], b) == [after[i]] {
      assert right[i] == ts[k + 1 + i] && after[i] == rs[k + i];
    }
    RemovedEach(right, after, b);
  }

  lemma RemovedAt(ts: seq<Tree>, rs: seq<Tree>, k: nat, b: Buffer)
    requires |ts| == |rs| + 1 && k < |ts| && RemovedOne(ts[k], b) == []
    requires forall i {:trigger ts[i]} :: 0 <= i < |ts| && i != k ==>
      RemovedOne(ts[i], b) == [rs[if i < k then i else i - 1]]
    ensures RemovedIn(ts, b) == rs
  {
    hide RemovedOne, RemovedIn;
    RemovedRight(ts, rs, k, b);
    RemovedEach(ts[..k], rs[..k], b);
    RemovedAround(ts[..k], ts[k], ts[k + 1..], b);
    Around(ts, k);
    assert rs[..k] + ([] + rs[k..]) == rs;
  }

  lemma Around<X>(s: seq<X>, k: nat)
    requires k < |s|
    ensures s[..k] + ([s[k]] + s[k + 1..]) == s
  {
  }

  lemma RemovedCases(t: Tree, b: Buffer)
    ensures t.Leaf? ==> RemovedOne(t, b) == if t.buf == b then [] else [t]
    ensures t.Inner? ==>
      var rest := RemovedIn(t.kids, b);
      RemovedOne(t, b) == if |rest| == 1 then [Raised(t.dir, rest[0])] else [Inner(t.dir, rest)]
  {
  }

  lemma AddedCases(t: Tree, f: Buffer, n: Buffer, dir: Dir)
    ensures t.Leaf? ==> AddedOne(t, f, n, dir) == if t.buf == f then Beside(t, n, dir) else [t]
    ensures t.Inner? ==> AddedOne(t, f, n, dir) == [Inner(t.dir, AddedIn(t.kids, f, n, dir))]
  {
  }

  // Both operations keep the shape.

  lemma {:induction false} GoodAddedIn(kids: seq<Tree>, f: Buffer, n: Buffer, dir: Dir, d: Dir)
    requires Uniform(kids, d) && forall k :: k in kids ==> Good(k)
    ensures var r := AddedIn(kids, f, n, dir); |r| >= |kids| && Uniform(r, d) && forall k :: k in r ==> Good(k)
  {
    if kids != [] {
      GoodAddedOne(kids[0], f, n, dir);
      GoodAddedIn(kids[1..], f, n, dir, d);
    }
  }

  lemma {:induction false} GoodAddedOne(t: Tree, f: Buffer, n: Buffer, dir: Dir)
    requires Good(t)
    ensures var r := AddedOne(t, f, n, dir); |r| >= 1 && Uniform(r, t.dir) && forall k :: k in r ==> Good(k)
  {
    match t
    case Leaf(_, buf) =>
      if buf == f && dir != t.dir {
        var two := [Leaf(dir, n), Leaf(dir, buf)];
        assert Uniform(two, dir);
      }
    case Inner(d, kids) =>
      var dd :| Uniform(kids, dd);
      GoodAddedIn(kids, f, n, dir, dd);
  }

  lemma {:induction false} WithoutMembers(s: seq<Buffer>, b: Buffer)
    ensures forall x :: x in Without(s, b) <==> x in s && x != b
  {
    if s != [] {
      WithoutMembers(s[1..], b);
    }
  }

  lemma {:induction false} GoodHasBuf(t: Tree)
    requires Good(t)
    ensures Bufs(t) != []
  {
    if t.Inner? {
      GoodHasBuf(t.kids[0]);
    }
  }

  // Where the buffer is not, nothing changes.
  lemma {:induction false} RemovedNone(kids: seq<Tree>, b: Buffer)
    requires b !in BufsOf(kids) && forall k :: k in kids ==> Good(k)
    ensures RemovedIn(kids, b) == kids
  {
    if kids != [] {
      RemovedNoneOne(kids[0], b);
      RemovedNone(kids[1..], b);
    }
  }

  lemma {:induction false} RemovedNoneOne(t: Tree, b: Buffer)
    requires b !in Bufs(t) && Good(t)
    ensures RemovedOne(t, b) == [t]
  {
    if t.Inner? {
      RemovedNone(t.kids, b);
    }
  }

  lemma {:induction false} GoodRemovedOne(t: Tree, b: Buffer)
    requires Good(t) && Distinct(Bufs(t))
    ensures var r := RemovedOne(t, b);
      (forall k :: k in r ==> Good(k)) && Uniform(r, t.dir) && (t.Inner? || b !in Bufs(t) ==> |r| == 1) && |r| <= 1
  {
    if t.Inner? {
      var dd :| Uniform(t.kids, dd);
      GoodRemovedIn(t.kids, b, dd);
    }
  }

  lemma DistinctParts(s: seq<Buffer>, u: seq<Buffer>)
    requires Distinct(s + u)
    ensures Distinct(s) && Distinct(u) && forall x :: x in s ==> x !in u
  {
    var w := s + u;
    forall i, j | 0 <= i < j < |s| ensures s[i] != s[j] {
      assert w[i] != w[j];
    }
    forall i, j | 0 <= i < j < |u| ensures u[i] != u[j] {
      assert w[|s| + i] != w[|s| + j];
    }
    forall i, j | 0 <= i < |s| && 0 <= j < |u| ensures s[i] != u[j] {
      assert w[i] != w[|s| + j];
    }
  }

  lemma {:induction false} GoodRemovedIn(kids: seq<Tree>, b: Buffer, d: Dir)
    requires Uniform(kids, d) && (forall k :: k in kids ==> Good(k)) && Distinct(BufsOf(kids))
    ensures var r := RemovedIn(kids, b);
      Uniform(r, d) && (forall k :: k in r ==> Good(k)) && |kids| - 1 <= |r| <= |kids|
  {
    if kids != [] {
      var s, u := Bufs(kids[0]), BufsOf(kids[1..]);
      DistinctParts(s, u);
      GoodRemovedOne(kids[0], b);
      GoodRemovedIn(kids[1..], b, d);
      if kids[0].Leaf? && kids[0].buf == b {
        RemovedNone(kids[1..], b);
      }
    }
  }

  lemma GoodKept(root: Tree, f: Buffer, n: Buffer, dir: Dir, b: Buffer)
    requires GoodRoot(root) && Distinct(Bufs(root))
    ensures GoodRoot(Added(root, f, n, dir)) && GoodRoot(Removed(root, b))
  {
    GoodAddedIn(root.kids, f, n, dir, Horizontal);
    GoodRemovedIn(root.kids, b, Horizontal);
  }

  lemma {:induction false} PutMembers(s: seq<Buffer>, f: Buffer, n: Buffer)
    ensures forall x :: x in PutBefore(s, f, n) <==> x in s || (x == n && f in s)
  {
    if s != [] {
      PutMembers(s[1..], f, n);
    }
  }

  lemma {:induction false} PutDistinct(s: seq<Buffer>, f: Buffer, n: Buffer)
    requires Distinct(s) && n !in s
    ensures Distinct(PutBefore(s, f, n))
  {
    if s != [] {
      PutDistinct(s[1..], f, n);
      PutMembers(s[1..], f, n);
      assert s[0] !in s[1..];
    }
  }

  lemma {:induction false} WithoutDistinct(s: seq<Buffer>, b: Buffer)
    requires Distinct(s)
    ensures Distinct(Without(s, b))
  {
    if s != [] {
      WithoutDistinct(s[1..], b);
      WithoutMembers(s[1..], b);
      assert s[0] !in s[1..];
    }
  }

  lemma {:induction false} KidBufs(kids: seq<Tree>, i: nat)
    requires i < |kids|
    ensures forall b :: b in Bufs(kids[i]) ==> b in BufsOf(kids)
  {
    if i > 0 {
      KidBufs(kids[1..], i - 1);
    }
  }

  lemma {:induction false} BufsOfKids(kids: seq<Tree>, b: Buffer)
    requires b in BufsOf(kids)
    ensures exists i :: 0 <= i < |kids| && b in Bufs(kids[i])
  {
    if b !in Bufs(kids[0]) {
      BufsOfKids(kids[1..], b);
      var i :| 0 <= i < |kids[1..]| && b in Bufs(kids[1..][i]);
      assert kids[1..][i] == kids[i + 1];
    } else {
      assert kids[0] == kids[0];
    }
  }

  lemma SingleBufs(t: Tree)
    ensures BufsOf([t]) == Bufs(t)
  {
    assert [t][1..] == [];
  }

  lemma {:induction false} KidsApart(kids: seq<Tree>, i: nat, j: nat)
    requires i < |kids| && j < |kids| && i != j && Distinct(BufsOf(kids))
    ensures Distinct(Bufs(kids[i])) && forall b :: b in Bufs(kids[i]) ==> b !in Bufs(kids[j])
  {
    DistinctParts(Bufs(kids[0]), BufsOf(kids[1..]));
    if i == 0 {
      KidBufs(kids[1..], j - 1);
    } else if j == 0 {
      KidBufs(kids[1..], i - 1);
      KidDistinct(kids, i);
    } else {
      KidsApart(kids[1..], i - 1, j - 1);
    }
  }

  lemma {:induction false} KidDistinct(kids: seq<Tree>, i: nat)
    requires i < |kids| && Distinct(BufsOf(kids))
    ensures Distinct(Bufs(kids[i]))
  {
    DistinctParts(Bufs(kids[0]), BufsOf(kids[1..]));
    if i > 0 {
      KidDistinct(kids[1..], i - 1);
    }
  }

  lemma {:induction false} WithoutNone(s: seq<Buffer>, b: Buffer)
    requires b !in s
    ensures Without(s, b) == s
  {
    if s != [] {
      WithoutNone(s[1..], b);
    }
  }

  // h is the buffer that the focus goes to when b is removed: the first one of the next sibling,
  // or of the previous one if b is the last child.
  ghost predicate Heir(t: Tree, b: Buffer, h: Buffer) {
    t.Inner? && exists k :: 0 <= k < |t.kids| && (HeirAt(t.kids, k, b, h) || Heir(t.kids[k], b, h))
  }

  ghost predicate HeirAt(kids: seq<Tree>, k: nat, b: Buffer, h: Buffer)
    requires k < |kids|
  {
    && kids[k].Leaf? && kids[k].buf == b && |kids| > 1
    && var s := Bufs(kids[if k + 1 < |kids| then k + 1 else k - 1]); s != [] && h == s[0]
  }
}
