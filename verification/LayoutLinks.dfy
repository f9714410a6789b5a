/// The links of the containers of a layout, as values, and what the steps on them do to the tree.
module LayoutLinks {
  import opened LayoutTree
  import opened LayoutRects

  datatype Move = Up | Down | Left | Right

  datatype Maybe = Nothing | Just(buf: Buffer)

  function DirOf(move: Move): Dir {
    if move.Up? || move.Down? then Horizontal else Vertical
  }

  class Container {
    const dir: Dir
    const root: bool
    var buf: Maybe
    var rect: Rect  // the size and the offset
    var parent: Container?
    var count: nat
    var p: seq<Container>

    constructor (dir: Dir, buf: Maybe, root: bool)
      ensures this.dir == dir && this.buf == buf && this.root == root
      ensures parent == null && count == 0 && p == []
    {
      this.dir, this.buf, this.root := dir, buf, root;
      rect, parent, count, p := Rect(0, 0, 0, 0), null, 0, [];
    }
  }

  // The links of a container. The rank grows from a container to its children.
  datatype Info = Info(kids: seq<Container>, parent: Container, buf: Maybe, rank: nat)

  datatype Forest = Forest(info: map<Container, Info>, root: Container, top: nat)

  ghost predicate NoDup(s: seq<Container>) {
    forall i, j :: 0 <= i < j < |s| ==> s[i] != s[j]
  }

  ghost predicate NodeOk(g: Forest, x: Container)
    requires x in g.info
  {
    var n := g.info[x];
    && (x.root <==> x == g.root) && n.rank <= g.top && n.parent in g.info && NoDup(n.kids)
    && (forall k :: k in n.kids ==> KidOk(g, x, k))
    && (x == g.root ==> n.parent == x && x.dir == Horizontal)
    && (x != g.root ==> x in g.info[n.parent].kids && |n.kids| != 1 && n.buf.Just?)
  }

  ghost predicate KidOk(g: Forest, x: Container, k: Container)
    requires x in g.info
  {
    k in g.info && k != g.root && g.info[k].parent == x && g.info[k].rank > g.info[x].rank
  }

  ghost predicate IsLeaf(g: Forest, x: Container) {
    x in g.info && x != g.root && g.info[x].kids == []
  }

  ghost predicate Linked(g: Forest) {
    && g.root in g.info && (forall x :: x in g.info ==> NodeOk(g, x))
  }

  // Every buffer is shown by one window.
  ghost predicate Single(g: Forest) {
    forall x, y ::
      x in g.info && y in g.info && IsLeaf(g, x) && IsLeaf(g, y) && g.info[x].buf == g.info[y].buf ==> x == y
  }

  // The tree below a container.
  ghost function TreeOf(g: Forest, x: Container): Tree
    requires Linked(g) && x in g.info
    decreases g.top - g.info[x].rank
  {
    var n := g.info[x];
    assert NodeOk(g, x);
    if IsLeaf(g, x) then Leaf(x.dir, n.buf.buf)
    else Inner(x.dir, seq(|n.kids|, i requires 0 <= i < |n.kids| =>
      assert KidOk(g, x, n.kids[i]) && NodeOk(g, n.kids[i]); TreeOf(g, n.kids[i])))
  }

  ghost predicate Views(g: Forest, s: seq<Container>, ts: seq<Tree>)
    requires Linked(g)
  {
    |s| == |ts| && forall i {:trigger s[i]} {:trigger ts[i]} :: 0 <= i < |s| ==>
      s[i] in g.info && ts[i] == TreeOf(g, s[i])
  }

  lemma KidFacts(g: Forest, x: Container, i: nat)
    requires Linked(g) && x in g.info && i < |g.info[x].kids|
    ensures var k := g.info[x].kids[i];
      KidOk(g, x, k) && g.info[k].rank <= g.top && k in g.info[x].kids
  {
    assert NodeOk(g, x);
    var k := g.info[x].kids[i];
    assert KidOk(g, x, k) && NodeOk(g, k);
  }

  lemma KidsViewed(g: Forest, x: Container)
    requires Linked(g) && x in g.info && !IsLeaf(g, x)
    ensures TreeOf(g, x).Inner? && TreeOf(g, x).dir == x.dir && Views(g, g.info[x].kids, TreeOf(g, x).kids)
  {
    forall i | 0 <= i < |g.info[x].kids| ensures g.info[x].kids[i] in g.info {
      KidFacts(g, x, i);
    }
  }

  lemma LeafViewed(g: Forest, x: Container)
    requires Linked(g) && IsLeaf(g, x)
    ensures g.info[x].buf.Just? && TreeOf(g, x) == Leaf(x.dir, g.info[x].buf.buf)
  {
    assert NodeOk(g, x);
  }

  lemma Branching(g: Forest, x: Container)
    requires Linked(g) && x in g.info
    ensures NoDup(g.info[x].kids) && (x != g.root ==> |g.info[x].kids| != 1)
  {
    assert NodeOk(g, x);
  }

  // Adding

  // A new leaf c, with buffer n, before the leaf f, with buffer b, the k-th child of hc.
  ghost predicate GrownBeside(g: Forest, g': Forest, hc: Container, k: nat, f: Container, b: Buffer, c: Container,
                              n: Buffer) {
    && Holds(g, hc, k, f, b) && g'.root == g.root && c.dir == f.dir
    && c !in g.info && IsLeaf(g', c) && g'.info[c].buf == Just(n)
    && (forall y :: y in g.info ==> y in g'.info && g'.info[y].buf == g.info[y].buf)
    && (forall y :: y in g.info && y != hc ==> g'.info[y].kids == g.info[y].kids)
    && g'.info[hc].kids == g.info[hc].kids[..k] + [c] + g.info[hc].kids[k..]
  }

  // The k-th child of hc is the leaf f with buffer b.
  ghost predicate Holds(g: Forest, hc: Container, k: nat, f: Container, b: Buffer) {
    hc in g.info && k < |g.info[hc].kids| && g.info[hc].kids[k] == f && IsLeaf(g, f) && g.info[f].buf == Just(b)
  }

  // The leaf c, with buffer b, is the k-th of two children of hc, and next is the other one.
  ghost predicate Pair(g: Forest, hc: Container, k: nat, c: Container, b: Buffer, next: Container) {
    Holds(g, hc, k, c, b) && |g.info[hc].kids| == 2 && g.info[hc].kids[1 - k] == next && next in g.info
  }

  // What adding makes of the trees of these containers, except f.
  ghost predicate AddedTo(g: Forest, g': Forest, s: seq<Container>, f: Container, b: Buffer, n: Buffer, dir: Dir)
    requires Linked(g) && Linked(g')
  {
    forall i :: 0 <= i < |s| && s[i] != f ==>
      s[i] in g.info && s[i] in g'.info && AddedOne(TreeOf(g, s[i]), b, n, dir) == [TreeOf(g', s[i])]
  }

  // Adding beside the focused window is what the tree says.
  lemma {:induction false} AddedBeside(g: Forest, g': Forest, hc: Container, k: nat, f: Container, b: Buffer,
                                       c: Container, n: Buffer, x: Container)
    requires Linked(g) && Linked(g') && Single(g) && GrownBeside(g, g', hc, k, f, b, c, n) && x in g.info && x != f
    ensures x in g'.info && AddedOne(TreeOf(g, x), b, n, c.dir) == [TreeOf(g', x)]
    decreases g.top - g.info[x].rank
  {
    hide Linked, NodeOk, TreeOf, AddedOne, AddedIn;
    KidFacts(g, hc, k);
    AddedCases(TreeOf(g, x), b, n, c.dir);
    if IsLeaf(g, x) {
      LeafViewed(g, x);
      LeafViewed(g', x);
    } else {
      KidsViewed(g, x);
      KidsViewed(g', x);
      var s, ts, rs := g.info[x].kids, TreeOf(g, x).kids, TreeOf(g', x).kids;
      forall i | 0 <= i < |s| && s[i] != f
        ensures s[i] in g.info && s[i] in g'.info && AddedOne(TreeOf(g, s[i]), b, n, c.dir) == [TreeOf(g', s[i])]
      {
        KidFacts(g, x, i);
        AddedBeside(g, g', hc, k, f, b, c, n, s[i]);
      }
      Branching(g, x);
      if x == hc {
        BesideHere(g, g', hc, k, f, b, c, n, ts, rs);
      } else {
        forall i | 0 <= i < |s| ensures s[i] != f {
          KidFacts(g, x, i);
        }
        AddedEach(ts, rs, b, n, c.dir);
      }
    }
  }

  lemma BesideHere(g: Forest, g': Forest, hc: Container, k: nat, f: Container, b: Buffer, c: Container, n: Buffer,
                   ts: seq<Tree>, rs: seq<Tree>)
    requires Linked(g) && Linked(g') && GrownBeside(g, g', hc, k, f, b, c, n) && NoDup(g.info[hc].kids)
    requires Views(g, g.info[hc].kids, ts) && Views(g', g'.info[hc].kids, rs)
    requires AddedTo(g, g', g.info[hc].kids, f, b, n, c.dir) && f != hc
    ensures AddedIn(ts, b, n, c.dir) == rs
  {
    hide Linked, NodeOk, TreeOf, AddedOne, AddedIn;
    var s, s' := g.info[hc].kids, g'.info[hc].kids;
    LeafViewed(g, f);
    LeafViewed(g', f);
    LeafViewed(g', c);
    assert s'[k] == c && s'[k + 1] == f && ts[k] == TreeOf(g, s[k]);
    AddedCases(ts[k], b, n, c.dir);
    forall i | 0 <= i < |s| && i != k ensures AddedOne(ts[i], b, n, c.dir) == [rs[if i < k then i else i + 1]] {
      assert s'[if i < k then i else i + 1] == s[i] != f;
    }
    AddedAt(ts, rs, k, b, n, c.dir);
  }

  // The leaf f becomes the container of the new leaf c and of sub, which takes over its buffer.
  ghost predicate GrownSplit(g: Forest, g': Forest, f: Container, b: Buffer, c: Container, sub: Container, n: Buffer) {
    && IsLeaf(g, f) && g'.root == g.root && c.dir == sub.dir != f.dir && g.info[f].buf == Just(b)
    && IsLeaf(g', c) && g'.info[c].buf == Just(n) && IsLeaf(g', sub) && g'.info[sub].buf == Just(b)
    && f in g'.info && g'.info[f].kids == [c, sub]
    && forall y :: y in g.info && y != f ==>
         y in g'.info && g'.info[y].kids == g.info[y].kids && g'.info[y].buf == g.info[y].buf
  }

  lemma {:induction false} AddedSplit(g: Forest, g': Forest, f: Container, b: Buffer, c: Container, sub: Container,
                                      n: Buffer,
                                      x: Container)
    requires Linked(g) && Linked(g') && Single(g) && GrownSplit(g, g', f, b, c, sub, n) && x in g.info
    ensures x in g'.info && AddedOne(TreeOf(g, x), b, n, c.dir) == [TreeOf(g', x)]
    decreases g.top - g.info[x].rank
  {
    hide Linked, NodeOk, TreeOf, AddedOne, AddedIn;
    LeafViewed(g, f);
    AddedCases(TreeOf(g, x), b, n, c.dir);
    if x == f {
      KidsViewed(g', f);
      LeafViewed(g', c);
      LeafViewed(g', sub);
      assert TreeOf(g', f).kids == [TreeOf(g', c), TreeOf(g', sub)];
    } else if IsLeaf(g, x) {
      LeafViewed(g, x);
      LeafViewed(g', x);
    } else {
      KidsViewed(g, x);
      KidsViewed(g', x);
      var s, ts, rs := g.info[x].kids, TreeOf(g, x).kids, TreeOf(g', x).kids;
      forall i | 0 <= i < |s| ensures AddedOne(ts[i], b, n, c.dir) == [rs[i]] {
        KidFacts(g, x, i);
        AddedSplit(g, g', f, b, c, sub, n, s[i]);
      }
      AddedEach(ts, rs, b, n, c.dir);
    }
  }

  // Removing

  // What removing makes of the trees of these containers, except c.
  ghost predicate RemovedFrom(g: Forest, g': Forest, s: seq<Container>, c: Container, b: Buffer)
    requires Linked(g) && Linked(g')
  {
    forall i :: 0 <= i < |s| && s[i] != c ==>
      s[i] in g.info && s[i] in g'.info && RemovedOne(TreeOf(g, s[i]), b) == [TreeOf(g', s[i])]
  }

  // The tree of x after b was removed.
  ghost predicate Pruned(g: Forest, g': Forest, x: Container, b: Buffer)
    requires Linked(g) && Linked(g') && x in g.info && x in g'.info
  {
    if x == g.root then TreeOf(g, x).Inner? && TreeOf(g', x) == Removed(TreeOf(g, x), b)
    else RemovedOne(TreeOf(g, x), b) == [TreeOf(g', x)]
  }

  // The leaf c, the k-th child of hc, is gone; its container stays.
  ghost predicate Shrunk(g: Forest, g': Forest, hc: Container, k: nat, c: Container, b: Buffer) {
    && Holds(g, hc, k, c, b) && g'.root == g.root && (hc != g.root ==> |g.info[hc].kids| != 2)
    && (forall y :: y in g.info && y != c ==> y in g'.info && g'.info[y].buf == g.info[y].buf)
    && (forall y :: y in g.info && y != c && y != hc ==> g'.info[y].kids == g.info[y].kids)
    && hc in g'.info && g'.info[hc].kids == g.info[hc].kids[..k] + g.info[hc].kids[k + 1..]
  }

  lemma {:induction false} RemovedLeaf(g: Forest, g': Forest, hc: Container, k: nat, c: Container, b: Buffer,
                                       x: Container)
    requires Linked(g) && Linked(g') && Single(g) && Shrunk(g, g', hc, k, c, b) && x in g.info && x != c
    ensures x in g'.info && Pruned(g, g', x, b)
    decreases g.top - g.info[x].rank
  {
    hide Linked, NodeOk, TreeOf, RemovedOne, RemovedIn;
    Branching(g, x);
    RemovedCases(TreeOf(g, x), b);
    if IsLeaf(g, x) {
      LeafViewed(g, x);
      LeafViewed(g', x);
    } else {
      KidsViewed(g, x);
      var s, ts := g.info[x].kids, TreeOf(g, x).kids;
      forall i | 0 <= i < |s| && s[i] != c
        ensures s[i] in g.info && s[i] in g'.info && RemovedOne(TreeOf(g, s[i]), b) == [TreeOf(g', s[i])]
      {
        KidFacts(g, x, i);
        RemovedLeaf(g, g', hc, k, c, b, s[i]);
      }
      if x == hc {
        ShrunkHere(g, g', hc, k, c, b, ts);
      } else {
        KidsViewed(g', x);
        KidFacts(g, hc, k);
        forall i | 0 <= i < |s| ensures s[i] != c {
          KidFacts(g, x, i);
        }
        RemovedEach(ts, TreeOf(g', x).kids, b);
      }
    }
  }

  lemma ShrunkHere(g: Forest, g': Forest, hc: Container, k: nat, c: Container, b: Buffer, ts: seq<Tree>)
    requires Linked(g) && Linked(g') && Shrunk(g, g', hc, k, c, b) && NoDup(g.info[hc].kids)
    requires Views(g, g.info[hc].kids, ts) && (hc != g.root ==> |g.info[hc].kids| != 1)
    requires RemovedFrom(g, g', g.info[hc].kids, c, b)
    ensures TreeOf(g', hc).Inner? && TreeOf(g', hc).dir == hc.dir
    ensures RemovedIn(ts, b) == TreeOf(g', hc).kids
    ensures hc != g.root ==> |TreeOf(g', hc).kids| != 1
  {
    hide Linked, NodeOk, TreeOf, RemovedOne, RemovedIn;
    var s, s' := g.info[hc].kids, g'.info[hc].kids;
    KidsViewed(g', hc);
    LeafViewed(g, c);
    var rs := TreeOf(g', hc).kids;
    assert ts[k] == TreeOf(g, s[k]);
    RemovedCases(ts[k], b);
    forall i | 0 <= i < |s| && i != k ensures RemovedOne(ts[i], b) == [rs[if i < k then i else i - 1]] {
      assert s'[if i < k then i else i - 1] == s[i] != c;
    }
    RemovedAt(ts, rs, k, b);
  }

  // The leaf c, the k-th of two children of hc, is gone, and next, the other one, gives hc its buffer and its children.
  ghost predicate Collapsed(g: Forest, g': Forest, hc: Container, k: nat, c: Container, b: Buffer, next: Container) {
    && Pair(g, hc, k, c, b, next)
    && g'.root == g.root != hc
    && (forall y :: y in g.info && y != c && y != next && y != hc ==>
         y in g'.info && g'.info[y].kids == g.info[y].kids && g'.info[y].buf == g.info[y].buf)
    && hc in g'.info && g'.info[hc].kids == g.info[next].kids && g'.info[hc].buf == g.info[next].buf
  }

  lemma {:induction false} RemovedCollapse(g: Forest, g': Forest, hc: Container, k: nat, c: Container, b: Buffer,
                                           next: Container,
                                           x: Container)
    requires Linked(g) && Linked(g') && Single(g) && Collapsed(g, g', hc, k, c, b, next)
    requires x in g.info && x != c && x != next
    ensures x in g'.info && Pruned(g, g', x, b)
    decreases g.top - g.info[x].rank
  {
    hide Linked, NodeOk, TreeOf, RemovedOne, RemovedIn;
    KidFacts(g, hc, k);
    KidFacts(g, hc, 1 - k);
    var s := if x == hc then g.info[next].kids else g.info[x].kids;
    forall i | 0 <= i < |s|
      ensures s[i] in g.info && s[i] in g'.info && s[i] != c && RemovedOne(TreeOf(g, s[i]), b) == [TreeOf(g', s[i])]
    {
      KidFacts(g, if x == hc then next else x, i);
      RemovedCollapse(g, g', hc, k, c, b, next, s[i]);
    }
    if x == hc {
      CollapsedHere(g, g', hc, k, c, b, next);
    } else if IsLeaf(g, x) {
      LeafViewed(g, x);
      LeafViewed(g', x);
      RemovedCases(TreeOf(g, x), b);
    } else {
      RemovedCases(TreeOf(g, x), b);
      Branching(g, x);
      KidsViewed(g, x);
      KidsViewed(g', x);
      RemovedEach(TreeOf(g, x).kids, TreeOf(g', x).kids, b);
    }
  }

  lemma CollapsedHere(g: Forest, g': Forest, hc: Container, k: nat, c: Container, b: Buffer, next: Container)
    requires Linked(g) && Linked(g') && Single(g) && Collapsed(g, g', hc, k, c, b, next)
    requires c !in g.info[next].kids && RemovedFrom(g, g', g.info[next].kids, c, b)
    ensures RemovedOne(TreeOf(g, hc), b) == [TreeOf(g', hc)]
  {
    hide Linked, NodeOk, TreeOf, RemovedOne, RemovedIn;
    KidFacts(g, hc, 1 - k);
    KidsViewed(g, hc);
    LeafViewed(g, c);
    var ts := TreeOf(g, hc).kids;
    assert ts[k] == TreeOf(g, c) && ts[1 - k] == TreeOf(g, next);
    Branching(g, hc);
    RemovedCases(TreeOf(g, hc), b);
    RemovedCases(ts[k], b);
    var t := RaisedNext(g, g', hc, k, c, b, next);
    RemovedAt(ts, [t], k, b);
  }

  lemma RaisedNext(g: Forest, g': Forest, hc: Container, k: nat, c: Container, b: Buffer, next: Container)
    returns (t: Tree)
    requires Linked(g) && Linked(g') && Single(g) && Collapsed(g, g', hc, k, c, b, next) && next != g.root && next != c
    requires c !in g.info[next].kids && RemovedFrom(g, g', g.info[next].kids, c, b)
    ensures RemovedOne(TreeOf(g, next), b) == [t] && Raised(hc.dir, t) == TreeOf(g', hc)
  {
    hide Linked, NodeOk, TreeOf, RemovedOne, RemovedIn;
    Branching(g, next);
    RemovedCases(TreeOf(g, next), b);
    if IsLeaf(g, next) {
      LeafViewed(g, next);
      LeafViewed(g', hc);
      t := TreeOf(g, next);
    } else {
      KidsViewed(g, next);
      KidsViewed(g', hc);
      var s, ts, rs := g.info[next].kids, TreeOf(g, next).kids, TreeOf(g', hc).kids;
      forall i | 0 <= i < |ts| ensures RemovedOne(ts[i], b) == [rs[i]] {
        assert s[i] in s;
      }
      RemovedEach(ts, rs, b);
      t := Inner(next.dir, rs);
    }
  }

  // The steps on the links

  // A new leaf c at place k of the children of hc.
  ghost function Planted(g: Forest, hc: Container, k: nat, c: Container, n: Buffer): Forest
    requires hc in g.info && k <= |g.info[hc].kids|
  {
    var h := g.info[hc];
    Forest(g.info[hc := h.(kids := h.kids[..k] + [c] + h.kids[k..])][c := Info([], hc, Just(n), h.rank + 1)],
           g.root, Max(g.top, h.rank + 1))
  }

  lemma PlantedLinked(g: Forest, hc: Container, k: nat, c: Container, n: Buffer)
    requires Linked(g) && hc in g.info && k <= |g.info[hc].kids| && c !in g.info && !c.root
    requires hc == g.root || g.info[hc].kids != []
    ensures Linked(Planted(g, hc, k, c, n)) && IsLeaf(Planted(g, hc, k, c, n), c)
  {
    hide NodeOk;
    var g' := Planted(g, hc, k, c, n);
    forall x | x in g'.info ensures NodeOk(g', x) {
      if x == c {
        PlantedLeaf(g, hc, k, c, n);
      } else {
        assert NodeOk(g, x);
        PlantedNode(g, hc, k, c, n, x);
      }
    }
  }

  lemma PlantedLeaf(g: Forest, hc: Container, k: nat, c: Container, n: Buffer)
    requires hc in g.info && k <= |g.info[hc].kids| && c !in g.info && !c.root && g.root in g.info
    ensures NodeOk(Planted(g, hc, k, c, n), c)
  {
    assert Planted(g, hc, k, c, n).info[hc].kids[k] == c;
  }

  lemma PlantedNode(g: Forest, hc: Container, k: nat, c: Container, n: Buffer, x: Container)
    requires x in g.info && hc in g.info && k <= |g.info[hc].kids| && c !in g.info && !c.root && g.root in g.info
    requires NodeOk(g, x) && (hc == g.root || g.info[hc].kids != [])
    ensures NodeOk(Planted(g, hc, k, c, n), x)
  {
    var g' := Planted(g, hc, k, c, n);
    var s, s' := g.info[x].kids, g'.info[x].kids;
    assert forall y :: y in s ==> KidOk(g, x, y) && y != c;
    forall y | y in s' && y != c ensures KidOk(g', x, y) {
      assert KidOk(g, x, y);
    }
    if x == hc {
      PutIn(s, k, c);
    }
    var p := g.info[x].parent;
    if p == hc {
      assert forall y :: y in g.info[hc].kids ==> y in g'.info[hc].kids;
    }
  }

  lemma PutIn(s: seq<Container>, k: nat, c: Container)
    requires NoDup(s) && k <= |s| && c !in s
    ensures NoDup(s[..k] + [c] + s[k..])
  {
  }

  lemma TakeOut(s: seq<Container>, k: nat)
    requires NoDup(s) && k < |s|
    ensures var r := s[..k] + s[k + 1..]; NoDup(r) && forall y :: y in r <==> y in s && y != s[k]
  {
    var r := s[..k] + s[k + 1..];
    forall y | y in s && y != s[k] ensures y in r {
      var i :| 0 <= i < |s| && s[i] == y;
      assert r[if i < k then i else i - 1] == y;
    }
  }

  // The leaf f gets the children c and sub.
  ghost function Forked(g: Forest, f: Container, c: Container, sub: Container, n: Buffer): Forest
    requires f in g.info
  {
    var h := g.info[f];
    Forest(g.info[f := h.(kids := [c, sub])][sub := Info([], f, h.buf, h.rank + 1)]
      [c := Info([], f, Just(n), h.rank + 1)],
           g.root, Max(g.top, h.rank + 1))
  }

  lemma ForkedLinked(g: Forest, f: Container, c: Container, sub: Container, n: Buffer)
    requires Linked(g) && IsLeaf(g, f) && c !in g.info && sub !in g.info && c != sub && !c.root && !sub.root
    requires g.info[f].buf.Just?
    ensures var g' := Forked(g, f, c, sub, n); Linked(g') && IsLeaf(g', c) && IsLeaf(g', sub)
  {
    hide NodeOk;
    var g' := Forked(g, f, c, sub, n);
    forall x | x in g'.info ensures NodeOk(g', x) {
      if x == c || x == sub {
        ForkedLeaves(g, f, c, sub, n);
      } else {
        assert NodeOk(g, x);
        ForkedNode(g, f, c, sub, n, x);
      }
    }
  }

  lemma ForkedLeaves(g: Forest, f: Container, c: Container, sub: Container, n: Buffer)
    requires IsLeaf(g, f) && c !in g.info && sub !in g.info && c != sub && !c.root && !sub.root && g.root in g.info
    requires g.info[f].buf.Just?
    ensures NodeOk(Forked(g, f, c, sub, n), c) && NodeOk(Forked(g, f, c, sub, n), sub)
  {
    assert Forked(g, f, c, sub, n).info[f].kids == [c, sub];
  }

  lemma ForkedNode(g: Forest, f: Container, c: Container, sub: Container, n: Buffer, x: Container)
    requires IsLeaf(g, f) && c !in g.info && sub !in g.info && c != sub && !c.root && !sub.root
    requires x in g.info && NodeOk(g, x) && g.root in g.info
    ensures NodeOk(Forked(g, f, c, sub, n), x)
  {
    var g' := Forked(g, f, c, sub, n);
    forall y | y in g'.info[x].kids && x != f ensures KidOk(g', x, y) {
      assert KidOk(g, x, y);
    }
  }

  // The k-th child of hc is gone.
  ghost function Dropped(g: Forest, hc: Container, k: nat): Forest
    requires hc in g.info && k < |g.info[hc].kids| && g.info[hc].kids[k] != hc
  {
    var h := g.info[hc];
    g.(info := (g.info - {h.kids[k]})[hc := h.(kids := h.kids[..k] + h.kids[k + 1..])])
  }

  lemma DroppedLinked(g: Forest, hc: Container, k: nat, c: Container, b: Buffer)
    requires Linked(g) && Holds(g, hc, k, c, b) && (hc != g.root ==> |g.info[hc].kids| != 2)
    ensures c != hc && Linked(Dropped(g, hc, k))
  {
    hide NodeOk;
    KidFacts(g, hc, k);
    var g' := Dropped(g, hc, k);
    Branching(g, hc);
    TakeOut(g.info[hc].kids, k);
    forall x | x in g'.info ensures NodeOk(g', x) {
      assert NodeOk(g, x);
      DroppedNode(g, hc, k, c, b, x);
    }
  }

  lemma DroppedNode(g: Forest, hc: Container, k: nat, c: Container, b: Buffer, x: Container)
    requires Holds(g, hc, k, c, b) && KidOk(g, hc, c) && c != hc && (hc != g.root ==> |g.info[hc].kids| != 2)
    requires x in g.info && x != c && NodeOk(g, x)
    requires var s := g.info[hc].kids;
      var r := s[..k] + s[k + 1..];
      NoDup(r) && forall y :: y in r <==> y in s && y != c
    ensures NodeOk(Dropped(g, hc, k), x)
  {
    var g' := Dropped(g, hc, k);
    forall y | y in g'.info[x].kids ensures KidOk(g', x, y) {
      assert KidOk(g, x, y);
      assert y != c;
    }
    assert g.info[x].parent != c;
  }

  // The child c of hc is gone, and hc takes over what next, the only other one, has.
  ghost function Folded(g: Forest, hc: Container, c: Container, next: Container): Forest
    requires hc in g.info && next in g.info
  {
    var n := g.info[next];
    g.(info := map x | x in g.info && x != c && x != next ::
         if x == hc then g.info[hc].(kids := n.kids, buf := n.buf)
         else if x in n.kids then g.info[x].(parent := hc) else g.info[x])
  }

  lemma FoldedLinked(g: Forest, hc: Container, k: nat, c: Container, b: Buffer, next: Container)
    requires Linked(g) && Pair(g, hc, k, c, b, next)
    requires hc != g.root
    ensures hc in g.info && next in g.info && hc != c && hc != next && Linked(Folded(g, hc, c, next))
  {
    hide NodeOk, Linked;
    KidFacts(g, hc, k);
    KidFacts(g, hc, 1 - k);
    var g' := Folded(g, hc, c, next);
    Branching(g, hc);
    NodeIs(g, hc);
    NodeIs(g, next);
    RootIn(g);
    forall x | x in g'.info ensures NodeOk(g', x) {
      NodeIs(g, x);
      FoldedNode(g, hc, k, c, b, next, x);
    }
    IsLinked(g');
  }

  lemma NodeIs(g: Forest, x: Container)
    requires Linked(g) && x in g.info
    ensures NodeOk(g, x)
  {
  }

  lemma RootIn(g: Forest)
    requires Linked(g)
    ensures g.root in g.info
  {
  }

  lemma IsLinked(g: Forest)
    requires g.root in g.info && forall x :: x in g.info ==> NodeOk(g, x)
    ensures Linked(g)
  {
  }

  lemma FoldedNode(g: Forest, hc: Container, k: nat, c: Container, b: Buffer, next: Container, x: Container)
    requires Pair(g, hc, k, c, b, next) && hc != g.root
    requires KidOk(g, hc, c) && KidOk(g, hc, next) && c != next && NodeOk(g, hc) && NodeOk(g, next)
    requires x in g.info && x != c && x != next && NodeOk(g, x)
    ensures NodeOk(Folded(g, hc, c, next), x)
  {
    var g' := Folded(g, hc, c, next);
    forall y | y in g'.info[x].kids ensures KidOk(g', x, y) {
      assert KidOk(g, if x == hc then next else x, y);
    }
    assert forall y :: y in g.info[hc].kids ==> y == c || y == next;
    if x in g.info[next].kids {
      assert KidOk(g, next, x);
    }
  }

  // What every step keeps

  // A container keeps the buffer it had as a leaf. That buffer is below it, or no longer shown at all.
  ghost predicate StaleOk(g: Forest, x: Container)
    requires Linked(g) && x in g.info
  {
    x != g.root && !IsLeaf(g, x) && g.info[x].buf.Just? ==>
      var b := g.info[x].buf.buf;
      b in Bufs(TreeOf(g, x)) || b !in Bufs(TreeOf(g, g.root))
  }

  ghost predicate Named(g: Forest, used: set<Buffer>) {
    forall x :: x in g.info && x != g.root ==> g.info[x].buf.Just? && g.info[x].buf.buf in used
  }

  ghost predicate StaleAll(g: Forest)
    requires Linked(g)
  {
    forall x :: x in g.info ==> StaleOk(g, x)
  }

  // The tree has its shape, and shows every buffer once.
  ghost predicate Shaped(t: Tree) {
    GoodRoot(t) && Distinct(Bufs(t))
  }

  ghost predicate Sound(g: Forest, used: set<Buffer>) {
    Linked(g) && Single(g) && Named(g, used) && Shaped(TreeOf(g, g.root)) && StaleAll(g)
  }

  lemma {:induction false} BufsUsed(g: Forest, used: set<Buffer>, x: Container, b: Buffer)
    requires Linked(g) && Named(g, used) && x in g.info && b in Bufs(TreeOf(g, x))
    ensures b in used
    decreases g.top - g.info[x].rank
  {
    hide Linked, NodeOk, TreeOf;
    if IsLeaf(g, x) {
      LeafViewed(g, x);
    } else {
      KidsViewed(g, x);
      BufsOfKids(TreeOf(g, x).kids, b);
      var i :| 0 <= i < |TreeOf(g, x).kids| && b in Bufs(TreeOf(g, x).kids[i]);
      KidFacts(g, x, i);
      BufsUsed(g, used, g.info[x].kids[i], b);
    }
  }

  // Every container that was none of the leaves has the added buffer, if it had the focused one.
  ghost predicate AddedAll(g: Forest, g': Forest, b: Buffer, n: Buffer, dir: Dir)
    requires Linked(g) && Linked(g')
  {
    forall x :: x in g.info && !IsLeaf(g, x) ==>
      && x in g'.info && AddedOne(TreeOf(g, x), b, n, dir) == [TreeOf(g', x)] && g'.info[x].buf == g.info[x].buf
  }

  lemma AddedBufs(t: Tree, t': Tree, b: Buffer, n: Buffer, dir: Dir)
    requires AddedOne(t, b, n, dir) == [t']
    ensures forall x :: x in Bufs(t') <==> x in Bufs(t) || (x == n && b in Bufs(t))
    ensures Distinct(Bufs(t)) && n !in Bufs(t) ==> Distinct(Bufs(t'))
    ensures t.Inner? ==> t' == Added(t, b, n, dir)
  {
    BufsAddedOne(t, b, n, dir);
    SingleBufs(t');
    PutMembers(Bufs(t), b, n);
    if Distinct(Bufs(t)) && n !in Bufs(t) {
      PutDistinct(Bufs(t), b, n);
    }
  }

  // A leaf that has become a container shows its buffer below.
  ghost predicate NewBelow(g: Forest, g': Forest)
    requires Linked(g')
  {
    forall x :: x in g'.info && !IsLeaf(g', x) && (x !in g.info || IsLeaf(g, x)) ==>
      g'.info[x].buf.Just? ==> g'.info[x].buf.buf in Bufs(TreeOf(g', x))
  }

  lemma ShapedAdded(t: Tree, t': Tree, b: Buffer, n: Buffer, dir: Dir)
    requires Shaped(t) && n !in Bufs(t) && AddedOne(t, b, n, dir) == [t']
    ensures Shaped(t') && t' == Added(t, b, n, dir)
  {
    AddedBufs(t, t', b, n, dir);
    GoodKept(t, b, n, dir, b);
  }

  lemma StaleAdded(g: Forest, g': Forest, used: set<Buffer>, b: Buffer, n: Buffer, dir: Dir)
    requires Linked(g) && Linked(g') && Named(g, used) && StaleAll(g) && g.root in g.info && !IsLeaf(g, g.root)
    requires g'.root == g.root && AddedAll(g, g', b, n, dir) && n !in used && NewBelow(g, g')
    ensures StaleAll(g')
  {
    hide Linked, TreeOf, AddedOne, Bufs, IsLeaf;
    AddedBufs(TreeOf(g, g.root), TreeOf(g', g.root), b, n, dir);
    forall x | x in g'.info ensures StaleOk(g', x) {
      if x != g'.root && !IsLeaf(g', x) && x in g.info && !IsLeaf(g, x) {
        assert StaleOk(g, x);
        AddedBufs(TreeOf(g, x), TreeOf(g', x), b, n, dir);
      }
    }
  }

  lemma SoundAdded(g: Forest, g': Forest, used: set<Buffer>, b: Buffer, n: Buffer, dir: Dir)
    requires Sound(g, used) && Linked(g') && g'.root == g.root && AddedAll(g, g', b, n, dir) && n !in used
    requires Single(g') && Named(g', used + {n}) && NewBelow(g, g')
    ensures AddedStep(g, g', used, b, n, dir)
  {
    hide Linked, TreeOf, AddedOne, Shaped, Bufs, Added, IsLeaf, Single, NewBelow, StaleAll;
    InRoot(g);
    KidsViewed(g, g.root);
    if n in Bufs(TreeOf(g, g.root)) {
      BufsUsed(g, used, g.root, n);
    }
    ShapedAdded(TreeOf(g, g.root), TreeOf(g', g.root), b, n, dir);
    StaleAdded(g, g', used, b, n, dir);
  }

  lemma InRoot(g: Forest)
    requires Linked(g)
    ensures g.root in g.info && !IsLeaf(g, g.root)
  {
  }

  // Every container that is left and no leaf has lost the removed buffer, and no other.
  ghost predicate PrunedAll(g: Forest, g': Forest, b: Buffer)
    requires Linked(g) && Linked(g')
  {
    forall x :: x in g'.info && !IsLeaf(g', x) ==> x in g.info && !IsLeaf(g, x) && Pruned(g, g', x, b)
  }

  lemma PrunedBufs(g: Forest, g': Forest, x: Container, b: Buffer)
    requires Linked(g) && Linked(g') && x in g.info && x in g'.info && Pruned(g, g', x, b)
    ensures forall y :: y in Bufs(TreeOf(g', x)) <==> y in Bufs(TreeOf(g, x)) && y != b
    ensures Distinct(Bufs(TreeOf(g, x))) ==> Distinct(Bufs(TreeOf(g', x)))
  {
    hide Linked, NodeOk, TreeOf, RemovedOne, Distinct;
    var t, t' := TreeOf(g, x), TreeOf(g', x);
    if x == g.root {
      BufsRemoved(t.kids, b);
    } else {
      BufsRemovedOne(t, b);
      SingleBufs(t');
    }
    WithoutMembers(Bufs(t), b);
    if Distinct(Bufs(t)) {
      WithoutDistinct(Bufs(t), b);
    }
  }

  // A buffer that the container may keep.
  ghost predicate KeptStale(g: Forest, x: Container, buf: Maybe)
    requires Linked(g) && x in g.info
  {
    x != g.root && buf.Just? ==> buf.buf in Bufs(TreeOf(g, x)) || buf.buf !in Bufs(TreeOf(g, g.root))
  }

  ghost predicate KeptAll(g: Forest, g': Forest)
    requires Linked(g)
  {
    forall x :: x in g'.info && !IsLeaf(g', x) ==> x in g.info && KeptStale(g, x, g'.info[x].buf)
  }

  lemma StaleRemoved(g: Forest, g': Forest, b: Buffer)
    requires Linked(g) && Linked(g') && g'.root == g.root && PrunedAll(g, g', b) && KeptAll(g, g')
    requires g.root in g'.info && !IsLeaf(g', g.root)
    ensures StaleAll(g')
  {
    hide Linked, TreeOf, RemovedOne, Removed, Bufs, IsLeaf;
    PrunedBufs(g, g', g.root, b);
    forall x | x in g'.info ensures StaleOk(g', x) {
      if x != g'.root && !IsLeaf(g', x) {
        assert KeptStale(g, x, g'.info[x].buf);
        PrunedBufs(g, g', x, b);
      }
    }
  }

  lemma ShapedRemoved(g: Forest, g': Forest, b: Buffer)
    requires Linked(g) && Linked(g') && g.root in g.info && g.root in g'.info && g'.root == g.root
    requires Shaped(TreeOf(g, g.root)) && Pruned(g, g', g.root, b)
    ensures Shaped(TreeOf(g', g.root)) && TreeOf(g, g.root).Inner?
    ensures TreeOf(g', g.root) == Removed(TreeOf(g, g.root), b)
  {
    hide Linked, TreeOf, RemovedOne, Removed, Bufs, IsLeaf, GoodRoot, Distinct;
    PrunedBufs(g, g', g.root, b);
    GoodKept(TreeOf(g, g.root), b, b, Horizontal, b);
  }

  lemma SoundRemoved(g: Forest, g': Forest, used: set<Buffer>, b: Buffer)
    requires Sound(g, used) && Linked(g') && g'.root == g.root && PrunedAll(g, g', b)
    requires Single(g') && Named(g', used) && KeptAll(g, g')
    ensures RemovedStep(g, g', used, b)
  {
    hide Linked, TreeOf, RemovedOne, Removed, Shaped, Bufs, IsLeaf, Single, KeptAll, StaleAll;
    InRoot(g);
    InRoot(g');
    ShapedRemoved(g, g', b);
    StaleRemoved(g, g', b);
  }

  // Each step on the links is the operation on the tree, and keeps all of this.

  ghost predicate AddedStep(g: Forest, g': Forest, used: set<Buffer>, b: Buffer, n: Buffer, dir: Dir) {
    && Sound(g, used) && Sound(g', used + {n}) && g'.root == g.root && TreeOf(g, g.root).Inner?
    && TreeOf(g', g'.root) == Added(TreeOf(g, g.root), b, n, dir)
  }

  ghost predicate RemovedStep(g: Forest, g': Forest, used: set<Buffer>, b: Buffer) {
    && Sound(g, used) && Sound(g', used) && g'.root == g.root && TreeOf(g, g.root).Inner?
    && TreeOf(g', g'.root) == Removed(TreeOf(g, g.root), b)
  }

  lemma PlantedGrown(g: Forest, hc: Container, k: nat, f: Container, b: Buffer, c: Container, n: Buffer)
    requires Holds(g, hc, k, f, b) && c !in g.info && c.dir == f.dir && c != g.root
    ensures GrownBeside(g, Planted(g, hc, k, c, n), hc, k, f, b, c, n)
  {
  }

  lemma PlantedSingle(g: Forest, used: set<Buffer>, hc: Container, k: nat, c: Container, n: Buffer)
    requires Single(g) && Named(g, used) && hc in g.info && k <= |g.info[hc].kids| && c !in g.info && n !in used
    requires hc == g.root || g.info[hc].kids != []
    ensures Single(Planted(g, hc, k, c, n)) && Named(Planted(g, hc, k, c, n), used + {n})
  {
    var g' := Planted(g, hc, k, c, n);
    assert forall x :: x in g.info && IsLeaf(g', x) ==> IsLeaf(g, x);
  }

  lemma SoundIs(g: Forest, used: set<Buffer>)
    requires Sound(g, used)
    ensures Linked(g) && Single(g) && Named(g, used) && Shaped(TreeOf(g, g.root)) && StaleAll(g)
  {
  }

  lemma IsSound(g: Forest, used: set<Buffer>)
    requires Linked(g) && Single(g) && Named(g, used) && Shaped(TreeOf(g, g.root)) && StaleAll(g)
    ensures Sound(g, used)
  {
  }

  lemma LeafIn(g: Forest, x: Container)
    requires IsLeaf(g, x)
    ensures x in g.info && x != g.root && g.info[x].kids == []
  {
  }

  lemma HeldIn(g: Forest, hc: Container, k: nat, f: Container, b: Buffer)
    requires Holds(g, hc, k, f, b)
    ensures hc in g.info && k < |g.info[hc].kids| && g.info[hc].kids != [] && g.info[hc].kids[k] == f && IsLeaf(g, f)
  {
  }

  lemma PlantedAll(g: Forest, g': Forest, hc: Container, k: nat, f: Container, b: Buffer, c: Container, n: Buffer)
    requires Linked(g) && Linked(g') && Single(g) && GrownBeside(g, g', hc, k, f, b, c, n)
    requires g' == Planted(g, hc, k, c, n)
    ensures AddedAll(g, g', b, n, c.dir) && NewBelow(g, g')
  {
    hide Linked, TreeOf, AddedOne, Single, Bufs;
    forall x | x in g.info && !IsLeaf(g, x)
      ensures x in g'.info && AddedOne(TreeOf(g, x), b, n, c.dir) == [TreeOf(g', x)]
    {
      AddedBeside(g, g', hc, k, f, b, c, n, x);
    }
  }

  lemma PlantSound(g: Forest, used: set<Buffer>, hc: Container, k: nat, f: Container, b: Buffer, c: Container,
                   n: Buffer)
    requires Sound(g, used) && Holds(g, hc, k, f, b) && c !in g.info && !c.root && c.dir == f.dir && n !in used
    ensures var g' := Planted(g, hc, k, c, n); AddedStep(g, g', used, b, n, c.dir) && IsLeaf(g', c)
  {
    hide *;
    HeldIn(g, hc, k, f, b);
    var g' := Planted(g, hc, k, c, n);
    SoundIs(g, used);
    InRoot(g);
    PlantedLinked(g, hc, k, c, n);
    PlantedGrown(g, hc, k, f, b, c, n);
    PlantedSingle(g, used, hc, k, c, n);
    PlantedAll(g, g', hc, k, f, b, c, n);
    SoundAdded(g, g', used, b, n, c.dir);
  }

  lemma FirstTree(g: Forest, g': Forest, c: Container, n: Buffer)
    requires Linked(g) && Linked(g') && g.info[g.root].kids == [] && c !in g.info && IsLeaf(g', c)
    requires g' == Planted(g, g.root, 0, c, n) && c.dir == Horizontal && forall x :: x in g.info ==> x == g.root
    ensures g'.root == g.root && TreeOf(g', g'.root) == Inner(Horizontal, [Leaf(Horizontal, n)])
    ensures Shaped(TreeOf(g', g'.root)) && forall x :: x in g'.info ==> x == g'.root || x == c
  {
    hide TreeOf, Linked, Shaped, IsLeaf;
    InRoot(g');
    KidsViewed(g', g.root);
    LeafViewed(g', c);
    RootDir(g);
    assert g'.info[g.root].kids == [c];
    OneShaped(TreeOf(g', g.root), n);
  }

  lemma RootDir(g: Forest)
    requires Linked(g)
    ensures g.root.dir == Horizontal && g.root in g.info
  {
    assert NodeOk(g, g.root);
  }

  lemma OneShaped(t: Tree, n: Buffer)
    requires t == Inner(Horizontal, [Leaf(Horizontal, n)])
    ensures Shaped(t)
  {
    SingleBufs(Leaf(Horizontal, n));
    assert Bufs(t) == [n];
  }

  lemma FirstStale(g': Forest, c: Container)
    requires Linked(g') && IsLeaf(g', c) && forall x :: x in g'.info ==> x == g'.root || x == c
    ensures StaleAll(g')
  {
  }

  // The first window.
  lemma FirstSound(g: Forest, used: set<Buffer>, c: Container, n: Buffer)
    requires Sound(g, used) && g.info[g.root].kids == [] && c !in g.info && !c.root && c.dir == Horizontal && n !in used
    ensures var g' := Planted(g, g.root, 0, c, n);
      && Sound(g', used + {n}) && IsLeaf(g', c) && TreeOf(g', g'.root) == Inner(Horizontal, [Leaf(Horizontal, n)])
  {
    hide *;
    SoundIs(g, used);
    InRoot(g);
    var g' := Planted(g, g.root, 0, c, n);
    PlantedLinked(g, g.root, 0, c, n);
    PlantedSingle(g, used, g.root, 0, c, n);
    Childless(g);
    FirstTree(g, g', c, n);
    FirstStale(g', c);
    IsSound(g', used + {n});
  }

  // A root without children is all there is.
  lemma {:induction false} Childless(g: Forest)
    requires Linked(g) && g.info[g.root].kids == []
    ensures forall x :: x in g.info ==> x == g.root
  {
    if x :| x in g.info && x != g.root {
      RootAbove(g, x);
    }
  }

  lemma {:induction false} RootAbove(g: Forest, x: Container)
    requires Linked(g) && x in g.info && x != g.root
    ensures g.info[g.root].kids != []
    decreases g.info[x].rank
  {
    assert NodeOk(g, x);
    var p := g.info[x].parent;
    assert NodeOk(g, p) && KidOk(g, p, x);
    if p != g.root {
      RootAbove(g, p);
    }
  }

  lemma ForkedGrown(g: Forest, f: Container, b: Buffer, c: Container, sub: Container, n: Buffer)
    requires IsLeaf(g, f) && g.info[f].buf == Just(b) && c !in g.info && sub !in g.info && c != sub && f != g.root
    requires c.dir == sub.dir != f.dir && c != g.root && sub != g.root
    ensures GrownSplit(g, Forked(g, f, c, sub, n), f, b, c, sub, n)
  {
  }

  lemma ForkedSingle(g: Forest, used: set<Buffer>, f: Container, c: Container, sub: Container, n: Buffer)
    requires Single(g) && Named(g, used) && IsLeaf(g, f) && c !in g.info && sub !in g.info && c != sub && n !in used
    ensures Single(Forked(g, f, c, sub, n)) && Named(Forked(g, f, c, sub, n), used + {n})
  {
    var g' := Forked(g, f, c, sub, n);
    assert forall x :: x in g.info && IsLeaf(g', x) ==> IsLeaf(g, x) && x != f;
  }

  lemma ForkedAll(g: Forest, g': Forest, f: Container, b: Buffer, c: Container, sub: Container, n: Buffer)
    requires Linked(g) && Linked(g') && Single(g) && GrownSplit(g, g', f, b, c, sub, n)
    requires g' == Forked(g, f, c, sub, n)
    ensures AddedAll(g, g', b, n, c.dir) && NewBelow(g, g')
  {
    hide Linked, TreeOf, AddedOne, Single, Bufs;
    forall x | x in g.info ensures x in g'.info && AddedOne(TreeOf(g, x), b, n, c.dir) == [TreeOf(g', x)] {
      AddedSplit(g, g', f, b, c, sub, n, x);
    }
    LeafViewed(g, f);
    AddedBufs(TreeOf(g, f), TreeOf(g', f), b, n, c.dir);
    LeafBuf(Leaf(f.dir, b));
  }

  lemma LeafBuf(t: Tree)
    requires t.Leaf?
    ensures t.buf in Bufs(t)
  {
  }

  lemma ForkSound(g: Forest, used: set<Buffer>, f: Container, b: Buffer, c: Container, sub: Container, n: Buffer)
    requires Sound(g, used) && IsLeaf(g, f) && g.info[f].buf == Just(b) && n !in used
    requires c !in g.info && sub !in g.info && c != sub && !c.root && !sub.root && c.dir == sub.dir != f.dir
    ensures var g' := Forked(g, f, c, sub, n); AddedStep(g, g', used, b, n, c.dir) && IsLeaf(g', c)
  {
    hide *;
    SoundIs(g, used);
    InRoot(g);
    LeafIn(g, f);
    var g' := Forked(g, f, c, sub, n);
    ForkedLinked(g, f, c, sub, n);
    ForkedGrown(g, f, b, c, sub, n);
    ForkedSingle(g, used, f, c, sub, n);
    ForkedAll(g, g', f, b, c, sub, n);
    SoundAdded(g, g', used, b, n, c.dir);
  }

  lemma DroppedShrunk(g: Forest, hc: Container, k: nat, c: Container, b: Buffer)
    requires Holds(g, hc, k, c, b) && c != hc && (hc != g.root ==> |g.info[hc].kids| != 2)
    ensures Shrunk(g, Dropped(g, hc, k), hc, k, c, b)
  {
  }

  lemma DroppedAll(g: Forest, g': Forest, hc: Container, k: nat, c: Container, b: Buffer)
    requires Linked(g) && Linked(g') && Single(g) && Shrunk(g, g', hc, k, c, b) && c != hc && g' == Dropped(g, hc, k)
    requires hc == g.root || |g.info[hc].kids| != 2
    ensures PrunedAll(g, g', b)
    ensures SameLeaves(g, g')
  {
    hide *;
    ShrunkHolds(g, g', hc, k, c, b);
    Branching(g, hc);
    DroppedLeaves(g, g', hc, k, c, b);
    LeavesSame(g, g');
    forall x | x in g'.info && !IsLeaf(g', x) ensures Pruned(g, g', x, b) {
      RemovedLeaf(g, g', hc, k, c, b, x);
    }
    PrunedEach(g, g', b);
  }

  lemma LeavesSame(g: Forest, g': Forest)
    requires SameLeaves(g, g')
    ensures forall x :: x in g'.info ==> x in g.info && (IsLeaf(g', x) <==> IsLeaf(g, x))
  {
  }

  lemma ShrunkHolds(g: Forest, g': Forest, hc: Container, k: nat, c: Container, b: Buffer)
    requires Shrunk(g, g', hc, k, c, b)
    ensures hc in g.info && |g.info[hc].kids| > 0 && g'.root == g.root
  {
  }

  lemma PrunedEach(g: Forest, g': Forest, b: Buffer)
    requires Linked(g) && Linked(g')
    requires forall x :: x in g'.info && !IsLeaf(g', x) ==> x in g.info && !IsLeaf(g, x) && Pruned(g, g', x, b)
    ensures PrunedAll(g, g', b)
  {
    hide Linked, Pruned, IsLeaf;
  }

  lemma DroppedLeaves(g: Forest, g': Forest, hc: Container, k: nat, c: Container, b: Buffer)
    requires Shrunk(g, g', hc, k, c, b) && c != hc && g' == Dropped(g, hc, k)
    requires hc == g.root || |g.info[hc].kids| > 2
    ensures SameLeaves(g, g') && c !in g'.info
  {
    assert |g'.info[hc].kids| == |g.info[hc].kids| - 1;
  }

  lemma DroppedSingle(g: Forest, g': Forest, used: set<Buffer>)
    requires Single(g) && Named(g, used) && g'.root == g.root
    requires SameLeaves(g, g')
    ensures Single(g') && Named(g', used)
  {
    hide IsLeaf;
  }

  lemma DropSound(g: Forest, used: set<Buffer>, hc: Container, k: nat, c: Container, b: Buffer)
    requires Sound(g, used) && Holds(g, hc, k, c, b) && (hc != g.root ==> |g.info[hc].kids| != 2)
    ensures c != hc
    ensures RemovedStep(g, Dropped(g, hc, k), used, b)
  {
    hide *;
    SoundIs(g, used);
    HeldIn(g, hc, k, c, b);
    DroppedLinked(g, hc, k, c, b);
    var g' := Dropped(g, hc, k);
    DroppedShrunk(g, hc, k, c, b);
    Branching(g, hc);
    DroppedAll(g, g', hc, k, c, b);
    DroppedSingle(g, g', used);
    KeptSame(g, g');
    SoundRemoved(g, g', used, b);
  }

  // The containers that are left have the buffer they had, and none becomes a leaf.
  ghost predicate SameLeaves(g: Forest, g': Forest) {
    forall x :: x in g'.info ==> x in g.info && (IsLeaf(g', x) <==> IsLeaf(g, x)) && g'.info[x].buf == g.info[x].buf
  }

  lemma KeptSame(g: Forest, g': Forest)
    requires Linked(g) && StaleAll(g)
    requires SameLeaves(g, g')
    ensures KeptAll(g, g')
  {
    hide Linked, TreeOf, Bufs, IsLeaf;
    forall x | x in g'.info && !IsLeaf(g', x) ensures KeptStale(g, x, g'.info[x].buf) {
      assert StaleOk(g, x);
    }
  }

  lemma FoldedCollapsed(g: Forest, hc: Container, k: nat, c: Container, b: Buffer, next: Container)
    requires Pair(g, hc, k, c, b, next)
    requires hc != g.root && c != hc && next != hc
    ensures Collapsed(g, Folded(g, hc, c, next), hc, k, c, b, next)
  {
  }

  lemma FoldedSingle(g: Forest, used: set<Buffer>, hc: Container, k: nat, c: Container, b: Buffer, next: Container)
    requires Pair(g, hc, k, c, b, next)
    requires hc != g.root && c != hc && next != hc && next != g.root && Single(g) && Named(g, used)
    ensures Single(Folded(g, hc, c, next)) && Named(Folded(g, hc, c, next), used)
    ensures var g' := Folded(g, hc, c, next);
      forall x :: x in g'.info ==>
        x in g.info && x != c && x != next
        && (x != hc ==> (IsLeaf(g', x) <==> IsLeaf(g, x)) && g'.info[x].buf == g.info[x].buf)
  {
    var g' := Folded(g, hc, c, next);
    var before := (x: Container) => if x == hc then next else x;
    assert forall x :: x in g'.info && IsLeaf(g', x) ==>
      IsLeaf(g, before(x)) && g'.info[x].buf == g.info[before(x)].buf;
  }

  lemma FoldKept(g: Forest, hc: Container, k: nat, c: Container, b: Buffer, next: Container)
    requires Linked(g) && StaleAll(g) && Pair(g, hc, k, c, b, next)
    requires KidOk(g, hc, next)
    ensures !IsLeaf(g, next) ==> KeptStale(g, hc, g.info[next].buf)
  {
    hide Linked, TreeOf, Bufs;
    if !IsLeaf(g, next) {
      assert StaleOk(g, next);
      KidsViewed(g, hc);
      KidBufs(TreeOf(g, hc).kids, 1 - k);
      BufsOfInner(TreeOf(g, hc));
    }
  }

  lemma BufsOfInner(t: Tree)
    requires t.Inner?
    ensures Bufs(t) == BufsOf(t.kids)
  {
  }

  lemma PairHolds(g: Forest, hc: Container, k: nat, c: Container, b: Buffer, next: Container)
    requires Pair(g, hc, k, c, b, next)
    ensures Holds(g, hc, k, c, b) && next in g.info && hc in g.info && k < |g.info[hc].kids| == 2
    ensures g.info[hc].kids[1 - k] == next
  {
  }

  lemma NextKid(g: Forest, hc: Container, next: Container)
    requires hc in g.info && KidOk(g, hc, next)
    ensures next != g.root && next in g.info
  {
  }

  lemma FoldedAll(g: Forest, g': Forest, hc: Container, k: nat, c: Container, b: Buffer, next: Container)
    requires Linked(g) && Linked(g') && Single(g) && StaleAll(g) && Collapsed(g, g', hc, k, c, b, next)
    requires KidOk(g, hc, next)
    requires g' == Folded(g, hc, c, next) && c != hc && next != hc
    requires forall x :: x in g'.info ==>
      x in g.info && x != c && x != next
        && (x != hc ==> (IsLeaf(g', x) <==> IsLeaf(g, x)) && g'.info[x].buf == g.info[x].buf)
    ensures PrunedAll(g, g', b) && KeptAll(g, g')
  {
    hide *;
    HeldTwo(g, g', hc, k, c, b, next);
    PairHolds(g, hc, k, c, b, next);
    FoldKept(g, hc, k, c, b, next);
    NextKid(g, hc, next);
    FoldedInner(g, g', hc, k, c, b, next);
    StaleEach(g);
    forall x | x in g'.info && !IsLeaf(g', x)
      ensures !IsLeaf(g, x) && Pruned(g, g', x, b) && KeptStale(g, x, g'.info[x].buf)
    {
      RemovedCollapse(g, g', hc, k, c, b, next, x);
      if x != hc {
        KeptOne(g, x);
      }
    }
    PrunedEach(g, g', b);
    KeptEach(g, g');
  }

  lemma HeldTwo(g: Forest, g': Forest, hc: Container, k: nat, c: Container, b: Buffer, next: Container)
    requires Collapsed(g, g', hc, k, c, b, next)
    ensures Pair(g, hc, k, c, b, next)
    ensures g'.root == g.root
  {
  }

  lemma StaleEach(g: Forest)
    requires Linked(g) && StaleAll(g)
    ensures forall x :: x in g.info ==> StaleOk(g, x)
  {
  }

  lemma KeptEach(g: Forest, g': Forest)
    requires Linked(g) && forall x :: x in g'.info && !IsLeaf(g', x) ==> x in g.info && KeptStale(g, x, g'.info[x].buf)
    ensures KeptAll(g, g')
  {
    hide Linked, KeptStale, IsLeaf;
  }

  lemma FoldedInner(g: Forest, g': Forest, hc: Container, k: nat, c: Container, b: Buffer, next: Container)
    requires Collapsed(g, g', hc, k, c, b, next) && hc in g.info && next in g.info && next != g.root
    ensures hc in g'.info && g'.info[hc].buf == g.info[next].buf
    ensures !IsLeaf(g, hc) && (!IsLeaf(g', hc) ==> !IsLeaf(g, next))
  {
  }

  lemma FoldSound(g: Forest, used: set<Buffer>, hc: Container, k: nat, c: Container, b: Buffer, next: Container)
    requires Pair(g, hc, k, c, b, next) && hc != g.root && Sound(g, used)
    ensures c != hc && next != hc
    ensures RemovedStep(g, Folded(g, hc, c, next), used, b)
  {
    hide *;
    SoundIs(g, used);
    PairHolds(g, hc, k, c, b, next);
    HeldIn(g, hc, k, c, b);
    FoldedLinked(g, hc, k, c, b, next);
    KidFacts(g, hc, 1 - k);
    NextKid(g, hc, next);
    var g' := Folded(g, hc, c, next);
    FoldedCollapsed(g, hc, k, c, b, next);
    FoldedSingle(g, used, hc, k, c, b, next);
    FoldedAll(g, g', hc, k, c, b, next);
    SoundRemoved(g, g', used, b);
  }

  lemma KeptOne(g: Forest, x: Container)
    requires Linked(g) && x in g.info && !IsLeaf(g, x) && StaleOk(g, x)
    ensures KeptStale(g, x, g.info[x].buf)
  {
  }

  // The containers themselves

  ghost predicate Mirror(g: Forest, x: Container)
    requires x in g.info
    reads x`p, x`count, x`buf
  {
    x.p == g.info[x].kids && x.count == |x.p| && x.buf == g.info[x].buf
  }

  // The lists, counts and buffers are those of the links.
  ghost predicate Listed(g: Forest)
    reads g.info.Keys`p, g.info.Keys`count, g.info.Keys`buf
  {
    forall x :: x in g.info ==> Mirror(g, x)
  }

  ghost predicate Parented(g: Forest)
    reads g.info.Keys`parent
  {
    forall x :: x in g.info ==> x.parent == g.info[x].parent
  }

  // y is x or below x.
  ghost predicate Under(g: Forest, y: Container, x: Container)
    requires Linked(g) && y in g.info
    decreases g.info[y].rank
  {
    y == x || (y != g.root && (UpIsLess(g, y); Under(g, g.info[y].parent, x)))
  }

  lemma UpIsLess(g: Forest, y: Container)
    requires Linked(g) && y in g.info && y != g.root
    ensures g.info[y].parent in g.info && g.info[g.info[y].parent].rank < g.info[y].rank
    ensures y in g.info[g.info[y].parent].kids
  {
    assert NodeOk(g, y);
    assert NodeOk(g, g.info[y].parent);
    assert KidOk(g, g.info[y].parent, y);
  }

  lemma {:induction false} UnderRank(g: Forest, y: Container, x: Container)
    requires Linked(g) && y in g.info && x in g.info && Under(g, y, x)
    ensures y == x || g.info[x].rank < g.info[y].rank
    decreases g.info[y].rank
  {
    hide Linked;
    if y != x {
      UpIsLess(g, y);
      UnderRank(g, g.info[y].parent, x);
    }
  }

  // The containers below x.
  ghost function Below(g: Forest, x: Container): set<Container>
    requires Linked(g)
  {
    set y | y in g.info && y != x && Under(g, y, x)
  }

  lemma {:induction false} UnderBoth(g: Forest, y: Container, a: Container, b: Container)
    requires Linked(g) && y in g.info && a in g.info && b in g.info && Under(g, y, a) && Under(g, y, b)
    ensures Under(g, a, b) || Under(g, b, a)
    decreases g.info[y].rank
  {
    hide Linked;
    if y != a && y != b {
      UpIsLess(g, y);
      UnderBoth(g, g.info[y].parent, a, b);
    }
  }

  // What is below different children is apart.
  lemma KidsBelow(g: Forest, c: Container, i: nat, j: nat)
    requires Linked(g) && c in g.info && i < |g.info[c].kids| && j < |g.info[c].kids| && i != j
    ensures var a, b := g.info[c].kids[i], g.info[c].kids[j];
      a in g.info && b in g.info && a !in Below(g, b) && a != b && Below(g, a) !! Below(g, b)
  {
    hide Linked;
    var a, b := g.info[c].kids[i], g.info[c].kids[j];
    Branching(g, c);
    KidFacts(g, c, i);
    KidFacts(g, c, j);
    NotUnder(g, c, a, b);
    NotUnder(g, c, b, a);
    forall y | y in Below(g, a) && y in Below(g, b) ensures false {
      UnderBoth(g, y, a, b);
    }
  }

  lemma NotUnder(g: Forest, c: Container, a: Container, b: Container)
    requires Linked(g) && c in g.info && KidOk(g, c, a) && KidOk(g, c, b) && a != b
    ensures !Under(g, a, b)
  {
    hide Linked;
    if Under(g, a, b) {
      UpIsLess(g, a);
      UnderRank(g, c, b);
    }
  }

  // What is below a container is its children and what is below them.
  lemma BelowKids(g: Forest, c: Container, i: nat)
    requires Linked(g) && c in g.info && i < |g.info[c].kids|
    ensures var k := g.info[c].kids[i];
      k in g.info && k in Below(g, c) && Below(g, k) <= Below(g, c) && c !in Below(g, k)
  {
    hide Linked;
    KidFacts(g, c, i);
    var k := g.info[c].kids[i];
    UpIsLess(g, k);
    assert Under(g, c, c);
    forall y | y in Below(g, k) ensures y in Below(g, c) {
      UnderTrans(g, y, k, c);
      UnderRank(g, y, k);
    }
    if c in Below(g, k) {
      UnderRank(g, c, k);
    }
  }

  lemma {:induction false} UnderTrans(g: Forest, y: Container, k: Container, c: Container)
    requires Linked(g) && y in g.info && k in g.info && Under(g, y, k) && Under(g, k, c)
    ensures Under(g, y, c)
    decreases g.info[y].rank
  {
    hide Linked;
    if y != k {
      UpIsLess(g, y);
      UnderTrans(g, g.info[y].parent, k, c);
    }
  }

  lemma {:induction false} BelowSome(g: Forest, c: Container, y: Container) returns (i: nat)
    requires Linked(g) && c in g.info && y in Below(g, c)
    ensures i < |g.info[c].kids| && (y == g.info[c].kids[i] || y in Below(g, g.info[c].kids[i]))
    decreases g.info[y].rank
  {
    hide Linked;
    UpIsLess(g, y);
    var p := g.info[y].parent;
    if p == c {
      i :| 0 <= i < |g.info[c].kids| && g.info[c].kids[i] == y;
    } else {
      i := BelowSome(g, c, p);
      var k := g.info[c].kids[i];
      assert Under(g, p, k) by {
        assert p == k || p in Below(g, k);
      }
    }
  }
}
