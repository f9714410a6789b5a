/// Where a new window is shown: on the side of the focused one that the direction asks for.
module LayoutPlaces {
  import opened LayoutTree
  import opened LayoutRects
  import opened LayoutLinks

  // To the left or the right means to its left in the same lines, up or down above it in the same columns.
  ghost predicate Beyond(a: Rect, b: Rect, move: Move) {
    match move
    case Left => a.col + a.cols == b.col && a.lnum == b.lnum && a.lines == b.lines
    case Right => a.col + a.cols == b.col && a.lnum == b.lnum && a.lines == b.lines
    case Up => a.lnum + a.lines == b.lnum && a.col == b.col && a.cols == b.cols
    case Down => a.lnum + a.lines == b.lnum && a.col == b.col && a.cols == b.cols
  }

  ghost predicate AreNeighbours(s: seq<Shown>, i: int, n: Buffer, f: Buffer, move: Move) {
    && 0 <= i < |s| - 1 && s[i].buf == n && s[i + 1].buf == f && Beyond(s[i].rect, s[i + 1].rect, move)
    && s[i].rect.lines > 0 && s[i].rect.cols > 0
  }

  ghost predicate Neighbours(s: seq<Shown>, n: Buffer, f: Buffer, move: Move) {
    exists i :: AreNeighbours(s, i, n, f, move)
  }

  lemma NeighboursAppend(a: seq<Shown>, b: seq<Shown>, n: Buffer, f: Buffer, move: Move)
    requires Neighbours(a, n, f, move) || Neighbours(b, n, f, move)
    ensures Neighbours(a + b, n, f, move)
  {
    if i :| AreNeighbours(a, i, n, f, move) {
      assert AreNeighbours(a + b, i, n, f, move);
    } else {
      var i :| AreNeighbours(b, i, n, f, move);
      assert AreNeighbours(a + b, |a| + i, n, f, move);
    }
  }

  // What the first children show stays when there are more.
  lemma {:induction false} NeighboursUpTo(t: Tree, r: Rect, m: nat, k: nat, n: Buffer, f: Buffer, move: Move)
    requires FitsUpTo(t, r, k) && m <= k && Neighbours(RectsUpTo(t, r, m), n, f, move)
    ensures Neighbours(RectsUpTo(t, r, k), n, f, move)
  {
    if m < k {
      NeighboursUpTo(t, r, m, k - 1, n, f, move);
      NeighboursAppend(RectsUpTo(t, r, k - 1),
        Rects(t.kids[k - 1], Part(r, t.kids[k - 1].dir, |t.kids|, k - 1)), n, f, move);
    }
  }

  lemma NeighboursInside(t: Tree, r: Rect, k: nat, n: Buffer, f: Buffer, move: Move)
    requires Fits(t, r) && t.Inner? && k < |t.kids|
    requires Neighbours(Rects(t.kids[k], Part(r, t.kids[k].dir, |t.kids|, k)), n, f, move)
    ensures Neighbours(Rects(t, r), n, f, move)
  {
    NeighboursAppend(RectsUpTo(t, r, k), Rects(t.kids[k], Part(r, t.kids[k].dir, |t.kids|, k)), n, f, move);
    NeighboursUpTo(t, r, k + 1, |t.kids|, n, f, move);
  }

  lemma LeafShown(t: Tree, r: Rect, k: nat)
    requires FitsUpTo(t, r, k + 1) && t.kids[k].Leaf?
    ensures FitsUpTo(t, r, k) && RectsUpTo(t, r, k + 1) ==
      RectsUpTo(t, r, k) + [Shown(t.kids[k].buf, Part(r, t.kids[k].dir, |t.kids|, k))]
  {
  }

  // Two windows that lie side by side.
  lemma SideBySide(t: Tree, r: Rect, k: nat, n: Buffer, f: Buffer, move: Move)
    requires Fits(t, r) && t.Inner? && k + 1 < |t.kids|
    requires t.kids[k] == Leaf(DirOf(move), n) && t.kids[k + 1] == Leaf(DirOf(move), f)
    ensures Neighbours(Rects(t, r), n, f, move)
  {
    var count := |t.kids|;
    var a, b := Part(r, DirOf(move), count, k), Part(r, DirOf(move), count, k + 1);
    SharePositive(r.lines, count);
    SharePositive(r.cols, count);
    NextDivision(Share(r.lines, count), k + 1);
    NextDivision(Share(r.cols, count), k + 1);
    var s := RectsUpTo(t, r, k + 2);
    LeafShown(t, r, k);
    LeafShown(t, r, k + 1);
    assert AreNeighbours(s, |s| - 2, n, f, move);
    NeighboursUpTo(t, r, k + 2, count, n, f, move);
  }

  lemma {:induction false} HasKid(kids: seq<Tree>, b: Buffer) returns (k: nat)
    requires b in BufsOf(kids)
    ensures k < |kids| && b in Bufs(kids[k])
  {
    if b in Bufs(kids[0]) {
      k := 0;
    } else {
      k := HasKid(kids[1..], b);
      k := k + 1;
    }
  }

  // The window that is added is shown right beside the one it was added to.
  lemma {:induction false} ShownBeside(t: Tree, r: Rect, f: Buffer, n: Buffer, move: Move)
    requires t.Inner? && f in Bufs(t) && Fits(Added(t, f, n, DirOf(move)), r)
    ensures Neighbours(Rects(Added(t, f, n, DirOf(move)), r), n, f, move)
  {
    var dir := DirOf(move);
    var k := HasKid(t.kids, f);
    var before, mid, after := AddedIn(t.kids[..k], f, n, dir), AddedOne(t.kids[k], f, n, dir),
      AddedIn(t.kids[k + 1..], f, n, dir);
    AddedAround(t.kids[..k], t.kids[k], t.kids[k + 1..], f, n, dir);
    assert t.kids == t.kids[..k] + ([t.kids[k]] + t.kids[k + 1..]);
    var whole := Added(t, f, n, dir);
    assert whole.kids == before + (mid + after);
    var i := |before|;
    assert whole.kids[i] == mid[0];
    if t.kids[k].Leaf? && dir == t.kids[k].dir {
      assert whole.kids[i + 1] == mid[1];
      SideBySide(whole, r, i, n, f, move);
    } else {
      var part := Part(r, mid[0].dir, |whole.kids|, i);
      if t.kids[k].Leaf? {
        SideBySide(mid[0], part, 0, n, f, move);
      } else {
        ShownBeside(t.kids[k], part, f, n, move);
      }
      NeighboursInside(whole, r, i, n, f, move);
    }
  }
}
