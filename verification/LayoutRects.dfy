/// The rectangles of a tiling layout: they never overlap, and when exactly they cover the screen.
module LayoutRects {
  import opened Arith
  import opened LayoutTree

  datatype Rect = Rect(lnum: int, col: int, lines: nat, cols: nat)

  datatype Shown = Shown(buf: Buffer, rect: Rect)

  predicate Within(r: Rect, lnum: int, col: int) {
    r.lnum <= lnum < r.lnum + r.lines && r.col <= col < r.col + r.cols
  }

  function Max(a: nat, b: nat): nat {
    if a > b then a else b
  }

  // The divisions of a container of this size, and what is left of it: the remainder is taken by
  // the size of a division and not by the number of children.
  function Share(size: nat, count: nat): nat
    requires count > 0
  {
    size / count
  }

  function Rest(size: nat, count: nat): nat
    requires count > 0 && Share(size, count) > 0
  {
    size % Share(size, count)
  }

  // The i-th of count children of a container.
  function Part(r: Rect, dir: Dir, count: nat, i: nat): Rect
    requires i < count && r.lines >= count && r.cols >= count
  {
    SharePositive(r.lines, count);
    SharePositive(r.cols, count);
    var lines, cols := Share(r.lines, count), Share(r.cols, count);
    var last := i == count - 1;
    if dir == Horizontal then
      Rect(r.lnum + lines * i, r.col, lines + if last then Rest(r.lines, count) else 0, r.cols)
    else
      Rect(r.lnum, r.col + cols * i, r.lines, cols + if last then Rest(r.cols, count) else 0)
  }

  lemma SharePositive(size: nat, count: nat)
    requires 0 < count <= size
    ensures Share(size, count) > 0
  {
  }

  predicate Roomy(t: Tree, r: Rect)
    requires t.Inner?
  {
    r.lines >= Max(|t.kids|, 1) && r.cols >= Max(|t.kids|, 1)
  }

  // The update divides by the size of a division, which must not be 0.
  predicate Fits(t: Tree, r: Rect) {
    t.Inner? ==>
      && Roomy(t, r)
      && forall i :: 0 <= i < |t.kids| ==> Fits(t.kids[i], Part(r, t.kids[i].dir, |t.kids|, i))
  }

  predicate FitsUpTo(t: Tree, r: Rect, n: nat) {
    && t.Inner? && n <= |t.kids| && Roomy(t, r)
    && forall i :: 0 <= i < n ==> Fits(t.kids[i], Part(r, t.kids[i].dir, |t.kids|, i))
  }

  // What the update shows: each buffer with its rectangle.
  function Rects(t: Tree, r: Rect): seq<Shown>
    requires Fits(t, r)
    decreases t, 0
  {
    match t
    case Leaf(_, buf) => [Shown(buf, r)]
    case Inner(_, kids) => RectsUpTo(t, r, |kids|)
  }

  function RectsUpTo(t: Tree, r: Rect, n: nat): seq<Shown>
    requires FitsUpTo(t, r, n)
    decreases t, 0, n
  {
    if n == 0 then []
    else RectsUpTo(t, r, n - 1) + Rects(t.kids[n - 1], Part(r, t.kids[n - 1].dir, |t.kids|, n - 1))
  }

  // The number of rectangles that have this cell.
  function Covers(s: seq<Shown>, lnum: int, col: int): nat {
    if s == [] then 0 else Covers(s[..|s| - 1], lnum, col) + if Within(s[|s| - 1].rect, lnum, col) then 1 else 0
  }

  // In every container the remainder is smaller than a division.
  predicate Exact(t: Tree, r: Rect)
    requires Fits(t, r)
  {
    t.Inner? ==>
      && t.kids != []
      && (if t.kids[0].dir == Horizontal then r.lines % |t.kids| < r.lines / |t.kids|
          else r.cols % |t.kids| < r.cols / |t.kids|)
      && forall i :: 0 <= i < |t.kids| ==> Exact(t.kids[i], Part(r, t.kids[i].dir, |t.kids|, i))
  }

  lemma {:induction false} CoversAppend(a: seq<Shown>, b: seq<Shown>, lnum: int, col: int)
    ensures Covers(a + b, lnum, col) == Covers(a, lnum, col) + Covers(b, lnum, col)
  {
    if b == [] {
      assert a + b == a;
    } else {
      CoversAppend(a, b[..|b| - 1], lnum, col);
      assert (a + b)[..|a + b| - 1] == a + b[..|b| - 1];
    }
  }

  // The part of a container that its first n children take.
  function Taken(r: Rect, dir: Dir, count: nat, n: nat): Rect
    requires n <= count && 0 < count <= r.lines && count <= r.cols
  {
    SharePositive(r.lines, count);
    SharePositive(r.cols, count);
    var lines, cols := Share(r.lines, count), Share(r.cols, count);
    if dir == Horizontal then r.(lines := lines * n + if n == count then Rest(r.lines, count) else 0)
    else r.(cols := cols * n + if n == count then Rest(r.cols, count) else 0)
  }

  // What the divisions and the remainder come to.
  lemma ShareTotal(size: nat, count: nat)
    requires 0 < count <= size
    ensures var total := Share(size, count) * count + Rest(size, count);
      total <= size && (total == size <==> size % count < size / count)
  {
    var q, m := size / count, size % count;
    Shares(size, count);
    ModAddMultiple(m, count, q);
    LessIfSmall(m, q);
  }

  lemma Shares(size: nat, count: nat)
    requires 0 < count <= size
    ensures size / count > 0 && size == (size / count) * count + size % count
  {
  }

  lemma LessIfSmall(m: nat, q: nat)
    requires q > 0
    ensures m % q <= m && (m % q == m <==> m < q)
  {
  }

  lemma ModAddMultiple(m: nat, k: nat, q: nat)
    requires q > 0
    ensures (q * k + m) % q == m % q
  {
    var p := m / q;
    assert m == q * p + m % q;
    assert (k + p) * q == q * k + q * p;
    Quotient(q * k + m, q, k + p);
  }

  lemma NextDivision(size: nat, n: nat)
    requires n > 0
    ensures size * n == size * (n - 1) + size && size * (n - 1) >= 0
  {
  }

  lemma TakenGrows(r: Rect, dir: Dir, count: nat, n: nat, lnum: int, col: int)
    requires 0 < n <= count <= r.lines && count <= r.cols
    ensures Within(Taken(r, dir, count, n), lnum, col) <==>
      Within(Taken(r, dir, count, n - 1), lnum, col) || Within(Part(r, dir, count, n - 1), lnum, col)
    ensures !(Within(Taken(r, dir, count, n - 1), lnum, col) && Within(Part(r, dir, count, n - 1), lnum, col))
  {
    hide Share, Rest;
    SharePositive(r.lines, count);
    SharePositive(r.cols, count);
    NextDivision(Share(r.lines, count), n);
    NextDivision(Share(r.cols, count), n);
  }

  lemma TakenInside(r: Rect, dir: Dir, count: nat, lnum: int, col: int)
    requires 0 < count <= r.lines && count <= r.cols && Within(Taken(r, dir, count, count), lnum, col)
    ensures Within(r, lnum, col)
  {
    ShareTotal(r.lines, count);
    ShareTotal(r.cols, count);
  }

  // No cell is in two rectangles, and no rectangle reaches out of the screen.
  lemma {:induction false} NeverOverlap(t: Tree, r: Rect, lnum: int, col: int)
    requires Fits(t, r) && (Good(t) || GoodRoot(t))
    ensures Covers(Rects(t, r), lnum, col) <= if Within(r, lnum, col) then 1 else 0
    decreases t, 0
  {
    match t
    case Leaf(_, buf) =>
      assert Rects(t, r)[..0] == [];
    case Inner(_, kids) =>
      if kids != [] {
        var dir := kids[0].dir;
        OverlapUpTo(t, r, dir, |kids|, lnum, col);
        if Within(Taken(r, dir, |kids|, |kids|), lnum, col) {
          TakenInside(r, dir, |kids|, lnum, col);
        }
      }
  }

  lemma {:induction false} OverlapUpTo(t: Tree, r: Rect, dir: Dir, n: nat, lnum: int, col: int)
    requires Fits(t, r) && t.Inner? && n <= |t.kids| && t.kids != []
    requires Uniform(t.kids, dir) && forall k :: k in t.kids ==> Good(k)
    ensures Covers(RectsUpTo(t, r, n), lnum, col) <= if Within(Taken(r, dir, |t.kids|, n), lnum, col) then 1 else 0
    decreases t, 0, n
  {
    if n > 0 {
      var k := t.kids[n - 1];
      OverlapUpTo(t, r, dir, n - 1, lnum, col);
      NeverOverlap(k, Part(r, k.dir, |t.kids|, n - 1), lnum, col);
      CoversAppend(RectsUpTo(t, r, n - 1), Rects(k, Part(r, k.dir, |t.kids|, n - 1)), lnum, col);
      TakenGrows(r, dir, |t.kids|, n, lnum, col);
    }
  }

  ghost predicate Tiled(t: Tree, r: Rect)
    requires Fits(t, r)
  {
    forall lnum, col :: Within(r, lnum, col) ==> Covers(Rects(t, r), lnum, col) == 1
  }

  // Exact containers are covered.
  lemma {:induction false} ExactTiles(t: Tree, r: Rect, lnum: int, col: int)
    requires Fits(t, r) && (Good(t) || GoodRoot(t)) && Exact(t, r) && Within(r, lnum, col)
    ensures Covers(Rects(t, r), lnum, col) == 1
    decreases t, 0
  {
    match t
    case Leaf(_, buf) =>
      assert Rects(t, r)[..0] == [];
    case Inner(_, kids) =>
      var dir := kids[0].dir;
      ShareTotal(r.lines, |kids|);
      ShareTotal(r.cols, |kids|);
      assert Taken(r, dir, |kids|, |kids|) == r;
      TilesUpTo(t, r, dir, |kids|, lnum, col);
      NeverOverlap(t, r, lnum, col);
  }

  lemma {:induction false} TilesUpTo(t: Tree, r: Rect, dir: Dir, n: nat, lnum: int, col: int)
    requires Fits(t, r) && t.Inner? && n <= |t.kids| && t.kids != []
    requires Uniform(t.kids, dir) && forall k :: k in t.kids ==> Good(k)
    requires Exact(t, r) && Within(Taken(r, dir, |t.kids|, n), lnum, col)
    ensures Covers(RectsUpTo(t, r, n), lnum, col) >= 1
    decreases t, 0, n
  {
    assert n > 0;
    var k := t.kids[n - 1];
    var part := Part(r, k.dir, |t.kids|, n - 1);
    TakenGrows(r, dir, |t.kids|, n, lnum, col);
    CoversAppend(RectsUpTo(t, r, n - 1), Rects(k, part), lnum, col);
    if Within(part, lnum, col) {
      ExactTiles(k, part, lnum, col);
    } else {
      TilesUpTo(t, r, dir, n - 1, lnum, col);
    }
  }

  // Otherwise some cell is left over.
  lemma {:induction false} InexactGap(t: Tree, r: Rect) returns (lnum: int, col: int)
    requires Fits(t, r) && (Good(t) || GoodRoot(t)) && !Exact(t, r)
    requires r.lines > 0 && r.cols > 0
    ensures Within(r, lnum, col) && Covers(Rects(t, r), lnum, col) == 0
    decreases t
  {
    var kids := t.kids;
    if kids == [] {
      return r.lnum, r.col;
    }
    var dir := kids[0].dir;
    ShareTotal(r.lines, |kids|);
    ShareTotal(r.cols, |kids|);
    var all := Taken(r, dir, |kids|, |kids|);
    if all != r {
      lnum, col := if dir == Horizontal then r.lnum + all.lines else r.lnum,
        if dir == Horizontal then r.col else r.col + all.cols;
      OverlapUpTo(t, r, dir, |kids|, lnum, col);
    } else {
      var i :| 0 <= i < |kids| && !Exact(kids[i], Part(r, kids[i].dir, |kids|, i));
      var part := Part(r, kids[i].dir, |kids|, i);
      lnum, col := InexactGap(kids[i], part);
      GapAlone(t, r, dir, i, |kids|, lnum, col);
      TakenMore(r, dir, |kids|, i + 1, |kids|, lnum, col);
      TakenGrows(r, dir, |kids|, i + 1, lnum, col);
    }
  }

  lemma {:induction false} TakenMore(r: Rect, dir: Dir, count: nat, m: nat, n: nat, lnum: int, col: int)
    requires m <= n <= count && 0 < count <= r.lines && count <= r.cols
    ensures Within(Taken(r, dir, count, m), lnum, col) ==> Within(Taken(r, dir, count, n), lnum, col)
    decreases n - m
  {
    if m < n {
      TakenGrows(r, dir, count, n, lnum, col);
      TakenMore(r, dir, count, m, n - 1, lnum, col);
    }
  }

  // A cell of child i that the child leaves over is in no other child.
  lemma {:induction false} GapAlone(t: Tree, r: Rect, dir: Dir, i: nat, n: nat, lnum: int, col: int)
    requires Fits(t, r) && t.Inner? && i < |t.kids| && n <= |t.kids|
    requires Uniform(t.kids, dir) && forall k :: k in t.kids ==> Good(k)
    requires Within(Part(r, t.kids[i].dir, |t.kids|, i), lnum, col)
    requires Covers(Rects(t.kids[i], Part(r, t.kids[i].dir, |t.kids|, i)), lnum, col) == 0
    ensures Covers(RectsUpTo(t, r, n), lnum, col) == 0
    decreases n
  {
    if n > 0 {
      var k := t.kids[n - 1];
      var part := Part(r, k.dir, |t.kids|, n - 1);
      GapAlone(t, r, dir, i, n - 1, lnum, col);
      CoversAppend(RectsUpTo(t, r, n - 1), Rects(k, part), lnum, col);
      if n - 1 != i {
        PartsApart(r, dir, |t.kids|, i, n - 1, lnum, col);
        NeverOverlap(k, part, lnum, col);
      }
    }
  }

  lemma PartsApart(r: Rect, dir: Dir, count: nat, i: nat, j: nat, lnum: int, col: int)
    requires i < count && j < count && i != j && count <= r.lines && count <= r.cols
    requires Within(Part(r, dir, count, i), lnum, col)
    ensures !Within(Part(r, dir, count, j), lnum, col)
  {
    var a, b := if i < j then i else j, if i < j then j else i;
    TakenGrows(r, dir, count, a + 1, lnum, col);
    TakenMore(r, dir, count, a + 1, b, lnum, col);
    TakenGrows(r, dir, count, b + 1, lnum, col);
  }

  // The windows cover the screen exactly when in every container the remainder is smaller than a division.
  lemma TiledIff(t: Tree, r: Rect)
    requires Fits(t, r) && (Good(t) || GoodRoot(t)) && r.lines > 0 && r.cols > 0
    ensures Tiled(t, r) <==> Exact(t, r)
  {
    if Exact(t, r) {
      forall lnum, col | Within(r, lnum, col) ensures Covers(Rects(t, r), lnum, col) == 1 {
        ExactTiles(t, r, lnum, col);
      }
    } else {
      var lnum, col := InexactGap(t, r);
    }
  }

  // Three windows one above the other in five lines leave the last two lines empty.
  lemma FiveByThree()
    ensures var t := Inner(Horizontal, [Leaf(Horizontal, 1), Leaf(Horizontal, 2), Leaf(Horizontal, 3)]);
      var r := Rect(0, 0, 5, 80);
      Fits(t, r) && !Tiled(t, r) && Covers(Rects(t, r), 3, 0) == 0
  {
    var kids := [Leaf(Horizontal, 1), Leaf(Horizontal, 2), Leaf(Horizontal, 3)];
    var t, r := Inner(Horizontal, kids), Rect(0, 0, 5, 80);
    assert Taken(r, Horizontal, 3, 3).lines == 3;
    OverlapUpTo(t, r, Horizontal, 3, 3, 0);
    assert Within(r, 3, 0);
  }
}
