/// The layout as the program keeps it: containers that hold their children in a list and know their
/// parent, relinked in place, with the focused window.
module Layout {
  import opened LayoutTree
  import opened LayoutRects
  import opened LayoutLinks
  import opened LayoutPlaces

  // find_container: the search goes into a container before it looks at its buffer. For a buffer that is not shown
  // it can come upon a container that had it once.
  method FindContainer(c: Container, buf: Buffer, ghost g: Forest) returns (found: Container?)
    requires Linked(g) && Listed(g) && StaleAll(g) && c in g.info && !IsLeaf(g, c)
    ensures found == null ==> buf !in Bufs(TreeOf(g, c))
    ensures found != null ==> found in g.info && g.info[found].buf == Just(buf)
    ensures found != null && buf in Bufs(TreeOf(g, g.root)) ==> IsLeaf(g, found)
    decreases g.top - g.info[c].rank
  {
    hide Linked, TreeOf, IsLeaf, StaleAll, StaleOk;
    KidsViewed(g, c);
    BufsOfInner(TreeOf(g, c));
    assert Mirror(g, c);
    for i := 0 to |c.p|
      invariant forall j :: 0 <= j < i ==> c.p[j] in g.info && buf !in Bufs(TreeOf(g, c.p[j]))
    {
      var it := c.p[i];
      KidFacts(g, c, i);
      assert Mirror(g, it);
      NoLeaf(g, it);
      if it.p != [] {
        var inner := FindContainer(it, buf, g);
        if inner != null {
          return inner;
        }
        NotStale(g, it, buf);
      } else {
        LeafViewed(g, it);
      }
      if it.buf == Just(buf) {
        return it;
      }
    }
    if buf in BufsOf(TreeOf(g, c).kids) {
      BufsOfKids(TreeOf(g, c).kids, buf);
    }
    return null;
  }

  lemma NoLeaf(g: Forest, x: Container)
    requires x in g.info && x != g.root
    ensures IsLeaf(g, x) <==> g.info[x].kids == []
  {
  }

  // A buffer that is shown, but not below x, is not the one that x keeps.
  lemma NotStale(g: Forest, x: Container, buf: Buffer)
    requires Linked(g) && StaleAll(g) && x in g.info && x != g.root && !IsLeaf(g, x)
    requires buf !in Bufs(TreeOf(g, x))
    ensures buf in Bufs(TreeOf(g, g.root)) ==> g.info[x].buf != Just(buf)
  {
    hide Linked, TreeOf, IsLeaf, Bufs;
    assert StaleOk(g, x);
  }

  // The leaves below c have the rectangles that were shown for their buffers.
  ghost predicate Painted(g: Forest, c: Container, shown: seq<Shown>)
    requires Linked(g)
    reads Below(g, c)`rect
  {
    forall x :: x in Below(g, c) && IsLeaf(g, x) && g.info[x].buf.Just? ==> Shown(g.info[x].buf.buf, x.rect) in shown
  }

  ghost predicate PaintedKid(g: Forest, k: Container, shown: seq<Shown>)
    requires Linked(g)
    reads k`rect, Below(g, k)`rect
  {
    Painted(g, k, shown) && (IsLeaf(g, k) && g.info[k].buf.Just? ==> Shown(g.info[k].buf.buf, k.rect) in shown)
  }

  // The first n children of c, and what is below them.
  ghost predicate PaintedUpTo(g: Forest, c: Container, n: nat, shown: seq<Shown>)
    requires Linked(g) && c in g.info
    reads g.info.Keys`rect
  {
    forall j :: 0 <= j < n && j < |g.info[c].kids| && g.info[c].kids[j] in g.info ==>
      PaintedKid(g, g.info[c].kids[j], shown)
  }

  // The divisions of a container, and the remainders.
  datatype Division = Division(lines: nat, cols: nat, restLines: nat, restCols: nat)

  ghost predicate Divided(r: Rect, n: nat, d: Division)
    requires n > 0
  {
    && d.lines > 0 && d.lines == r.lines / n && d.restLines == r.lines % d.lines
    && d.cols > 0 && d.cols == r.cols / n && d.restCols == r.cols % d.cols
  }

  // layout_update of one container. It divides by the size of a division, and the program dies of it
  // if that is 0. Every leaf below gets a rectangle, which its buffer is told.
  method Update(c: Container, ghost g: Forest) returns (ok: bool, shown: seq<Shown>)
    requires Linked(g) && Listed(g) && c in g.info && !IsLeaf(g, c)
    modifies Below(g, c)`rect
    ensures ok <==> Fits(TreeOf(g, c), c.rect)
    ensures ok ==> shown == Rects(TreeOf(g, c), c.rect) && Painted(g, c, shown)
    decreases g.top - g.info[c].rank, 1
  {
    hide Linked, TreeOf, IsLeaf, Below, Under, Painted, PaintedKid, Fits, Rects, Part, Listed;
    shown := [];
    KidsViewed(g, c);
    CountIs(g, c);
    BelowItself(g, c);
    ghost var t := TreeOf(g, c);
    var n := if c.count > 1 then c.count else 1;
    var newLnum, newCol := c.rect.lines / n, c.rect.cols / n;
    ok := newLnum > 0 && newCol > 0;
    RoomyIff(t, c.rect, n);
    if !ok {
      return;
    }
    var d := Division(newLnum, newCol, c.rect.lines % newLnum, c.rect.cols % newCol);
    var i := 0;
    while ok && i < |c.p|
      invariant i <= |c.p| && c.p == g.info[c].kids && c.rect == old(c.rect)
      invariant ok ==> FitsUpTo(t, c.rect, i) && shown == RectsUpTo(t, c.rect, i)
      invariant ok ==> PaintedUpTo(g, c, i, shown)
      invariant !ok ==> !Fits(t, c.rect)
      decreases |c.p| - i, ok
    {
      ok, shown := UpdateKid(c, i, d, shown, t, g);
      i := i + 1;
    }
    if ok {
      FitsWhole(t, c.rect);
      PaintedAll(g, c, shown);
    }
  }

  // One turn of the loop of layout_update.
  method UpdateKid(c: Container, i: nat, d: Division, before: seq<Shown>, ghost t: Tree, ghost g: Forest)
    returns (ok: bool, shown: seq<Shown>)
    requires Linked(g) && Listed(g) && c in g.info && !IsLeaf(g, c) && t == TreeOf(g, c) && i < |c.p|
    requires FitsUpTo(t, c.rect, i) && i < |t.kids| && Divided(c.rect, |t.kids|, d)
    requires before == RectsUpTo(t, c.rect, i) && PaintedUpTo(g, c, i, before)
    modifies Below(g, c)`rect
    ensures ok ==> FitsUpTo(t, c.rect, i + 1) && shown == RectsUpTo(t, c.rect, i + 1)
    ensures ok ==> PaintedUpTo(g, c, i + 1, shown)
    ensures !ok ==> !Fits(t, c.rect)
    decreases g.top - g.info[c].rank, 0
  {
    hide Linked, TreeOf, IsLeaf, Below, Under, Painted, PaintedKid, Fits, Rects, Listed, FitsUpTo, PaintedUpTo,
      RectsUpTo, Part, Divided;
    KidOf(g, c, t, i);
    BelowKids(g, c, i);
    BelowItself(g, c);
    var it := c.p[i];
    var part := PartOf(c.rect, it.dir, c.count, i, d);
    PartIs(t, c.rect, i, part, d);
    var more;
    ok, more := Place(it, part, g);
    shown := before + more;
    FitsNext(t, c.rect, i, part);
    if ok {
      PaintedNext(i, (g, c, before, more));
    }
  }

  // The rectangle of the i-th child.
  function PartOf(r: Rect, dir: Dir, count: nat, i: nat, d: Division): Rect {
    var horz, last := dir == Horizontal, i + 1 == count;
    Rect(r.lnum + if horz then d.lines * i else 0, r.col + if horz then 0 else d.cols * i,
         if horz then d.lines + (if last then d.restLines else 0) else r.lines,
         if horz then r.cols else d.cols + if last then d.restCols else 0)
  }

  twostate lemma PaintedNext(new i: nat, x: (Forest, Container, seq<Shown>, seq<Shown>))
    requires Linked(x.0) && x.1 in x.0.info && i < |x.0.info[x.1].kids| && x.0.info[x.1].kids[i] in x.0.info
    requires old(PaintedUpTo(x.0, x.1, i, x.2)) && PaintedKid(x.0, x.0.info[x.1].kids[i], x.3)
    requires forall y ::
      y in x.0.info && y != x.0.info[x.1].kids[i] && y !in Below(x.0, x.0.info[x.1].kids[i]) ==> y.rect == old(y.rect)
    ensures PaintedUpTo(x.0, x.1, i + 1, x.2 + x.3)
  {
    hide Linked, Painted, PaintedKid, Under;
    var g, s := x.0, x.0.info[x.1].kids;
    forall j | 0 <= j < i && s[j] in g.info ensures PaintedKid(g, s[j], x.2 + x.3) {
      KidsBelow(g, x.1, j, i);
      KidsBelow(g, x.1, i, j);
      PaintedKept(s[j], (g, x.2));
      PaintedMore(g, s[j], x.2, x.2 + x.3);
    }
    PaintedMore(g, s[i], x.3, x.2 + x.3);
  }

  // A child gets its rectangle, and so does everything below it.
  method Place(it: Container, part: Rect, ghost g: Forest) returns (ok: bool, more: seq<Shown>)
    requires Linked(g) && Listed(g) && it in g.info && it != g.root
    modifies it`rect, Below(g, it)`rect
    ensures ok <==> Fits(TreeOf(g, it), part)
    ensures ok ==> more == Rects(TreeOf(g, it), part) && PaintedKid(g, it, more)
    decreases g.top - g.info[it].rank, 2
  {
    hide Linked, TreeOf, IsLeaf, Below, Under, Painted, PaintedKid, Listed;
    it.rect := part;
    LeafHere(g, it);
    BelowItself(g, it);
    if it.p == [] {
      ok, more := true, [Shown(it.buf.buf, it.rect)];
      PaintedLeaf(g, it, more);
    } else {
      ok, more := Update(it, g);
      if ok {
        PaintedInner(g, it, more);
      }
    }
  }

  lemma LeafHere(g: Forest, it: Container)
    requires Linked(g) && Listed(g) && it in g.info && it != g.root
    ensures (it.p == [] <==> IsLeaf(g, it)) && it.buf == g.info[it].buf && g.info[it].rank <= g.top
    ensures it.p == [] ==> it.buf.Just? && TreeOf(g, it) == Leaf(it.dir, it.buf.buf)
  {
    assert Mirror(g, it) && NodeOk(g, it);
  }

  // What the update needs to know of a container.
  lemma CountIs(g: Forest, c: Container)
    requires Linked(g) && Listed(g) && c in g.info && !IsLeaf(g, c)
    ensures c.p == g.info[c].kids && c.count == |c.p| == |TreeOf(g, c).kids|
  {
    hide Linked, TreeOf;
    assert Mirror(g, c);
    KidsViewed(g, c);
  }

  lemma BelowItself(g: Forest, c: Container)
    requires Linked(g)
    ensures c !in Below(g, c)
  {
  }

  lemma RoomyIff(t: Tree, r: Rect, n: nat)
    requires t.Inner? && n == Max(|t.kids|, 1)
    ensures r.lines / n > 0 && r.cols / n > 0 <==> Roomy(t, r)
    ensures !Roomy(t, r) ==> !Fits(t, r)
  {
    hide Part;
    DivPositive(r.lines, n);
    DivPositive(r.cols, n);
  }

  lemma DivPositive(x: nat, n: nat)
    requires n > 0
    ensures x / n > 0 <==> x >= n
  {
  }

  lemma FitsWhole(t: Tree, r: Rect)
    requires t.Inner? && FitsUpTo(t, r, |t.kids|)
    ensures Fits(t, r) && Rects(t, r) == RectsUpTo(t, r, |t.kids|)
  {
    hide Part;
  }

  lemma FitsNext(t: Tree, r: Rect, i: nat, part: Rect)
    requires FitsUpTo(t, r, i) && i < |t.kids| && part == Part(r, t.kids[i].dir, |t.kids|, i)
    ensures Fits(t.kids[i], part) ==>
      FitsUpTo(t, r, i + 1) && RectsUpTo(t, r, i + 1) == RectsUpTo(t, r, i) + Rects(t.kids[i], part)
    ensures !Fits(t.kids[i], part) ==> !Fits(t, r)
  {
    hide Part;
  }

  lemma KidOf(g: Forest, c: Container, t: Tree, i: nat)
    requires Linked(g) && Listed(g) && c in g.info && !IsLeaf(g, c) && t == TreeOf(g, c) && i < |c.p|
    ensures t.Inner? && c.p == g.info[c].kids && c.count == |c.p| == |t.kids|
    ensures var it := c.p[i];
      && it in g.info && it != g.root && t.kids[i] == TreeOf(g, it) && t.kids[i].dir == it.dir
      && g.info[it].rank > g.info[c].rank
      && g.info[it].rank <= g.top && (it.p == [] <==> IsLeaf(g, it)) && it.buf == g.info[it].buf
      && (it.p == [] ==> it.buf.Just? && t.kids[i] == Leaf(it.dir, it.buf.buf))
  {
    hide Linked, TreeOf;
    KidsViewed(g, c);
    assert Mirror(g, c);
    KidFacts(g, c, i);
    var it := c.p[i];
    assert Mirror(g, it);
    if IsLeaf(g, it) {
      LeafViewed(g, it);
    } else {
      KidsViewed(g, it);
    }
  }

  lemma PartIs(t: Tree, r: Rect, i: nat, part: Rect, d: Division)
    requires FitsUpTo(t, r, i) && i < |t.kids| && Divided(r, |t.kids|, d)
    requires part == PartOf(r, t.kids[i].dir, |t.kids|, i, d)
    ensures part == Part(r, t.kids[i].dir, |t.kids|, i)
  {
    hide Fits;
  }

  lemma PaintedLeaf(g: Forest, k: Container, shown: seq<Shown>)
    requires Linked(g) && IsLeaf(g, k) && g.info[k].buf.Just? && Shown(g.info[k].buf.buf, k.rect) in shown
    ensures PaintedKid(g, k, shown)
  {
    hide Linked;
    forall y | y in Below(g, k) ensures false {
      var i := BelowSome(g, k, y);
    }
  }

  lemma PaintedInner(g: Forest, k: Container, shown: seq<Shown>)
    requires Linked(g) && !IsLeaf(g, k) && Painted(g, k, shown)
    ensures PaintedKid(g, k, shown)
  {
  }

  lemma PaintedMore(g: Forest, k: Container, a: seq<Shown>, b: seq<Shown>)
    requires Linked(g) && PaintedKid(g, k, a) && forall x :: x in a ==> x in b
    ensures PaintedKid(g, k, b)
  {
    hide Linked;
  }

  twostate lemma PaintedKept(new k: Container, x: (Forest, seq<Shown>))
    requires Linked(x.0) && k in x.0.info && old(PaintedKid(x.0, k, x.1))
    requires k.rect == old(k.rect) && forall y :: y in Below(x.0, k) ==> y.rect == old(y.rect)
    ensures PaintedKid(x.0, k, x.1)
  {
    hide Linked;
  }

  lemma PaintedAll(g: Forest, c: Container, shown: seq<Shown>)
    requires Linked(g) && c in g.info && PaintedUpTo(g, c, |g.info[c].kids|, shown)
    ensures Painted(g, c, shown)
  {
    hide Linked, PaintedKid;
    forall x | x in Below(g, c) && IsLeaf(g, x) && g.info[x].buf.Just?
      ensures Shown(g.info[x].buf.buf, x.rect) in shown
    {
      var i := BelowSome(g, c, x);
      KidFacts(g, c, i);
      PaintedIn(g, g.info[c].kids[i], x, shown);
    }
  }

  lemma PaintedIn(g: Forest, k: Container, x: Container, shown: seq<Shown>)
    requires Linked(g) && PaintedKid(g, k, shown) && IsLeaf(g, x) && g.info[x].buf.Just? && (x == k || x in Below(g, k))
    ensures Shown(g.info[x].buf.buf, x.rect) in shown
  {
    hide Linked;
  }

  function IndexOf(s: seq<Container>, x: Container): (r: nat)
    requires x in s
    ensures r < |s| && s[r] == x
  {
    if s[0] == x then 0 else 1 + IndexOf(s[1..], x)
  }

  // next_or_prev: the child after this one, or else the one before it.
  function NextOrPrev(p: seq<Container>, k: nat): (next: Container?)
    requires k < |p|
    ensures next == null <==> |p| == 1
    ensures next != null ==> next in p
  {
    if k + 1 < |p| then p[k + 1] else if k > 0 then p[k - 1] else null
  }

  // The focused window: a leaf, or the root if there is no window.
  ghost predicate Focused(g: Forest, focus: Container)
  {
    g.root in g.info && if g.info[g.root].kids == [] then focus == g.root else IsLeaf(g, focus)
  }

  // What adding a window makes of a layout. Without a window to put it beside, it is the only one.
  ghost function Grown(t: Tree, f: Maybe, n: Buffer, dir: Dir): Tree {
    if t.Leaf? || t.kids == [] || f.Nothing? then Inner(t.dir, [Leaf(t.dir, n)]) else Added(t, f.buf, n, dir)
  }

  datatype Op = Add(buf: Buffer, move: Move) | Remove(buf: Buffer) | Resize(size: Rect)

  // The buffers that a tree shows.
  ghost function Shows(t: Tree): set<Buffer> {
    set b | b in Bufs(t)
  }

  ghost function NowShown(op: Op, live: set<Buffer>): set<Buffer> {
    match op
    case Add(buf, _) => live + {buf}
    case Remove(buf) => live - {buf}
    case Resize(_) => live
  }

  ghost function EverShown(op: Op, used: set<Buffer>): set<Buffer> {
    if op.Add? then used + {op.buf} else used
  }

  // A buffer that is added is new, and one that is removed is shown.
  ghost predicate CanDo(op: Op, live: set<Buffer>, used: set<Buffer>) {
    (op.Add? ==> op.buf !in used) && (op.Remove? ==> op.buf in live)
  }

  ghost predicate Allowed(ops: seq<Op>, live: set<Buffer>, used: set<Buffer>) {
    ops == [] || (CanDo(ops[0], live, used) && Allowed(ops[1..], NowShown(ops[0], live), EverShown(ops[0], used)))
  }

  // The buffers that are shown after some of the operations.
  ghost function Live(ops: seq<Op>, done: nat, live: set<Buffer>): set<Buffer>
    requires done <= |ops|
  {
    if done == 0 then live else NowShown(ops[done - 1], Live(ops, done - 1, live))
  }

  // What an operation does to the tree: a new window comes right before one that is shown.
  ghost predicate StepOf(t: Tree, op: Op, t': Tree) {
    match op
    case Add(n, move) =>
      exists f: Maybe ::
        t' == Grown(t, f, n, DirOf(move)) && (t != Inner(Horizontal, []) ==> f.Just? && f.buf in Bufs(t))
    case Remove(b) => b in Bufs(t) && t' == Removed(t, b)
    case Resize(_) => t' == t
  }

  ghost predicate IsTrace(ops: seq<Op>, trace: seq<Tree>, done: nat) {
    done <= |ops| && |trace| == done + 1 && forall i :: 0 <= i < done ==> StepOf(trace[i], ops[i], trace[i + 1])
  }

  class Layout {
    const root: Container
    var focus: Container
    ghost var g: Forest
    ghost var used: set<Buffer>  // the buffers that were ever shown

    ghost predicate Valid()
      reads this, g.info.Keys`p, g.info.Keys`count, g.info.Keys`buf, g.info.Keys`parent
    {
      && Listed(g) && Parented(g) && g.root == root && Focused(g, focus)
      && Sound(g, used)
    }

    // The windows as a tree.
    ghost function Tree(): Tree
      reads this
    {
      if Linked(g) then TreeOf(g, g.root) else Inner(Horizontal, [])
    }

    // The update went well exactly if no container was too small, and then every window has the
    // rectangle that its buffer was told.
    ghost predicate Drawn(ok: bool, shown: seq<Shown>)
      reads this, root`rect, g.info.Keys`rect
    {
      && (ok <==> Fits(Tree(), root.rect))
      && (ok ==> shown == Rects(Tree(), root.rect))
      && (ok && Linked(g) ==> forall x :: x in g.info && IsLeaf(g, x) && g.info[x].buf.Just? ==>
        Shown(g.info[x].buf.buf, x.rect) in shown)
    }

    // layout_init
    constructor (size: Rect)
      ensures Valid() && used == {} && g.info.Keys == {root} && fresh(root) && focus == root && root.rect == size
      ensures Tree() == Inner(Horizontal, [])
    {
      hide *;
      var r := new Container(Horizontal, Nothing, true);
      r.parent, r.rect := r, size;
      root, focus := r, r;
      g, used := Forest(map[r := Info([], r, Nothing, 0)], r, 0), {};
      new;
      FirstRoot(g, root);
      IsValid(this);
    }

    // layout_add_buffer up to the update.
    method Insert(nbuf: Buffer, move: Move)
      requires Valid() && nbuf !in used
      modifies this`focus, this`g, this`used, g.info.Keys`p, g.info.Keys`count
      ensures Valid() && used == old(used) + {nbuf} && focus.buf == Just(nbuf)
      ensures Tree() == Grown(old(Tree()), old(focus.buf), nbuf, DirOf(move))
      ensures old(g.info.Keys) <= g.info.Keys && fresh(g.info.Keys - old(g.info.Keys))
    {
      hide *;
      ValidIs(this);
      FocusIs(this);
      KidsViewed(g, root);
      var f := focus;
      var hc := f.parent;
      var d := DirOf(move);
      if f.root {
        d := Horizontal;
      }
      var c := new Container(d, Just(nbuf), false);
      ghost var g0 := g;
      if c.dir != f.dir {
        var sub := Split(f, c, nbuf, g);
        ForkSound(g, used, f, f.buf.buf, c, sub, nbuf);
        ForkedKeys(g, f, c, sub, nbuf);
        g := Forked(g, f, c, sub, nbuf);
        AddedStepIs(g0, g, used, f.buf.buf, nbuf, d);
      } else {
        ghost var k := Hang(hc, f, c, nbuf, g);
        PlantedKeys(g, hc, k, c, nbuf);
        g := Planted(g, hc, k, c, nbuf);
        if f.root {
          FirstSound(g0, used, c, nbuf);
        } else {
          HeldBy(g0, hc, k, f);
          PlantSound(g0, used, hc, k, f, f.buf.buf, c, nbuf);
          AddedStepIs(g0, g, used, f.buf.buf, nbuf, d);
        }
      }
      used := used + {nbuf};
      focus := c;
      IsValid(this);
      GrownCases(TreeOf(g0, g0.root), f.buf, nbuf, DirOf(move));
    }

    // layout_remove_buffer up to the update. The source asks for the container of a buffer that is shown.
    method Unlink(buf: Buffer)
      requires Valid() && buf in Bufs(Tree())
      modifies this`focus, this`g, g.info.Keys`p, g.info.Keys`count, g.info.Keys`buf, g.info.Keys`parent
      ensures Valid() && used == old(used) && g.info.Keys <= old(g.info.Keys)
      ensures Tree() == Removed(old(Tree()), buf)
      ensures old(focus.buf) != Just(buf) ==> focus.buf == old(focus.buf)
      ensures old(focus.buf) == Just(buf) ==>
        if focus == root then Tree() == Inner(Horizontal, [])
        else focus.buf.Just? && Heir(old(Tree()), buf, focus.buf.buf)
    {
      hide *;
      ValidIs(this);
      FocusIs(this);
      SoundIs(g, used);
      var c := FindContainer(root, buf, g);
      var hc, k := Seat(c, buf, g);
      var next := NextOrPrev(hc.p, k);
      var follow := focus == c || focus == next;
      ghost var g0, sibling := g, next;
      NextToHolds(g, hc, k, c, buf, next);
      next := Detach(c, hc, k, next, buf);
      RemovedStepIs(g0, g, used, buf);
      FocusKept(g0, g, c, sibling, focus, buf);
      if next != null {
        PassedIs(g0, g, sibling, next, buf);
        next := FirstLeaf(next, g);
      }
      if follow {
        focus := if next == null then root else next;
      } else {
        LeafIn(g, focus);
        LeafHere(g, focus);
      }
      if next == null {
        NoneLeft(g, focus);
      }
      IsValid(this);
      FocusIs(this);
    }

    // The relinking of layout_remove_buffer. It returns the container that the focus may go to.
    method Detach(c: Container, hc: Container, k: nat, next: Container?, ghost b: Buffer) returns (start: Container?)
      requires NextTo(g, hc, k, c, b, next) && Listed(g) && Parented(g) && Sound(g, used)
      requires hc in g.info && hc.p == g.info[hc].kids && hc.count == |hc.p| && (hc.root <==> hc == g.root)
      modifies this`g, g.info.Keys`p, g.info.Keys`count, g.info.Keys`buf, g.info.Keys`parent
      ensures RemovedStep(old(g), g, used, b) && Listed(g) && Parented(g) && g.root == old(g.root)
      ensures g.info.Keys <= old(g.info.Keys) && LeavesKept(old(g), g, c, next) && (start == null <==> next == null)
      ensures next != null ==> PassedOn(old(g), g, next, start, b)
      ensures next == null ==> g.root in g.info && g.info[g.root].kids == []
    {
      hide *;
      SoundIs(g, used);
      NextToIs(g, hc, k, c, b, next);
      InRoot(g);
      start := next;
      ghost var g0 := g;
      TakeFromList(hc, k, g);
      if hc.count == 1 && !hc.root {
        FoldSound(g, used, hc, k, c, b, next);
        RemovedStepIs(g, Folded(g, hc, c, next), used, b);
        Collapse(hc, next, k, c, b, g);
        FoldedKeys(g, hc, c, next);
        g := Folded(g, hc, c, next);
        FoldedNext(g0, g, hc, k, c, b, next);
        start := hc;
      } else {
        DropSound(g, used, hc, k, c, b);
        RemovedStepIs(g, Dropped(g, hc, k), used, b);
        LostDropped(g, hc, k, c, b);
        DroppedKeys(g, hc, k);
        g := Dropped(g, hc, k);
        IsDropped(g0, g, hc, k);
        DroppedNext(g0, g, hc, k, c, b, next);
      }
    }

    // layout_add_buffer. It fails by a division by zero exactly when some container is smaller than
    // the number of its children.
    method AddBuffer(nbuf: Buffer, move: Move) returns (ok: bool, shown: seq<Shown>)
      requires Valid() && nbuf !in used
      modifies this`focus, this`g, this`used, g.info.Keys
      ensures Valid() && used == old(used) + {nbuf} && focus.buf == Just(nbuf) && root.rect == old(root.rect)
      ensures Tree() == Grown(old(Tree()), old(focus.buf), nbuf, DirOf(move))
      ensures old(g.info.Keys) <= g.info.Keys && fresh(g.info.Keys - old(g.info.Keys))
      ensures Drawn(ok, shown)
      ensures ok ==> if old(Tree()) == Inner(Horizontal, []) then shown == [Shown(nbuf, root.rect)]
        else old(focus.buf).Just? && Neighbours(shown, nbuf, old(focus.buf).buf, move)
    {
      hide *;
      FocusShown(this);
      ghost var t := Tree();
      Insert(nbuf, move);
      ok, shown := UpdateRoot();
      if ok {
        IsNeighbour(this, t, old(focus.buf), nbuf, move, ok, shown);
      }
    }

    // layout_remove_buffer
    method RemoveBuffer(buf: Buffer) returns (ok: bool, shown: seq<Shown>)
      requires Valid() && buf in Bufs(Tree())
      modifies this`focus, this`g, g.info.Keys
      ensures Valid() && used == old(used) && g.info.Keys <= old(g.info.Keys) && root.rect == old(root.rect)
      ensures Tree() == Removed(old(Tree()), buf)
      ensures old(focus.buf) != Just(buf) ==> focus.buf == old(focus.buf)
      ensures old(focus.buf) == Just(buf) ==>
        if focus == root then Tree() == Inner(Horizontal, [])
        else focus.buf.Just? && Heir(old(Tree()), buf, focus.buf.buf)
      ensures Drawn(ok, shown)
    {
      hide *;
      Unlink(buf);
      ok, shown := UpdateRoot();
    }

    // layout_refresh
    method Refresh(size: Rect) returns (ok: bool, shown: seq<Shown>)
      requires Valid()
      modifies g.info.Keys`rect
      ensures Valid() && root.rect == size
      ensures Drawn(ok, shown)
    {
      hide *;
      ValidIs(this);
      root.rect := size;
      ok, shown := UpdateRoot();
    }

    // layout_update of the root.
    method UpdateRoot() returns (ok: bool, shown: seq<Shown>)
      requires Valid()
      modifies g.info.Keys`rect
      ensures Valid() && root.rect == old(root.rect)
      ensures Drawn(ok, shown)
    {
      hide *;
      ValidIs(this);
      BelowItself(g, root);
      BelowAll(g, root);
      ok, shown := Update(root, g);
      IsDrawn(this, ok, shown);
    }

    // Any run of operations. It goes on until a container is too small.
    method Run(ops: seq<Op>) returns (ok: bool, done: nat, shown: seq<Shown>, ghost trace: seq<Tree>)
      requires Valid() && Allowed(ops, Shows(Tree()), used)
      modifies this`focus, this`g, this`used, g.info.Keys
      ensures Valid() && done <= |ops| && (ok ==> done == |ops|) && (done == 0 ==> ok)
      ensures |trace| == done + 1 && IsTrace(ops, trace, done) && trace[0] == old(Tree()) && trace[done] == Tree()
      ensures Shaped(Tree()) && Focused(g, focus)
      ensures Shows(Tree()) == Live(ops, done, old(Shows(Tree())))
      ensures done > 0 ==> Drawn(ok, shown)
    {
      hide Valid, Tree, Shows, NowShown, EverShown, CanDo, Allowed, StepOf, IsTrace, Shaped, Focused, Drawn;
      ok, done, shown, trace := true, 0, [], [Tree()];
      TraceStart(ops, Tree());
      assert ops[0..] == ops;
      while ok && done < |ops|
        invariant Valid() && done <= |ops| && |trace| == done + 1 && IsTrace(ops, trace, done)
        invariant trace[0] == old(Tree())
        invariant trace[done] == Tree()
        invariant Allowed(ops[done..], Shows(Tree()), used)
        invariant Shows(Tree()) == Live(ops, done, old(Shows(Tree())))
        invariant (done > 0 ==> Drawn(ok, shown)) && (done == 0 ==> ok)
        invariant forall x :: x in g.info ==> x in old(g.info) || fresh(x)
        decreases |ops| - done
      {
        AllowedNext(ops, done, Shows(Tree()), used);
        ok, shown := Step(ops[done]);
        TraceNext(ops, trace, done, Tree());
        done, trace := done + 1, trace + [Tree()];
      }
      ValidIs(this);
      SoundIs(g, used);
    }

    method Step(op: Op) returns (ok: bool, shown: seq<Shown>)
      requires Valid() && CanDo(op, Shows(Tree()), used)
      modifies this`focus, this`g, this`used, g.info.Keys
      ensures Valid() && StepOf(old(Tree()), op, Tree()) && Shows(Tree()) == NowShown(op, old(Shows(Tree())))
      ensures used == EverShown(op, old(used))
      ensures forall x :: x in g.info ==> x in old(g.info) || fresh(x)
      ensures op.Resize? || root.rect == old(root.rect)
      ensures Drawn(ok, shown)
    {
      hide *;
      ValidIs(this);
      FocusShown(this);
      match op
      case Add(buf, move) =>
        CanIs(op, Shows(Tree()), used);
        StepAdd(Tree(), focus.buf, buf, move);
        ok, shown := AddBuffer(buf, move);
      case Remove(buf) =>
        CanIs(op, Shows(Tree()), used);
        StepRemove(Tree(), buf);
        ok, shown := RemoveBuffer(buf);
      case Resize(size) =>
        StepResize(Tree(), size, used);
        ok, shown := Refresh(size);
    }
  }

  lemma IsDrawn(l: Layout, ok: bool, shown: seq<Shown>)
    requires Linked(l.g) && l.root == l.g.root && (ok <==> Fits(l.Tree(), l.root.rect))
    requires ok ==> shown == Rects(l.Tree(), l.root.rect) && Painted(l.g, l.root, shown)
    ensures l.Drawn(ok, shown)
  {
    hide Linked, TreeOf, Fits, Rects, Under;
    forall x | x in l.g.info && IsLeaf(l.g, x) ensures x in Below(l.g, l.root) {
      UnderRoot(l.g, x);
    }
  }

  lemma {:induction false} UnderRoot(g: Forest, x: Container)
    requires Linked(g) && x in g.info
    ensures Under(g, x, g.root)
    decreases g.info[x].rank
  {
    hide Linked;
    if x != g.root {
      UpIsLess(g, x);
      UnderRoot(g, g.info[x].parent);
    }
  }

  lemma BelowAll(g: Forest, c: Container)
    requires Linked(g)
    ensures Below(g, c) <= g.info.Keys
  {
  }

  lemma ValidIs(l: Layout)
    requires l.Valid()
    ensures Sound(l.g, l.used) && Listed(l.g) && Parented(l.g) && l.g.root == l.root && l.root in l.g.info
    ensures Linked(l.g)
    ensures Focused(l.g, l.focus) && l.Tree() == TreeOf(l.g, l.root) && l.Tree().Inner? && !IsLeaf(l.g, l.root)
  {
    InRoot(l.g);
    KidsViewed(l.g, l.root);
  }

  // The focus is the root exactly when there is no window.
  lemma FocusIs(l: Layout)
    requires l.Valid()
    ensures var f, g := l.focus, l.g;
      && l.root in g.info && f in g.info && (f.root <==> f == l.root) && Linked(g) && l.Tree().Inner?
      && f.p == [] && f.count == 0 && f.buf == g.info[f].buf
      && (f.root ==> f.parent == f && f.dir == Horizontal && g.info[f].kids == [] && l.Tree() == Inner(Horizontal, []))
      && (!f.root ==>
           && l.Tree().kids != [] && IsLeaf(g, f) && f.buf.Just? && f.parent != null && f.parent != f
           && f.parent in g.info
           && f.parent.p == g.info[f.parent].kids && f in f.parent.p)
  {
    var f, g := l.focus, l.g;
    InRoot(g);
    KidsViewed(g, l.root);
    assert NodeOk(g, l.root);
    assert f in g.info;
    assert Mirror(g, f) && NodeOk(g, f);
    if !f.root {
      UpIsLess(g, f);
      assert Mirror(g, f.parent);
    }
  }

  // The list of hc has c at place k, and nothing else has changed.
  twostate predicate Hung(x: (Forest, Container, nat), new c: Container, new n: Buffer)
    requires x.1 in x.0.info
    reads x.0.info.Keys, c
  {
    var g, hc, k := x.0, x.1, x.2;
    && k <= |old(hc.p)| && hc.p == old(hc.p)[..k] + [c] + old(hc.p)[k..] && hc.count == old(hc.count) + 1
    && c.p == [] && c.count == 0 && c.buf == Just(n) && c.parent == hc
    && (forall y :: y in g.info ==> y.parent == old(y.parent) && y.buf == old(y.buf))
    && (forall y :: y in g.info && y != hc ==> y.p == old(y.p) && y.count == old(y.count))
  }

  twostate lemma HungPlanted(x: (Forest, Container, nat), new c: Container, new n: Buffer)
    requires x.1 in x.0.info && old(Listed(x.0)) && old(Parented(x.0)) && c !in x.0.info && Hung(x, c, n)
    ensures x.2 <= |x.0.info[x.1].kids|
    ensures var g' := Planted(x.0, x.1, x.2, c, n); Listed(g') && Parented(g')
  {
    var g, hc, k := x.0, x.1, x.2;
    var g' := Planted(g, hc, k, c, n);
    assert old(Mirror(g, hc));
    forall y | y in g'.info ensures Mirror(g', y) && y.parent == g'.info[y].parent {
      if y in g.info {
        assert old(Mirror(g, y));
      }
    }
  }

  lemma FirstRoot(g: Forest, r: Container)
    requires g == Forest(map[r := Info([], r, Nothing, 0)], r, 0) && r.root && r.dir == Horizontal
    requires r.p == [] && r.count == 0 && r.buf == Nothing && r.parent == r
    ensures r in g.info && Listed(g) && Parented(g) && g.info[r].kids == []
    ensures Sound(g, {}) && TreeOf(g, g.root) == Inner(Horizontal, []) && g.info.Keys == {r}
  {
    hide TreeOf, Shaped, Linked, StaleAll;
    assert Mirror(g, r);
    RootLinked(g, r);
    KidsViewed(g, r);
    EmptyShaped(TreeOf(g, r));
  }

  lemma RootLinked(g: Forest, r: Container)
    requires g == Forest(map[r := Info([], r, Nothing, 0)], r, 0) && r.root && r.dir == Horizontal
    ensures Linked(g) && StaleAll(g) && !IsLeaf(g, r)
  {
    hide TreeOf;
    assert NodeOk(g, r);
  }

  lemma EmptyShaped(t: Tree)
    requires t == Inner(Horizontal, [])
    ensures Shaped(t)
  {
    assert Bufs(t) == [];
  }

  lemma PlantedKeys(g: Forest, hc: Container, k: nat, c: Container, n: Buffer)
    requires hc in g.info && k <= |g.info[hc].kids|
    ensures Planted(g, hc, k, c, n).info.Keys == g.info.Keys + {c} && Planted(g, hc, k, c, n).root == g.root
  {
  }

  lemma ForkedKeys(g: Forest, f: Container, c: Container, sub: Container, n: Buffer)
    requires f in g.info
    ensures Forked(g, f, c, sub, n).info.Keys == g.info.Keys + {c, sub} && Forked(g, f, c, sub, n).root == g.root
  {
  }

  // The tail of layout_add_buffer, in a container of the same direction: the new one goes before the
  // focused one, or is the first.
  method Hang(hc: Container, f: Container, c: Container, n: Buffer, ghost g: Forest) returns (ghost k: nat)
    requires Linked(g) && Listed(g) && Parented(g) && hc in g.info && c !in g.info
    requires c.p == [] && c.count == 0 && c.buf == Just(n) && (f in hc.p || hc.p == [])
    modifies hc`p, hc`count, c`parent
    ensures k <= |g.info[hc].kids| && (f in g.info[hc].kids ==> k < |g.info[hc].kids| && g.info[hc].kids[k] == f)
    ensures Listed(Planted(g, hc, k, c, n)) && Parented(Planted(g, hc, k, c, n))
  {
    hide Linked;
    assert Mirror(g, hc);
    c.parent := hc;
    hc.count := hc.count + 1;
    if hc.p != [] {
      var i := IndexOf(hc.p, f);
      k := i;
      hc.p := hc.p[..i] + [c] + hc.p[i..];
    } else {
      k := 0;
      hc.p := hc.p + [c];
    }
    HungPlanted((g, hc, k), c, n);
  }

  // layout_add_buffer in the other direction: the focused container stays in place as the parent of a copy
  // of itself, and the new one goes before the copy.
  method Split(f: Container, c: Container, n: Buffer, ghost g: Forest) returns (sub: Container)
    requires Linked(g) && Listed(g) && Parented(g) && IsLeaf(g, f) && c !in g.info
    requires c.p == [] && c.count == 0 && c.buf == Just(n)
    modifies f`p, f`count, c`parent
    ensures fresh(sub) && sub.dir == c.dir && !sub.root && sub !in g.info && c != sub
    ensures Listed(Forked(g, f, c, sub, n)) && Parented(Forked(g, f, c, sub, n))
  {
    hide Linked;
    assert Mirror(g, f);
    sub := new Container(c.dir, f.buf, false);
    sub.parent := f;
    f.count := f.count + 1;
    f.p := f.p + [sub];
    c.parent := f;
    f.count := f.count + 1;
    var i := IndexOf(f.p, sub);
    f.p := f.p[..i] + [c] + f.p[i..];
    ForkedListed((g, f), c, sub, n);
  }

  twostate lemma ForkedListed(x: (Forest, Container), new c: Container, new sub: Container, new n: Buffer)
    requires IsLeaf(x.0, x.1) && old(Listed(x.0)) && old(Parented(x.0)) && c !in x.0.info && sub !in x.0.info
    requires c != sub
    requires x.1.p == [c, sub] && x.1.count == 2 && sub.buf == x.0.info[x.1].buf && sub.parent == x.1 == c.parent
    requires c.p == sub.p == [] && c.count == sub.count == 0 && c.buf == Just(n)
    requires forall y :: y in x.0.info ==> y.parent == old(y.parent) && y.buf == old(y.buf)
    requires forall y :: y in x.0.info && y != x.1 ==> y.p == old(y.p) && y.count == old(y.count)
    ensures var g' := Forked(x.0, x.1, c, sub, n); Listed(g') && Parented(g')
  {
    var g, f := x.0, x.1;
    var g' := Forked(g, f, c, sub, n);
    assert old(Mirror(g, f));
    forall y | y in g'.info ensures Mirror(g', y) && y.parent == g'.info[y].parent {
      if y in g.info {
        assert old(Mirror(g, y));
      }
    }
  }

  lemma HeldBy(g: Forest, hc: Container, k: nat, f: Container)
    requires hc in g.info && k < |g.info[hc].kids| && g.info[hc].kids[k] == f && IsLeaf(g, f) && g.info[f].buf.Just?
    ensures Holds(g, hc, k, f, g.info[f].buf.buf)
  {
  }

  lemma AddedStepIs(g: Forest, g': Forest, used: set<Buffer>, b: Buffer, n: Buffer, dir: Dir)
    requires AddedStep(g, g', used, b, n, dir)
    ensures Sound(g', used + {n}) && Linked(g) && Linked(g') && g'.root == g.root && TreeOf(g, g.root).Inner?
    ensures TreeOf(g', g'.root) == Added(TreeOf(g, g.root), b, n, dir)
  {
    hide TreeOf, Shaped, StaleAll, Single, Named, Added, NodeOk, Linked;
  }

  lemma IsValid(l: Layout)
    requires Sound(l.g, l.used) && Listed(l.g) && Parented(l.g) && l.g.root == l.root
    requires IsLeaf(l.g, l.focus) || (l.root in l.g.info && l.focus == l.root && l.g.info[l.root].kids == [])
    ensures l.Valid() && Linked(l.g) && l.Tree() == TreeOf(l.g, l.g.root)
  {
    hide TreeOf, Shaped, StaleAll, Single, Named, NodeOk;
    if IsLeaf(l.g, l.focus) {
      RootAbove(l.g, l.focus);
    }
  }

  lemma GrownCases(t: Tree, f: Maybe, n: Buffer, dir: Dir)
    requires t.Inner?
    ensures t.kids == [] ==> Grown(t, f, n, dir) == Inner(t.dir, [Leaf(t.dir, n)])
    ensures t.kids != [] && f.Just? ==> Grown(t, f, n, dir) == Added(t, f.buf, n, dir)
  {
  }

  // update_sub_items
  method UpdateSubItems(c: Container, ghost g: Forest)
    requires Linked(g) && Listed(g) && c in g.info
    modifies g.info.Keys`parent
    ensures forall y :: y in g.info ==> y.parent == old(y.parent) || y.parent == g.info[y].parent
    ensures forall y :: y in g.info[c].kids ==> y.parent == c
    decreases g.top - g.info[c].rank
  {
    hide Linked;
    assert Mirror(g, c);
    for i := 0 to |c.p|
      invariant forall y :: y in g.info ==> y.parent == old(y.parent) || y.parent == g.info[y].parent
      invariant forall j :: 0 <= j < i ==> c.p[j] in g.info && g.info[c.p[j]].parent == c && c.p[j].parent == c
    {
      var it := c.p[i];
      KidFacts(g, c, i);
      assert Mirror(g, it);
      it.parent := c;
      if it.p != [] {
        UpdateSubItems(it, g);
      }
    }
  }

  // The walk to the first window below.
  method FirstLeaf(start: Container, ghost g: Forest) returns (leaf: Container)
    requires Linked(g) && Listed(g) && start in g.info && start != g.root
    ensures IsLeaf(g, leaf) && leaf.buf == g.info[leaf].buf
    ensures var s := Bufs(TreeOf(g, start)); s != [] && leaf.buf == Just(s[0])
  {
    hide Linked, TreeOf, IsLeaf, Bufs;
    leaf := start;
    HasBuf(g, start);
    assert Mirror(g, leaf);
    while leaf.p != []
      invariant leaf in g.info && leaf != g.root && Mirror(g, leaf) && Bufs(TreeOf(g, leaf)) != []
      invariant Bufs(TreeOf(g, leaf))[0] == Bufs(TreeOf(g, start))[0]
      decreases g.top - g.info[leaf].rank
    {
      FirstKid(g, leaf);
      KidFacts(g, leaf, 0);
      leaf := leaf.p[0];
      assert Mirror(g, leaf);
      HasBuf(g, leaf);
    }
    LeafHere(g, leaf);
    OneBuf(TreeOf(g, leaf));
  }

  lemma OneBuf(t: Tree)
    requires t.Leaf?
    ensures Bufs(t) == [t.buf]
  {
  }

  lemma {:induction false} HasBuf(g: Forest, x: Container)
    requires Linked(g) && x in g.info && x != g.root
    ensures Bufs(TreeOf(g, x)) != []
    decreases g.top - g.info[x].rank
  {
    hide Linked, TreeOf;
    if IsLeaf(g, x) {
      LeafViewed(g, x);
    } else {
      KidsViewed(g, x);
      KidFacts(g, x, 0);
      HasBuf(g, g.info[x].kids[0]);
    }
  }

  lemma FirstKid(g: Forest, x: Container)
    requires Linked(g) && x in g.info && x != g.root && g.info[x].kids != []
    ensures var k := g.info[x].kids[0];
      k in g.info && k != g.root && Bufs(TreeOf(g, x)) != [] && Bufs(TreeOf(g, k)) != []
        && Bufs(TreeOf(g, x))[0] == Bufs(TreeOf(g, k))[0]
  {
    hide Linked, TreeOf;
    KidsViewed(g, x);
    KidFacts(g, x, 0);
    HasBuf(g, g.info[x].kids[0]);
  }

  // The place of a leaf.
  method Seat(c: Container, b: Buffer, ghost g: Forest) returns (hc: Container, k: nat)
    requires Linked(g) && Listed(g) && Parented(g) && IsLeaf(g, c) && g.info[c].buf == Just(b)
    ensures Holds(g, hc, k, c, b) && hc.p == g.info[hc].kids && k < |hc.p| && hc.count == |hc.p| && hc == c.parent
    ensures hc in g.info && (hc.root <==> hc == g.root) && hc != c
  {
    hide Linked, NodeOk;
    UpIsLess(g, c);
    RootFlag(g, g.info[c].parent);
    assert Mirror(g, g.info[c].parent);
    hc := c.parent;
    k := IndexOf(hc.p, c);
  }

  lemma RootFlag(g: Forest, x: Container)
    requires Linked(g) && x in g.info
    ensures x.root <==> x == g.root
  {
    assert NodeOk(g, x);
  }

  // The container has lost the leaf.
  ghost predicate Lost(g: Forest, hc: Container, k: nat)
    requires hc in g.info
    reads g.info.Keys`p, g.info.Keys`count, g.info.Keys`buf, g.info.Keys`parent
  {
    && k < |g.info[hc].kids| && hc.p == g.info[hc].kids[..k] + g.info[hc].kids[k + 1..] && hc.count == |hc.p|
    && hc.buf == g.info[hc].buf && Parented(g)
    && forall x :: x in g.info && x != hc ==> Mirror(g, x)
  }

  method TakeFromList(hc: Container, k: nat, ghost g: Forest)
    requires Listed(g) && Parented(g) && hc in g.info && k < |g.info[hc].kids|
    modifies hc`p, hc`count
    ensures Lost(g, hc, k)
  {
    assert Mirror(g, hc);
    hc.p := hc.p[..k] + hc.p[k + 1..];
    hc.count := hc.count - 1;
    assert forall x :: x in g.info && x != hc ==> Mirror(g, x) by {
      assert forall x :: x in g.info ==> old(Mirror(g, x));
    }
  }

  lemma LostDropped(g: Forest, hc: Container, k: nat, c: Container, b: Buffer)
    requires Holds(g, hc, k, c, b) && c != hc && Lost(g, hc, k)
    ensures Listed(Dropped(g, hc, k)) && Parented(Dropped(g, hc, k))
  {
    var g' := Dropped(g, hc, k);
    forall y | y in g'.info ensures Mirror(g', y) && y.parent == g'.info[y].parent {
      if y != hc {
        assert Mirror(g, y);
      }
    }
  }

  // The only child left gives its container what it has.
  method Collapse(hc: Container, next: Container, ghost k: nat, ghost c: Container, ghost b: Buffer, ghost g: Forest)
    requires Linked(g) && Pair(g, hc, k, c, b, next) && hc in g.info && Lost(g, hc, k) && hc != g.root
    requires next in g.info && hc != c && hc != next && c != next && Linked(Folded(g, hc, c, next))
    modifies hc`p, hc`count, hc`buf, next`p, g.info.Keys`parent
    ensures Listed(Folded(g, hc, c, next)) && Parented(Folded(g, hc, c, next))
  {
    hide Linked;
    ghost var g' := Folded(g, hc, c, next);
    assert Mirror(g, next);
    hc.buf := next.buf;
    hc.count := next.count;
    hc.p := hc.p[..0] + hc.p[1..];
    next.p, hc.p := hc.p, next.p;
    FoldedListed(g, hc, k, c, b, next);
    UpdateSubItems(hc, g');
    assert Parented(g') by {
      forall y | y in g'.info ensures y.parent == g'.info[y].parent {
        assert old(y.parent) == g.info[y].parent;
      }
    }
  }

  lemma FoldedListed(g: Forest, hc: Container, k: nat, c: Container, b: Buffer, next: Container)
    requires Pair(g, hc, k, c, b, next) && hc in g.info && next in g.info && c != hc && hc != next
    requires hc.p == g.info[next].kids && hc.count == |hc.p| && hc.buf == g.info[next].buf
    requires forall x :: x in g.info && x != hc && x != next ==> Mirror(g, x)
    ensures Listed(Folded(g, hc, c, next))
  {
    var g' := Folded(g, hc, c, next);
    forall y | y in g'.info ensures Mirror(g', y) {
      if y != hc {
        assert Mirror(g, y);
      }
    }
  }

  lemma FoldedKeys(g: Forest, hc: Container, c: Container, next: Container)
    requires hc in g.info && next in g.info
    ensures Folded(g, hc, c, next).info.Keys == g.info.Keys - {c, next} && Folded(g, hc, c, next).root == g.root
  {
  }

  lemma DroppedKeys(g: Forest, hc: Container, k: nat)
    requires hc in g.info && k < |g.info[hc].kids| && g.info[hc].kids[k] != hc
    ensures Dropped(g, hc, k).info.Keys == g.info.Keys - {g.info[hc].kids[k]} && Dropped(g, hc, k).root == g.root
  {
  }

  lemma RemovedStepIs(g: Forest, g': Forest, used: set<Buffer>, b: Buffer)
    requires RemovedStep(g, g', used, b)
    ensures Sound(g', used) && Linked(g) && Linked(g') && g'.root == g.root && TreeOf(g, g.root).Inner?
    ensures TreeOf(g', g'.root) == Removed(TreeOf(g, g.root), b)
  {
    hide TreeOf, Shaped, StaleAll, Single, Named, Removed, NodeOk, Linked;
  }

  // What the sibling is when there are two children, or one.
  lemma NextIs(g: Forest, hc: Container, k: nat, c: Container, b: Buffer, next: Container?)
    requires Linked(g) && Holds(g, hc, k, c, b) && k < |g.info[hc].kids| && next == NextOrPrev(g.info[hc].kids, k)
    ensures next == null ==> hc == g.root && |g.info[hc].kids| == 1
    ensures next != null ==> |g.info[hc].kids| > 1 && next in g.info && next != hc && next != c && next != g.root
    ensures next != null && |g.info[hc].kids| == 2 ==> Pair(g, hc, k, c, b, next)
  {
    hide Linked;
    Branching(g, hc);
    var s := g.info[hc].kids;
    var j := if k + 1 < |s| then k + 1 else if k > 0 then k - 1 else k;
    KidFacts(g, hc, j);
  }

  // The other windows stay.
  ghost predicate LeavesKept(g: Forest, g': Forest, c: Container, next: Container?) {
    forall x :: x in g.info && IsLeaf(g, x) && x != c && x != next ==> IsLeaf(g', x) && g'.info[x].buf == g.info[x].buf
  }

  // What the focused window is afterwards.
  lemma FocusKept(g: Forest, g': Forest, c: Container, next: Container?, f: Container, b: Buffer)
    requires Linked(g) && Single(g) && LeavesKept(g, g', c, next) && IsLeaf(g, c) && g.info[c].buf == Just(b)
    requires Focused(g, f)
    ensures IsLeaf(g, f) && (g.info[f].buf == Just(b) <==> f == c)
    ensures f != c && f != next ==> IsLeaf(g', f) && g'.info[f].buf == g.info[f].buf && f != g'.root
  {
    hide Linked;
    RootAbove(g, c);
  }

  lemma HeirGives(g: Forest, b: Buffer, next: Container)
    requires Linked(g) && next in g.info && HeirOf(g, b, next) && AsLeaf(g, next)
    ensures g.root in g.info
    ensures var s := Bufs(TreeOf(g, next));
      s != [] && Heir(TreeOf(g, g.root), b, s[0]) && (IsLeaf(g, next) ==> g.info[next].buf == Just(s[0]))
  {
    hide Linked, TreeOf, Bufs, Heir, IsLeaf;
  }

  lemma FoldedNext(g: Forest, g': Forest, hc: Container, k: nat, c: Container, b: Buffer, next: Container)
    requires Linked(g) && Single(g) && g.root in g.info && Shaped(TreeOf(g, g.root)) && Linked(g')
    requires Pair(g, hc, k, c, b, next) && hc in g.info && next in g.info && hc != g.root
    requires c != hc && next != hc && next != c && next != g.root && g' == Folded(g, hc, c, next)
    ensures LeavesKept(g, g', c, next) && PassedOn(g, g', next, hc, b)
  {
    hide *;
    PairHolds(g, hc, k, c, b, next);
    PairNext(g, hc, k, c, b, next);
    FoldedCollapsed(g, hc, k, c, b, next);
    FoldedSame(g, g', hc, k, c, b, next);
    RemovedCollapse(g, g', hc, k, c, b, next, hc);
    HeirIs(g, hc, k, c, b, next);
    FoldedBufs(g, g', hc, k, c, b, next);
    AsLeafIs(g, next);
    IsPassed(g, g', next, hc, b);
  }

  lemma PairNext(g: Forest, hc: Container, k: nat, c: Container, b: Buffer, next: Container)
    requires Pair(g, hc, k, c, b, next) && hc in g.info
    ensures k < |g.info[hc].kids| && next == NextOrPrev(g.info[hc].kids, k)
  {
  }

  // The leaf c, with buffer b, is the k-th child of hc, and next is what the focus looks at.
  ghost predicate NextTo(g: Forest, hc: Container, k: nat, c: Container, b: Buffer, next: Container?) {
    && Linked(g) && Holds(g, hc, k, c, b) && next == NextOrPrev(g.info[hc].kids, k)
  }

  ghost predicate DroppedTo(g: Forest, g': Forest, hc: Container, k: nat) {
    hc in g.info && k < |g.info[hc].kids| && g.info[hc].kids[k] != hc && g' == Dropped(g, hc, k)
  }

  lemma NextToHolds(g: Forest, hc: Container, k: nat, c: Container, b: Buffer, next: Container?)
    requires Linked(g) && Holds(g, hc, k, c, b) && k < |g.info[hc].kids| && next == NextOrPrev(g.info[hc].kids, k)
    ensures NextTo(g, hc, k, c, b, next)
  {
  }

  // Where there is no window, the root is the only container.
  lemma NoneLeft(g: Forest, f: Container)
    requires Linked(g) && g.root in g.info && g.info[g.root].kids == [] && (IsLeaf(g, f) || f == g.root)
    ensures f == g.root
  {
    Childless(g);
  }

  lemma NextToIs(g: Forest, hc: Container, k: nat, c: Container, b: Buffer, next: Container?)
    requires NextTo(g, hc, k, c, b, next)
    ensures Holds(g, hc, k, c, b) && hc in g.info && k < |g.info[hc].kids| && g.info[hc].kids[k] == c && c != hc
    ensures next == NextOrPrev(g.info[hc].kids, k) && IsLeaf(g, c)
    ensures next == null ==> hc == g.root && |g.info[hc].kids| == 1
    ensures next != null ==> |g.info[hc].kids| > 1 && next in g.info && next != hc && next != c && next != g.root
    ensures next != null && |g.info[hc].kids| == 2 ==> Pair(g, hc, k, c, b, next)
  {
    hide Linked, NodeOk;
    NextIs(g, hc, k, c, b, next);
    KidFacts(g, hc, k);
  }

  // The first window below start is where the focus goes.
  ghost predicate PassedOn(g: Forest, g': Forest, next: Container, start: Container, b: Buffer) {
    && Linked(g) && Linked(g') && next in g.info && start in g'.info && start != g'.root
    && Bufs(TreeOf(g', start)) == Bufs(TreeOf(g, next)) && HeirOf(g, b, next) && AsLeaf(g, next)
  }

  lemma IsPassed(g: Forest, g': Forest, next: Container, start: Container, b: Buffer)
    requires Linked(g) && Linked(g') && next in g.info && start in g'.info && start != g'.root
    requires Bufs(TreeOf(g', start)) == Bufs(TreeOf(g, next)) && HeirOf(g, b, next) && AsLeaf(g, next)
    ensures PassedOn(g, g', next, start, b)
  {
    hide Linked, TreeOf, HeirOf, AsLeaf, Bufs;
  }

  lemma IsDropped(g: Forest, g': Forest, hc: Container, k: nat)
    requires hc in g.info && k < |g.info[hc].kids| && g.info[hc].kids[k] != hc && g' == Dropped(g, hc, k)
    ensures DroppedTo(g, g', hc, k)
  {
  }

  lemma DroppedIs(g: Forest, g': Forest, hc: Container, k: nat)
    requires DroppedTo(g, g', hc, k)
    ensures hc in g.info && k < |g.info[hc].kids| && g.info[hc].kids[k] != hc && g' == Dropped(g, hc, k)
    ensures |g.info[hc].kids| == 1 ==> g'.info[hc].kids == []
  {
  }

  lemma PassedIs(g: Forest, g': Forest, next: Container, start: Container, b: Buffer)
    requires PassedOn(g, g', next, start, b)
    ensures Linked(g) && Linked(g') && next in g.info && start in g'.info && start != g'.root && g.root in g.info
    ensures var s := Bufs(TreeOf(g', start));
      s != [] && Heir(TreeOf(g, g.root), b, s[0]) && (IsLeaf(g, next) ==> g.info[next].buf == Just(s[0]))
  {
    hide Linked, TreeOf, HeirOf, AsLeaf, Bufs, Heir;
    HeirGives(g, b, next);
  }

  // A window has its own buffer below it.
  ghost predicate AsLeaf(g: Forest, x: Container)
    requires Linked(g) && x in g.info
  {
    IsLeaf(g, x) ==> g.info[x].buf.Just? && Bufs(TreeOf(g, x)) == [g.info[x].buf.buf]
  }

  lemma AsLeafIs(g: Forest, x: Container)
    requires Linked(g) && x in g.info
    ensures AsLeaf(g, x)
  {
    hide Linked, TreeOf;
    if IsLeaf(g, x) {
      LeafViewed(g, x);
    }
  }

  // The focus may go to the first window below next when b is removed.
  ghost predicate HeirOf(g: Forest, b: Buffer, next: Container)
    requires Linked(g) && next in g.info
  {
    g.root in g.info && var s := Bufs(TreeOf(g, next)); s != [] && Heir(TreeOf(g, g.root), b, s[0])
  }

  lemma FoldedSame(g: Forest, g': Forest, hc: Container, k: nat, c: Container, b: Buffer, next: Container)
    requires Pair(g, hc, k, c, b, next) && hc in g.info && next in g.info && hc != g.root && hc != c && next != hc
    requires g' == Folded(g, hc, c, next)
    ensures hc in g'.info && g'.root == g.root && LeavesKept(g, g', c, next)
  {
  }

  lemma FoldedBufs(g: Forest, g': Forest, hc: Container, k: nat, c: Container, b: Buffer, next: Container)
    requires Linked(g) && Linked(g') && Pair(g, hc, k, c, b, next) && hc in g.info && next in g.info && hc in g'.info
    requires g.root in g.info && Shaped(TreeOf(g, g.root)) && hc != g.root && Pruned(g, g', hc, b)
    ensures Bufs(TreeOf(g', hc)) == Bufs(TreeOf(g, next))
  {
    hide Linked, TreeOf, RemovedOne, Without, Bufs, BufsOf;
    var t := TreeOf(g, hc);
    BufsRemovedOne(t, b);
    SingleBufs(TreeOf(g', hc));
    KidsViewed(g, hc);
    DistinctDown(g, hc);
    BufsOfInner(t);
    KidsApart(t.kids, k, 1 - k);
    LeafViewed(g, c);
    OneBuf(t.kids[k]);
    TwoBufs(t.kids, k, b);
  }

  lemma TwoBufs(kids: seq<Tree>, k: nat, b: Buffer)
    requires |kids| == 2 && k < 2 && Bufs(kids[k]) == [b] && b !in Bufs(kids[1 - k])
    ensures Without(BufsOf(kids), b) == Bufs(kids[1 - k])
  {
    hide Bufs;
    assert kids[1..] == [kids[1]];
    SingleBufs(kids[1]);
    WithoutAppend(Bufs(kids[0]), Bufs(kids[1]), b);
    WithoutNone(Bufs(kids[1 - k]), b);
    assert Without([b], b) == [];
  }

  // A part of the tree shows a buffer once, as the whole does.
  lemma {:induction false} DistinctDown(g: Forest, x: Container)
    requires Linked(g) && x in g.info && g.root in g.info && Shaped(TreeOf(g, g.root))
    ensures Distinct(Bufs(TreeOf(g, x)))
    decreases g.info[x].rank
  {
    hide Linked, TreeOf, GoodRoot;
    if x != g.root {
      UpIsLess(g, x);
      var p := g.info[x].parent;
      DistinctDown(g, p);
      NoLeafParent(g, p, x);
      KidsViewed(g, p);
      var i :| 0 <= i < |g.info[p].kids| && g.info[p].kids[i] == x;
      KidDistinct(TreeOf(g, p).kids, i);
    }
  }

  lemma NoLeafParent(g: Forest, p: Container, x: Container)
    requires p in g.info && x in g.info[p].kids
    ensures !IsLeaf(g, p)
  {
  }

  lemma HeirIs(g: Forest, hc: Container, k: nat, c: Container, b: Buffer, next: Container)
    requires Linked(g) && Holds(g, hc, k, c, b) && k < |g.info[hc].kids| && next == NextOrPrev(g.info[hc].kids, k)
    requires next in g.info && next != g.root && g.root in g.info
    ensures HeirOf(g, b, next)
  {
    hide Linked, TreeOf, Bufs;
    NoLeafParent(g, hc, c);
    KidsViewed(g, hc);
    HasBuf(g, next);
    LeafViewed(g, c);
    var h := Bufs(TreeOf(g, next))[0];
    assert HeirAt(TreeOf(g, hc).kids, k, b, h);
    HeirUp(g, hc, b, h);
  }

  lemma {:induction false} HeirUp(g: Forest, x: Container, b: Buffer, h: Buffer)
    requires Linked(g) && x in g.info && g.root in g.info && Heir(TreeOf(g, x), b, h)
    ensures Heir(TreeOf(g, g.root), b, h)
    decreases g.info[x].rank
  {
    hide Linked, TreeOf, HeirAt;
    if x != g.root {
      UpIsLess(g, x);
      var p := g.info[x].parent;
      NoLeafParent(g, p, x);
      KidsViewed(g, p);
      var i :| 0 <= i < |g.info[p].kids| && g.info[p].kids[i] == x;
      assert TreeOf(g, p).kids[i] == TreeOf(g, x);
      HeirUp(g, p, b, h);
    }
  }

  lemma DroppedNext(g: Forest, g': Forest, hc: Container, k: nat, c: Container, b: Buffer, next: Container?)
    requires Linked(g) && Single(g) && g.root in g.info && Shaped(TreeOf(g, g.root)) && Linked(g')
    requires NextTo(g, hc, k, c, b, next) && DroppedTo(g, g', hc, k) && (hc != g.root ==> |g.info[hc].kids| != 2)
    ensures next != null ==> PassedOn(g, g', next, next, b)
    ensures LeavesKept(g, g', c, next)
    ensures next == null ==> g'.info[g.root].kids == []
  {
    hide *;
    NextToIs(g, hc, k, c, b, next);
    DroppedIs(g, g', hc, k);
    DroppedShrunk(g, hc, k, c, b);
    DroppedSame(g, g', hc, k, c, b, next);
    if next != null {
      RemovedLeaf(g, g', hc, k, c, b, next);
      HeirIs(g, hc, k, c, b, next);
      AsLeafIs(g, next);
      DroppedBufs(g, g', hc, k, c, b, next);
      IsPassed(g, g', next, next, b);
    }
  }

  lemma DroppedSame(g: Forest, g': Forest, hc: Container, k: nat, c: Container, b: Buffer, next: Container?)
    requires Holds(g, hc, k, c, b) && c != hc && g' == Dropped(g, hc, k)
    ensures g'.root == g.root && LeavesKept(g, g', c, next)
  {
  }

  lemma DroppedBufs(g: Forest, g': Forest, hc: Container, k: nat, c: Container, b: Buffer, next: Container)
    requires Linked(g) && Linked(g') && Holds(g, hc, k, c, b) && k < |g.info[hc].kids|
    requires next == NextOrPrev(g.info[hc].kids, k)
    requires next in g.info && next in g'.info && next != g.root && g.root in g.info
    requires Shaped(TreeOf(g, g.root)) && Pruned(g, g', next, b)
    ensures Bufs(TreeOf(g', next)) == Bufs(TreeOf(g, next))
  {
    hide Linked, TreeOf, RemovedOne, Without, Bufs, BufsOf;
    var t := TreeOf(g, hc);
    NoLeafParent(g, hc, c);
    BufsRemovedOne(TreeOf(g, next), b);
    SingleBufs(TreeOf(g', next));
    KidsViewed(g, hc);
    DistinctDown(g, hc);
    BufsOfInner(t);
    KidsApart(t.kids, k, if k + 1 < |t.kids| then k + 1 else k - 1);
    LeafViewed(g, c);
    OneBuf(t.kids[k]);
    WithoutNone(Bufs(TreeOf(g, next)), b);
  }

  lemma CanIs(op: Op, live: set<Buffer>, used: set<Buffer>)
    requires CanDo(op, live, used)
    ensures (op.Add? ==> op.buf !in used && EverShown(op, used) == used + {op.buf}) && (op.Remove? ==> op.buf in live)
    ensures !op.Add? ==> EverShown(op, used) == used
  {
  }

  lemma StepAdd(t: Tree, f: Maybe, n: Buffer, move: Move)
    requires t.Inner? && (t != Inner(Horizontal, []) ==> f.Just? && f.buf in Bufs(t)) && t.dir == Horizontal
    ensures StepOf(t, Add(n, move), Grown(t, f, n, DirOf(move)))
    ensures Shows(Grown(t, f, n, DirOf(move))) == NowShown(Add(n, move), Shows(t))
  {
    var dir := DirOf(move);
    if t == Inner(Horizontal, []) {
      SingleBufs(Leaf(t.dir, n));
      assert Bufs(t) == [] && Bufs(Grown(t, f, n, dir)) == [n];
    } else {
      BufsAdded(t.kids, f.buf, n, dir);
      PutMembers(Bufs(t), f.buf, n);
    }
  }

  lemma StepRemove(t: Tree, b: Buffer)
    requires t.Inner? && b in Shows(t)
    ensures b in Bufs(t) && StepOf(t, Remove(b), Removed(t, b)) && Shows(Removed(t, b)) == NowShown(Remove(b), Shows(t))
  {
    BufsRemoved(t.kids, b);
    WithoutMembers(Bufs(t), b);
  }

  lemma StepResize(t: Tree, size: Rect, used: set<Buffer>)
    ensures StepOf(t, Resize(size), t) && Shows(t) == NowShown(Resize(size), Shows(t))
    ensures used == EverShown(Resize(size), used)
  {
  }

  lemma TraceStart(ops: seq<Op>, t: Tree)
    ensures IsTrace(ops, [t], 0)
  {
  }

  lemma TraceNext(ops: seq<Op>, trace: seq<Tree>, done: nat, t: Tree)
    requires IsTrace(ops, trace, done) && done < |ops| && done < |trace| && StepOf(trace[done], ops[done], t)
    ensures IsTrace(ops, trace + [t], done + 1)
  {
    hide StepOf;
  }

  lemma AllowedNext(ops: seq<Op>, done: nat, live: set<Buffer>, used: set<Buffer>)
    requires done < |ops| && Allowed(ops[done..], live, used)
    ensures CanDo(ops[done], live, used)
    ensures Allowed(ops[done + 1..], NowShown(ops[done], live), EverShown(ops[done], used))
  {
    assert ops[done..][1..] == ops[done + 1..];
  }

  // The only window takes the whole screen, any other is beside the focused one.
  lemma IsNeighbour(l: Layout, t: Tree, f: Maybe, n: Buffer, move: Move, ok: bool, shown: seq<Shown>)
    requires t.Inner? && t.dir == Horizontal && (t != Inner(Horizontal, []) ==> f.Just? && f.buf in Bufs(t))
    requires l.Tree() == Grown(t, f, n, DirOf(move)) && l.Drawn(ok, shown) && ok
    ensures if t == Inner(Horizontal, []) then shown == [Shown(n, l.root.rect)]
      else f.Just? && Neighbours(shown, n, f.buf, move)
  {
    hide Neighbours, Linked, IsLeaf, Layout.Tree;
    if t.kids != [] {
      ShownBeside(t, l.root.rect, f.buf, n, move);
    } else {
      OnlyShown(n, l.root.rect);
    }
  }

  lemma OnlyShown(n: Buffer, r: Rect)
    requires Fits(Inner(Horizontal, [Leaf(Horizontal, n)]), r)
    ensures Rects(Inner(Horizontal, [Leaf(Horizontal, n)]), r) == [Shown(n, r)]
  {
    var t := Inner(Horizontal, [Leaf(Horizontal, n)]);
    LeafShown(t, r, 0);
    ModItself(r.lines);
  }

  lemma ModItself(size: nat)
    requires size > 0
    ensures Share(size, 1) == size && Rest(size, 1) == 0
  {
  }

  // The focused window is one of those shown.
  lemma FocusShown(l: Layout)
    requires l.Valid()
    ensures l.Tree().Inner? && l.Tree().dir == Horizontal
    ensures l.Tree() != Inner(Horizontal, []) ==> l.focus.buf.Just? && l.focus.buf.buf in Bufs(l.Tree())
  {
    hide *;
    ValidIs(l);
    FocusIs(l);
    KidsViewed(l.g, l.root);
    RootDir(l.g);
    if !l.focus.root {
      LeafViewed(l.g, l.focus);
      LeafBuf(TreeOf(l.g, l.focus));
      ShownAbove(l.g, l.focus, l.focus.buf.buf);
    }
  }

  lemma {:induction false} ShownAbove(g: Forest, x: Container, b: Buffer)
    requires Linked(g) && x in g.info && g.root in g.info && b in Bufs(TreeOf(g, x))
    ensures b in Bufs(TreeOf(g, g.root))
    decreases g.info[x].rank
  {
    hide Linked, TreeOf, Bufs;
    if x != g.root {
      UpIsLess(g, x);
      var p := g.info[x].parent;
      NoLeafParent(g, p, x);
      KidsViewed(g, p);
      var i :| 0 <= i < |g.info[p].kids| && g.info[p].kids[i] == x;
      KidBufs(TreeOf(g, p).kids, i);
      BufsOfInner(TreeOf(g, p));
      ShownAbove(g, p, b);
    }
  }

  // Two windows one above the other in a single line: the second one makes the update divide by zero.
  method TwoInOneLine() returns (first: bool, second: bool)
    ensures first && !second
  {
    hide *;
    var l := new Layout(Rect(0, 0, 1, 80));
    GrowTwo(l.focus.buf);
    var shown;
    first, shown := l.AddBuffer(1, Up);
    DrawnIs(l, first, shown);
    second, shown := l.AddBuffer(2, Up);
    DrawnIs(l, second, shown);
  }

  lemma DrawnIs(l: Layout, ok: bool, shown: seq<Shown>)
    requires l.Drawn(ok, shown)
    ensures ok <==> Fits(l.Tree(), l.root.rect)
  {
  }

  lemma GrowTwo(f: Maybe)
    ensures var r, one := Rect(0, 0, 1, 80), Inner(Horizontal, [Leaf(Horizontal, 1)]);
      && Grown(Inner(Horizontal, []), f, 1, DirOf(Up)) == one && Fits(one, r)
      && !Fits(Grown(one, Just(1), 2, DirOf(Up)), r)
  {
    var one := Inner(Horizontal, [Leaf(Horizontal, 1)]);
    var two := Grown(one, Just(1), 2, Horizontal);
    assert two.kids == Beside(one.kids[0], 2, Horizontal) + [];
    assert |two.kids| == 2;
  }
}
