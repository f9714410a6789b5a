/// Removing a directory tree: the walk that queues the entries parents-first with counts of
/// pending children, and the queue processing in which those counts alone decide when a
/// directory may go.
module RemoveTree {
  import opened FileTree

  class FileItem {
    const src: Path
    const parent: FileItem?
    var refs: int

    constructor (src: Path, parent: FileItem?)
      ensures this.src == src && this.parent == parent && refs == 0
    {
      this.src, this.parent, refs := src, parent, 0;
    }
  }

  // Which item stands for which entry of the tree.
  datatype Node = Node(item: FileItem, path: Path, tree: Tree, kids: seq<Node>)

  ghost function Items(n: Node): seq<FileItem>
    decreases n, 1
  {
    [n.item] + ItemsAll(n.kids)
  }

  // Preorder: a directory before everything beneath it.
  ghost function ItemsAll(ns: seq<Node>): seq<FileItem>
    decreases ns, 0
  {
    if ns == [] then [] else Items(ns[0]) + ItemsAll(ns[1..])
  }

  function KidsOf(t: Tree): seq<Tree> {
    if t.Dir? then t.kids else []
  }

  ghost function Set(n: Node): set<FileItem>
    decreases n, 1
  {
    {n.item} + SetAll(n.kids)
  }

  ghost function SetAll(ns: seq<Node>): set<FileItem>
    decreases ns, 0
  {
    if ns == [] then {} else Set(ns[0]) + SetAll(ns[1..])
  }

  // The items mirror the tree, each counts its children, and no item stands for two entries.
  ghost predicate Built(n: Node, parent: FileItem?)
    reads Set(n)
    decreases n, 1
  {
    && n.item.src == n.path && n.item.parent == parent && n.item.refs == |n.kids|
    && n.item !in SetAll(n.kids) && BuiltAll(n.kids, KidsOf(n.tree), n.path, n.item)
  }

  ghost predicate BuiltAll(ns: seq<Node>, ts: seq<Tree>, p: Path, parent: FileItem?)
    reads SetAll(ns)
    decreases ns, 0
  {
    if ns == [] then ts == []
    else
      && ts != [] && ns[0].tree == ts[0] && ns[0].path == p + [ts[0].name]
      && Set(ns[0]) !! SetAll(ns[1..])
      && Built(ns[0], parent) && BuiltAll(ns[1..], ts[1..], p, parent)
  }

  lemma {:induction false} ItemsAppend(a: seq<Node>, b: seq<Node>)
    ensures ItemsAll(a + b) == ItemsAll(a) + ItemsAll(b) && SetAll(a + b) == SetAll(a) + SetAll(b)
  {
    if a == [] {
      assert a + b == b;
    } else {
      assert (a + b)[1..] == a[1..] + b;
      ItemsAppend(a[1..], b);
    }
  }

  lemma {:induction false} BuiltAppend(ns: seq<Node>, ts: seq<Tree>, n: Node, p: Path, parent: FileItem?)
    requires SetAll(ns) !! Set(n) && BuiltAll(ns, ts, p, parent) && Built(n, parent) && n.path == p + [n.tree.name]
    ensures BuiltAll(ns + [n], ts + [n.tree], p, parent)
  {
    if ns == [] {
      assert ns + [n] == [n] && ts + [n.tree] == [n.tree];
    } else {
      ItemsAppend(ns[1..], [n]);
      assert SetAll([n]) == Set(n);
      assert (ns + [n])[1..] == ns[1..] + [n] && (ts + [n.tree])[1..] == ts[1..] + [n.tree];
      BuiltAppend(ns[1..], ts[1..], n, p, parent);
    }
  }

  lemma BuiltNext(ns: seq<Node>, ts: seq<Tree>, n: Node, p: Path, parent: FileItem?, before: seq<FileItem>)
    requires |ns| < |ts| && n.tree == ts[|ns|] && n.path == p + [n.tree.name]
    requires SetAll(ns) !! Set(n) && BuiltAll(ns, ts[..|ns|], p, parent) && Built(n, parent)
    ensures BuiltAll(ns + [n], ts[..|ns| + 1], p, parent) && SetAll(ns + [n]) == SetAll(ns) + Set(n)
    ensures before + ItemsAll(ns + [n]) == (before + ItemsAll(ns)) + Items(n)
    ensures |ItemsAll(ns + [n])| == |ItemsAll(ns)| + |Items(n)|
  {
    assert ts[..|ns| + 1] == ts[..|ns|] + [n.tree];
    ItemsAppend(ns, [n]);
    assert ItemsAll([n]) == Items(n) && SetAll([n]) == Set(n);
    BuiltAppend(ns, ts[..|ns|], n, p, parent);
  }

  // The walk (ftw.c). The directory listing is the tree's list of children.
  class Ftw {
    var cur: FileItem?
    var depth: int
    var count: int
    var queue: seq<FileItem>

    constructor (root: FileItem)
      ensures cur == root && depth == 0 && count == 0 && queue == [root]
    {
      cur, depth, count, queue := root, 0, 0, [root];
    }

    method AddEnt(path: Path, isDir: bool) returns (item: FileItem?)
      requires depth != 0 ==> cur != null
      modifies this, (if cur != null then {cur} else {})`refs
      ensures count == old(count) + 1 && depth == old(depth)
      ensures depth == 0 ==>
        cur == old(cur) && queue == old(queue) && item == null && (cur != null ==> cur.refs == old(cur.refs))
      ensures depth != 0 ==>
        && item != null && fresh(item) && item.src == path && item.parent == old(cur) && item.refs == 0
        && queue == old(queue) + [item] && cur == (if isDir then item else old(cur))
        && item.parent != null && item.parent.refs == old(cur.refs) + 1
    {
      count := count + 1;
      if depth == 0 {
        return null;
      }
      var created := new FileItem(path, cur);
      cur.refs := cur.refs + 1;
      queue := queue + [created];
      if isDir {
        cur := created;
      }
      item := created;
    }

    // do_ftw below the root: queues the entries of t in preorder.
    method Walk(t: Tree, path: Path) returns (ghost n: Node, ghost used: set<FileItem>)
      requires depth > 0 && cur != null
      modifies this, cur`refs
      ensures n.tree == t && n.path == path && Built(n, cur) && used == Set(n) && fresh(used)
      ensures queue == old(queue) + Items(n) && cur == old(cur) && depth == old(depth)
      ensures cur.refs == old(cur.refs) + 1 && count == old(count) + |Items(n)|
      decreases t, 1
    {
      var item := AddEnt(path, t.Dir?);
      ghost var kids := [];
      used := {};
      if t.Dir? {
        depth := depth + 1;
        kids, used := WalkAll(t.kids, path);
        depth := depth - 1;
        cur := cur.parent;
      }
      n := Node(item, path, t, kids);
      used := used + {item};
    }

    // The loop over the entries of one directory.
    method WalkAll(ts: seq<Tree>, path: Path) returns (ghost ns: seq<Node>, ghost used: set<FileItem>)
      requires depth > 0 && cur != null
      modifies this, cur`refs
      ensures BuiltAll(ns, ts, path, cur) && |ns| == |ts| && used == SetAll(ns) && fresh(used)
      ensures queue == old(queue) + ItemsAll(ns) && cur == old(cur) && depth == old(depth)
      ensures cur.refs == old(cur.refs) + |ts| && count == old(count) + |ItemsAll(ns)|
      decreases ts, 0
    {
      ns, used := [], {};
      for i := 0 to |ts|
        invariant BuiltAll(ns, ts[..i], path, cur) && |ns| == i && used == SetAll(ns) && fresh(used)
        invariant queue == old(queue) + ItemsAll(ns) && cur == old(cur) && depth == old(depth)
        invariant cur.refs == old(cur.refs) + i && count == old(count) + |ItemsAll(ns)|
      {
        hide ItemsAll, SetAll, BuiltAll;
        ghost var n, more := Walk(ts[i], path + [ts[i].name]);
        BuiltNext(ns, ts, n, path, cur, old(queue));
        ns, used := ns + [n], used + more;
      }
      assert ts[..|ts|] == ts;
    }

    // ftw_start for a removal: the root is queued already, the walk adds what is beneath it.
    method Start(root: FileItem, t: Tree) returns (ghost n: Node, ghost used: set<FileItem>)
      requires cur == root && depth == 0 && queue == [root] && root.refs == 0 && root.parent == null
      modifies this, root`refs
      ensures n.item == root && n.tree == t && n.path == root.src && Built(n, null)
      ensures queue == Items(n) && count == old(count) + |Items(n)| && used == Set(n) && fresh(used - {root})
      ensures depth == 0 && cur == if t.Dir? then null else root
    {
      var _ := AddEnt(root.src, t.Dir?);
      ghost var kids := [];
      used := {};
      if t.Dir? {
        depth := depth + 1;
        kids, used := WalkAll(t.kids, root.src);
        depth := depth - 1;
        cur := cur.parent;
      }
      n := Node(root, root.src, t, kids);
      used := used + {root};
    }
  }

  // What is left to do between two steps of the queue. Level: dir has left the queue, and of
  // its children the first done have too.
  datatype Agenda = Start(root: Node) | Finished | Level(dir: Node, done: nat, up: Agenda)

  ghost function Drop<T>(s: seq<T>, k: nat): seq<T> {
    if k <= |s| then s[k..] else []
  }

  ghost function Queue(ag: Agenda): seq<FileItem> {
    match ag
    case Start(n) => Items(n)
    case Finished => []
    case Level(d, k, up) => ItemsAll(Drop(d.kids, k)) + Queue(up)
  }

  ghost function Remaining(ag: Agenda): seq<Call> {
    match ag
    case Start(n) => Post(n.tree, n.path)
    case Finished => []
    case Level(d, k, up) =>
      PostAll(Drop(KidsOf(d.tree), k), d.path) + [Call(d.path, d.tree.Dir?)] + Remaining(up)
  }

  // The items not freed yet.
  ghost function Live(ag: Agenda): set<FileItem> {
    match ag
    case Start(n) => Set(n)
    case Finished => {}
    case Level(d, k, up) => {d.item} + SetAll(Drop(d.kids, k)) + Live(up)
  }

  // The references agree with the agenda: a directory counts its children that are still queued,
  // and the one being worked on (open).
  ghost predicate Ready(ag: Agenda, open: nat)
    reads Live(ag)
  {
    match ag
    case Start(n) => Built(n, null)
    case Finished => true
    case Level(d, k, up) =>
      && k <= |d.kids| && d.item.refs == |d.kids| - k + open && d.item.src == d.path
      && !up.Start? && d.item.parent == (if up.Level? then up.dir.item else null)
      && (up.Level? ==> up.dir.tree.Dir?)
      && d.item !in SetAll(Drop(d.kids, k)) + Live(up) && SetAll(Drop(d.kids, k)) !! Live(up)
      && BuiltAll(Drop(d.kids, k), Drop(KidsOf(d.tree), k), d.path, d.item) && Ready(up, 1)
  }

  // Between two steps nothing is left that could be removed.
  ghost predicate Settled(ag: Agenda) {
    ag.Level? ==> ag.done < |ag.dir.kids|
  }

  ghost function Next(ag: Agenda): Node
    requires !ag.Finished? && Settled(ag)
  {
    if ag.Start? then ag.root else ag.dir.kids[ag.done]
  }

  ghost function Dequeued(ag: Agenda): Agenda
    requires !ag.Finished? && Settled(ag)
  {
    Level(Next(ag), 0, if ag.Start? then Finished else Level(ag.dir, ag.done + 1, ag.up))
  }

  lemma Regroup<T>(x: T, a: seq<T>, b: seq<T>, c: seq<T>)
    ensures (([x] + a) + b) + c == [x] + (a + (b + c))
  {
  }

  lemma Reassociate<T>(a: seq<T>, b: seq<T>, c: seq<T>, d: seq<T>)
    ensures ((a + b) + c) + d == a + ((b + c) + d)
  {
  }

  // Taking the head off the queue opens its directory, and changes neither the items nor the calls.
  lemma DequeueItems(ag: Agenda)
    requires !ag.Finished? && Settled(ag)
    ensures Queue(ag) == [Next(ag).item] + Queue(Dequeued(ag)) && Live(Dequeued(ag)) == Live(ag)
  {
    hide Items, Set;
    var n := Next(ag);
    assert Drop(n.kids, 0) == n.kids;
    if ag.Level? {
      var rest := Drop(ag.dir.kids, ag.done);
      assert rest[0] == n && rest[1..] == Drop(ag.dir.kids, ag.done + 1);
      Preorder(n);
      Regroup(n.item, ItemsAll(n.kids), ItemsAll(rest[1..]), Queue(ag.up));
      assert SetAll(rest) == Set(n) + SetAll(rest[1..]);
    } else {
      Preorder(n);
    }
  }

  lemma Preorder(n: Node)
    ensures Items(n) == [n.item] + ItemsAll(n.kids) && Set(n) == {n.item} + SetAll(n.kids)
  {
  }

  lemma DequeueCalls(ag: Agenda)
    requires !ag.Finished? && Settled(ag)
    requires ag.Level? ==> ag.done < |KidsOf(ag.dir.tree)| && Next(ag).tree == KidsOf(ag.dir.tree)[ag.done]
    requires ag.Level? ==> Next(ag).path == ag.dir.path + [Next(ag).tree.name]
    ensures Remaining(Dequeued(ag)) == Remaining(ag) && Call(Next(ag).path, Next(ag).tree.Dir?) in Remaining(ag)
  {
    hide Post, KidsOf;
    var n := Next(ag);
    Postorder(n.tree, n.path);
    assert Drop(KidsOf(n.tree), 0) == KidsOf(n.tree);
    if ag.Level? {
      var d := ag.dir;
      var ts := Drop(KidsOf(d.tree), ag.done);
      assert ts[0] == n.tree && ts[1..] == Drop(KidsOf(d.tree), ag.done + 1);
      Reassociate(Post(n.tree, n.path), PostAll(ts[1..], d.path), [Call(d.path, d.tree.Dir?)], Remaining(ag.up));
    }
  }

  lemma Postorder(t: Tree, p: Path)
    ensures Post(t, p) == PostAll(KidsOf(t), p) + [Call(p, t.Dir?)] && Call(p, t.Dir?) in Post(t, p)
  {
  }

  lemma Dequeue(ag: Agenda)
    requires !ag.Finished? && Settled(ag) && Ready(ag, 0)
    ensures ag.Level? ==> ag.done < |KidsOf(ag.dir.tree)| && Next(ag).tree == KidsOf(ag.dir.tree)[ag.done]
    ensures ag.Level? ==> Next(ag).path == ag.dir.path + [Next(ag).tree.name]
    ensures Ready(Dequeued(ag), 0)
  {
    var n := Next(ag);
    assert Drop(n.kids, 0) == n.kids && Drop(KidsOf(n.tree), 0) == KidsOf(n.tree);
    if ag.Level? {
      var d, k := ag.dir, ag.done;
      var rest, ts := Drop(d.kids, k), Drop(KidsOf(d.tree), k);
      assert rest[0] == n && rest[1..] == Drop(d.kids, k + 1) && ts[1..] == Drop(KidsOf(d.tree), k + 1);
      assert Built(n, d.item) && BuiltAll(rest[1..], ts[1..], d.path, d.item);
      assert SetAll(rest) == Set(n) + SetAll(rest[1..]);
      assert Ready(Level(d, k + 1, ag.up), 1);
      assert Ready(Level(n, 0, Level(d, k + 1, ag.up)), 0);
    }
  }

  // The calls of a directory whose children are all gone: its own removal comes next, and succeeds.
  lemma LastOfLevel(ag: Agenda, files: Files, log: seq<Call>)
    requires ag.Level? && ag.done == |ag.dir.kids| && Drop(KidsOf(ag.dir.tree), ag.done) == []
    requires AllSucceed(files, Remaining(ag))
    ensures var c := Call(ag.dir.path, ag.dir.tree.Dir?);
      && log + Remaining(ag) == (log + [c]) + Remaining(ag.up)
      && Succeeds(files, c) && AllSucceed(After(files, c), Remaining(ag.up))
      && Replay(files, Remaining(ag)) == Replay(After(files, c), Remaining(ag.up))
    ensures Queue(ag) == Queue(ag.up) && Live(ag) == {ag.dir.item} + Live(ag.up)
  {
    hide Succeeds, After;
    var c := Call(ag.dir.path, ag.dir.tree.Dir?);
    assert Drop(ag.dir.kids, ag.done) == [];
    assert Remaining(ag) == [c] + Remaining(ag.up);
    assert ([c] + Remaining(ag.up))[1..] == Remaining(ag.up);
    assert log + ([c] + Remaining(ag.up)) == (log + [c]) + Remaining(ag.up);
  }

  lemma AllQueued(ag: Agenda)
    requires ag.Level? && ag.done == |ag.dir.kids| && Ready(ag, 0)
    ensures Drop(KidsOf(ag.dir.tree), ag.done) == []
  {
    assert Drop(ag.dir.kids, ag.done) == [];
  }

  // An empty queue leaves nothing to do.
  lemma Exhausted(ag: Agenda)
    requires Queue(ag) == [] && Settled(ag)
    ensures ag.Finished?
  {
    if ag.Level? {
      assert |Items(Drop(ag.dir.kids, ag.done)[0])| > 0;
    }
  }

  class Remover {
    var queue: seq<FileItem>
    var files: Files
    ghost var log: seq<Call>
    ghost var freed: set<FileItem>

    constructor (queue: seq<FileItem>, files: Files)
      ensures this.queue == queue && this.files == files && log == [] && freed == {}
    {
      this.queue, this.files, log, freed := queue, files, [], {};
    }

    // The queue, the counts and the disk agree with what is left to do.
    ghost predicate Agrees(ag: Agenda)
      reads this, Live(ag)
    {
      queue == Queue(ag) && Ready(ag, 0) && AllSucceed(files, Remaining(ag)) && freed !! Live(ag)
    }

    method Unlink(path: Path, isDir: bool)
      modifies `files, `log
      ensures files == After(old(files), Call(path, isDir)) && log == old(log) + [Call(path, isDir)]
    {
      log := log + [Call(path, isDir)];
      files := After(files, Call(path, isDir));
    }

    method Free(item: FileItem)
      requires item !in freed
      modifies `freed
      ensures freed == old(freed) + {item}
    {
      freed := freed + {item};
    }

    // clear_fileitem: removes the item and every directory that this leaves without children.
    method Clear(item: FileItem, isDir: bool, ghost ag: Agenda, ghost items: set<FileItem>) returns (ghost next: Agenda)
      requires ag.Level? && ag.dir.item == item && ag.dir.tree.Dir? == isDir && Agrees(ag) && Live(ag) <= items
      modifies `files, `log, `freed, items`refs
      ensures Agrees(next) && Settled(next) && !next.Start? && Live(next) <= items
      ensures log + Remaining(next) == old(log) + Remaining(ag)
      ensures Replay(files, Remaining(next)) == Replay(old(files), Remaining(ag))
      ensures freed + Live(next) == old(freed) + Live(ag) && Live(next) <= Live(ag)
      decreases ag
    {
      hide Queue, Remaining, Replay, AllSucceed, Succeeds, After, BuiltAll;
      next := ag;
      if item.refs != 0 {
        return;
      }
      AllQueued(ag);
      LastOfLevel(ag, files, log);
      next := ag.up;
      Unlink(item.src, isDir);
      var parent := item.parent;
      if parent != null {
        assert Ready(ag.up, 1);
        parent.refs := parent.refs - 1;
        next := Clear(parent, true, ag.up, items);
      }
      Free(item);
    }

    // file_start, do_stat and file_stop for the head of the queue of a removal.
    method Step(ghost ag: Agenda, ghost items: set<FileItem>) returns (ghost next: Agenda)
      requires queue != [] && Agrees(ag) && Settled(ag) && Live(ag) <= items
      modifies this, items`refs
      ensures Agrees(next) && Settled(next) && !next.Start? && Live(next) <= items
      ensures queue == old(queue[1..])
      ensures log + Remaining(next) == old(log) + Remaining(ag)
      ensures Replay(files, Remaining(next)) == Replay(old(files), Remaining(ag))
      ensures freed + Live(next) == old(freed) + Live(ag)
    {
      Dequeue(ag);
      DequeueItems(ag);
      DequeueCalls(ag);
      ThereAlready(files, Remaining(ag), Call(Next(ag).path, Next(ag).tree.Dir?));
      var cur := queue[0];
      var isDir := cur.src in files && files[cur.src];
      queue := queue[1..];
      next := Clear(cur, isDir, Dequeued(ag), items);
    }

    // The whole removal.
    method Remove(ghost n: Node, ghost items: set<FileItem>)
      requires queue == Items(n) && Built(n, null) && items == Set(n) && freed !! items
      requires WellNamed(n.tree) && Holds(files, n.tree, n.path)
      modifies this, items`refs
      ensures queue == []
      ensures log == old(log) + Post(n.tree, n.path)
      ensures files == old(files) - PathsOf(n.tree, n.path)
      ensures freed == old(freed) + items
    {
      PostRemoves(files, n.tree, n.path);
      ghost var ag := Start(n);
      while queue != []
        invariant Agrees(ag) && Settled(ag) && Live(ag) <= items
        invariant log + Remaining(ag) == old(log) + Post(n.tree, n.path)
        invariant Replay(files, Remaining(ag)) == old(files) - PathsOf(n.tree, n.path)
        invariant freed + Live(ag) == old(freed) + items
        decreases |queue|
      {
        ag := Step(ag, items);
      }
      Exhausted(ag);
    }
  }

  // No path is removed twice, and none after a directory above it.
  ghost predicate OnceEachParentsLast(log: seq<Call>) {
    forall i, j :: 0 <= i < j < |log| ==>
      log[j].path != log[i].path && (log[i].isDir ==> !Beneath(log[j].path, log[i].path))
  }

  // From the request to the last event: the walk, then the queue. Every single removal succeeds,
  // no entry is removed twice, none before what is beneath it, and every item that was made is freed;
  // an item that is freed has not been freed before.
  method RemoveEntry(path: Path, files: Files, t: Tree)
    returns (left: Files, ghost log: seq<Call>, ghost made: set<FileItem>, ghost freed: set<FileItem>)
    requires WellNamed(t) && Holds(files, t, path)
    ensures left == files - PathsOf(t, path)
    ensures left == Replay(files, log) && AllSucceed(files, log) && log == Post(t, path)
    ensures OnceEachParentsLast(log)
    ensures freed == made && fresh(made)
  {
    var root := new FileItem(path, null);
    var ftw := new Ftw(root);
    ghost var n;
    n, made := ftw.Start(root, t);
    var remover := new Remover(ftw.queue, files);
    remover.Remove(n, made);
    PostRemoves(files, t, path);
    assert [] + Post(t, path) == Post(t, path);
    left, log, freed := remover.files, remover.log, remover.freed;
    forall i, j | 0 <= i < j < |log|
      ensures log[j].path != log[i].path && (log[i].isDir ==> !Beneath(log[j].path, log[i].path))
    {
      EachOnceParentsLast(files, log, i, j);
    }
  }
}
