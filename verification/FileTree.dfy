/// Directory trees, the file system they live in, and what removing one in postorder does.
module FileTree {
  type Path = seq<string>

  datatype Tree = File(name: string) | Dir(name: string, kids: seq<Tree>)

  // The file system: every path that exists, and whether it is a directory.
  type Files = map<Path, bool>

  datatype Call = Call(path: Path, isDir: bool)  // rmdir for a directory, unlink otherwise

  predicate Beneath(q: Path, p: Path) {
    |p| < |q| && q[..|p|] == p
  }

  // unlink and rmdir change nothing when they fail: unlink on a directory or a missing path,
  // rmdir on anything that is not an empty directory.
  predicate Succeeds(fs: Files, c: Call) {
    c.path in fs && fs[c.path] == c.isDir && (c.isDir ==> forall q :: q in fs ==> !Beneath(q, c.path))
  }

  function After(fs: Files, c: Call): Files {
    if Succeeds(fs, c) then fs - {c.path} else fs
  }

  ghost function Replay(fs: Files, log: seq<Call>): Files {
    if log == [] then fs else Replay(After(fs, log[0]), log[1..])
  }

  ghost predicate AllSucceed(fs: Files, log: seq<Call>) {
    log == [] || (Succeeds(fs, log[0]) && AllSucceed(After(fs, log[0]), log[1..]))
  }

  ghost predicate WellNamed(t: Tree) {
    t.Dir? ==>
      && (forall k :: k in t.kids ==> WellNamed(k))
      && (forall i, j :: 0 <= i < j < |t.kids| ==> t.kids[i].name != t.kids[j].name)
  }

  // The entries of a tree that stands at a path.
  ghost function PathsOf(t: Tree, p: Path): set<Path>
    decreases t, 1
  {
    {p} + if t.Dir? then PathsOfAll(t.kids, p) else {}
  }

  ghost function PathsOfAll(ts: seq<Tree>, p: Path): set<Path>
    decreases ts, 0
  {
    if ts == [] then {} else PathsOf(ts[0], p + [ts[0].name]) + PathsOfAll(ts[1..], p)
  }

  // Every directory after everything beneath it.
  ghost function Post(t: Tree, p: Path): seq<Call>
    decreases t, 1
  {
    match t
    case File(_) => [Call(p, false)]
    case Dir(_, kids) => PostAll(kids, p) + [Call(p, true)]
  }

  ghost function PostAll(ts: seq<Tree>, p: Path): seq<Call>
    decreases ts, 0
  {
    if ts == [] then [] else Post(ts[0], p + [ts[0].name]) + PostAll(ts[1..], p)
  }

  // The file system holds exactly this tree at p and below.
  ghost predicate Holds(fs: Files, t: Tree, p: Path)
    decreases t, 1
  {
    && p in fs && fs[p] == t.Dir?
    && (forall q :: q in fs && Beneath(q, p) ==> t.Dir? && q in PathsOfAll(t.kids, p))
    && (t.Dir? ==> HoldsAll(fs, t.kids, p))
  }

  ghost predicate HoldsAll(fs: Files, ts: seq<Tree>, p: Path)
    decreases ts, 0
  {
    ts == [] || (Holds(fs, ts[0], p + [ts[0].name]) && HoldsAll(fs, ts[1..], p))
  }

  lemma {:induction false} ReplayAppend(fs: Files, a: seq<Call>, b: seq<Call>)
    ensures Replay(fs, a + b) == Replay(Replay(fs, a), b)
    ensures AllSucceed(fs, a + b) <==> AllSucceed(fs, a) && AllSucceed(Replay(fs, a), b)
  {
    if a == [] {
      assert a + b == b;
    } else {
      assert (a + b)[1..] == a[1..] + b;
      ReplayAppend(After(fs, a[0]), a[1..], b);
    }
  }

  // A removal that succeeds later on names a path that is there already.
  lemma {:induction false} ThereAlready(fs: Files, log: seq<Call>, c: Call)
    requires AllSucceed(fs, log) && c in log
    ensures c.path in fs && fs[c.path] == c.isDir
  {
    if c != log[0] {
      ThereAlready(After(fs, log[0]), log[1..], c);
    }
  }

  // Where every call succeeds, no path is removed twice and none after a directory above it.
  lemma {:induction false} EachOnceParentsLast(fs: Files, log: seq<Call>, i: nat, j: nat)
    requires AllSucceed(fs, log) && i < j < |log|
    ensures log[j].path != log[i].path && (log[i].isDir ==> !Beneath(log[j].path, log[i].path))
  {
    if i == 0 {
      assert log[j] == log[1..][j - 1];
      ThereAlready(After(fs, log[0]), log[1..], log[j]);
    } else {
      EachOnceParentsLast(After(fs, log[0]), log[1..], i - 1, j - 1);
    }
  }

  lemma {:induction false} PathsBeneath(t: Tree, p: Path, q: Path)
    requires q in PathsOf(t, p)
    ensures q == p || Beneath(q, p)
    decreases t, 1
  {
    if q != p {
      AllBeneath(t.kids, p, q);
    }
  }

  lemma {:induction false} AllBeneath(ts: seq<Tree>, p: Path, q: Path)
    requires q in PathsOfAll(ts, p)
    ensures exists k :: k in ts && |q| > |p| && q[..|p| + 1] == p + [k.name]
    ensures Beneath(q, p)
    decreases ts, 0
  {
    var p' := p + [ts[0].name];
    if q in PathsOf(ts[0], p') {
      PathsBeneath(ts[0], p', q);
      assert q[..|p'|] == p' && q[..|p|] == p'[..|p|] == p;
      assert ts[0] in ts;
    } else {
      AllBeneath(ts[1..], p, q);
      var k :| k in ts[1..] && |q| > |p| && q[..|p| + 1] == p + [k.name];
      assert k in ts;
    }
  }

  // Trees next to each other have no path in common.
  lemma SiblingsApart(t: Tree, ts: seq<Tree>, p: Path, q: Path)
    requires q in PathsOf(t, p + [t.name]) && forall k :: k in ts ==> k.name != t.name
    ensures q !in PathsOfAll(ts, p)
  {
    PathsBeneath(t, p + [t.name], q);
    forall k | k in ts ensures q[..|p| + 1] != p + [k.name] {
      assert (p + [k.name])[|p|] != (p + [t.name])[|p|];
    }
    if q in PathsOfAll(ts, p) {
      AllBeneath(ts, p, q);
    }
  }

  // Removing other paths leaves a tree in place.
  lemma {:induction false} HoldsElsewhere(fs: Files, gone: set<Path>, t: Tree, p: Path)
    requires Holds(fs, t, p) && forall q :: q in PathsOf(t, p) ==> q !in gone
    ensures Holds(fs - gone, t, p)
    decreases t, 1
  {
    if t.Dir? {
      HoldsAllElsewhere(fs, gone, t.kids, p);
    }
  }

  lemma {:induction false} HoldsAllElsewhere(fs: Files, gone: set<Path>, ts: seq<Tree>, p: Path)
    requires HoldsAll(fs, ts, p) && forall q :: q in PathsOfAll(ts, p) ==> q !in gone
    ensures HoldsAll(fs - gone, ts, p)
    decreases ts, 0
  {
    if ts != [] {
      HoldsElsewhere(fs, gone, ts[0], p + [ts[0].name]);
      HoldsAllElsewhere(fs, gone, ts[1..], p);
    }
  }

  // In postorder every single removal succeeds, and exactly the tree is gone.
  lemma {:induction false} PostRemoves(fs: Files, t: Tree, p: Path)
    requires WellNamed(t) && Holds(fs, t, p)
    ensures AllSucceed(fs, Post(t, p))
    ensures Replay(fs, Post(t, p)) == fs - PathsOf(t, p)
    decreases t, 1
  {
    if t.Dir? {
      PostAllRemoves(fs, t.kids, p);
      ReplayAppend(fs, PostAll(t.kids, p), [Call(p, true)]);
      var left := fs - PathsOfAll(t.kids, p);
      if p in PathsOfAll(t.kids, p) {
        AllBeneath(t.kids, p, p);
      }
      LastCall(left, Call(p, true));
      assert left - {p} == fs - PathsOf(t, p);
    } else {
      LastCall(fs, Call(p, false));
    }
  }

  lemma LastCall(fs: Files, c: Call)
    ensures Replay(fs, [c]) == After(fs, c)
    ensures AllSucceed(fs, [c]) <==> Succeeds(fs, c)
  {
    assert [c][1..] == [];
  }

  lemma {:induction false} PostAllRemoves(fs: Files, ts: seq<Tree>, p: Path)
    requires HoldsAll(fs, ts, p) && forall k :: k in ts ==> WellNamed(k)
    requires forall i, j :: 0 <= i < j < |ts| ==> ts[i].name != ts[j].name
    ensures AllSucceed(fs, PostAll(ts, p))
    ensures Replay(fs, PostAll(ts, p)) == fs - PathsOfAll(ts, p)
    decreases ts, 0
  {
    if ts != [] {
      var p' := p + [ts[0].name];
      var first := PathsOf(ts[0], p');
      PostRemoves(fs, ts[0], p');
      ReplayAppend(fs, Post(ts[0], p'), PostAll(ts[1..], p));
      forall q | q in PathsOfAll(ts[1..], p) ensures q !in first {
        if q in first {
          SiblingsApart(ts[0], ts[1..], p, q);
        }
      }
      HoldsAllElsewhere(fs, first, ts[1..], p);
      PostAllRemoves(fs - first, ts[1..], p);
      assert (fs - first) - PathsOfAll(ts[1..], p) == fs - PathsOfAll(ts, p);
    }
  }
}
