/// The terminal's lines as values: a scrolling region that trades rows with a ring, and the one
/// bounded history of lines that both of them together stand for.
module Scrollback {
  import opened Arith

  // The rows of the scrolling region, the scrollback ring, and the ring's current index.
  datatype Strip<T> = Strip(region: seq<T>, ring: seq<T>, index: nat) {
    ghost predicate Valid() {
      region != [] && (if ring == [] then index == 0 else index < |ring|)
    }
  }

  // The top row goes into the ring at the index; what was there comes in at the bottom.
  ghost function Up<T>(st: Strip<T>): (r: Strip<T>)
    requires st.Valid()
    ensures r.Valid() && |r.region| == |st.region| && |r.ring| == |st.ring|
  {
    if st.ring == [] then Strip(st.region[1..] + [st.region[0]], [], 0)
    else Strip(st.region[1..] + [st.ring[st.index]], st.ring[st.index := st.region[0]], Next(st.index, |st.ring|))
  }

  ghost function Down<T>(st: Strip<T>): (r: Strip<T>)
    requires st.Valid()
    ensures r.Valid() && |r.region| == |st.region| && |r.ring| == |st.ring|
  {
    var n := |st.region|;
    if st.ring == [] then Strip([st.region[n - 1]] + st.region[..n - 1], [], 0)
    else
      var i := Prev(st.index, |st.ring|);
      Strip([st.ring[i]] + st.region[..n - 1], st.ring[i := st.region[n - 1]], i)
  }

  ghost function Next(i: nat, size: nat): nat
    requires i < size
  {
    if i + 1 == size then 0 else i + 1
  }

  ghost function Prev(i: nat, size: nat): nat
    requires i < size
  {
    if i == 0 then size - 1 else i - 1
  }

  ghost function UpBy<T>(st: Strip<T>, n: nat): (r: Strip<T>)
    requires st.Valid()
    ensures r.Valid() && |r.region| == |st.region| && |r.ring| == |st.ring|
  {
    if n == 0 then st else Up(UpBy(st, n - 1))
  }

  ghost function DownBy<T>(st: Strip<T>, n: nat): (r: Strip<T>)
    requires st.Valid()
    ensures r.Valid() && |r.region| == |st.region| && |r.ring| == |st.ring|
  {
    if n == 0 then st else Down(DownBy(st, n - 1))
  }

  ghost function ScrollBy<T>(st: Strip<T>, s: int): (r: Strip<T>)
    requires st.Valid()
    ensures r.Valid() && |r.region| == |st.region| && |r.ring| == |st.ring|
  {
    if s >= 0 then UpBy(st, s) else DownBy(st, -s)
  }

  lemma DownUndoesUp<T>(st: Strip<T>)
    requires st.Valid()
    ensures Down(Up(st)) == st && Up(Down(st)) == st
  {
    var n := |st.region|;
    assert [st.region[0]] + st.region[1..] == st.region;
    assert st.region[..n - 1] + [st.region[n - 1]] == st.region;
    assert Up(st).region[..n - 1] == st.region[1..];
    assert Down(st).region[1..] == st.region[..n - 1];
  }

  lemma {:induction false} UpBySum<T>(st: Strip<T>, a: nat, b: nat)
    requires st.Valid()
    ensures UpBy(UpBy(st, a), b) == UpBy(st, a + b)
  {
    hide Up, Down;
    if b > 0 {
      UpBySum(st, a, b - 1);
    }
  }

  lemma {:induction false} DownBySum<T>(st: Strip<T>, a: nat, b: nat)
    requires st.Valid()
    ensures DownBy(DownBy(st, a), b) == DownBy(st, a + b)
  {
    hide Up, Down;
    if b > 0 {
      DownBySum(st, a, b - 1);
    }
  }

  lemma {:induction false} UpFirst<T>(st: Strip<T>, n: nat)
    requires st.Valid() && n > 0
    ensures UpBy(st, n) == UpBy(Up(st), n - 1)
  {
    if n > 1 {
      UpFirst(st, n - 1);
    }
  }

  lemma {:induction false} DownFirst<T>(st: Strip<T>, n: nat)
    requires st.Valid() && n > 0
    ensures DownBy(st, n) == DownBy(Down(st), n - 1)
  {
    if n > 1 {
      DownFirst(st, n - 1);
    }
  }

  lemma {:induction false} DownByUndoesUpBy<T>(st: Strip<T>, n: nat)
    requires st.Valid()
    ensures DownBy(UpBy(st, n), n) == st
  {
    hide Up, Down;
    if n > 0 {
      var u := UpBy(st, n - 1);
      assert UpBy(st, n) == Up(u);
      DownUndoesUp(u);
      DownFirst(Up(u), n);
      DownByUndoesUpBy(st, n - 1);
    }
  }

  lemma {:induction false} UpByUndoesDownBy<T>(st: Strip<T>, n: nat)
    requires st.Valid()
    ensures UpBy(DownBy(st, n), n) == st
  {
    hide Up, Down;
    if n > 0 {
      var d := DownBy(st, n - 1);
      assert DownBy(st, n) == Down(d);
      DownUndoesUp(d);
      UpFirst(Down(d), n);
      UpByUndoesDownBy(st, n - 1);
    }
  }

  // Scrolling twice in one direction is scrolling by the sum, for any distances.
  lemma ScrollAdds<T>(st: Strip<T>, a: int, b: int)
    requires st.Valid() && ((a >= 0 && b >= 0) || (a <= 0 && b <= 0))
    ensures ScrollBy(ScrollBy(st, a), b) == ScrollBy(st, a + b)
  {
    if a >= 0 && b >= 0 {
      UpBySum(st, a, b);
    } else {
      DownBySum(st, -a, -b);
    }
  }

  // Scrolling back restores the region, the ring and its index, for distances beyond the
  // region's height and the ring's size too.
  lemma ScrollBack<T>(st: Strip<T>, s: int)
    requires st.Valid()
    ensures ScrollBy(ScrollBy(st, s), -s) == st
  {
    if s >= 0 {
      DownByUndoesUpBy(st, s);
    } else {
      UpByUndoesDownBy(st, -s);
    }
  }

  // Scrolling is an action of the integers: any two scrolls add up.
  lemma ScrollCompose<T>(st: Strip<T>, a: int, b: int)
    requires st.Valid()
    ensures ScrollBy(ScrollBy(st, a), b) == ScrollBy(st, a + b)
  {
    if (a >= 0 && b >= 0) || (a <= 0 && b <= 0) {
      ScrollAdds(st, a, b);
    } else if (a >= 0 && a + b >= 0) || (a <= 0 && a + b <= 0) {
      ScrollAdds(st, a + b, -b);
      ScrollBack(ScrollBy(st, a + b), -b);
    } else {
      ScrollAdds(ScrollBy(st, a), -a, a + b);
      ScrollBack(st, a);
    }
  }

  lemma {:induction false} UpByPermutes<T>(st: Strip<T>, n: nat)
    requires st.Valid()
    ensures Rows(UpBy(st, n)) == Rows(st)
  {
    hide Up, Rows;
    if n > 0 {
      UpByPermutes(st, n - 1);
      UpPermutes(UpBy(st, n - 1));
    }
  }

  lemma ScrollPermutes<T>(st: Strip<T>, s: int)
    requires st.Valid()
    ensures Rows(ScrollBy(st, s)) == Rows(st)
  {
    UpByPermutes(st, if s >= 0 then s else 0);
    UpByPermutes(ScrollBy(st, s), if s < 0 then -s else 0);
    UpByUndoesDownBy(st, if s < 0 then -s else 0);
  }

  ghost function Rows<T>(st: Strip<T>): multiset<T> {
    multiset(st.region) + multiset(st.ring)
  }

  lemma UpPermutes<T>(st: Strip<T>)
    requires st.Valid()
    ensures Rows(Up(st)) == Rows(st)
  {
    assert st.region == [st.region[0]] + st.region[1..];
    if st.ring != [] {
      var i := st.index;
      assert st.ring == st.ring[..i] + [st.ring[i]] + st.ring[i + 1..];
      assert Up(st).ring == st.ring[..i] + [st.region[0]] + st.ring[i + 1..];
    }
  }

  // `count` entries of the ring, from `offset` places after the index on (before it if negative).
  ghost function Arc<T>(st: Strip<T>, offset: int, count: nat): (r: seq<T>)
    requires st.Valid() && (st.ring == [] ==> count == 0)
    ensures |r| == count
  {
    seq(count, k requires 0 <= k < count => st.ring[(st.index + offset + k) % |st.ring|])
  }

  // The lines above the viewport, the viewport, and the lines below it.
  ghost function History<T>(st: Strip<T>, above: nat, below: nat): (r: seq<T>)
    requires st.Valid() && (st.ring == [] ==> above == 0 && below == 0)
    ensures |r| == above + |st.region| + below
  {
    Arc(st, 0 - above, above) + st.region + Arc(st, 0, below)
  }

  lemma ArcAt<T>(st: Strip<T>, offset: int, count: nat, k: nat)
    requires st.Valid() && k < count && st.ring != []
    requires 0 <= offset + |st.ring| && offset + count <= |st.ring|
    ensures var i := st.index + offset + k;
      Arc(st, offset, count)[k] == st.ring[if i < 0 then i + |st.ring| else if i >= |st.ring| then i - |st.ring| else i]
  {
    ModRange(st.index, offset + k, |st.ring|);
  }

  lemma AboveGains<T>(st: Strip<T>, above: nat)
    requires st.Valid() && above < |st.ring|
    ensures Arc(Up(st), 0 - (above + 1), above + 1) == Arc(st, 0 - above, above) + [st.region[0]]
  {
    var up := Up(st);
    var before', before := Arc(up, 0 - (above + 1), above + 1), Arc(st, 0 - above, above);
    forall k | 0 <= k < above ensures before'[k] == before[k] {
      ArcAt(up, 0 - (above + 1), above + 1, k);
      ArcAt(st, 0 - above, above, k);
    }
    ArcAt(up, 0 - (above + 1), above + 1, above);
    assert before' == before + [st.region[0]];
  }

  lemma BelowLoses<T>(st: Strip<T>, below: nat)
    requires st.Valid() && 0 < below <= |st.ring|
    ensures Arc(st, 0, below) == [st.ring[st.index]] + Arc(Up(st), 0, below - 1)
  {
    var up := Up(st);
    var after', after := Arc(up, 0, below - 1), Arc(st, 0, below);
    forall k | 0 <= k < below - 1 ensures after'[k] == after[k + 1] {
      ArcAt(up, 0, below - 1, k);
      ArcAt(st, 0, below, k + 1);
    }
    ArcAt(st, 0, below, 0);
    assert after == [st.ring[st.index]] + after';
  }

  // While there are lines below, moving the viewport down one line changes nothing of the history.
  lemma UpKeepsHistory<T>(st: Strip<T>, above: nat, below: nat)
    requires st.Valid() && below > 0 && above + below <= |st.ring|
    ensures History(Up(st), above + 1, below - 1) == History(st, above, below)
  {
    AboveGains(st, above);
    BelowLoses(st, below);
    assert st.region == [st.region[0]] + st.region[1..];
  }

  lemma DownKeepsHistory<T>(st: Strip<T>, above: nat, below: nat)
    requires st.Valid() && above > 0 && above + below <= |st.ring|
    ensures History(Down(st), above - 1, below + 1) == History(st, above, below)
  {
    DownUndoesUp(st);
    UpKeepsHistory(Down(st), above - 1, below + 1);
  }

  lemma {:induction false} ScrollKeepsHistory<T>(st: Strip<T>, above: nat, below: nat, s: int)
    requires st.Valid() && above + below <= |st.ring| && 0 - above <= s <= below
    ensures History(ScrollBy(st, s), above + s, below - s) == History(st, above, below)
    decreases if s >= 0 then s else -s
  {
    hide Up, Down, History;
    if s > 0 {
      ScrollKeepsHistory(st, above, below, s - 1);
      UpKeepsHistory(ScrollBy(st, s - 1), above + s - 1, below - s + 1);
    } else if s < 0 {
      ScrollKeepsHistory(st, above, below, s + 1);
      DownKeepsHistory(ScrollBy(st, s + 1), above + s + 1, below - s - 1);
      if s == -1 {
        assert DownBy(st, 1) == Down(DownBy(st, 0));
      }
    }
  }

  lemma HistoryUpdate<T>(st: Strip<T>, above: nat, below: nat, i: nat, x: T)
    requires st.Valid() && (st.ring == [] ==> above == 0 && below == 0) && i < |st.region|
    ensures st.(region := st.region[i := x]).Valid()
    ensures History(st.(region := st.region[i := x]), above, below) == History(st, above, below)[above + i := x]
  {
    var st' := st.(region := st.region[i := x]);
    assert Arc(st', 0 - above, above) == Arc(st, 0 - above, above);
    assert Arc(st', 0, below) == Arc(st, 0, below);
  }

  // The same history seen from the same place shows the same lines.
  lemma SameHistorySameView<T>(st1: Strip<T>, st2: Strip<T>, above: nat, below: nat)
    requires st1.Valid() && st2.Valid() && |st1.region| == |st2.region|
    requires st1.ring == [] || st2.ring == [] ==> above == 0 && below == 0
    requires History(st1, above, below) == History(st2, above, below)
    ensures st1.region == st2.region
  {
    var n := |st1.region|;
    assert History(st1, above, below)[above..above + n] == st1.region;
    assert History(st2, above, below)[above..above + n] == st2.region;
  }

  ghost function Recent<T>(h: seq<T>, most: nat): seq<T> {
    if |h| <= most then h else h[|h| - most..]
  }

  lemma RecentOfRecent<T>(h: seq<T>, t: seq<T>, most: nat)
    ensures Recent(Recent(h, most) + t, most) == Recent(h + t, most)
  {
  }

  // Past the last line, moving down appends a row to the history and forgets the oldest row
  // only when the ring is full.
  lemma UpAppends<T>(st: Strip<T>, above: nat)
    requires st.Valid() && above <= |st.ring| && st.ring != []
    ensures var above' := if above + 1 >= |st.ring| then |st.ring| else above + 1;
      History(Up(st), above', 0) == Recent(History(st, above, 0) + [st.ring[st.index]], |st.ring| + |st.region|)
  {
    hide Arc, Up;
    var most := |st.ring| + |st.region|;
    assert st.region == [st.region[0]] + st.region[1..];
    var next := st.region[1..] + [st.ring[st.index]];
    if above < |st.ring| {
      AboveGains(st, above);
    } else {
      AboveShifts(st);
    }
    UpShows(st);
    assert Arc(st, 0 - above, above) + st.region + [st.ring[st.index]]
        == (Arc(st, 0 - above, above) + [st.region[0]]) + next;
  }

  lemma UpShows<T>(st: Strip<T>)
    requires st.Valid() && st.ring != []
    ensures Up(st).region == st.region[1..] + [st.ring[st.index]]
    ensures forall s: Strip<T> :: s.Valid() ==> Arc(s, 0, 0) == []
  {
  }

  // A full ring forgets its oldest line.
  lemma AboveShifts<T>(st: Strip<T>)
    requires st.Valid() && st.ring != []
    ensures Arc(Up(st), 0 - |st.ring|, |st.ring|) == Arc(st, 0 - |st.ring|, |st.ring|)[1..] + [st.region[0]]
  {
    var up, size := Up(st), |st.ring|;
    var before', before := Arc(up, 0 - size, size), Arc(st, 0 - size, size);
    forall k | 0 <= k < size - 1 ensures before'[k] == before[k + 1] {
      ArcAt(up, 0 - size, size, k);
      ArcAt(st, 0 - size, size, k + 1);
    }
    ArcAt(up, 0 - size, size, size - 1);
    assert before' == before[1..] + [st.region[0]];
  }

  // What the region shows after moving up or down by less than its height.
  lemma {:induction false} UpByShows<T>(st: Strip<T>, s: nat)
    requires st.Valid() && s <= |st.region|
    ensures UpBy(st, s).region[..|st.region| - s] == st.region[s..]
  {
    if s > 0 {
      UpByShows(st, s - 1);
      var u := UpBy(st, s - 1);
      assert Up(u).region[..|st.region| - s] == u.region[1..|st.region| - s + 1];
      assert u.region[1..|st.region| - s + 1] == u.region[..|st.region| - (s - 1)][1..];
    }
  }

  lemma DownByShows<T>(st: Strip<T>, s: nat)
    requires st.Valid() && s <= |st.region| && s <= |st.ring|
    ensures DownBy(st, s).region == Arc(st, 0 - s, s) + st.region[..|st.region| - s]
  {
    ScrollKeepsHistory(st, s, 0, 0 - s);
    var h := History(st, s, 0);
    assert h[..|st.region|] == Arc(st, 0 - s, s) + st.region[..|st.region| - s];
    assert History(DownBy(st, s), 0, s)[..|st.region|] == DownBy(st, s).region;
  }

  lemma DownByMoves<T>(st: Strip<T>, s: nat, i: nat)
    requires st.Valid() && s <= |st.ring| && i + s < |st.region|
    ensures DownBy(st, s).region[i + s] == st.region[i]
  {
    DownByShows(st, s);
  }

  // Rows pushed into the ring and chopped off below come back when the screen grows again,
  // whatever rows the screen is filled up with.
  lemma ShrinkThenGrow<T>(st: Strip<T>, d: nat, fill: seq<T>)
    requires st.Valid() && d < |st.region| && d <= |st.ring| && |fill| == d
    ensures var u := UpBy(st, d);
      DownBy(Strip(u.region[..|st.region| - d] + fill, u.ring, u.index), d).region == st.region
  {
    var u := UpBy(st, d);
    var grown := Strip(u.region[..|st.region| - d] + fill, u.ring, u.index);
    DownByUndoesUpBy(st, d);
    DownByShows(u, d);
    DownByShows(grown, d);
    assert Arc(grown, 0 - d, d) == Arc(u, 0 - d, d);
  }
}
